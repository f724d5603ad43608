/** `PersonalInfo`: the six free-text fields the generator reads. */
module Personal {
  import opened PyStr

  /** The fields are assigned once, in `__init__`, and only read after that,
      so the record is a value. */
  datatype PersonalInfo = PersonalInfo(
    firstName: string,
    lastName: string,
    birthDate: string,
    currentDate: string,
    platform: string,
    city: string)

  /** `PersonalInfo(first_name, ..., city)`: stores each argument stripped
      of surrounding whitespace. */
  function NewPersonalInfo(firstName: string, lastName: string, birthDate: string,
                           currentDate: string, platform: string, city: string): (p: PersonalInfo)
    ensures IsStripped(p.firstName) && IsStripped(p.lastName) && IsStripped(p.birthDate)
    ensures IsStripped(p.currentDate) && IsStripped(p.platform) && IsStripped(p.city)
  {
    PersonalInfo(Strip(firstName), Strip(lastName), Strip(birthDate),
                 Strip(currentDate), Strip(platform), Strip(city))
  }

  /** `PersonalInfo()` with every argument left at its default `""`. */
  function EmptyPersonalInfo(): (p: PersonalInfo)
    ensures !IsComplete(p)
  {
    NewPersonalInfo("", "", "", "", "", "")
  }

  /** Every field of a record built by `NewPersonalInfo` is already stripped. */
  predicate Normalized(p: PersonalInfo) {
    IsStripped(p.firstName) && IsStripped(p.lastName) && IsStripped(p.birthDate) &&
    IsStripped(p.currentDate) && IsStripped(p.platform) && IsStripped(p.city)
  }

  /** `is_complete`: all six fields are non-empty strings. */
  predicate IsComplete(p: PersonalInfo) {
    p.firstName != [] && p.lastName != [] && p.birthDate != [] &&
    p.currentDate != [] && p.platform != [] && p.city != []
  }

  /** Some character of `s` is not whitespace. */
  predicate HasText(s: string) {
    exists i | 0 <= i < |s| :: !IsPySpace(s[i])
  }

  lemma StripNonEmptyIff(s: string)
    ensures Strip(s) != [] <==> HasText(s)
  {
    StripEmptyIff(s);
  }

  /** A freshly built record is complete exactly when every argument holds
      at least one non-whitespace character: an argument of blanks only
      strips to `""` and makes the record incomplete. */
  lemma CompleteIff(firstName: string, lastName: string, birthDate: string,
                    currentDate: string, platform: string, city: string)
    ensures IsComplete(NewPersonalInfo(firstName, lastName, birthDate, currentDate, platform, city)) <==>
              HasText(firstName) && HasText(lastName) && HasText(birthDate) &&
              HasText(currentDate) && HasText(platform) && HasText(city)
  {
    StripNonEmptyIff(firstName);
    StripNonEmptyIff(lastName);
    StripNonEmptyIff(birthDate);
    StripNonEmptyIff(currentDate);
    StripNonEmptyIff(platform);
    StripNonEmptyIff(city);
  }

  /** Building a record again from the fields of a built record gives the
      same record: stripping is idempotent. */
  lemma RebuildIdentity(p: PersonalInfo)
    requires Normalized(p)
    ensures NewPersonalInfo(p.firstName, p.lastName, p.birthDate, p.currentDate, p.platform, p.city) == p
  {
    StripOfStripped(p.firstName);
    StripOfStripped(p.lastName);
    StripOfStripped(p.birthDate);
    StripOfStripped(p.currentDate);
    StripOfStripped(p.platform);
    StripOfStripped(p.city);
  }
}
