/** `assess_strength`, and the character count `calculate_entropy` starts
    from. The entropy itself is a floating-point sum of logarithms and
    enters the score as a given non-negative number. */
module Strength {
  import opened PyStr
  import opened Options

  /** The five labels `assess_strength` returns, weakest first. */
  datatype Label = VeryWeak | Weak | Medium | Strong | VeryStrong

  /** The label as the source spells it. */
  function LabelText(l: Label): string {
    match l
    case VeryWeak => "Very Weak"
    case Weak => "Weak"
    case Medium => "Medium"
    case Strong => "Strong"
    case VeryStrong => "Very Strong"
  }

  function Rank(l: Label): nat {
    match l
    case VeryWeak => 0
    case Weak => 1
    case Medium => 2
    case Strong => 3
    case VeryStrong => 4
  }

  /** The lowest score that earns each label. */
  function Threshold(l: Label): real {
    match l
    case VeryWeak => 0.0
    case Weak => 20.0
    case Medium => 40.0
    case Strong => 60.0
    case VeryStrong => 80.0
  }

  // ---------------------------------------------------------------------
  // Counting characters (`calculate_entropy`, first loop)

  /** `frequency[char] = frequency.get(char, 0) + 1` over the password: the
      keys are the password's characters, each mapped to its number of
      occurrences. */
  method CharFrequencies(password: string) returns (frequency: map<char, nat>)
    ensures forall c :: c in frequency <==> c in password
    ensures forall c | c in frequency :: frequency[c] == multiset(password)[c]
  {
    frequency := map[];
    for i := 0 to |password|
      invariant forall c :: c in frequency <==> c in password[..i]
      invariant forall c | c in frequency :: frequency[c] == multiset(password[..i])[c]
    {
      var ch := password[i];
      PrefixStep(password, i);
      frequency := frequency[ch := (if ch in frequency then frequency[ch] else 0) + 1];
    }
    assert password[..|password|] == password;
  }

  // ---------------------------------------------------------------------
  // The score

  /** `min(30, len(password) * 2)` */
  function LengthScore(n: nat): (s: nat)
    ensures s <= 30 && s <= 2 * n
    ensures s == 30 || s == 2 * n
  {
    if 2 * n <= 30 then 2 * n else 30
  }

  predicate HasLower(password: string) { exists i | 0 <= i < |password| :: IsAsciiLower(password[i]) }
  predicate HasUpper(password: string) { exists i | 0 <= i < |password| :: IsAsciiUpper(password[i]) }
  predicate HasDigit(password: string) { exists i | 0 <= i < |password| :: IsAsciiDigit(password[i]) }
  predicate HasSpecial(password: string) { exists i | 0 <= i < |password| :: password[i] in Special }

  function Points(b: bool): nat { if b then 10 else 0 }

  /** Ten points for each of `islower`, `isupper`, `isdigit` and the symbol
      test that some character passes. */
  function VarietyScore(password: string): (v: nat)
    ensures v <= 40 && v % 10 == 0
  {
    Points(HasLower(password)) + Points(HasUpper(password)) +
    Points(HasDigit(password)) + Points(HasSpecial(password))
  }

  /** `min(30, entropy * 6)` */
  function EntropyScore(entropy: real): (s: real)
    ensures s <= 30.0
    ensures entropy >= 0.0 ==> s >= 0.0
  {
    if entropy * 6.0 < 30.0 then entropy * 6.0 else 30.0
  }

  /** `min(100, score)` */
  function Capped(score: real): (s: real)
    ensures s <= 100.0 && s <= score
    ensures s == score || s == 100.0
  {
    if score < 100.0 then score else 100.0
  }

  /** The if/elif ladder on the final score. */
  function LabelFor(score: real): Label {
    if score >= 80.0 then VeryStrong
    else if score >= 60.0 then Strong
    else if score >= 40.0 then Medium
    else if score >= 20.0 then Weak
    else VeryWeak
  }

  /** `assess_strength(password)` given `calculate_entropy(password)`. */
  function AssessStrength(password: string, entropy: real): (r: (Label, real))
    ensures password == [] ==> r == (VeryWeak, 0.0)
    ensures r.0 == LabelFor(r.1)
  {
    if password == [] then (VeryWeak, 0.0)
    else
      var score := LengthScore(|password|) as real + VarietyScore(password) as real + EntropyScore(entropy);
      var finalScore := Capped(score);
      (LabelFor(finalScore), finalScore)
  }

  // ---------------------------------------------------------------------
  // Properties

  /** A higher score never earns a weaker label, and every label's score
      lies between its threshold and the next one. */
  lemma LabelMonotone(s1: real, s2: real)
    requires s1 <= s2
    ensures Rank(LabelFor(s1)) <= Rank(LabelFor(s2))
  {
  }

  lemma LabelBand(score: real)
    requires score >= 0.0
    ensures Threshold(LabelFor(score)) <= score
    ensures forall l | Rank(LabelFor(score)) < Rank(l) :: score < Threshold(l)
  {
  }

  /** The score is between 0 and 100; a non-empty password gets at least
      the two points of its first character. */
  lemma ScoreBounds(password: string, entropy: real)
    requires entropy >= 0.0
    ensures 0.0 <= AssessStrength(password, entropy).1 <= 100.0
    ensures password != [] ==> AssessStrength(password, entropy).1 >= 2.0
  {
  }

  /** The classes some character of the password belongs to, in order. */
  function ClassesPresent(password: string): seq<CharClass> {
    Keep(ClassOrder, (k: CharClass) => HasClass(password, k))
  }

  function Count(b: bool): nat { if b then 1 else 0 }

  /** Filtering the four classes keeps one entry per class that passes. */
  lemma KeepClassOrder(f: CharClass -> bool)
    ensures |Keep(ClassOrder, f)| == Count(f(Lowercase)) + Count(f(Uppercase)) + Count(f(Number)) + Count(f(Symbol))
  {
    assert ClassOrder == [Lowercase] + ([Uppercase] + ([Number] + [Symbol]));
    KeepAppend([Lowercase], [Uppercase] + ([Number] + [Symbol]), f);
    KeepAppend([Uppercase], [Number] + [Symbol], f);
    KeepAppend([Number], [Symbol], f);
    KeepOne(Lowercase, f);
    KeepOne(Uppercase, f);
    KeepOne(Number, f);
    KeepOne(Symbol, f);
  }

  /** The variety points are ten per class present. */
  lemma VarietyCountsClasses(password: string)
    ensures VarietyScore(password) == 10 * |ClassesPresent(password)|
  {
    var f := (k: CharClass) => HasClass(password, k);
    KeepClassOrder(f);
    assert f(Lowercase) == HasLower(password) && f(Uppercase) == HasUpper(password);
    assert f(Number) == HasDigit(password) && f(Symbol) == HasSpecial(password);
  }

  /** Some character of the password is in class `k`. */
  predicate HasClass(password: string, k: CharClass) {
    match k
    case Lowercase => HasLower(password)
    case Uppercase => HasUpper(password)
    case Number => HasDigit(password)
    case Symbol => HasSpecial(password)
  }

  /** Fifteen characters or more from all four classes with an entropy of
      at least 5 bits reach the cap of 100: "Very Strong". */
  lemma FullMarks(password: string, entropy: real)
    requires |password| >= 15 && entropy >= 5.0
    requires HasLower(password) && HasUpper(password) && HasDigit(password) && HasSpecial(password)
    ensures AssessStrength(password, entropy) == (VeryStrong, 100.0)
  {
  }

  /** A password of at most nine lower-case letters scores at most
      18 + 10 + 30 = 58, so it is never better than "Medium", whatever its
      entropy. */
  lemma ShortLowercaseCapped(password: string, entropy: real)
    requires 0 < |password| <= 9
    requires forall i | 0 <= i < |password| :: IsAsciiLower(password[i])
    ensures AssessStrength(password, entropy).1 <= 58.0
    ensures Rank(AssessStrength(password, entropy).0) <= Rank(Medium)
  {
    assert !HasUpper(password) && !HasDigit(password);
    assert !HasSpecial(password) by {
      forall i | 0 <= i < |password| ensures password[i] !in Special {
        assert IsAsciiLower(password[i]);
      }
    }
  }
}
