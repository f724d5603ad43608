/** `PasswordOptions` and the alphabet its `get_character_set` assembles. */
module Options {
  import opened PyStr

  /** The symbol class, exactly as written in the source (26 characters). */
  const Special: string := "!@#$%^&*()_+-=[]{}|;:,.<>?"

  /** Characters dropped when `exclude_ambiguous` is set. */
  const Ambiguous: string := "0Ol1I"

  /** The five option fields. `length` is a plain Python int: nothing checks
      its range. */
  datatype PasswordOptions = PasswordOptions(
    length: int,
    includeUppercase: bool,
    includeLowercase: bool,
    includeNumbers: bool,
    includeSpecial: bool,
    excludeAmbiguous: bool)

  /** The values `PasswordOptions()` starts with. */
  function DefaultOptions(): PasswordOptions {
    PasswordOptions(12, true, true, true, true, true)
  }

  /** The four character classes, in the order the alphabet lists them. */
  datatype CharClass = Lowercase | Uppercase | Number | Symbol

  const ClassOrder: seq<CharClass> := [Lowercase, Uppercase, Number, Symbol]

  /** The characters of a class, as the Python `string` constants list them. */
  function ClassChars(k: CharClass): string {
    match k
    case Lowercase => AsciiLowercase
    case Uppercase => AsciiUppercase
    case Number => Digits
    case Symbol => Special
  }

  /** Membership in a class, as the `c in string.ascii_lowercase` style tests
      decide it. */
  predicate InClass(c: char, k: CharClass) {
    match k
    case Lowercase => IsAsciiLower(c)
    case Uppercase => IsAsciiUpper(c)
    case Number => IsAsciiDigit(c)
    case Symbol => c in Special
  }

  predicate Enabled(o: PasswordOptions, k: CharClass) {
    match k
    case Lowercase => o.includeLowercase
    case Uppercase => o.includeUppercase
    case Number => o.includeNumbers
    case Symbol => o.includeSpecial
  }

  predicate NotAmbiguous(c: char) {
    c !in Ambiguous
  }

  /** `''.join(c for c in s if c not in ambiguous)` */
  function RemoveAmbiguous(s: string): string {
    Keep(s, NotAmbiguous)
  }

  /** What one `if self.include_... : charset += ...` step contributes. */
  function Block(o: PasswordOptions, k: CharClass): string {
    if Enabled(o, k) then ClassChars(k) else []
  }

  /** The alphabet `get_character_set` returns. */
  function CharacterSet(o: PasswordOptions): string {
    var all := Block(o, Lowercase) + Block(o, Uppercase) + Block(o, Number) + Block(o, Symbol);
    if o.excludeAmbiguous then RemoveAmbiguous(all) else all
  }

  /** `PasswordOptions.get_character_set`: accumulates the enabled classes,
      then filters out the ambiguous characters if asked to. */
  method GetCharacterSet(o: PasswordOptions) returns (charset: string)
    ensures charset == CharacterSet(o)
  {
    charset := "";
    if o.includeLowercase {
      charset := charset + AsciiLowercase;
    }
    assert charset == Block(o, Lowercase);
    if o.includeUppercase {
      charset := charset + AsciiUppercase;
    }
    assert charset == Block(o, Lowercase) + Block(o, Uppercase);
    if o.includeNumbers {
      charset := charset + Digits;
    }
    assert charset == Block(o, Lowercase) + Block(o, Uppercase) + Block(o, Number);
    if o.includeSpecial {
      charset := charset + Special;
    }
    assert charset == Block(o, Lowercase) + Block(o, Uppercase) + Block(o, Number) + Block(o, Symbol);
    if o.excludeAmbiguous {
      charset := RemoveAmbiguous(charset);
    }
  }

  // ---------------------------------------------------------------------
  // Properties of the alphabet

  lemma ClassCharsMembers(c: char, k: CharClass)
    ensures c in ClassChars(k) <==> InClass(c, k)
  {
    match k
    case Lowercase => AsciiLowercaseMembers(c);
    case Uppercase => AsciiUppercaseMembers(c);
    case Number => DigitsMembers(c);
    case Symbol =>
  }

  /** No character belongs to two classes. */
  lemma ClassesDisjoint(c: char, k1: CharClass, k2: CharClass)
    requires InClass(c, k1) && InClass(c, k2)
    ensures k1 == k2
  {
  }

  /** The symbol string, cut in two halves for the distinctness proof. */
  const SpecialHead: string := "!@#$%^&*()_+-"
  const SpecialTail: string := "=[]{}|;:,.<>?"

  lemma SpecialHalvesDistinct()
    ensures Distinct(SpecialHead) && Distinct(SpecialTail)
  {
  }

  lemma SpecialHalvesDisjoint()
    ensures forall x | x in SpecialHead :: x !in SpecialTail
  {
  }

  lemma SpecialDistinct()
    ensures Distinct(Special)
  {
    assert Special == SpecialHead + SpecialTail;
    SpecialHalvesDistinct();
    SpecialHalvesDisjoint();
    DistinctAppend(SpecialHead, SpecialTail);
  }

  lemma ClassCharsDistinct(k: CharClass)
    ensures Distinct(ClassChars(k))
  {
    match k
    case Lowercase => AsciiLowercaseDistinct();
    case Uppercase => AsciiUppercaseDistinct();
    case Number => DigitsDistinct();
    case Symbol => SpecialDistinct();
  }

  /** A block holds exactly the characters of its class when the class is
      enabled, and nothing otherwise. */
  lemma BlockMembers(o: PasswordOptions, k: CharClass, c: char)
    ensures c in Block(o, k) <==> Enabled(o, k) && InClass(c, k)
  {
    ClassCharsMembers(c, k);
  }

  lemma BlocksDisjoint(o: PasswordOptions, k1: CharClass, k2: CharClass, x: char)
    requires k1 != k2 && x in Block(o, k1)
    ensures x !in Block(o, k2)
  {
    BlockMembers(o, k1, x);
    BlockMembers(o, k2, x);
    if InClass(x, k2) {
      ClassesDisjoint(x, k1, k2);
    }
  }

  /** Membership in the four blocks before the ambiguity filter. */
  lemma UnfilteredMembers(o: PasswordOptions, c: char)
    ensures c in Block(o, Lowercase) + Block(o, Uppercase) + Block(o, Number) + Block(o, Symbol) <==>
              exists k :: Enabled(o, k) && InClass(c, k)
  {
    BlockMembers(o, Lowercase, c);
    BlockMembers(o, Uppercase, c);
    BlockMembers(o, Number, c);
    BlockMembers(o, Symbol, c);
    if exists k :: Enabled(o, k) && InClass(c, k) {
      var k :| Enabled(o, k) && InClass(c, k);
      assert c in Block(o, k);
    }
  }

  /** Exactly the characters of the enabled classes survive, minus the
      ambiguous ones when `excludeAmbiguous` is set. */
  lemma CharacterSetMembers(o: PasswordOptions, c: char)
    ensures c in CharacterSet(o) <==>
              (exists k :: Enabled(o, k) && InClass(c, k)) && !(o.excludeAmbiguous && c in Ambiguous)
  {
    var all := Block(o, Lowercase) + Block(o, Uppercase) + Block(o, Number) + Block(o, Symbol);
    UnfilteredMembers(o, c);
    if o.excludeAmbiguous && c in all && NotAmbiguous(c) {
      var i :| 0 <= i < |all| && all[i] == c;
      assert c in Keep(all, NotAmbiguous);
    }
  }

  /** When `excludeAmbiguous` is set no character of `0Ol1I` is left. */
  lemma NoAmbiguousSurvives(o: PasswordOptions)
    requires o.excludeAmbiguous
    ensures forall i | 0 <= i < |CharacterSet(o)| :: CharacterSet(o)[i] !in Ambiguous
  {
  }

  /** The alphabet lists the classes in the fixed order lower, upper, digits,
      symbols, each filtered on its own, so filtering keeps relative order;
      when `excludeAmbiguous` is unset nothing is removed. */
  lemma CharacterSetOrder(o: PasswordOptions)
    ensures o.excludeAmbiguous ==>
              CharacterSet(o) == RemoveAmbiguous(Block(o, Lowercase)) + RemoveAmbiguous(Block(o, Uppercase))
                                 + RemoveAmbiguous(Block(o, Number)) + RemoveAmbiguous(Block(o, Symbol))
    ensures !o.excludeAmbiguous ==>
              CharacterSet(o) == Block(o, Lowercase) + Block(o, Uppercase) + Block(o, Number) + Block(o, Symbol)
  {
    var a, b, c, d := Block(o, Lowercase), Block(o, Uppercase), Block(o, Number), Block(o, Symbol);
    KeepAppend(a + b + c, d, NotAmbiguous);
    KeepAppend(a + b, c, NotAmbiguous);
    KeepAppend(a, b, NotAmbiguous);
  }

  lemma NumberSymbolDistinct(o: PasswordOptions)
    ensures Distinct(Block(o, Number) + Block(o, Symbol))
  {
    ClassCharsDistinct(Number);
    ClassCharsDistinct(Symbol);
    forall x | x in Block(o, Number) ensures x !in Block(o, Symbol) {
      BlocksDisjoint(o, Number, Symbol, x);
    }
    DistinctAppend(Block(o, Number), Block(o, Symbol));
  }

  lemma UpperToSymbolDistinct(o: PasswordOptions)
    ensures Distinct(Block(o, Uppercase) + (Block(o, Number) + Block(o, Symbol)))
  {
    var b, cd := Block(o, Uppercase), Block(o, Number) + Block(o, Symbol);
    ClassCharsDistinct(Uppercase);
    NumberSymbolDistinct(o);
    forall x | x in b ensures x !in cd {
      BlocksDisjoint(o, Uppercase, Number, x);
      BlocksDisjoint(o, Uppercase, Symbol, x);
    }
    DistinctAppend(b, cd);
  }

  /** The four blocks together repeat no character. */
  lemma BlocksDistinct(o: PasswordOptions)
    ensures Distinct(Block(o, Lowercase) + (Block(o, Uppercase) + (Block(o, Number) + Block(o, Symbol))))
  {
    var a, b, c, d := Block(o, Lowercase), Block(o, Uppercase), Block(o, Number), Block(o, Symbol);
    ClassCharsDistinct(Lowercase);
    UpperToSymbolDistinct(o);
    forall x | x in a ensures x !in b + (c + d) {
      BlocksDisjoint(o, Lowercase, Uppercase, x);
      BlocksDisjoint(o, Lowercase, Number, x);
      BlocksDisjoint(o, Lowercase, Symbol, x);
    }
    DistinctAppend(a, b + (c + d));
  }

  /** No character occurs twice in the alphabet. */
  lemma CharacterSetDistinct(o: PasswordOptions)
    ensures Distinct(CharacterSet(o))
  {
    var a, b, c, d := Block(o, Lowercase), Block(o, Uppercase), Block(o, Number), Block(o, Symbol);
    BlocksDistinct(o);
    DistinctRegroup(a, b, c, d);
    if o.excludeAmbiguous {
      KeepDistinct(Block(o, Lowercase) + Block(o, Uppercase) + Block(o, Number) + Block(o, Symbol), NotAmbiguous);
    }
  }

  /** The characters of class `k` that the alphabet holds:
      `[c for c in charset if c in string.ascii_lowercase]` and its siblings. */
  function ClassMembers(charset: string, k: CharClass): string {
    Keep(charset, c => InClass(c, k))
  }

  /** In the alphabet of `o`, the members of class `k` are the class's
      characters that survive the filter. */
  lemma ClassMembersOfCharacterSet(o: PasswordOptions, k: CharClass, c: char)
    ensures c in ClassMembers(CharacterSet(o), k) <==>
              Enabled(o, k) && InClass(c, k) && !(o.excludeAmbiguous && c in Ambiguous)
  {
    var cs := CharacterSet(o);
    CharacterSetMembers(o, c);
    if c in cs && InClass(c, k) {
      var i :| 0 <= i < |cs| && cs[i] == c;
      assert c in ClassMembers(cs, k);
    }
    if InClass(c, k) && exists k' :: Enabled(o, k') && InClass(c, k') {
      var k' :| Enabled(o, k') && InClass(c, k');
      ClassesDisjoint(c, k, k');
    }
  }

  /** A class has members in the alphabet exactly when it is enabled. */
  lemma ClassMembersNonEmptyIff(o: PasswordOptions, k: CharClass)
    ensures ClassMembers(CharacterSet(o), k) != [] <==> Enabled(o, k)
  {
    var m := ClassMembers(CharacterSet(o), k);
    var w := match k
      case Lowercase => 'a'
      case Uppercase => 'A'
      case Number => '2'
      case Symbol => '!';
    assert Special[0] == '!';
    assert InClass(w, k) && w !in Ambiguous;
    ClassMembersOfCharacterSet(o, k, w);
    if m != [] {
      assert m[0] in m;
      ClassMembersOfCharacterSet(o, k, m[0]);
    }
  }

  /** Every class keeps at least one character after filtering, so the
      alphabet is empty exactly when no class is enabled. */
  lemma CharacterSetEmptyIff(o: PasswordOptions)
    ensures CharacterSet(o) == [] <==>
              !o.includeLowercase && !o.includeUppercase && !o.includeNumbers && !o.includeSpecial
  {
    if CharacterSet(o) == [] {
      ClassMembersNonEmptyIff(o, Lowercase);
      ClassMembersNonEmptyIff(o, Uppercase);
      ClassMembersNonEmptyIff(o, Number);
      ClassMembersNonEmptyIff(o, Symbol);
    }
  }
}
