/** What the passes of `SecurePasswordGenerator` guarantee about the
    password, and where they fall short of their docstrings. */
module GeneratorProperties {
  import opened PyStr
  import opened Options
  import opened Personal
  import opened Generator

  // ---------------------------------------------------------------------
  // The initial draw

  /** For the first 32 positions the aligned slice `pool[4i:4i+4]` exists,
      so position `i` is decided by the digest bytes `2i` and `2i+1`, read
      big-endian, modulo the alphabet size. */
  lemma DrawnFromDigest(charset: string, digest: seq<byte>, length: int, i: nat)
    requires charset != [] && |digest| == DigestLength
    requires i < 32 && i < LoopCount(length)
    ensures IsHexString(Hex(digest))
    ensures Drawn(charset, Hex(digest), length)[i] ==
              charset[(digest[2 * i] as int * 256 + digest[2 * i + 1] as int) % |charset|]
  {
    HexIsHexString(digest);
    var pool := Hex(digest);
    assert WindowStart(pool, i) == 4 * i;
    HexWordValue(digest, i);
  }

  /** From position 32 on the aligned slice runs past the 128-digit pool
      and the fallback start `i % 124` is used. At every fourth such
      position (up to 120) that start is one the aligned slices already
      used, so the character repeats the one drawn at position `i / 4`. */
  lemma DrawnRepeats(charset: string, pool: string, length: int, i: nat)
    requires charset != [] && |pool| == PoolLength && IsHexString(pool)
    requires 32 <= i < 124 && i % 4 == 0 && i < LoopCount(length)
    ensures Drawn(charset, pool, length)[i] == Drawn(charset, pool, length)[i / 4]
  {
    assert i % (|pool| - 4) == i;
    assert WindowStart(pool, i) == i;
    assert WindowStart(pool, i / 4) == 4 * (i / 4) == i;
  }

  // ---------------------------------------------------------------------
  // `_ensure_character_requirements`

  /** A block appends a character exactly when its class is needed, and
      that character is a member of the alphabet in that class. */
  lemma RequirementFacts(opts: PasswordOptions, charset: string, password: string, o: Oracle, k: CharClass)
    ensures Requirement(opts, charset, password, o, k) != [] <==> NeedsClass(opts, charset, password, k)
    ensures forall x | x in Requirement(opts, charset, password, o, k) :: InClass(x, k) && x in charset
  {
    if NeedsClass(opts, charset, password, k) {
      var m := ClassMembers(charset, k);
      var c := Choose(m, o.choose(k));
      var i :| 0 <= i < |m| && m[i] == c;
      assert c in charset && InClass(c, k);
    }
  }

  /** Every queued character lies in the alphabet and belongs to a class
      that needed one. */
  lemma RequiredMembers(opts: PasswordOptions, charset: string, password: string, o: Oracle)
    ensures |Required(opts, charset, password, o)| <= 4
    ensures forall j | 0 <= j < |Required(opts, charset, password, o)| ::
              var c := Required(opts, charset, password, o)[j];
              c in charset && exists k :: NeedsClass(opts, charset, password, k) && InClass(c, k)
  {
    var a := Requirement(opts, charset, password, o, Lowercase);
    var b := Requirement(opts, charset, password, o, Uppercase);
    var c := Requirement(opts, charset, password, o, Number);
    var d := Requirement(opts, charset, password, o, Symbol);
    RequirementFacts(opts, charset, password, o, Lowercase);
    RequirementFacts(opts, charset, password, o, Uppercase);
    RequirementFacts(opts, charset, password, o, Number);
    RequirementFacts(opts, charset, password, o, Symbol);
    var q := Required(opts, charset, password, o);
    forall j | 0 <= j < |q|
      ensures q[j] in charset && exists k :: NeedsClass(opts, charset, password, k) && InClass(q[j], k)
    {
      var x := q[j];
      assert x in a || x in b || x in c || x in d;
      if x in a {
        assert NeedsClass(opts, charset, password, Lowercase) && InClass(x, Lowercase);
      } else if x in b {
        assert NeedsClass(opts, charset, password, Uppercase) && InClass(x, Uppercase);
      } else if x in c {
        assert NeedsClass(opts, charset, password, Number) && InClass(x, Number);
      } else {
        assert NeedsClass(opts, charset, password, Symbol) && InClass(x, Symbol);
      }
    }
  }

  /** A class gets a queued character exactly when it needs one. */
  lemma RequiredHasClass(opts: PasswordOptions, charset: string, password: string, o: Oracle, k: CharClass)
    ensures NeedsClass(opts, charset, password, k) <==>
              exists j | 0 <= j < |Required(opts, charset, password, o)| ::
                InClass(Required(opts, charset, password, o)[j], k)
  {
    var q := Required(opts, charset, password, o);
    RequiredMembers(opts, charset, password, o);
    if NeedsClass(opts, charset, password, k) {
      var a := Requirement(opts, charset, password, o, Lowercase);
      var b := Requirement(opts, charset, password, o, Uppercase);
      var c := Requirement(opts, charset, password, o, Number);
      var r := Requirement(opts, charset, password, o, k);
      RequirementFacts(opts, charset, password, o, k);
      var j := match k
        case Lowercase => 0
        case Uppercase => |a|
        case Number => |a| + |b|
        case Symbol => |a| + |b| + |c|;
      assert q[j] == r[0];
    } else if exists j | 0 <= j < |q| :: InClass(q[j], k) {
      var j :| 0 <= j < |q| && InClass(q[j], k);
      var k' :| NeedsClass(opts, charset, password, k') && InClass(q[j], k');
      ClassesDisjoint(q[j], k, k');
    }
  }

  /** A password that already shows every enabled class the alphabet
      offers queues nothing and comes back unchanged. */
  lemma RepairedUnchanged(opts: PasswordOptions, charset: string, password: string, o: Oracle)
    requires forall k :: !NeedsClass(opts, charset, password, k)
    ensures Repaired(opts, charset, password, o) == password
  {
    RequirementFacts(opts, charset, password, o, Lowercase);
    RequirementFacts(opts, charset, password, o, Uppercase);
    RequirementFacts(opts, charset, password, o, Number);
    RequirementFacts(opts, charset, password, o, Symbol);
    assert Required(opts, charset, password, o) == [];
  }

  /** Some of the first `n` writes went to position `p`. */
  predicate Targeted(o: Oracle, n: nat, len: nat, p: nat)
    requires len > 0
  {
    exists j | 0 <= j < n :: Position(o, j, len) == p
  }

  /** A position no write went to keeps its character. */
  lemma {:induction false} PlacedUntouched(password: string, required: string, o: Oracle, n: nat, p: nat)
    requires n <= |required| && p < |password|
    requires !Targeted(o, n, |password|, p)
    ensures Placed(password, required, o, n)[p] == password[p]
  {
    if n > 0 {
      assert Position(o, n - 1, |password|) != p;
      assert !Targeted(o, n - 1, |password|, p);
      PlacedUntouched(password, required, o, n - 1, p);
    }
  }

  /** The last write to a position decides its character. */
  lemma {:induction false} PlacedLastWrite(password: string, required: string, o: Oracle, n: nat, j: nat)
    requires j < n <= |required| && |password| > 0
    requires forall j' | j < j' < n :: Position(o, j', |password|) != Position(o, j, |password|)
    ensures Placed(password, required, o, n)[Position(o, j, |password|)] == required[j]
  {
    if j < n - 1 {
      PlacedLastWrite(password, required, o, n - 1, j);
    }
  }

  /** Every character afterwards is the original one or a queued one. */
  lemma {:induction false} PlacedFrom(password: string, required: string, o: Oracle, n: nat, p: nat)
    requires n <= |required| && p < |password|
    ensures Placed(password, required, o, n)[p] == password[p] ||
            exists j | 0 <= j < n :: Placed(password, required, o, n)[p] == required[j]
  {
    if n > 0 {
      PlacedFrom(password, required, o, n - 1, p);
    }
  }

  /** The repair pass keeps the length (so an empty password comes back
      empty) and draws only from the alphabet. */
  lemma RepairedInCharset(opts: PasswordOptions, charset: string, password: string, o: Oracle)
    requires forall i | 0 <= i < |password| :: password[i] in charset
    ensures |Repaired(opts, charset, password, o)| == |password|
    ensures password == [] ==> Repaired(opts, charset, password, o) == []
    ensures forall i | 0 <= i < |password| :: Repaired(opts, charset, password, o)[i] in charset
  {
    var q := Required(opts, charset, password, o);
    RequiredMembers(opts, charset, password, o);
    forall i | 0 <= i < |password|
      ensures Repaired(opts, charset, password, o)[i] in charset
    {
      PlacedFrom(password, q, o, |q|, i);
    }
  }

  /** When the random positions of the queued characters are pairwise
      different, every class the password lacked is present afterwards. */
  lemma RepairedAddsMissingClass(opts: PasswordOptions, charset: string, password: string, o: Oracle, k: CharClass)
    requires password != [] && NeedsClass(opts, charset, password, k)
    requires forall j1, j2 | 0 <= j1 < j2 < |Required(opts, charset, password, o)| ::
               Position(o, j1, |password|) != Position(o, j2, |password|)
    ensures Present(Repaired(opts, charset, password, o), ClassMembers(charset, k))
  {
    var q := Required(opts, charset, password, o);
    RequiredHasClass(opts, charset, password, o, k);
    RequiredMembers(opts, charset, password, o);
    var j :| 0 <= j < |q| && InClass(q[j], k);
    PlacedLastWrite(password, q, o, |q|, j);
    var r := Repaired(opts, charset, password, o);
    var pos := Position(o, j, |password|);
    assert r[pos] == q[j];
    var m := ClassMembers(charset, k);
    var ci :| 0 <= ci < |charset| && charset[ci] == q[j];
    assert q[j] in m;
    var mi :| 0 <= mi < |m| && m[mi] == q[j];
    assert m[mi] in r;
  }

  /** Options with lower, upper and digits on, symbols off and nothing
      excluded. */
  predicate LowerUpperDigits(opts: PasswordOptions) {
    opts.includeLowercase && opts.includeUppercase && opts.includeNumbers &&
    !opts.includeSpecial && !opts.excludeAmbiguous
  }

  lemma LowerUpperPresent(opts: PasswordOptions)
    requires LowerUpperDigits(opts)
    ensures !NeedsClass(opts, CharacterSet(opts), "aB", Lowercase)
    ensures !NeedsClass(opts, CharacterSet(opts), "aB", Uppercase)
    ensures !NeedsClass(opts, CharacterSet(opts), "aB", Symbol)
  {
    var cs := CharacterSet(opts);
    var lower, upper := ClassMembers(cs, Lowercase), ClassMembers(cs, Uppercase);
    ClassMembersOfCharacterSet(opts, Lowercase, 'a');
    ClassMembersOfCharacterSet(opts, Uppercase, 'B');
    var li :| 0 <= li < |lower| && lower[li] == 'a';
    var ui :| 0 <= ui < |upper| && upper[ui] == 'B';
    assert lower[li] in "aB" && upper[ui] in "aB";
  }

  lemma DigitMissing(opts: PasswordOptions)
    requires LowerUpperDigits(opts)
    ensures NeedsClass(opts, CharacterSet(opts), "aB", Number)
  {
    var digits := ClassMembers(CharacterSet(opts), Number);
    ClassMembersNonEmptyIff(opts, Number);
    forall i | 0 <= i < |digits| ensures digits[i] !in "aB" {
      assert InClass(digits[i], Number);
    }
  }

  /** For "aB" the queue holds a single digit. */
  lemma OnlyDigitQueued(opts: PasswordOptions, o: Oracle)
    requires LowerUpperDigits(opts)
    ensures |Required(opts, CharacterSet(opts), "aB", o)| == 1
    ensures InClass(Required(opts, CharacterSet(opts), "aB", o)[0], Number)
  {
    var cs := CharacterSet(opts);
    LowerUpperPresent(opts);
    DigitMissing(opts);
    RequirementFacts(opts, cs, "aB", o, Lowercase);
    RequirementFacts(opts, cs, "aB", o, Uppercase);
    RequirementFacts(opts, cs, "aB", o, Number);
    RequirementFacts(opts, cs, "aB", o, Symbol);
    assert Required(opts, cs, "aB", o) == Requirement(opts, cs, "aB", o, Number);
  }

  /** The repair pass does not keep what was already there: with lower,
      upper and digits enabled, "aB" lacks only a digit, and when that
      digit is written over position 0 the lower-case letter is gone. */
  lemma RepairCanLoseClass(opts: PasswordOptions, o: Oracle)
    requires LowerUpperDigits(opts) && o.below(0) % 2 == 0
    ensures Present("aB", ClassMembers(CharacterSet(opts), Lowercase))
    ensures !Present(Repaired(opts, CharacterSet(opts), "aB", o), ClassMembers(CharacterSet(opts), Lowercase))
  {
    var cs := CharacterSet(opts);
    LowerUpperPresent(opts);
    OnlyDigitQueued(opts, o);
    var q := Required(opts, cs, "aB", o);
    var r := Repaired(opts, cs, "aB", o);
    assert r == Placed("aB", q, o, 1);
    assert r == [q[0], 'B'];
    var lower := ClassMembers(cs, Lowercase);
    forall i | 0 <= i < |lower| ensures lower[i] !in r {
      assert InClass(lower[i], Lowercase);
    }
  }

  // ---------------------------------------------------------------------
  // The pattern list

  /** At most four patterns, each at least three characters long; a name
      or city yields its pattern exactly when it has four characters or
      more, the birth date exactly when three or more remain once the
      dashes are gone. */
  lemma PatternsShape(p: PersonalInfo)
    ensures |Patterns(p)| <= 4
    ensures forall j | 0 <= j < |Patterns(p)| :: |Patterns(p)[j]| >= 3 && Patterns(p)[j] in CandidatePatterns(p)
    ensures NamePrefix(p.firstName) in Patterns(p) <==> |p.firstName| >= 4
    ensures NamePrefix(p.lastName) in Patterns(p) <==> |p.lastName| >= 4
    ensures NamePrefix(p.city) in Patterns(p) <==> |p.city| >= 4
    ensures RemoveDashes(p.birthDate) in Patterns(p) <==> |RemoveDashes(p.birthDate)| >= 3
  {
    var c := CandidatePatterns(p);
    assert c[0] == NamePrefix(p.firstName) && c[1] == NamePrefix(p.lastName);
    assert c[2] == RemoveDashes(p.birthDate) && c[3] == NamePrefix(p.city);
  }

  /** Name and city patterns are lower-cased, so they are found whatever
      the case of the password. */
  lemma NamePrefixLower(s: string, password: string)
    requires |s| >= 4
    ensures forall q | 0 <= q < |NamePrefix(s)| :: !IsAsciiUpper(NamePrefix(s)[q])
    ensures Occurs(NamePrefix(s), Lower(password)) <==> Occurs(NamePrefix(s), Lower(Lower(password)))
  {
    LowerProperties(s);
    LowerProperties(password);
  }

  /** The birth-date pattern is not lower-cased, and the password is: a
      pattern holding an upper-case letter can never be found. */
  lemma UppercasePatternNeverMatches(pattern: string, password: string)
    requires exists q | 0 <= q < |pattern| :: IsAsciiUpper(pattern[q])
    ensures !Occurs(pattern, Lower(password))
  {
    var lp := Lower(password);
    OccursIff(pattern, lp);
    if Occurs(pattern, lp) {
      var i :| OccursAt(pattern, lp, i);
      var q :| 0 <= q < |pattern| && IsAsciiUpper(pattern[q]);
      assert lp[i..i + |pattern|][q] == lp[i + q];
      LowerProperties(password);
    }
  }

  // ---------------------------------------------------------------------
  // `_avoid_obvious_patterns`

  /** The pass returns a password free of every pattern: the one it was
      given when that is already free, otherwise a regenerated one of
      `options.length` characters from the alphabet. */
  lemma {:induction false} AvoidedResult(p: PersonalInfo, opts: PasswordOptions, password: string,
                                         o: Oracle, round: nat, fuel: nat)
    requires ValidOracle(o)
    ensures !HasPattern(Patterns(p), password) ==> Avoided(p, opts, password, o, round, fuel) == Ok(password)
    ensures Avoided(p, opts, password, o, round, fuel).Ok? ==>
              var v := Avoided(p, opts, password, o, round, fuel).value;
              !HasPattern(Patterns(p), v) &&
              (v == password ||
               (|v| == LoopCount(opts.length) && forall i | 0 <= i < |v| :: v[i] in CharacterSet(opts)))
    decreases fuel
  {
    if HasPattern(Patterns(p), password) && fuel > 0 {
      var charset := CharacterSet(opts);
      if !(charset == [] && LoopCount(opts.length) > 0) {
        var next := Regenerated(charset, EntropyPool(p, o, round), opts.length, o);
        AvoidedResult(p, opts, next, o, round + 1, fuel - 1);
      }
    }
  }

  /** The pass fails only by recursing too deep, or by dividing by the size
      of an empty alphabet when a password of positive length is due. */
  lemma {:induction false} AvoidedErrors(p: PersonalInfo, opts: PasswordOptions, password: string,
                                         o: Oracle, round: nat, fuel: nat)
    requires ValidOracle(o)
    ensures Avoided(p, opts, password, o, round, fuel).Err? ==>
              Avoided(p, opts, password, o, round, fuel).error == RecursionDepthExceeded ||
              (Avoided(p, opts, password, o, round, fuel).error == ZeroDivision &&
               CharacterSet(opts) == [] && LoopCount(opts.length) > 0)
    decreases fuel
  {
    if HasPattern(Patterns(p), password) && fuel > 0 {
      var charset := CharacterSet(opts);
      if !(charset == [] && LoopCount(opts.length) > 0) {
        var next := Regenerated(charset, EntropyPool(p, o, round), opts.length, o);
        AvoidedErrors(p, opts, next, o, round + 1, fuel - 1);
      }
    }
  }

  /** A deeper recursion limit never changes a result that was reached. */
  lemma {:induction false} AvoidedMoreFuel(p: PersonalInfo, opts: PasswordOptions, password: string,
                                           o: Oracle, round: nat, fuel: nat, extra: nat)
    requires ValidOracle(o) && Avoided(p, opts, password, o, round, fuel).Ok?
    ensures Avoided(p, opts, password, o, round, fuel + extra) == Avoided(p, opts, password, o, round, fuel)
    decreases fuel
  {
    if HasPattern(Patterns(p), password) {
      var charset := CharacterSet(opts);
      var next := Regenerated(charset, EntropyPool(p, o, round), opts.length, o);
      AvoidedMoreFuel(p, opts, next, o, round + 1, fuel - 1, extra);
      assert fuel + extra - 1 == fuel - 1 + extra;
    }
  }

  // ---------------------------------------------------------------------
  // `generate_password`

  predicate AnyClassEnabled(opts: PasswordOptions) {
    opts.includeLowercase || opts.includeUppercase || opts.includeNumbers || opts.includeSpecial
  }

  /** Incomplete details are reported before an empty alphabet; with both
      checks passed the only possible failure is the recursion limit. */
  lemma GenerateErrors(p: PersonalInfo, opts: PasswordOptions, o: Oracle, fuel: nat)
    requires ValidOracle(o)
    ensures !IsComplete(p) ==> Generate(p, opts, o, fuel) == Err(IncompleteInfo)
    ensures IsComplete(p) && !AnyClassEnabled(opts) ==> Generate(p, opts, o, fuel) == Err(NoCharacterTypes)
    ensures IsComplete(p) && AnyClassEnabled(opts) && Generate(p, opts, o, fuel).Err? ==>
              Generate(p, opts, o, fuel).error == RecursionDepthExceeded
  {
    CharacterSetEmptyIff(opts);
    var charset := CharacterSet(opts);
    if IsComplete(p) && charset != [] {
      var drawn := Drawn(charset, EntropyPool(p, o, 0), opts.length);
      AvoidedErrors(p, opts, Repaired(opts, charset, drawn, o), o, 1, fuel);
    }
  }

  /** A generated password has `options.length` characters (none when the
      length is negative), all from the alphabet, so none ambiguous when
      those are excluded, and contains none of the personal patterns. */
  lemma GenerateOk(p: PersonalInfo, opts: PasswordOptions, o: Oracle, fuel: nat)
    requires ValidOracle(o) && Generate(p, opts, o, fuel).Ok?
    ensures var v := Generate(p, opts, o, fuel).value;
            IsComplete(p) && |v| == LoopCount(opts.length) &&
            (forall i | 0 <= i < |v| :: v[i] in CharacterSet(opts)) &&
            !HasPattern(Patterns(p), v)
    ensures opts.excludeAmbiguous ==>
              forall i | 0 <= i < |Generate(p, opts, o, fuel).value| :: Generate(p, opts, o, fuel).value[i] !in Ambiguous
  {
    var charset := CharacterSet(opts);
    var drawn := Drawn(charset, EntropyPool(p, o, 0), opts.length);
    RepairedInCharset(opts, charset, drawn, o);
    var repaired := Repaired(opts, charset, drawn, o);
    AvoidedResult(p, opts, repaired, o, 1, fuel);
    if opts.excludeAmbiguous {
      NoAmbiguousSurvives(opts);
    }
  }
}
