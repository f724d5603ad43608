/** `SecurePasswordGenerator`: the entropy pool, the initial draw, the
    character-class repair pass, the personal-pattern pass and
    `generate_password`, first as functions of their inputs, then as the
    class whose methods compute them step by step. */
module Generator {
  import opened PyStr
  import opened Options
  import opened Personal

  // ---------------------------------------------------------------------
  // Outcomes

  /** The exceptions `generate_password` can raise. */
  datatype Error =
    | IncompleteInfo          // ValueError("Personal information is incomplete")
    | NoCharacterTypes        // ValueError("No character types selected")
    | ZeroDivision            // `hash(...) % len(charset)` with an empty alphabet
    | RecursionDepthExceeded  // `_avoid_obvious_patterns` recursed too deep

  datatype Result<T> = Ok(value: T) | Err(error: Error)

  // ---------------------------------------------------------------------
  // The randomness and the hash functions the generator calls

  /** Everything the generator obtains from `secrets`, `hashlib` and the
      built-in `hash`, as fixed functions:
      - `tokenBytes(r)`: what `secrets.token_bytes(64)` returns while the
        `r`-th pool is built (the first pool is number 0);
      - `sha256(s)`: `hashlib.sha256(s.encode('utf-8')).digest()`;
      - `sha512(b)`: `hashlib.sha512(b).digest()`;
      - `choose(k)`: the raw draw `secrets.choice` turns into an index into
        the members of class `k`;
      - `below(j)`: the raw draw `secrets.randbelow` turns into the position
        of the `j`-th queued character;
      - `hash(s)`: the built-in string `hash`, fixed for one process. */
  datatype Oracle = Oracle(
    tokenBytes: nat -> seq<byte>,
    sha256: string -> seq<byte>,
    sha512: seq<byte> -> seq<byte>,
    choose: CharClass -> nat,
    below: nat -> nat,
    hash: string -> int)

  /** A SHA-512 digest is 64 bytes long. */
  const DigestLength: nat := 64

  /** `hashlib.sha512(...).digest().hex()` is 128 hex digits. */
  const PoolLength: nat := 128

  /** Rounds of SHA-512 in `_create_entropy_pool`. */
  const MixingRounds: nat := 1000

  ghost predicate ValidOracle(o: Oracle) {
    forall b :: |o.sha512(b)| == DigestLength
  }

  /** How many times `for i in range(n)` runs. */
  function LoopCount(n: int): (k: nat)
    ensures n >= 0 ==> k == n
    ensures n < 0 ==> k == 0
  {
    if n < 0 then 0 else n
  }

  // ---------------------------------------------------------------------
  // `get_entropy_seed` and `_create_entropy_pool`

  /** The f-string `get_entropy_seed` hashes: the six fields run together. */
  function SeedText(p: PersonalInfo): string {
    p.firstName + p.lastName + p.birthDate + p.currentDate + p.platform + p.city
  }

  /** `get_entropy_seed`: the hex SHA-256 of the six fields. */
  function EntropySeed(p: PersonalInfo, o: Oracle): (r: string)
    ensures IsHexString(r)
  {
    HexIsHexString(o.sha256(SeedText(p)));
    Hex(o.sha256(SeedText(p)))
  }

  /** `s.encode('utf-8')` for a string of hex digits: one byte per digit. */
  function AsciiBytes(s: string): (r: seq<byte>)
    requires IsHexString(s)
    ensures |r| == |s|
    ensures forall i | 0 <= i < |s| :: r[i] as int == s[i] as int
  {
    seq(|s|, i requires 0 <= i < |s| => s[i] as int as byte)
  }

  /** `b` after `n` rounds of `combined = hashlib.sha512(combined).digest()`. */
  function Mixed(b: seq<byte>, n: nat, o: Oracle): (r: seq<byte>)
    requires ValidOracle(o)
    ensures n > 0 ==> |r| == DigestLength
  {
    if n == 0 then b else o.sha512(Mixed(b, n - 1, o))
  }

  /** The pool the `r`-th call of `_create_entropy_pool` returns. */
  function EntropyPool(p: PersonalInfo, o: Oracle, r: nat): (pool: string)
    requires ValidOracle(o)
    ensures |pool| == PoolLength && IsHexString(pool)
  {
    var mixed := Mixed(o.tokenBytes(r) + AsciiBytes(EntropySeed(p, o)), MixingRounds, o);
    HexIsHexString(mixed);
    Hex(mixed)
  }

  // ---------------------------------------------------------------------
  // The initial draw of `generate_password`

  /** Where the four hex digits for position `i` start: `pool[i*4:(i+1)*4]`
      when that slice is four characters long, otherwise the fallback
      `pool[i % (len(pool) - 4):][:4]`. */
  function WindowStart(pool: string, i: nat): (s: nat)
    requires |pool| > 4
    ensures s + 4 <= |pool|
  {
    if 4 * i + 4 <= |pool| then 4 * i else i % (|pool| - 4)
  }

  /** The entropy segment for position `i`. */
  function Window(pool: string, i: nat): (w: string)
    requires |pool| > 4
    ensures |w| == 4
    ensures IsHexString(pool) ==> IsHexString(w)
  {
    pool[WindowStart(pool, i)..WindowStart(pool, i) + 4]
  }

  /** The two slices `generate_password` takes agree with `Window`. */
  lemma SegmentIsWindow(pool: string, i: nat)
    requires |pool| > 4
    ensures |PySlice(pool, i * 4, (i + 1) * 4)| >= 4 ==> PySlice(pool, i * 4, (i + 1) * 4) == Window(pool, i)
    ensures |PySlice(pool, i * 4, (i + 1) * 4)| < 4 ==>
              PySlice(pool, i % (|pool| - 4), i % (|pool| - 4) + 4) == Window(pool, i)
  {
    var a, b := i * 4, (i + 1) * 4;
    assert b == a + 4;
    if a + 4 <= |pool| {
      assert PySlice(pool, a, b) == pool[a..a + 4];
    } else if a <= |pool| {
      assert PySlice(pool, a, b) == pool[a..];
    }
  }

  /** The character drawn for position `i`: `charset[int(segment, 16) % len(charset)]`. */
  function DrawnChar(charset: string, pool: string, i: nat): (c: char)
    requires charset != [] && |pool| > 4 && IsHexString(pool)
    ensures c in charset
  {
    charset[HexValue(Window(pool, i)) % |charset|]
  }

  /** The password the loop of `generate_password` builds. */
  function Drawn(charset: string, pool: string, length: int): (r: string)
    requires charset != [] && |pool| > 4 && IsHexString(pool)
    ensures |r| == LoopCount(length)
    ensures forall i | 0 <= i < |r| :: r[i] in charset
  {
    seq(LoopCount(length), i requires 0 <= i < LoopCount(length) => DrawnChar(charset, pool, i))
  }

  // ---------------------------------------------------------------------
  // `_ensure_character_requirements`

  /** `any(c in password for c in members)` */
  predicate Present(password: string, members: string) {
    exists i | 0 <= i < |members| :: members[i] in password
  }

  /** The class is enabled, the alphabet has members of it, and the password
      holds none of them: `_ensure_character_requirements` queues one. */
  predicate NeedsClass(opts: PasswordOptions, charset: string, password: string, k: CharClass) {
    Enabled(opts, k) && ClassMembers(charset, k) != [] && !Present(password, ClassMembers(charset, k))
  }

  /** `secrets.choice(xs)` */
  function Choose(xs: string, raw: nat): (c: char)
    requires xs != []
    ensures c in xs
  {
    xs[raw % |xs|]
  }

  /** What one of the four `if` blocks appends to `required_chars`. */
  function Requirement(opts: PasswordOptions, charset: string, password: string, o: Oracle, k: CharClass): (r: string)
    ensures |r| <= 1
  {
    if NeedsClass(opts, charset, password, k) then [Choose(ClassMembers(charset, k), o.choose(k))] else []
  }

  /** `required_chars`, filled in the order lower, upper, digits, symbols. */
  function Required(opts: PasswordOptions, charset: string, password: string, o: Oracle): string {
    Requirement(opts, charset, password, o, Lowercase) + Requirement(opts, charset, password, o, Uppercase) +
    Requirement(opts, charset, password, o, Number) + Requirement(opts, charset, password, o, Symbol)
  }

  /** The position the `j`-th queued character is written to in a password
      of `n > 0` characters: `secrets.randbelow(n)`. */
  function Position(o: Oracle, j: nat, n: nat): (p: nat)
    requires n > 0
    ensures p < n
  {
    o.below(j) % n
  }

  /** `password_list` after the first `n` iterations of the replacement loop. */
  function Placed(password: string, required: string, o: Oracle, n: nat): (r: string)
    requires n <= |required|
    ensures |r| == |password|
  {
    if n == 0 then password
    else
      var p := Placed(password, required, o, n - 1);
      if |p| == 0 then p else p[Position(o, n - 1, |p|) := required[n - 1]]
  }

  /** The string `_ensure_character_requirements` returns. */
  function Repaired(opts: PasswordOptions, charset: string, password: string, o: Oracle): string {
    var required := Required(opts, charset, password, o);
    Placed(password, required, o, |required|)
  }

  // ---------------------------------------------------------------------
  // `_avoid_obvious_patterns`

  /** `s.lower()[:4] if len(s) >= 4 else ""` */
  function NamePrefix(s: string): (r: string)
    ensures |s| >= 4 ==> |r| == 4
    ensures |s| < 4 ==> r == []
    ensures |s| >= 4 ==> forall i | 0 <= i < 4 :: r[i] == LowerChar(s[i])
  {
    if |s| >= 4 then Lower(s)[..4] else []
  }

  predicate NotDash(c: char) { c != '-' }

  /** `s.replace("-", "")` */
  function RemoveDashes(s: string): string {
    Keep(s, NotDash)
  }

  /** The four candidates, before the short ones are dropped. */
  function CandidatePatterns(p: PersonalInfo): seq<string> {
    [NamePrefix(p.firstName), NamePrefix(p.lastName), RemoveDashes(p.birthDate), NamePrefix(p.city)]
  }

  predicate LongEnough(pattern: string) { |pattern| >= 3 }

  /** `patterns_to_avoid` after `[p for p in ... if len(p) >= 3]`. */
  function Patterns(p: PersonalInfo): seq<string> {
    Keep(CandidatePatterns(p), LongEnough)
  }

  /** Some pattern is a substring of `password.lower()`. */
  predicate HasPattern(patterns: seq<string>, password: string) {
    exists j | 0 <= j < |patterns| :: Occurs(patterns[j], Lower(password))
  }

  /** The character the regeneration loop picks for position `i`; the
      source reduces the hash modulo the alphabet size twice. */
  function RegeneratedChar(charset: string, pool: string, i: nat, o: Oracle): (c: char)
    requires charset != []
    ensures c in charset
  {
    charset[o.hash(pool + NatToString(i + 100)) % |charset| % |charset|]
  }

  /** The password the regeneration loop builds; an empty alphabet is only
      harmless when the loop does not run. */
  function Regenerated(charset: string, pool: string, length: int, o: Oracle): (r: string)
    requires charset != [] || LoopCount(length) == 0
    ensures |r| == LoopCount(length)
    ensures forall i | 0 <= i < |r| :: r[i] in charset
  {
    seq(LoopCount(length), i requires 0 <= i < LoopCount(length) => RegeneratedChar(charset, pool, i, o))
  }

  /** What `_avoid_obvious_patterns(password)` returns when `round` pools
      have been made so far and `fuel` more recursive calls are possible. */
  function Avoided(p: PersonalInfo, opts: PasswordOptions, password: string, o: Oracle, round: nat, fuel: nat): Result<string>
    requires ValidOracle(o)
    decreases fuel
  {
    if !HasPattern(Patterns(p), password) then Ok(password)
    else if fuel == 0 then Err(RecursionDepthExceeded)
    else
      var charset := CharacterSet(opts);
      if charset == [] && LoopCount(opts.length) > 0 then Err(ZeroDivision)
      else
        var pool := EntropyPool(p, o, round);
        Avoided(p, opts, Regenerated(charset, pool, opts.length, o), o, round + 1, fuel - 1)
  }

  // ---------------------------------------------------------------------
  // `generate_password`

  /** What `generate_password` returns or raises, given `fuel` recursive
      calls of the pattern pass. */
  function Generate(p: PersonalInfo, opts: PasswordOptions, o: Oracle, fuel: nat): Result<string>
    requires ValidOracle(o)
  {
    if !IsComplete(p) then Err(IncompleteInfo)
    else
      var charset := CharacterSet(opts);
      if charset == [] then Err(NoCharacterTypes)
      else
        var drawn := Drawn(charset, EntropyPool(p, o, 0), opts.length);
        Avoided(p, opts, Repaired(opts, charset, drawn, o), o, 1, fuel)
  }

  // ---------------------------------------------------------------------
  // The class

  class SecurePasswordGenerator {
    var personalInfo: PersonalInfo
    var options: PasswordOptions

    /** `SecurePasswordGenerator()`: empty personal details, default options. */
    constructor()
      ensures personalInfo == EmptyPersonalInfo() && options == DefaultOptions()
    {
      personalInfo := EmptyPersonalInfo();
      options := DefaultOptions();
    }

    method SetPersonalInfo(info: PersonalInfo)
      modifies this
      ensures personalInfo == info && options == old(options)
    {
      personalInfo := info;
    }

    method SetOptions(opts: PasswordOptions)
      modifies this
      ensures options == opts && personalInfo == old(personalInfo)
    {
      options := opts;
    }

    /** `_create_entropy_pool`, as the `round`-th pool of this run. */
    method CreateEntropyPool(o: Oracle, round: nat) returns (pool: string)
      requires ValidOracle(o)
      ensures pool == EntropyPool(personalInfo, o, round)
      ensures |pool| == PoolLength && IsHexString(pool)
    {
      var secureRandom := o.tokenBytes(round);
      var personalSeed := EntropySeed(personalInfo, o);
      var start := secureRandom + AsciiBytes(personalSeed);
      var combined := start;
      for k := 0 to MixingRounds
        invariant combined == Mixed(start, k, o)
      {
        combined := o.sha512(combined);
      }
      pool := Hex(combined);
    }

    /** `_ensure_character_requirements`: queues one character of every
        enabled class the password lacks, then writes each over a random
        position. */
    method EnsureCharacterRequirements(password: string, charset: string, o: Oracle) returns (r: string)
      ensures r == Repaired(options, charset, password, o)
    {
      var required: string := [];
      if options.includeLowercase {
        var lowercase := ClassMembers(charset, Lowercase);
        if lowercase != [] && !Present(password, lowercase) {
          required := required + [Choose(lowercase, o.choose(Lowercase))];
        }
      }
      ghost var lower := Requirement(options, charset, password, o, Lowercase);
      assert required == lower;
      if options.includeUppercase {
        var uppercase := ClassMembers(charset, Uppercase);
        if uppercase != [] && !Present(password, uppercase) {
          required := required + [Choose(uppercase, o.choose(Uppercase))];
        }
      }
      ghost var upper := Requirement(options, charset, password, o, Uppercase);
      assert required == lower + upper;
      if options.includeNumbers {
        var numbers := ClassMembers(charset, Number);
        if numbers != [] && !Present(password, numbers) {
          required := required + [Choose(numbers, o.choose(Number))];
        }
      }
      ghost var digits := Requirement(options, charset, password, o, Number);
      assert required == lower + upper + digits;
      if options.includeSpecial {
        var special := ClassMembers(charset, Symbol);
        if special != [] && !Present(password, special) {
          required := required + [Choose(special, o.choose(Symbol))];
        }
      }
      assert required == Required(options, charset, password, o);

      var passwordList := new char[|password|](i requires 0 <= i < |password| => password[i]);
      assert passwordList[..] == password;
      for j := 0 to |required|
        invariant passwordList[..] == Placed(password, required, o, j)
      {
        if passwordList.Length > 0 {
          var pos := Position(o, j, passwordList.Length);
          passwordList[pos] := required[j];
        }
      }
      r := passwordList[..];
    }

    /** The branch `_avoid_obvious_patterns` takes once a pattern is found:
        a new pool, then `options.length` characters picked through `hash`.
        With an empty alphabet the first `% len(charset)` fails. */
    method RegeneratePassword(o: Oracle, round: nat) returns (r: Result<string>)
      requires ValidOracle(o)
      ensures CharacterSet(options) == [] && LoopCount(options.length) > 0 ==> r == Err(ZeroDivision)
      ensures CharacterSet(options) != [] || LoopCount(options.length) == 0 ==>
                r == Ok(Regenerated(CharacterSet(options), EntropyPool(personalInfo, o, round), options.length, o))
    {
      var opts := options;
      var charset := GetCharacterSet(opts);
      var newPassword: string := [];
      var entropyPool := CreateEntropyPool(o, round);
      var n := LoopCount(opts.length);
      if charset == [] && n > 0 {
        return Err(ZeroDivision);
      }
      for i := 0 to n
        invariant newPassword == Regenerated(charset, entropyPool, opts.length, o)[..i]
      {
        var entropyIndex := o.hash(entropyPool + NatToString(i + 100)) % |charset|;
        PrefixStep(Regenerated(charset, entropyPool, opts.length, o), i);
        newPassword := newPassword + [charset[entropyIndex % |charset|]];
      }
      assert newPassword == Regenerated(charset, entropyPool, opts.length, o);
      return Ok(newPassword);
    }

    /** `_avoid_obvious_patterns`: while some personal pattern shows up in
        the lower-cased password, draws a fresh password from a new pool. */
    method AvoidObviousPatterns(password: string, o: Oracle, round: nat, fuel: nat) returns (r: Result<string>)
      requires ValidOracle(o)
      ensures r == Avoided(personalInfo, options, password, o, round, fuel)
      decreases fuel
    {
      var passwordLower := Lower(password);
      var patterns := Patterns(personalInfo);
      // The first pattern found in the lower-cased password, if any.
      var k := 0;
      while k < |patterns| && !Occurs(patterns[k], passwordLower)
        invariant 0 <= k <= |patterns|
        invariant forall j | 0 <= j < k :: !Occurs(patterns[j], passwordLower)
      {
        k := k + 1;
      }
      if k == |patterns| {
        return Ok(password);
      }
      assert Occurs(patterns[k], Lower(password));
      if fuel == 0 {
        return Err(RecursionDepthExceeded);
      }
      var regenerated := RegeneratePassword(o, round);
      if regenerated.Err? {
        return regenerated;
      }
      r := AvoidObviousPatterns(regenerated.value, o, round + 1, fuel - 1);
    }

    /** `generate_password` */
    method GeneratePassword(o: Oracle, fuel: nat) returns (r: Result<string>)
      requires ValidOracle(o)
      ensures r == Generate(personalInfo, options, o, fuel)
    {
      var info, opts := personalInfo, options;
      if !IsComplete(info) {
        return Err(IncompleteInfo);
      }
      var charset := GetCharacterSet(opts);
      if charset == [] {
        return Err(NoCharacterTypes);
      }
      var entropyPool := CreateEntropyPool(o, 0);
      var password: string := [];
      for i := 0 to LoopCount(opts.length)
        invariant password == Drawn(charset, entropyPool, opts.length)[..i]
      {
        var segment := PySlice(entropyPool, i * 4, (i + 1) * 4);
        if |segment| < 4 {
          var j := i % (|entropyPool| - 4);
          segment := PySlice(entropyPool, j, j + 4);
        }
        SegmentIsWindow(entropyPool, i);
        assert segment == Window(entropyPool, i);
        var charIndex := HexValue(segment) % |charset|;
        PrefixStep(Drawn(charset, entropyPool, opts.length), i);
        password := password + [charset[charIndex]];
      }
      assert password == Drawn(charset, entropyPool, opts.length);
      password := EnsureCharacterRequirements(password, charset, o);
      r := AvoidObviousPatterns(password, o, 1, fuel);
    }
  }
}
