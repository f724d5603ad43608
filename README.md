# PyPass password engine in Dafny

This project models the password engine of PyPass (`src/password_generator.py`) and proves properties of the model:

- **`PasswordOptions.get_character_set`** builds the alphabet.
  - It concatenates the lowercase letters, the uppercase letters, the digits and the 26-symbol set, in that order, each only when its flag is set.
  - When `exclude_ambiguous` is set, it then drops `0Ol1I`.
- **`PersonalInfo`** strips its six text fields on construction. `is_complete` holds when all six are non-empty.
- **`SecurePasswordGenerator`** keeps the current `PersonalInfo` and `PasswordOptions` in two fields that its setters replace. `generate_password` runs these steps:
  1. It rejects incomplete details, then an empty alphabet.
  2. It builds a 128-hex-digit entropy pool from 64 random bytes and the SHA-256 of the details. It mixes them with 1000 rounds of SHA-512.
  3. It draws one character per position. Each comes from a 4-digit window of the pool, reduced modulo the alphabet size.
  4. `_ensure_character_requirements` queues one character for every enabled class that the password lacks. It writes each queued character over a random position.
  5. `_avoid_obvious_patterns` regenerates the whole password from a fresh pool while a personal pattern shows up in its lowercased form. The patterns are the name and city prefixes and the birth date.
- **`assess_strength`** scores a password from 0 to 100 and maps the score to one of five labels:
  - a length term, `min(30, 2·len)`;
  - a variety term, ten points per class present;
  - an entropy term, `min(30, 6·entropy)`;
  - a cap at 100.

The files:

- `python_str.dfy` (module `PyStr`) models the Python built-ins the engine relies on:
  - `str.strip`, `str.lower` and the substring test;
  - slicing;
  - comprehension filters;
  - `str(int)`;
  - `bytes.hex()` and `int(s, 16)`;
  - the `string` constants.
- `password_options.dfy` (module `Options`): the options record, the alphabet as a function, `GetCharacterSet` as the accumulating method, and the proofs about the alphabet.
- `personal_info.dfy` (module `Personal`): the personal details record and `is_complete`.
- `password_generator.dfy` (module `Generator`) has two parts:
  - every pass written as a function of its inputs;
  - the class `SecurePasswordGenerator`, whose methods carry the source's loops and its in-place array update. Each method is proved equal to the corresponding function.
- `generator_properties.dfy` (module `GeneratorProperties`): what the passes guarantee, and where they fall short.
- `strength.dfy` (module `Strength`): the character count that begins `calculate_entropy`, and the score.

### Randomness, hashing and recursion

The source draws from `secrets`, hashes with `hashlib` and calls the built-in `hash`, all from code outside this model. The model receives them as one `Oracle` value, a record of functions:

- `tokenBytes(r)`: the 64 random bytes of the `r`-th pool made during one call.
- `sha256` and `sha512`: the two digests. SHA-512 is assumed to return 64 bytes.
- `choose(k)`: the raw draw behind `secrets.choice` for class `k`.
- `below(j)`: the raw draw behind `secrets.randbelow` for the `j`-th queued character.
- `hash`: the built-in string hash.

`_avoid_obvious_patterns` calls itself with no bound, so Python stops it at its recursion limit. The model gives it a `fuel` count. When the fuel runs out, the result is `Err(RecursionDepthExceeded)`.

The model also has an error `ZeroDivision`: `_avoid_obvious_patterns` computes `% len(charset)` on an alphabet that can be empty.

### What the code does not guarantee

- The output is not reproducible. Every pool mixes in 64 fresh random bytes (`src/password_generator.py:88`).
- Nothing checks `options.length`. A negative length gives the empty password (`Generator.LoopCount`).
- Only Python's recursion limit stops `_avoid_obvious_patterns` (`src/password_generator.py:170`).
- The repair pass does not ensure that every enabled class is present:
  - It writes queued characters over random positions, so it can overwrite the only member of a class that was already there. `GeneratorProperties.RepairCanLoseClass` exhibits this: "aB" with lowercase, uppercase and digits enabled loses its `a`.
  - Regenerated passwords are never repaired.
  - `RepairedAddsMissingClass` proves that the missing class is added when the random positions are pairwise different.

### Behaviour the proofs bring out

- From position 32 on, the aligned window `pool[4i:4i+4]` runs past the 128-digit pool, and the code falls back to the window starting at `i % 124`. At positions 32, 36, …, 120 that window starts where the window of position `i/4` did, so the character repeats an earlier one (`DrawnRepeats`).
- The birth-date pattern keeps its case, while the password is lowercased before the search. A birth date with an uppercase letter can never match (`UppercasePatternNeverMatches`).
- The regeneration loop reduces the hash modulo the alphabet size twice. The model keeps both reductions.

## Model

| member | source | states |
|---|---|---|
| PyStr.ConstantsSpelled | src/password_generator.py:29-34 | the three character ranges spell `string.ascii_lowercase`, `string.ascii_uppercase` and `string.digits` |
| PyStr.Strip | src/password_generator.py:52-57 | `strip()` leaves no whitespace at either end; the result is the text after the leading whitespace with only whitespace removed from its end |
| PyStr.StripEmptyIff | src/password_generator.py:52-57 | a stripped field is empty exactly when the original consists of whitespace only |
| PyStr.StripIdempotent | src/password_generator.py:52-57 | stripping twice is stripping once |
| PyStr.LowerProperties | src/password_generator.py:139 | `lower()` leaves no uppercase ASCII letter, changes nothing else, and is idempotent |
| PyStr.OccursIff | src/password_generator.py:157 | the substring test `pattern in password_lower` holds exactly when some window of the text equals the pattern |
| PyStr.PySlice | src/password_generator.py:190-193 | Python slicing clamps both bounds to the length: it is the Dafny slice inside the bounds, the tail past the end, and empty from the end on |
| PyStr.DecimalRoundTrip | src/password_generator.py:166 | `str(i + 100)` is decimal notation: reading its digits back gives the number |
| PyStr.NatToStringInjective | src/password_generator.py:166 | different positions give different suffixes `str(i + 100)` |
| PyStr.HexIsHexString | src/password_generator.py:100 | `digest.hex()` consists of hex digits only, two per byte |
| PyStr.HexByteRoundTrip | src/password_generator.py:100 | `int(b.hex(), 16)` of a single byte gives the byte back |
| PyStr.HexWordValue | src/password_generator.py:196 | `int(segment, 16)` of the aligned 4-digit window `k` of `digest.hex()` is bytes `2k` and `2k+1` read big-endian |
| Options.GetCharacterSet | src/password_generator.py:25-43 | the accumulating method returns exactly `CharacterSet(o)`: the enabled blocks in the order lower, upper, digits, symbols, with the ambiguous characters filtered out when asked |
| Options.ClassCharsMembers | src/password_generator.py:29-36 | each class constant holds exactly the characters of its class |
| Options.ClassesDisjoint | src/password_generator.py:29-36 | no character belongs to two classes |
| Options.ClassCharsDistinct | src/password_generator.py:29-36 | no class constant, including the 26 symbols, repeats a character |
| Options.BlockMembers | src/password_generator.py:29-36 | a class's block holds exactly the characters of that class when its flag is set, and nothing when it is not |
| Options.BlocksDisjoint | src/password_generator.py:29-36 | a character of one block is in no other block |
| Options.CharacterSetMembers | src/password_generator.py:27-41 | a character is in the alphabet exactly when some enabled class holds it and it is not an excluded ambiguous character |
| Options.NoAmbiguousSurvives | src/password_generator.py:38-41 | with `exclude_ambiguous` set, no character of `0Ol1I` remains |
| Options.CharacterSetOrder | src/password_generator.py:27-41 | the alphabet is the four blocks in order, each filtered on its own when `exclude_ambiguous` is set and untouched when it is not |
| Options.CharacterSetDistinct | src/password_generator.py:27-41 | the alphabet repeats no character |
| Options.CharacterSetEmptyIff | src/password_generator.py:27-43 | the alphabet is empty exactly when all four class flags are off; filtering never empties an enabled class |
| Options.ClassMembersOfCharacterSet | src/password_generator.py:107-123 | `[c for c in charset if c in <class>]` holds exactly the class's characters when the class is enabled, minus the ambiguous ones when excluded |
| Options.ClassMembersNonEmptyIff | src/password_generator.py:107-123 | that list is non-empty exactly when the class is enabled |
| Personal.NewPersonalInfo | src/password_generator.py:49-57 | every stored field has no surrounding whitespace |
| Personal.EmptyPersonalInfo | src/password_generator.py:49-62 | the default details (all fields `""`) are not complete |
| Personal.StripNonEmptyIff | src/password_generator.py:52-62 | a stripped field is non-empty exactly when the argument has a non-whitespace character |
| Personal.CompleteIff | src/password_generator.py:49-62 | freshly built details are complete exactly when each of the six arguments has a non-whitespace character |
| Personal.RebuildIdentity | src/password_generator.py:49-57 | building details again from stored fields changes nothing |
| Generator.LoopCount | src/password_generator.py:188 | `range(n)` runs `n` times for `n ≥ 0` and never for negative `n` |
| Generator.EntropySeed | src/password_generator.py:64-67 | `get_entropy_seed` is a string of hex digits |
| Generator.Mixed | src/password_generator.py:97-98 | after at least one SHA-512 round the bytes are a 64-byte digest |
| Generator.EntropyPool | src/password_generator.py:85-100 | every pool is exactly 128 hex digits |
| Generator.WindowStart | src/password_generator.py:190-193 | the chosen window, aligned or fallback, lies inside the pool |
| Generator.Window | src/password_generator.py:190-193 | every window is exactly four characters, and hex digits when the pool is |
| Generator.SegmentIsWindow | src/password_generator.py:190-193 | the aligned slice when it has four characters, and the fallback slice otherwise, both equal the model's window |
| Generator.DrawnChar | src/password_generator.py:196-197 | each drawn character is a member of the alphabet |
| Generator.Drawn | src/password_generator.py:187-197 | the initial draw has exactly `LoopCount(options.length)` characters, all from the alphabet |
| Generator.Choose | src/password_generator.py:110 | `secrets.choice` returns a member of the list |
| Generator.Requirement | src/password_generator.py:107-125 | each class block queues at most one character |
| Generator.Position | src/password_generator.py:131 | `secrets.randbelow(n)` is a valid position |
| Generator.Placed | src/password_generator.py:128-132 | the replacement loop keeps the password's length |
| Generator.NamePrefix | src/password_generator.py:143-149 | a name or city of at least four characters gives its first four characters lowercased, and a shorter one gives `""` |
| Generator.RegeneratedChar | src/password_generator.py:165-167 | each regenerated character is a member of the alphabet |
| Generator.Regenerated | src/password_generator.py:160-167 | the regenerated password has `LoopCount(options.length)` characters, all from the alphabet |
| Generator.SecurePasswordGenerator.constructor | src/password_generator.py:73-75 | a new generator holds empty details and default options |
| Generator.SecurePasswordGenerator.SetPersonalInfo | src/password_generator.py:77-79 | replaces the details and leaves the options alone |
| Generator.SecurePasswordGenerator.SetOptions | src/password_generator.py:81-83 | replaces the options and leaves the details alone |
| Generator.SecurePasswordGenerator.CreateEntropyPool | src/password_generator.py:85-100 | the 1000-round loop yields `EntropyPool` of this round: 128 hex digits |
| Generator.SecurePasswordGenerator.EnsureCharacterRequirements | src/password_generator.py:102-134 | the four blocks and the in-place writes to `password_list` yield `Repaired`, whose properties are proved in `GeneratorProperties` |
| Generator.SecurePasswordGenerator.RegeneratePassword | src/password_generator.py:157-167 | fails with a division by zero exactly when the alphabet is empty and characters are due; otherwise returns the regenerated password from a fresh pool |
| Generator.SecurePasswordGenerator.AvoidObviousPatterns | src/password_generator.py:136-172 | the scan and the recursion yield `Avoided`, whose properties are proved in `GeneratorProperties` |
| Generator.SecurePasswordGenerator.GeneratePassword | src/password_generator.py:174-205 | the checks, the draw loop and the two passes yield `Generate`, whose properties are proved in `GeneratorProperties` |
| GeneratorProperties.DrawnFromDigest | src/password_generator.py:188-197 | for positions below 32, character `i` is decided by digest bytes `2i` and `2i+1`, big-endian, modulo the alphabet size |
| GeneratorProperties.DrawnRepeats | src/password_generator.py:190-197 | at positions 32, 36, …, 120 the fallback window repeats the character drawn at position `i/4` |
| GeneratorProperties.RequirementFacts | src/password_generator.py:107-125 | a block queues a character exactly when its class is enabled, has members in the alphabet and none of them is in the password; the queued character is an alphabet member of that class |
| GeneratorProperties.RequiredMembers | src/password_generator.py:105-125 | at most four characters are queued, each from the alphabet and of a class that needed one |
| GeneratorProperties.RequiredHasClass | src/password_generator.py:105-125 | a class gets a queued character exactly when it needs one |
| GeneratorProperties.RepairedUnchanged | src/password_generator.py:102-134 | a password that already has every available enabled class is returned unchanged |
| GeneratorProperties.PlacedUntouched | src/password_generator.py:128-132 | a position no write chose keeps its original character |
| GeneratorProperties.PlacedLastWrite | src/password_generator.py:128-132 | the last write to a position decides its character |
| GeneratorProperties.PlacedFrom | src/password_generator.py:128-132 | every character afterwards is the original one or a queued one |
| GeneratorProperties.RepairedInCharset | src/password_generator.py:102-134 | the repair keeps the length, returns an empty password unchanged, and keeps every character in the alphabet |
| GeneratorProperties.RepairedAddsMissingClass | src/password_generator.py:102-134 | when the random positions are pairwise different, every class the password lacked is present afterwards |
| GeneratorProperties.LowerUpperPresent | src/password_generator.py:107-125 | with lower, upper and digits on, "aB" needs no lowercase, uppercase or symbol character |
| GeneratorProperties.DigitMissing | src/password_generator.py:117-120 | with the same options, "aB" needs a digit |
| GeneratorProperties.OnlyDigitQueued | src/password_generator.py:105-125 | with the same options, the queue for "aB" is a single digit |
| GeneratorProperties.RepairCanLoseClass | src/password_generator.py:127-132 | the repair can destroy a class that was present: "aB" has a lowercase letter, and the result when the digit lands on position 0 has none |
| GeneratorProperties.PatternsShape | src/password_generator.py:142-153 | at most four patterns, all at least three characters; a name or city contributes exactly when it has four characters or more, the birth date exactly when at least three remain without dashes |
| GeneratorProperties.NamePrefixLower | src/password_generator.py:139-149 | name and city patterns are lowercase, so the case of the password does not matter to them |
| GeneratorProperties.UppercasePatternNeverMatches | src/password_generator.py:139-157 | a pattern with an uppercase letter never occurs in the lowercased password |
| GeneratorProperties.AvoidedResult | src/password_generator.py:156-172 | a pattern-free input is returned unchanged; any returned password contains no pattern and is either the input or `options.length` alphabet characters |
| GeneratorProperties.AvoidedErrors | src/password_generator.py:156-172 | the pass fails only at the recursion limit, or by dividing by the size of an empty alphabet when characters are due |
| GeneratorProperties.AvoidedMoreFuel | src/password_generator.py:156-172 | a higher recursion limit does not change a result that was reached |
| GeneratorProperties.GenerateErrors | src/password_generator.py:174-205 | incomplete details are reported first, an empty alphabet second, and after both checks only the recursion limit can fail |
| GeneratorProperties.GenerateOk | src/password_generator.py:174-205 | a generated password comes from complete details, has `options.length` characters (none for a negative length), all from the alphabet, none ambiguous when those are excluded, and contains no personal pattern |
| Strength.CharFrequencies | src/password_generator.py:212-215 | the frequency map has exactly the password's characters as keys, each mapped to its number of occurrences |
| Strength.LengthScore | src/password_generator.py:236 | the length term is `2·len` up to a ceiling of 30 |
| Strength.VarietyScore | src/password_generator.py:240-249 | the variety term is a multiple of ten between 0 and 40 |
| Strength.EntropyScore | src/password_generator.py:253 | the entropy term is at most 30, and non-negative for a non-negative entropy |
| Strength.Capped | src/password_generator.py:257 | `min(100, score)`: the score itself when below 100, otherwise 100 |
| Strength.AssessStrength | src/password_generator.py:228-269 | an empty password gives ("Very Weak", 0.0), and the label always matches the returned score under the threshold ladder |
| Strength.LabelMonotone | src/password_generator.py:260-269 | a higher score never earns a weaker label |
| Strength.LabelBand | src/password_generator.py:260-269 | a label's threshold is at most the score, and every stronger label's threshold is above it |
| Strength.ScoreBounds | src/password_generator.py:230-257 | the score lies between 0 and 100, and a non-empty password scores at least 2 |
| Strength.VarietyCountsClasses | src/password_generator.py:240-249 | the variety term is ten times the number of classes present |
| Strength.FullMarks | src/password_generator.py:228-269 | fifteen characters or more from all four classes with entropy of at least 5 bits score 100, "Very Strong" |
| Strength.ShortLowercaseCapped | src/password_generator.py:228-269 | at most nine lowercase letters score at most 58 and never beat "Medium", whatever the entropy |

## Left out

- The cryptographic and random primitives (`secrets.token_bytes`, `secrets.choice`, `secrets.randbelow`, `hashlib.sha256`, `hashlib.sha512`, the built-in `hash`) are modelled as the fields of the `Oracle` parameter. Their values and distributions are not modelled.
- `calculate_entropy` is modelled only up to the frequency map (`Strength.CharFrequencies`). The Shannon sum uses floating-point `log2`, so `Strength.AssessStrength` takes the entropy as a real-number argument.
- Strength.AssessStrength: does not relate its entropy argument to the password, because `log2` is not modelled.
- Strength.AssessStrength: computes the score in exact real arithmetic, not in Python floats, so float rounding near a threshold is not modelled.
- Generator.Avoided: models Python's recursion limit as a `fuel` count. The exact depth at which Python raises is not modelled.
- The Unicode tables behind `str.lower`, `str.islower`, `str.isupper` and `str.isdigit` are not modelled. `PyStr.Lower` and the class tests cover ASCII letters and digits, which are the only characters the alphabet holds. Personal details with non-ASCII letters are lowercased only in their ASCII part.
- `str.strip` uses the whitespace set of `str.isspace` from the Unicode character database, written out as code-point ranges.
- `PasswordOptions` and `PersonalInfo` are modelled as values. The source's objects are mutable and shared by reference, so changing one after `set_options` or `set_personal_info` is not captured.
- Python strings are immutable. `password += c` is modelled as building a new sequence; `password_list` is a Dafny array updated in place.
- `src/gui.py`, `main.py`, `version.py`, `test_pypass.py` and `final_verification.py` are not part of this model. They cover the Tkinter front-end, clipboard timers, file dialogs, the launcher, version constants and print-based drivers.
