/** Models of the Python `str`, `bytes` and `int` built-ins that the password
    engine relies on: `strip`, `lower`, substring test `in`, slicing,
    comprehension filters, `str(int)`, `bytes.hex()` and `int(s, 16)`, and the
    constants of Python's `string` module. */
module PyStr {

  newtype byte = x: int | 0 <= x < 256

  // ---------------------------------------------------------------------
  // Constants of Python's `string` module

  /** The `n` consecutive code points from `first` on. */
  function CharRange(first: char, n: nat): (r: string)
    requires first as int + n <= 0xD800
    ensures |r| == n
    ensures forall i | 0 <= i < n :: r[i] as int == first as int + i
  {
    seq(n, i requires 0 <= i < n => (first as int + i) as char)
  }

  /** `string.ascii_lowercase`, `string.ascii_uppercase`, `string.digits` */
  const AsciiLowercase: string := CharRange('a', 26)
  const AsciiUppercase: string := CharRange('A', 26)
  const Digits: string := CharRange('0', 10)

  /** The ranges spell the Python constants. */
  lemma ConstantsSpelled()
    ensures AsciiLowercase == "abcdefghijklmnopqrstuvwxyz"
    ensures AsciiUppercase == "ABCDEFGHIJKLMNOPQRSTUVWXYZ"
    ensures Digits == "0123456789"
  {
  }

  predicate IsAsciiLower(c: char) { 'a' <= c <= 'z' }
  predicate IsAsciiUpper(c: char) { 'A' <= c <= 'Z' }
  predicate IsAsciiDigit(c: char) { '0' <= c <= '9' }

  lemma AsciiLowercaseMembers(c: char)
    ensures c in AsciiLowercase <==> IsAsciiLower(c)
  {
    if IsAsciiLower(c) {
      assert AsciiLowercase[c as int - 'a' as int] == c;
    }
  }

  lemma AsciiUppercaseMembers(c: char)
    ensures c in AsciiUppercase <==> IsAsciiUpper(c)
  {
    if IsAsciiUpper(c) {
      assert AsciiUppercase[c as int - 'A' as int] == c;
    }
  }

  lemma DigitsMembers(c: char)
    ensures c in Digits <==> IsAsciiDigit(c)
  {
    if IsAsciiDigit(c) {
      assert Digits[c as int - '0' as int] == c;
    }
  }

  /** No element occurs twice. */
  predicate Distinct<T(==)>(s: seq<T>) {
    forall i, j | 0 <= i < j < |s| :: s[i] != s[j]
  }

  lemma AsciiLowercaseDistinct()
    ensures Distinct(AsciiLowercase)
  {
  }

  lemma AsciiUppercaseDistinct()
    ensures Distinct(AsciiUppercase)
  {
  }

  lemma DigitsDistinct()
    ensures Distinct(Digits)
  {
  }

  // ---------------------------------------------------------------------
  // Comprehension filters: `[x for x in s if f(x)]`, `''.join(c for c in s if f(c))`

  function Keep<T>(s: seq<T>, f: T -> bool): (r: seq<T>)
    ensures |r| <= |s|
    ensures forall i | 0 <= i < |r| :: r[i] in s && f(r[i])
    ensures forall i | 0 <= i < |s| :: f(s[i]) ==> s[i] in r
  {
    if s == [] then [] else (if f(s[0]) then [s[0]] else []) + Keep(s[1..], f)
  }

  /** Filtering is a homomorphism over concatenation: kept elements keep
      their relative order. */
  lemma {:induction false} KeepAppend<T>(a: seq<T>, b: seq<T>, f: T -> bool)
    ensures Keep(a + b, f) == Keep(a, f) + Keep(b, f)
  {
    if a == [] {
      assert a + b == b;
    } else {
      assert (a + b)[1..] == a[1..] + b;
      KeepAppend(a[1..], b, f);
    }
  }

  /** Filtering a single element keeps it exactly when it passes. */
  lemma KeepOne<T>(x: T, f: T -> bool)
    ensures Keep([x], f) == if f(x) then [x] else []
  {
    assert [x][1..] == [];
  }

  lemma {:induction false} KeepDistinct<T>(s: seq<T>, f: T -> bool)
    requires Distinct(s)
    ensures Distinct(Keep(s, f))
  {
    if s != [] {
      KeepDistinct(s[1..], f);
      var rest := Keep(s[1..], f);
      assert s[0] !in s[1..];
      assert s[0] !in rest;
    }
  }

  /** One more element of a prefix. */
  lemma PrefixStep<T>(s: seq<T>, i: nat)
    requires i < |s|
    ensures s[..i + 1] == s[..i] + [s[i]]
  {
  }

  lemma DistinctRegroup<T>(a: seq<T>, b: seq<T>, c: seq<T>, d: seq<T>)
    requires Distinct(a + (b + (c + d)))
    ensures Distinct(a + b + c + d)
  {
    assert a + b + c + d == a + (b + (c + d));
  }

  lemma DistinctAppend<T>(a: seq<T>, b: seq<T>)
    requires Distinct(a) && Distinct(b)
    requires forall x | x in a :: x !in b
    ensures Distinct(a + b)
  {
    forall i, j | 0 <= i < j < |a + b|
      ensures (a + b)[i] != (a + b)[j]
    {
      if i < |a| && |a| <= j {
        assert (a + b)[i] in a;
        assert (a + b)[j] == b[j - |a|];
      }
    }
  }

  // ---------------------------------------------------------------------
  // `str.strip()` with no argument: removes the characters for which
  // `str.isspace()` holds from both ends.

  predicate IsPySpace(c: char) {
    ('\t' <= c <= '\r') || ('\U{1C}' <= c <= '\U{1F}') || c == ' ' ||
    c == '\U{85}' || c == '\U{A0}' || c == '\U{1680}' ||
    ('\U{2000}' <= c <= '\U{200A}') || c == '\U{2028}' || c == '\U{2029}' ||
    c == '\U{202F}' || c == '\U{205F}' || c == '\U{3000}'
  }

  /** `str.lstrip()`: drops the longest all-whitespace prefix. */
  function TrimStart(s: string): (r: string)
    ensures |r| <= |s| && r == s[|s| - |r|..]
    ensures forall i | 0 <= i < |s| - |r| :: IsPySpace(s[i])
    ensures r != [] ==> !IsPySpace(r[0])
  {
    if s != [] && IsPySpace(s[0]) then TrimStart(s[1..]) else s
  }

  /** `str.rstrip()`: drops the longest all-whitespace suffix. */
  function TrimEnd(s: string): (r: string)
    ensures |r| <= |s| && r == s[..|r|]
    ensures forall i | |r| <= i < |s| :: IsPySpace(s[i])
    ensures r != [] ==> !IsPySpace(r[|r| - 1])
  {
    if s != [] && IsPySpace(s[|s| - 1]) then TrimEnd(s[..|s| - 1]) else s
  }

  /** No whitespace at either end. */
  predicate IsStripped(t: string) {
    t != [] ==> !IsPySpace(t[0]) && !IsPySpace(t[|t| - 1])
  }

  /** `str.strip()`: the text between the leading and the trailing run of
      whitespace. */
  function Strip(s: string): (r: string)
    ensures IsStripped(r)
    ensures r <= TrimStart(s)
    ensures forall i | |r| <= i < |TrimStart(s)| :: IsPySpace(TrimStart(s)[i])
  {
    var t := TrimStart(s);
    var r := TrimEnd(t);
    assert r != [] ==> r[0] == t[0];
    r
  }

  /** `s.strip()` is empty exactly when `s` consists of whitespace only. */
  lemma StripEmptyIff(s: string)
    ensures Strip(s) == [] <==> forall i | 0 <= i < |s| :: IsPySpace(s[i])
  {
    var t := TrimStart(s);
    if Strip(s) == [] {
      assert t == [];
    } else {
      var r := Strip(s);
      assert r[0] == t[0] == s[|s| - |t|];
    }
  }

  /** Text with no whitespace at its ends is left alone. */
  lemma StripOfStripped(t: string)
    requires IsStripped(t)
    ensures Strip(t) == t
  {
    if t != [] {
      assert TrimStart(t) == t;
    }
  }

  /** Stripping twice is stripping once. */
  lemma StripIdempotent(s: string)
    ensures Strip(Strip(s)) == Strip(s)
  {
    StripOfStripped(Strip(s));
  }

  // ---------------------------------------------------------------------
  // `str.lower()` (ASCII letters only; see README)

  function LowerChar(c: char): char {
    if IsAsciiUpper(c) then (c as int + 32) as char else c
  }

  function Lower(s: string): (r: string)
    ensures |r| == |s|
    ensures forall i | 0 <= i < |s| :: r[i] == LowerChar(s[i])
  {
    seq(|s|, i requires 0 <= i < |s| => LowerChar(s[i]))
  }

  /** Lower-casing leaves no upper-case ASCII letter and changes only
      upper-case letters, so it is idempotent. */
  lemma LowerProperties(s: string)
    ensures forall i | 0 <= i < |s| :: !IsAsciiUpper(Lower(s)[i])
    ensures forall i | 0 <= i < |s| :: !IsAsciiUpper(s[i]) ==> Lower(s)[i] == s[i]
    ensures Lower(Lower(s)) == Lower(s)
  {
  }

  // ---------------------------------------------------------------------
  // Substring test `p in s`

  predicate OccursAt(p: string, s: string, i: int) {
    0 <= i && i + |p| <= |s| && s[i..i + |p|] == p
  }

  predicate Occurs(p: string, s: string)
    decreases |s|
  {
    |p| <= |s| && (s[..|p|] == p || Occurs(p, s[1..]))
  }

  /** The scanning definition agrees with "some window of `s` equals `p`". */
  lemma {:induction false} OccursIff(p: string, s: string)
    ensures Occurs(p, s) <==> exists i :: OccursAt(p, s, i)
    decreases |s|
  {
    if |p| <= |s| && s[..|p|] == p {
      assert OccursAt(p, s, 0);
    } else if |p| <= |s| {
        assert |s| > 0;
        OccursIff(p, s[1..]);
        if Occurs(p, s[1..]) {
          var i :| OccursAt(p, s[1..], i);
          assert s[1..][i..i + |p|] == s[i + 1..i + 1 + |p|];
          assert OccursAt(p, s, i + 1);
        } else {
          forall i | OccursAt(p, s, i) ensures false {
            assert i != 0;
            assert s[1..][i - 1..i - 1 + |p|] == s[i..i + |p|];
            assert OccursAt(p, s[1..], i - 1);
          }
        }
    } else {
      forall i | OccursAt(p, s, i) ensures false { }
    }
  }

  // ---------------------------------------------------------------------
  // Slicing `s[a:b]` for non-negative bounds: both bounds are clamped to
  // the length, and an inverted range gives the empty string.

  function Min(a: int, b: int): int { if a <= b then a else b }

  function PySlice(s: string, a: nat, b: nat): (r: string)
    ensures a <= b <= |s| ==> r == s[a..b]
    ensures a <= |s| <= b ==> r == s[a..]
    ensures |s| <= a ==> r == []
    ensures |r| <= |s| && forall c | c in r :: c in s
  {
    var lo := Min(a, |s|);
    var hi := Min(b, |s|);
    if lo <= hi then s[lo..hi] else []
  }

  // ---------------------------------------------------------------------
  // `str(n)` for a natural number, and its inverse

  function DigitChar(d: nat): char
    requires d < 10
  {
    ('0' as int + d) as char
  }

  function NatToString(n: nat): (r: string)
    ensures r != [] && forall c | c in r :: IsAsciiDigit(c)
    ensures r[0] == '0' ==> r == "0"
  {
    if n < 10 then [DigitChar(n)] else NatToString(n / 10) + [DigitChar(n % 10)]
  }

  function DecimalValue(s: string): nat
    requires forall c | c in s :: IsAsciiDigit(c)
  {
    if s == [] then 0
    else
      var last := s[|s| - 1];
      assert last in s && IsAsciiDigit(last);
      DecimalValue(s[..|s| - 1]) * 10 + (last as int - '0' as int)
  }

  /** `int(str(n)) == n`; in particular `str` is injective. */
  lemma {:induction false} DecimalRoundTrip(n: nat)
    ensures DecimalValue(NatToString(n)) == n
  {
    var r := NatToString(n);
    if n >= 10 {
      DecimalRoundTrip(n / 10);
      assert r[..|r| - 1] == NatToString(n / 10);
    }
  }

  lemma NatToStringInjective(m: nat, n: nat)
    requires NatToString(m) == NatToString(n)
    ensures m == n
  {
    DecimalRoundTrip(m);
    DecimalRoundTrip(n);
  }

  // ---------------------------------------------------------------------
  // `bytes.hex()` and `int(s, 16)`

  const HexDigits: string := "0123456789abcdef"

  predicate IsHexDigit(c: char) { '0' <= c <= '9' || 'a' <= c <= 'f' }

  predicate IsHexString(s: string) { forall i | 0 <= i < |s| :: IsHexDigit(s[i]) }

  function HexDigitValue(c: char): (v: nat)
    requires IsHexDigit(c)
    ensures v < 16
  {
    if c <= '9' then c as int - '0' as int else c as int - 'a' as int + 10
  }

  lemma HexDigitRoundTrip(d: nat)
    requires d < 16
    ensures IsHexDigit(HexDigits[d]) && HexDigitValue(HexDigits[d]) == d
  {
  }

  /** The hex digit of a byte's high and low nibble. */
  function HighDigit(b: byte): (c: char)
    ensures IsHexDigit(c) && HexDigitValue(c) == b as int / 16
  {
    HexDigitRoundTrip(b as int / 16);
    HexDigits[b as int / 16]
  }

  function LowDigit(b: byte): (c: char)
    ensures IsHexDigit(c) && HexDigitValue(c) == b as int % 16
  {
    HexDigitRoundTrip(b as int % 16);
    HexDigits[b as int % 16]
  }

  /** `bytes.hex()`: two lower-case hex digits per byte, high nibble first. */
  function Hex(bytes: seq<byte>): (r: string)
    ensures |r| == 2 * |bytes|
  {
    seq(2 * |bytes|, i requires 0 <= i < 2 * |bytes| =>
      if i % 2 == 0 then HighDigit(bytes[i / 2]) else LowDigit(bytes[i / 2]))
  }

  lemma HexIsHexString(bytes: seq<byte>)
    ensures IsHexString(Hex(bytes))
  {
  }

  /** The two hex digits of byte `k` sit at positions `p = 2k` and `p + 1`. */
  lemma HexAt(bytes: seq<byte>, k: nat, p: nat)
    requires k < |bytes| && p == 2 * k
    ensures Hex(bytes)[p] == HighDigit(bytes[k])
    ensures Hex(bytes)[p + 1] == LowDigit(bytes[k])
  {
    assert p % 2 == 0 && p / 2 == k;
    assert (p + 1) % 2 == 1 && (p + 1) / 2 == k;
  }

  /** `int(s, 16)` for a string of lower-case hex digits. */
  function HexValue(s: string): (v: nat)
    requires IsHexString(s)
  {
    if s == [] then 0
    else HexValue(s[..|s| - 1]) * 16 + HexDigitValue(s[|s| - 1])
  }

  /** Four hex digits read back as a number below 65536. */
  lemma HexValueOfFour(s: string)
    requires |s| == 4 && IsHexString(s)
    ensures HexValue(s) == ((HexDigitValue(s[0]) * 16 + HexDigitValue(s[1])) * 16
                            + HexDigitValue(s[2])) * 16 + HexDigitValue(s[3])
    ensures HexValue(s) < 65536
  {
    var v0, v1 := HexDigitValue(s[0]), HexDigitValue(s[1]);
    var v2, v3 := HexDigitValue(s[2]), HexDigitValue(s[3]);
    assert s[..1][..0] == [] && s[..1][0] == s[0];
    assert HexValue(s[..1]) == v0;
    assert s[..2][..1] == s[..1] && s[..2][1] == s[1];
    assert HexValue(s[..2]) == v0 * 16 + v1;
    assert s[..3][..2] == s[..2] && s[..3][2] == s[2];
    assert HexValue(s[..3]) == (v0 * 16 + v1) * 16 + v2;
    assert s[..4] == s;
  }

  /** `int(bytes([b]).hex(), 16) == b`. */
  lemma HexByteRoundTrip(b: byte)
    ensures IsHexString(Hex([b])) && HexValue(Hex([b])) == b as int
  {
    var h := Hex([b]);
    HexAt([b], 0, 0);
    assert h[..1] == [HighDigit(b)] && h[..1][..0] == [];
    assert HexValue(h[..1]) == b as int / 16;
    assert h[..2] == h;
  }

  lemma HexWordOfBytes(w: string, hi: byte, lo: byte)
    requires w == [HighDigit(hi), LowDigit(hi), HighDigit(lo), LowDigit(lo)]
    ensures IsHexString(w)
    ensures HexValue(w) == hi as int * 256 + lo as int
  {
    HexValueOfFour(w);
  }

  lemma HexWordAt(bytes: seq<byte>, i: nat, p: nat)
    requires i + 1 < |bytes| && p == 2 * i
    ensures Hex(bytes)[p..p + 4] ==
              [HighDigit(bytes[i]), LowDigit(bytes[i]), HighDigit(bytes[i + 1]), LowDigit(bytes[i + 1])]
  {
    var h := Hex(bytes);
    HexAt(bytes, i, p);
    HexAt(bytes, i + 1, p + 2);
    SliceOfFour(h, p, HighDigit(bytes[i]), LowDigit(bytes[i]), HighDigit(bytes[i + 1]), LowDigit(bytes[i + 1]));
  }

  lemma SliceOfFour(h: string, p: nat, a: char, b: char, c: char, d: char)
    requires p + 4 <= |h| && h[p] == a && h[p + 1] == b && h[p + 2] == c && h[p + 3] == d
    ensures h[p..p + 4] == [a, b, c, d]
  {
  }

  lemma HexWordValue(bytes: seq<byte>, k: nat)
    requires 2 * k + 1 < |bytes|
    ensures HexValue(Hex(bytes)[4 * k..4 * k + 4]) == bytes[2 * k] as int * 256 + bytes[2 * k + 1] as int
  {
    HexWordAt(bytes, 2 * k, 4 * k);
    HexIsHexString(bytes);
    HexWordOfBytes(Hex(bytes)[4 * k..4 * k + 4], bytes[2 * k], bytes[2 * k + 1]);
  }
}
