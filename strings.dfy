/** String helpers shared by the extractor and the encoder: ASCII lower-casing, substring search,
    `sep.join(parts)`, occurrence counting, fixed-width decimal digits and lexicographic order. */
module Strings {

  // ---------------------------------------------------------------- case

  /** ASCII lower-casing of one character (the model's stand-in for `str.lower`). */
  function LowerChar(c: char): char {
    if 'A' <= c <= 'Z' then (c as int - 'A' as int + 'a' as int) as char else c
  }

  function AsciiLower(s: string): (r: string)
    ensures |r| == |s|
    ensures forall i :: 0 <= i < |s| ==> r[i] == LowerChar(s[i])
  {
    seq(|s|, i requires 0 <= i < |s| => LowerChar(s[i]))
  }

  /** No letter `A`..`Z` is left. */
  predicate HasNoUpper(s: string) {
    forall i :: 0 <= i < |s| ==> !('A' <= s[i] <= 'Z')
  }

  /** Lower-casing leaves no upper-case letter. */
  lemma AsciiLowerHasNoUpper(s: string)
    ensures HasNoUpper(AsciiLower(s))
  {
  }

  /** Lower-casing twice is lower-casing once. */
  lemma AsciiLowerIdempotent(s: string)
    ensures AsciiLower(AsciiLower(s)) == AsciiLower(s)
  {
  }

  /** `major.lower() == "yes"` holds exactly for the eight spellings of "yes" in any case. */
  lemma AsciiLowerIsYes(m: string)
    ensures AsciiLower(m) == "yes" <==>
            |m| == 3 && (m[0] == 'y' || m[0] == 'Y') && (m[1] == 'e' || m[1] == 'E') && (m[2] == 's' || m[2] == 'S')
  {
    if AsciiLower(m) == "yes" {
      assert AsciiLower(m)[0] == 'y' && AsciiLower(m)[1] == 'e' && AsciiLower(m)[2] == 's';
    }
  }

  // ---------------------------------------------------------------- substring search

  predicate IsPrefix(p: string, s: string) {
    |p| <= |s| && s[..|p|] == p
  }

  /** `p in s` for Python strings: `p` occurs in `s` at some offset. */
  predicate Contains(s: string, p: string)
    decreases |s|
  {
    IsPrefix(p, s) || (|s| > 0 && Contains(s[1..], p))
  }

  /** Contains agrees with the offset-based definition of a substring. */
  lemma {:induction false} ContainsIffOccurs(s: string, p: string)
    ensures Contains(s, p) <==> exists k :: 0 <= k <= |s| && IsPrefix(p, s[k..])
    decreases |s|
  {
    assert s[0..] == s;
    if IsPrefix(p, s) {
      assert IsPrefix(p, s[0..]);
    } else if |s| > 0 {
      ContainsIffOccurs(s[1..], p);
      if Contains(s[1..], p) {
        var k :| 0 <= k <= |s[1..]| && IsPrefix(p, s[1..][k..]);
        assert s[1..][k..] == s[k + 1..];
      }
      if exists k :: 0 <= k <= |s| && IsPrefix(p, s[k..]) {
        var k :| 0 <= k <= |s| && IsPrefix(p, s[k..]);
        assert k > 0;
        assert s[1..][k - 1..] == s[k..];
      }
    }
  }

  // ---------------------------------------------------------------- join

  /** `sep.join(parts)`. */
  function Join(parts: seq<string>, sep: string): string {
    if |parts| == 0 then ""
    else if |parts| == 1 then parts[0]
    else parts[0] + sep + Join(parts[1..], sep)
  }

  /** The parts that are not empty, in order (`[p for p in parts if p]`). */
  function NonEmpty(parts: seq<string>): (r: seq<string>)
    ensures |r| <= |parts|
    ensures forall i :: 0 <= i < |r| ==> r[i] != ""
  {
    if |parts| == 0 then []
    else (if parts[0] != "" then [parts[0]] else []) + NonEmpty(parts[1..])
  }

  /** The filter works part by part: filtering a concatenation concatenates the filtered pieces. */
  lemma {:induction false} NonEmptyAppend(a: seq<string>, b: seq<string>)
    ensures NonEmpty(a + b) == NonEmpty(a) + NonEmpty(b)
  {
    if |a| == 0 {
      assert a + b == b;
    } else {
      var head := if a[0] != "" then [a[0]] else [];
      assert (a + b)[0] == a[0] && (a + b)[1..] == a[1..] + b;
      assert NonEmpty(a + b) == head + NonEmpty(a[1..] + b);
      assert NonEmpty(a) == head + NonEmpty(a[1..]);
      NonEmptyAppend(a[1..], b);
    }
  }

  /** One part is kept exactly when it is non-empty. */
  lemma NonEmptySingle(p: string)
    ensures NonEmpty([p]) == if p != "" then [p] else []
  {
    assert [p][1..] == [];
  }

  function TotalLength(parts: seq<string>): nat {
    if |parts| == 0 then 0 else |parts[0]| + TotalLength(parts[1..])
  }

  /** A join of non-empty parts is empty only when there are no parts, starts with the first part,
      ends with the last one, and is as long as the parts plus one separator per gap between neighbours. */
  lemma {:induction false} JoinShape(parts: seq<string>, sep: string)
    requires forall i :: 0 <= i < |parts| ==> parts[i] != ""
    ensures Join(parts, sep) == "" <==> |parts| == 0
    ensures |parts| > 0 ==> IsPrefix(parts[0], Join(parts, sep))
    ensures |parts| > 0 ==>
      var j := Join(parts, sep);
      var last := parts[|parts| - 1];
      |last| <= |j| && j[|j| - |last|..] == last
    ensures |parts| > 0 ==> |Join(parts, sep)| == TotalLength(parts) + (|parts| - 1) * |sep|
  {
    if |parts| > 1 {
      JoinShape(parts[1..], sep);
      var j := Join(parts, sep);
      var rest := Join(parts[1..], sep);
      assert j == parts[0] + sep + rest;
      assert j[..|parts[0]|] == parts[0];
      var last := parts[|parts| - 1];
      assert parts[1..][|parts[1..]| - 1] == last;
      assert j[|j| - |last|..] == rest[|rest| - |last|..];
    }
  }

  /** Joining one part gives that part, with no separator. */
  lemma JoinSingle(p: string, sep: string)
    ensures Join([p], sep) == p
  {
  }

  /** Joining two non-empty runs of parts joins each run and puts one separator between them; with
      JoinSingle this fixes every join: each part in order, one separator between neighbours. */
  lemma {:induction false} JoinAppend(a: seq<string>, b: seq<string>, sep: string)
    requires |a| > 0 && |b| > 0
    ensures Join(a + b, sep) == Join(a, sep) + sep + Join(b, sep)
    decreases |a|
  {
    assert (a + b)[0] == a[0] && (a + b)[1..] == a[1..] + b;
    if |a| == 1 {
      assert a[1..] + b == b;
    } else {
      JoinAppend(a[1..], b, sep);
    }
  }

  // ---------------------------------------------------------------- counting

  function CountOf<T(==)>(s: seq<T>, x: T): nat {
    if |s| == 0 then 0 else (if s[0] == x then 1 else 0) + CountOf(s[1..], x)
  }

  lemma {:induction false} CountOfAppend<T>(a: seq<T>, b: seq<T>, x: T)
    ensures CountOf(a + b, x) == CountOf(a, x) + CountOf(b, x)
  {
    if |a| > 0 {
      assert (a + b)[1..] == a[1..] + b;
      CountOfAppend(a[1..], b, x);
    } else {
      assert a + b == b;
    }
  }

  // ---------------------------------------------------------------- decimal digits

  function Pow10(n: nat): (r: nat)
    ensures r >= 1
  {
    if n == 0 then 1 else 10 * Pow10(n - 1)
  }

  predicate IsDigit(c: char) {
    '0' <= c <= '9'
  }

  predicate AllDigits(s: string) {
    forall i :: 0 <= i < |s| ==> IsDigit(s[i])
  }

  function DigitValue(c: char): (v: nat)
    requires IsDigit(c)
    ensures v < 10
  {
    c as int - '0' as int
  }

  function DigitChar(v: nat): (c: char)
    requires v < 10
    ensures IsDigit(c) && DigitValue(c) == v
  {
    ('0' as int + v) as char
  }

  /** The number a string of decimal digits denotes (leading zeros allowed, as `int()` reads them):
      ten times the number its leading digits denote, plus its last digit. */
  function NatOf(s: string): (r: nat)
    requires AllDigits(s)
    ensures r < Pow10(|s|)
  {
    if |s| == 0 then 0
    else 10 * NatOf(s[..|s| - 1]) + DigitValue(s[|s| - 1])
  }

  /** `n` written with exactly `width` decimal digits, zero-padded on the left (as `%04d`, `%02d`). */
  function Digits(n: nat, width: nat): (r: string)
    requires n < Pow10(width)
    ensures |r| == width && AllDigits(r)
  {
    if width == 0 then "" else Digits(n / 10, width - 1) + [DigitChar(n % 10)]
  }

  /** The digits read back as the number they were written from. */
  lemma {:induction false} DigitsValue(n: nat, width: nat)
    requires n < Pow10(width)
    ensures NatOf(Digits(n, width)) == n
  {
    if width > 0 {
      var r := Digits(n, width);
      DigitsValue(n / 10, width - 1);
      assert r[..|r| - 1] == Digits(n / 10, width - 1);
    }
  }

  /** A digit string is the zero-padded spelling of the number it denotes, at its own width. */
  lemma {:induction false} DigitsOfNatOf(t: string)
    requires AllDigits(t)
    ensures Digits(NatOf(t), |t|) == t
    decreases |t|
  {
    if |t| > 0 {
      var n := |t| - 1;
      DigitsOfNatOf(t[..n]);
      assert NatOf(t) / 10 == NatOf(t[..n]) && NatOf(t) % 10 == DigitValue(t[n]);
      assert t == t[..n] + [t[n]];
    }
  }

  /** Digit strings of one length denote one number only when they are the same string. */
  lemma {:induction false} NatOfInjective(s: string, t: string)
    requires |s| == |t| && AllDigits(s) && AllDigits(t) && NatOf(s) == NatOf(t)
    ensures s == t
    decreases |s|
  {
    if |s| > 0 {
      var n := |s| - 1;
      NatOfInjective(s[..n], t[..n]);
      assert s == s[..n] + [s[n]] && t == t[..n] + [t[n]];
    }
  }

  // ---------------------------------------------------------------- lexicographic order

  /** Python's `<` on strings: code-point-wise, a proper prefix comes first. */
  predicate LexLess(s: string, t: string)
    decreases |s|
  {
    (|s| == 0 && |t| > 0) ||
    (|s| > 0 && |t| > 0 && (s[0] < t[0] || (s[0] == t[0] && LexLess(s[1..], t[1..]))))
  }

  /** For digit strings of one length, string order is numeric order. */
  lemma {:induction false} DigitOrderIsNumericOrder(s: string, t: string)
    requires |s| == |t| && AllDigits(s) && AllDigits(t)
    requires NatOf(s) < NatOf(t)
    ensures LexLess(s, t)
    decreases |s|
  {
    var n := |s| - 1;
    var s', t' := s[..n], t[..n];
    assert s == s' + [s[n]] && t == t' + [t[n]];
    if NatOf(s') < NatOf(t') {
      DigitOrderIsNumericOrder(s', t');
      LexLessAppend(s', t', [s[n]], [t[n]]);
    } else {
      NatOfInjective(s', t');
      assert LexLess([s[n]], [t[n]]);
      LexLessCommonPrefix(s', [s[n]], [t[n]]);
    }
  }

  /** Order of equal-length prefixes decides the order of the concatenations. */
  lemma {:induction false} LexLessAppend(s: string, t: string, u: string, v: string)
    requires |s| == |t| && LexLess(s, t)
    ensures LexLess(s + u, t + v)
    decreases |s|
  {
    if s[0] == t[0] {
      assert (s + u)[1..] == s[1..] + u && (t + v)[1..] == t[1..] + v;
      LexLessAppend(s[1..], t[1..], u, v);
    }
  }

  /** A common prefix does not change the order. */
  lemma {:induction false} LexLessCommonPrefix(p: string, u: string, v: string)
    requires LexLess(u, v)
    ensures LexLess(p + u, p + v)
    decreases |p|
  {
    if |p| > 0 {
      assert (p + u)[1..] == p[1..] + u && (p + v)[1..] == p[1..] + v;
      LexLessCommonPrefix(p[1..], u, v);
    } else {
      assert p + u == u && p + v == v;
    }
  }

  /** String order is a strict order: never both ways, and never from a string to itself. */
  lemma {:induction false} LexLessAsymmetric(s: string, t: string)
    requires LexLess(s, t)
    ensures !LexLess(t, s) && s != t
    decreases |s|
  {
    if |s| > 0 && s[0] == t[0] {
      LexLessAsymmetric(s[1..], t[1..]);
    }
  }
}
