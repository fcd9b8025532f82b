/**
 * The Go string and number routines the server relies on: decimal printing
 * and parsing (strconv.Itoa/Atoi, the zero padding of time.Format),
 * strings.Split, strings.ToLower, strings.TrimSpace, strings.TrimSuffix and
 * filepath.Ext, plus int64 wrap-around. A Go string is a `string` of runes.
 */
module Text {
  import opened Wrappers

  const TwoTo63: int := 0x8000_0000_0000_0000
  const MaxInt64: int := TwoTo63 - 1
  const MinInt64: int := -TwoTo63

  /** Two's-complement wrap-around of an int64 operation whose exact value is x. */
  function Wrap64(x: int): (w: int)
    ensures MinInt64 <= w <= MaxInt64
    ensures MinInt64 <= x <= MaxInt64 ==> w == x
    ensures (w - x) % (2 * TwoTo63) == 0
  {
    (x + TwoTo63) % (2 * TwoTo63) - TwoTo63
  }

  // ---------------------------------------------------------------------
  // Decimal digits
  // ---------------------------------------------------------------------

  predicate IsDigit(c: char) {
    '0' <= c <= '9'
  }

  predicate AllDigits(s: string) {
    forall i :: 0 <= i < |s| ==> IsDigit(s[i])
  }

  function DigitChar(d: nat): (c: char)
    requires d < 10
    ensures IsDigit(c)
  {
    ('0' as int + d) as char
  }

  function DigitValue(c: char): (d: nat)
    requires IsDigit(c)
    ensures d < 10
  {
    c as int - '0' as int
  }

  lemma DigitRoundTrip(d: nat)
    requires d < 10
    ensures DigitValue(DigitChar(d)) == d
  {
  }

  /** The decimal form of n without leading zeros (strconv.Itoa, JavaScript's toString). */
  function NatToString(n: nat): (s: string)
    ensures 1 <= |s|
    ensures AllDigits(s)
    decreases n
  {
    if n < 10 then [DigitChar(n)] else NatToString(n / 10) + [DigitChar(n % 10)]
  }

  /** The value of the digit string ds read left to right, starting from acc. */
  function DigitsValue(ds: string, acc: nat): nat
    requires AllDigits(ds)
    decreases |ds|
  {
    if ds == [] then acc else DigitsValue(ds[1..], acc * 10 + DigitValue(ds[0]))
  }

  lemma {:induction false} DigitsValueAppend(a: string, b: string, acc: nat)
    requires AllDigits(a) && AllDigits(b)
    ensures AllDigits(a + b)
    ensures DigitsValue(a + b, acc) == DigitsValue(b, DigitsValue(a, acc))
    decreases |a|
  {
    if a == [] {
      assert a + b == b;
    } else {
      assert (a + b)[1..] == a[1..] + b;
      DigitsValueAppend(a[1..], b, acc * 10 + DigitValue(a[0]));
    }
  }

  lemma {:induction false} DigitsValueAtLeast(ds: string, acc: nat)
    requires AllDigits(ds)
    ensures DigitsValue(ds, acc) >= acc
    decreases |ds|
  {
    if ds != [] {
      DigitsValueAtLeast(ds[1..], acc * 10 + DigitValue(ds[0]));
    }
  }

  /** How many decimal digits s starts with. */
  function DigitRun(s: string): (n: nat)
    ensures n <= |s| && AllDigits(s[..n])
    ensures n < |s| ==> !IsDigit(s[n])
  {
    if s == [] || !IsDigit(s[0]) then 0
    else
      var n := 1 + DigitRun(s[1..]);
      assert s[..n] == [s[0]] + s[1..][..n - 1];
      n
  }

  /** Reading back what NatToString printed gives the number again. */
  lemma {:induction false} NatToStringValue(n: nat)
    ensures DigitsValue(NatToString(n), 0) == n
    decreases n
  {
    if n < 10 {
      DigitRoundTrip(n);
    } else {
      NatToStringValue(n / 10);
      DigitRoundTrip(n % 10);
      DigitsValueAppend(NatToString(n / 10), [DigitChar(n % 10)], 0);
    }
  }

  lemma NatToStringInjective(a: nat, b: nat)
    requires NatToString(a) == NatToString(b)
    ensures a == b
  {
    NatToStringValue(a);
    NatToStringValue(b);
  }

  function Pow10(k: nat): (p: nat)
    ensures p >= 1
  {
    if k == 0 then 1 else 10 * Pow10(k - 1)
  }

  lemma {:induction false} NatToStringLength(n: nat, w: nat)
    requires 1 <= w && n < Pow10(w)
    ensures |NatToString(n)| <= w
    decreases n
  {
    if n >= 10 {
      assert Pow10(1) == 10;
      assert n / 10 < Pow10(w - 1);
      NatToStringLength(n / 10, w - 1);
    }
  }

  function Zeros(k: nat): (z: string)
    ensures |z| == k && AllDigits(z)
  {
    seq(k, _ => '0')
  }

  lemma {:induction false} ZerosValue(k: nat)
    ensures DigitsValue(Zeros(k), 0) == 0
  {
    if k > 0 {
      assert Zeros(k)[1..] == Zeros(k - 1);
      ZerosValue(k - 1);
    }
  }

  /** n in decimal, left-padded with '0' to at least w digits, as time.Format pads its fields. */
  function Pad(n: nat, w: nat): (s: string)
    ensures AllDigits(s)
  {
    var digits := NatToString(n);
    if |digits| < w then Zeros(w - |digits|) + digits else digits
  }

  /** A field padded to its width has exactly that width and reads back as the number. */
  lemma PadRoundTrip(n: nat, w: nat)
    requires 1 <= w && n < Pow10(w)
    ensures |Pad(n, w)| == w
    ensures DigitsValue(Pad(n, w), 0) == n
  {
    var digits := NatToString(n);
    NatToStringLength(n, w);
    NatToStringValue(n);
    if |digits| < w {
      ZerosValue(w - |digits|);
      DigitsValueAppend(Zeros(w - |digits|), digits, 0);
    }
  }

  /**
   * strconv.Atoi on a 64-bit platform: an optional sign, one or more decimal
   * digits and nothing else, whose value fits in an int64; None otherwise.
   */
  function Atoi(s: string): (r: Option<int>)
    ensures r.Some? ==> MinInt64 <= r.value <= MaxInt64
  {
    var neg := |s| > 0 && s[0] == '-';
    var body := if |s| > 0 && (s[0] == '-' || s[0] == '+') then s[1..] else s;
    if body == [] || !AllDigits(body) then None
    else
      var v := DigitsValue(body, 0);
      var x: int := if neg then -(v as int) else v;
      if MinInt64 <= x <= MaxInt64 then Some(x) else None
  }

  /** Atoi reads back every non-negative int64 printed in decimal. */
  lemma AtoiNatToString(n: nat)
    requires n <= MaxInt64
    ensures Atoi(NatToString(n)) == Some(n)
  {
    var s := NatToString(n);
    NatToStringValue(n);
    assert IsDigit(s[0]);
  }

  /** Atoi reads back every non-positive int64 printed with a minus sign. */
  lemma AtoiNegated(n: nat)
    requires n <= TwoTo63
    ensures Atoi("-" + NatToString(n)) == Some(-(n as int))
  {
    var s := NatToString(n);
    NatToStringValue(n);
    assert ("-" + s)[1..] == s;
  }

  /** strconv.Itoa: decimal digits, with a minus sign when negative. */
  function IntToString(i: int): (s: string)
    ensures i >= 0 ==> s == NatToString(i)
    ensures i < 0 ==> s == "-" + NatToString(-i)
  {
    if i < 0 then "-" + NatToString(-i) else NatToString(i)
  }

  /** Atoi reads back every int64 that Itoa prints. */
  lemma AtoiIntToString(i: int)
    requires MinInt64 <= i <= MaxInt64
    ensures Atoi(IntToString(i)) == Some(i)
  {
    if i < 0 {
      AtoiNegated(-i);
    } else {
      AtoiNatToString(i);
    }
  }

  // ---------------------------------------------------------------------
  // Case, space and splitting
  // ---------------------------------------------------------------------

  /**
   * unicode.ToLower restricted to what can matter when the result is compared
   * with ASCII text: A-Z, and the two non-ASCII letters whose lower case is
   * ASCII (KELVIN SIGN -> 'k', LATIN CAPITAL I WITH DOT ABOVE -> 'i').
   */
  function ToLowerChar(c: char): char {
    if 'A' <= c <= 'Z' then (c as int + 32) as char
    else if c == '\U{212A}' then 'k'
    else if c == '\U{0130}' then 'i'
    else c
  }

  function ToLower(s: string): (r: string)
    ensures |r| == |s|
    ensures forall i :: 0 <= i < |s| ==> r[i] == ToLowerChar(s[i])
  {
    seq(|s|, i requires 0 <= i < |s| => ToLowerChar(s[i]))
  }

  /** A character that ToLower leaves as it is. */
  predicate IsLower(c: char) {
    ToLowerChar(c) == c
  }

  /**
   * The characters that lower to l: l itself, its ASCII capital, and the
   * KELVIN SIGN for 'k' or the dotted capital I for 'i'.
   */
  predicate LowersTo(c: char, l: char) {
    || c == l
    || ('a' <= l <= 'z' && c as int == l as int - 32)
    || (l == 'k' && c == '\U{212A}')
    || (l == 'i' && c == '\U{0130}')
  }

  /** Lowering is idempotent and leaves no ASCII capital. */
  lemma ToLowerIdempotent(s: string)
    ensures ToLower(ToLower(s)) == ToLower(s)
    ensures forall i :: 0 <= i < |s| ==> IsLower(ToLower(s)[i]) && !('A' <= ToLower(s)[i] <= 'Z')
  {
    var r := ToLower(s);
    forall i | 0 <= i < |s|
      ensures IsLower(r[i]) && !('A' <= r[i] <= 'Z')
    {
      assert r[i] == ToLowerChar(s[i]);
    }
  }

  /**
   * Comparing ToLower(s) with an already lower-case t, as the checksum
   * comparison does, accepts exactly the texts whose every character is the
   * matching one of t or a character that lowers to it.
   */
  lemma ToLowerMatches(s: string, t: string)
    requires forall i :: 0 <= i < |t| ==> IsLower(t[i])
    ensures ToLower(s) == t <==> |s| == |t| && forall i :: 0 <= i < |s| ==> LowersTo(s[i], t[i])
  {
    if |s| == |t| && forall i :: 0 <= i < |s| ==> LowersTo(s[i], t[i]) {
      forall i | 0 <= i < |s|
        ensures ToLower(s)[i] == t[i]
      {
        assert LowersTo(s[i], t[i]) && IsLower(t[i]);
      }
    }
  }

  /** unicode.IsSpace. */
  predicate IsSpace(c: char) {
    c == '\t' || c == '\n' || c == '\U{000B}' || c == '\U{000C}' || c == '\r' || c == ' '
    || c == '\U{0085}' || c == '\U{00A0}' || c == '\U{1680}'
    || ('\U{2000}' <= c <= '\U{200A}') || c == '\U{2028}' || c == '\U{2029}'
    || c == '\U{202F}' || c == '\U{205F}' || c == '\U{3000}'
  }

  function TrimLeft(s: string): (r: string)
    ensures r == [] || !IsSpace(r[0])
    ensures |r| <= |s| && r == s[|s| - |r|..]
  {
    if s != [] && IsSpace(s[0]) then TrimLeft(s[1..]) else s
  }

  function TrimRight(s: string): (r: string)
    ensures r == [] || !IsSpace(r[|r| - 1])
    ensures |r| <= |s| && r == s[..|r|]
  {
    if s != [] && IsSpace(s[|s| - 1]) then TrimRight(s[..|s| - 1]) else s
  }

  /** strings.TrimSpace. */
  function TrimSpace(s: string): string {
    TrimRight(TrimLeft(s))
  }

  /** Index of the first occurrence of c in s. */
  function IndexOf(s: string, c: char): (i: nat)
    requires c in s
    ensures i < |s| && s[i] == c && c !in s[..i]
  {
    if s[0] == c then 0 else 1 + IndexOf(s[1..], c)
  }

  /** strings.Split with a one-character separator. */
  function Split(s: string, sep: char): (parts: seq<string>)
    ensures |parts| >= 1
    decreases |s|
  {
    if sep !in s then [s]
    else
      var i := IndexOf(s, sep);
      [s[..i]] + Split(s[i + 1..], sep)
  }

  /** The first occurrence is the only index with c there and none before it. */
  lemma {:induction false} IndexOfUnique(s: string, c: char, j: nat)
    requires j < |s| && s[j] == c && c !in s[..j]
    ensures IndexOf(s, c) == j
    decreases j
  {
    if j > 0 {
      assert s[0] in s[..j];
      assert s[1..][..j - 1] == s[..j][1..];
      IndexOfUnique(s[1..], c, j - 1);
    }
  }

  /** Splitting text that starts with a separator-free field peels that field off. */
  lemma SplitCons(a: string, sep: char, b: string)
    requires sep !in a
    ensures Split(a + [sep] + b, sep) == [a] + Split(b, sep)
  {
    var s := a + [sep] + b;
    assert s[..|a|] == a;
    IndexOfUnique(s, sep, |a|);
    assert s[|a| + 1..] == b;
  }

  function IsSuffix(suffix: string, s: string): bool {
    |suffix| <= |s| && s[|s| - |suffix|..] == suffix
  }

  /** strings.TrimSuffix. */
  function TrimSuffix(s: string, suffix: string): (r: string)
    ensures IsSuffix(suffix, s) ==> r + suffix == s
    ensures !IsSuffix(suffix, s) ==> r == s
  {
    if IsSuffix(suffix, s) then s[..|s| - |suffix|] else s
  }

  /** The loop of filepath.Ext, scanning s[..i] backwards. */
  function ExtFrom(path: string, i: nat): (ext: string)
    requires i <= |path|
    decreases i
  {
    if i == 0 || path[i - 1] == '/' then ""
    else if path[i - 1] == '.' then path[i - 1..]
    else ExtFrom(path, i - 1)
  }

  /** filepath.Ext: the suffix from the last '.' of the final path element, or "". */
  function Ext(path: string): string {
    ExtFrom(path, |path|)
  }

  lemma {:induction false} ExtFromShape(path: string, i: nat)
    requires i <= |path|
    requires forall k :: i <= k < |path| ==> path[k] != '.' && path[k] != '/'
    ensures var ext := ExtFrom(path, i);
      && IsSuffix(ext, path)
      && (ext == [] || (ext[0] == '.' && forall k :: 1 <= k < |ext| ==> ext[k] != '.' && ext[k] != '/'))
      && (ext == [] && '/' !in path[..i] ==> '.' !in path[..i])
    decreases i
  {
    if i > 0 && path[i - 1] != '/' && path[i - 1] != '.' {
      ExtFromShape(path, i - 1);
      if ExtFrom(path, i) == [] && '/' !in path[..i] {
        assert path[..i] == path[..i - 1] + [path[i - 1]];
      }
    }
  }

  /**
   * The extension is empty or starts at a '.', holds no further '.' or '/',
   * ends the path, and is empty only when the last element has no '.'.
   */
  lemma ExtShape(path: string)
    ensures var ext := Ext(path);
      && IsSuffix(ext, path)
      && (ext == [] || (ext[0] == '.' && forall k :: 1 <= k < |ext| ==> ext[k] != '.' && ext[k] != '/'))
      && ('/' !in path && ext == [] ==> '.' !in path)
  {
    ExtFromShape(path, |path|);
    assert path[..|path|] == path;
  }
}
