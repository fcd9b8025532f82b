/**
 * Go's time.Duration text: Duration.String, which writes the middle field
 * of a shared folder's name, and time.ParseDuration, which reads it back
 * when expired folders are swept. A duration is an int64 count of
 * nanoseconds.
 */
module Durations {
  import opened Wrappers
  import opened Text

  const Microsecond: nat := 1000
  const Millisecond: nat := 1_000_000
  const Second: nat := 1_000_000_000
  const Minute: nat := 60_000_000_000
  const Hour: nat := 3_600_000_000_000

  /** A count of nanoseconds an int64 can hold. */
  predicate InRange(d: int) {
    MinInt64 <= d <= MaxInt64
  }

  // ---------------------------------------------------------------------
  // Duration.String
  // ---------------------------------------------------------------------

  /**
   * The loop of fmtFrac: the last prec decimal places of v, least
   * significant first, printing from the first non-zero one on; returns the
   * printed digits (most significant first) and v with those places removed.
   */
  function FracDigits(v: nat, prec: nat, printing: bool): (r: (string, nat))
    ensures printing ==> |r.0| == prec
    ensures |r.0| <= prec && AllDigits(r.0)
  {
    if prec == 0 then ("", v)
    else
      var digit := v % 10;
      var p := printing || digit != 0;
      var (higher, q) := FracDigits(v / 10, prec - 1, p);
      (higher + (if p then [DigitChar(digit)] else ""), q)
  }

  /** fmtFrac: "." and the fraction without trailing zeros, or "" when the fraction is zero. */
  function FmtFrac(v: nat, prec: nat): (r: (string, nat))
    ensures '_' !in r.0
  {
    var (digits, q) := FracDigits(v, prec, false);
    (if digits == "" then "" else "." + digits, q)
  }

  /** Duration.String: e.g. "0s", "1.5µs", "45s", "2m5s", "48h0m0s", "-1m0s". */
  function DurationString(d: int): (s: string)
    requires InRange(d)
    ensures |s| >= 2 && s[|s| - 1] == 's'
    ensures s[0] == '-' <==> d < 0
    ensures '_' !in s
  {
    var u: nat := if d < 0 then -d else d;
    var body :=
      if u == 0 then "0s"
      else if u < Microsecond then NatToString(u) + "ns"
      else if u < Millisecond then
        var (f, q) := FmtFrac(u, 3);
        NatToString(q) + f + "\U{00B5}s"
      else if u < Second then
        var (f, q) := FmtFrac(u, 6);
        NatToString(q) + f + "ms"
      else
        var (f, secs) := FmtFrac(u, 9);
        SecondsString(secs, f);
    assert IsDigit(body[0]);
    if d < 0 then "-" + body else body
  }

  /** The h/m/s part of Duration.String for a whole number of seconds and a fraction text. */
  function SecondsString(secs: nat, frac: string): (s: string)
    ensures |s| >= 2 && s[|s| - 1] == 's' && IsDigit(s[0])
    ensures '_' !in frac ==> '_' !in s
  {
    var tail := NatToString(secs % 60) + frac + "s";
    var mins := secs / 60;
    if mins == 0 then tail
    else
      var withMinutes := NatToString(mins % 60) + "m" + tail;
      var hours := mins / 60;
      if hours == 0 then withMinutes else NatToString(hours) + "h" + withMinutes
  }

  // ---------------------------------------------------------------------
  // ParseDuration
  // ---------------------------------------------------------------------

  datatype DurationError = InvalidDuration | MissingUnit | UnknownUnit(unit: string)

  /**
   * How the source scales a fraction: uint64(float64(f) * (float64(unit) /
   * scale)) with scale = 10^k, for f read from k digits. Floating point is
   * outside the model, so the caller supplies this rounding.
   */
  type FracScale = (nat, nat, nat) -> nat

  /**
   * leadingInt: consume the leading digits of s onto x, failing once the
   * value could exceed 2^63.
   */
  function LeadingInt(s: string, x: nat): (r: Option<(nat, string)>)
    ensures r.Some? ==> r.value.0 <= TwoTo63 && |r.value.1| <= |s|
    ensures r.Some? ==> (r.value.1 == [] || !IsDigit(r.value.1[0]))
    ensures r.Some? && x <= TwoTo63 && |r.value.1| == |s| ==> r.value.0 == x
    decreases |s|
  {
    if s == [] || !IsDigit(s[0]) then
      if x <= TwoTo63 then Some((x, s)) else None
    else if x > TwoTo63 / 10 then None
    else
      var y := x * 10 + DigitValue(s[0]);
      if y > TwoTo63 then None else LeadingInt(s[1..], y)
  }

  /**
   * leadingFraction over the digits ds it consumes: the value of the digits
   * read before the value would overflow and how many were read (the power
   * of ten of the scale); later digits are skipped.
   */
  function LeadingFraction(ds: string, x: nat, k: nat, overflow: bool): (r: (nat, nat))
    requires AllDigits(ds)
    decreases |ds|
  {
    if ds == [] then (x, k)
    else
      var y := x * 10 + DigitValue(ds[0]);
      var stop := overflow || x > MaxInt64 / 10 || y > TwoTo63;
      LeadingFraction(ds[1..], if stop then x else y, if stop then k else k + 1, stop)
  }

  /** How many leading characters of s belong to a unit name: up to the next '.' or digit. */
  function UnitLength(s: string): (n: nat)
    ensures n <= |s|
    ensures forall i :: 0 <= i < n ==> s[i] != '.' && !IsDigit(s[i])
    ensures n < |s| ==> s[n] == '.' || IsDigit(s[n])
  {
    if s == [] || s[0] == '.' || IsDigit(s[0]) then 0 else 1 + UnitLength(s[1..])
  }

  /** unitMap: the nanoseconds of each unit name, looked up character by character. */
  function UnitValue(u: string): (r: Option<nat>)
    ensures r.Some? ==> 1 <= r.value <= Hour
  {
    if |u| == 1 then
      if u[0] == 's' then Some(Second)
      else if u[0] == 'm' then Some(Minute)
      else if u[0] == 'h' then Some(Hour)
      else None
    else if |u| == 2 && u[1] == 's' then
      if u[0] == 'n' then Some(1)
      else if u[0] == 'u' || u[0] == '\U{00B5}' || u[0] == '\U{03BC}' then Some(Microsecond)
      else if u[0] == 'm' then Some(Millisecond)
      else None
    else None
  }

  /** The unit names and values of time's unitMap. */
  const UnitTable: map<string, nat> :=
    map["ns" := 1, "us" := Microsecond, "\U{00B5}s" := Microsecond, "\U{03BC}s" := Microsecond,
        "ms" := Millisecond, "s" := Second, "m" := Minute, "h" := Hour]

  /** The lookup knows exactly the names of unitMap, with their values. */
  lemma UnitValueTable(u: string)
    ensures UnitValue(u).Some? <==> u in UnitTable
    ensures u in UnitTable ==> UnitValue(u) == Some(UnitTable[u])
  {
    if |u| == 1 {
      assert u == [u[0]];
    } else if |u| == 2 {
      assert u == [u[0], u[1]];
    }
  }

  /**
   * The unit of one component, after its digits: v whole units plus the
   * fraction f read from k digits, as unsigned nanoseconds at most 2^63;
   * returns them and the text after the unit.
   */
  function UnitPart(v: nat, f: nat, k: nat, s: string, scale: FracScale): (r: Result<(nat, string), DurationError>)
    ensures r.Success? ==> r.value.0 <= TwoTo63 && |r.value.1| < |s|
  {
    var i := UnitLength(s);
    if i == 0 then Failure(MissingUnit)
    else match UnitValue(s[..i])
      case None => Failure(UnknownUnit(s[..i]))
      case Some(unit) =>
        if v > TwoTo63 / unit then Failure(InvalidDuration)
        else
          // a uint64 sum: wraps at 2^64
          var total := if f > 0 then (v * unit + scale(f, k, unit)) % (2 * TwoTo63) else v * unit;
          if total > TwoTo63 then Failure(InvalidDuration) else Success((total, s[i..]))
  }

  /**
   * One component at the front of s: digits, an optional '.' and fraction
   * digits (digits on at least one side), then a unit.
   */
  function Component(s: string, scale: FracScale): (r: Result<(nat, string), DurationError>)
    ensures r.Success? ==> r.value.0 <= TwoTo63 && |r.value.1| < |s|
  {
    if s == [] || !(s[0] == '.' || IsDigit(s[0])) then Failure(InvalidDuration)
    else match LeadingInt(s, 0)
      case None => Failure(InvalidDuration)
      case Some((v, afterInt)) =>
        var hasDot := afterInt != [] && afterInt[0] == '.';
        var n := if hasDot then DigitRun(afterInt[1..]) else 0;
        var (f, k) := if hasDot then LeadingFraction(afterInt[1..][..n], 0, 0, false) else (0, 0);
        var afterFrac := if hasDot then afterInt[1 + n..] else afterInt;
        var pre := |afterInt| != |s|;
        var post := n > 0;
        if !pre && !post then Failure(InvalidDuration)
        else UnitPart(v, f, k, afterFrac, scale)
  }

  /** Something that reads one component from the front of a text. */
  type Reader = string -> Result<(nat, string), DurationError>

  /** A reader that always consumes something. */
  ghost predicate Consumes(read: Reader) {
    forall x :: read(x).Success? ==> |read(x).value.1| < |x|
  }

  /** Component as a reader. */
  function ComponentReader(scale: FracScale): (read: Reader)
    ensures Consumes(read)
  {
    x => Component(x, scale)
  }

  /**
   * The component loop of ParseDuration; d accumulates the unsigned total.
   * The total is a uint64: `d += v` wraps at 2^64 before the check that
   * refuses a total above 2^63.
   */
  function Components(s: string, d: nat, scale: FracScale): (r: Result<nat, DurationError>)
    requires d <= TwoTo63
    ensures r.Success? ==> r.value <= TwoTo63
  {
    ReadComponents(s, d, ComponentReader(scale))
  }

  /** The loop itself, over any reader that consumes text. */
  function ReadComponents(s: string, d: nat, read: Reader): (r: Result<nat, DurationError>)
    requires d <= TwoTo63 && Consumes(read)
    ensures r.Success? ==> r.value <= TwoTo63
    decreases |s|
  {
    if s == [] then Success(d)
    else
      var c := read(s);
      if c.Failure? then Failure(c.error)
      else if d + c.value.0 > TwoTo63 then
        // a component is at most 2^63, so the uint64 sum reaches 2^64 only
        // as 2^63 + 2^63, which wraps to 0 and passes the check
        if d + c.value.0 == 2 * TwoTo63 then ReadComponents(c.value.1, 0, read)
        else Failure(InvalidDuration)
      else ReadComponents(c.value.1, d + c.value.0, read)
  }

  /**
   * One pass of the loop: a component read off the front is added modulo
   * 2^64; a sum above 2^63 fails, otherwise the loop goes on after it.
   */
  lemma ReadStepWrapped(s: string, d: nat, v: nat, rest: string, read: Reader)
    requires Consumes(read)
    requires s != [] && d <= TwoTo63 && v <= TwoTo63
    requires read(s) == Success((v, rest))
    ensures (d + v) % (2 * TwoTo63) > TwoTo63 ==> ReadComponents(s, d, read) == Failure(InvalidDuration)
    ensures (d + v) % (2 * TwoTo63) <= TwoTo63 ==>
      ReadComponents(s, d, read) == ReadComponents(rest, (d + v) % (2 * TwoTo63), read)
  {
    assert d + v == 2 * TwoTo63 ==> (d + v) % (2 * TwoTo63) == 0;
    assert d + v < 2 * TwoTo63 ==> (d + v) % (2 * TwoTo63) == d + v;
  }

  /** Without a wrap, a component read off the front is added exactly. */
  lemma ReadStep(s: string, d: nat, v: nat, rest: string, next: nat, read: Reader)
    requires Consumes(read)
    requires s != [] && next == d + v <= TwoTo63
    requires read(s) == Success((v, rest))
    ensures ReadComponents(s, d, read) == ReadComponents(rest, next, read)
  {
  }

  /** The signed duration of an unsigned total: -2^63 is reachable only with a '-'. */
  function Signed(neg: bool, d: nat): (r: Result<int, DurationError>)
    requires d <= TwoTo63
    ensures r.Success? ==> InRange(r.value) && (r.value < 0 ==> neg)
    ensures r.Success? <==> neg || d <= MaxInt64
  {
    if neg then Success(-(d as int))
    else if d > MaxInt64 then Failure(InvalidDuration)
    else Success(d as int)
  }

  /**
   * time.ParseDuration: an optional sign, then "0" alone or one or more
   * components whose total fits an int64.
   */
  function ParseDuration(s: string, scale: FracScale): (r: Result<int, DurationError>)
    ensures r.Success? ==> InRange(r.value)
    ensures r.Success? && r.value < 0 ==> |s| > 0 && s[0] == '-'
  {
    var neg := s != [] && s[0] == '-';
    var body := if s != [] && (s[0] == '-' || s[0] == '+') then s[1..] else s;
    if body == "0" then Success(0)
    else if body == [] then Failure(InvalidDuration)
    else match Components(body, 0, scale)
      case Failure(e) => Failure(e)
      case Success(d) => Signed(neg, d)
  }

  // ---------------------------------------------------------------------
  // Round trip
  // ---------------------------------------------------------------------

  /** Reading the digits of a number that fits stops exactly where they end. */
  lemma {:induction false} LeadingIntDigits(ds: string, rest: string, x: nat)
    requires AllDigits(ds) && DigitsValue(ds, x) <= TwoTo63
    requires rest == [] || !IsDigit(rest[0])
    ensures LeadingInt(ds + rest, x) == Some((DigitsValue(ds, x), rest))
    decreases |ds|
  {
    if ds == [] {
      assert ds + rest == rest;
    } else {
      var s := ds + rest;
      var y := x * 10 + DigitValue(ds[0]);
      DigitsValueAtLeast(ds[1..], y);
      assert s[0] == ds[0] && IsDigit(s[0]);
      assert x <= TwoTo63 / 10 && y <= TwoTo63;
      assert s[1..] == ds[1..] + rest;
      assert LeadingInt(s, x) == LeadingInt(s[1..], y);
      LeadingIntDigits(ds[1..], rest, y);
    }
  }

  lemma LeadingIntNumber(n: nat, rest: string)
    requires n <= TwoTo63
    requires rest == [] || !IsDigit(rest[0])
    ensures LeadingInt(NatToString(n) + rest, 0) == Some((n, rest))
  {
    NatToStringValue(n);
    LeadingIntDigits(NatToString(n), rest, 0);
  }

  lemma MulLe(a: nat, b: nat, c: nat)
    requires a <= b
    ensures a * c <= b * c
  {
  }

  lemma MulDivLe(n: nat, unit: nat, bound: nat)
    requires unit >= 1 && n <= bound / unit
    ensures n * unit <= bound
  {
    MulLe(n, bound / unit, unit);
  }

  lemma {:induction false} UnitLengthOf(name: string, rest: string)
    requires forall i :: 0 <= i < |name| ==> name[i] != '.' && !IsDigit(name[i])
    requires rest == [] || IsDigit(rest[0])
    ensures UnitLength(name + rest) == |name|
  {
    if name == [] {
      assert name + rest == rest;
    } else {
      assert (name + rest)[1..] == name[1..] + rest;
      UnitLengthOf(name[1..], rest);
    }
  }

  /** A unit name followed by the next component: n whole units and no fraction. */
  lemma UnitPartWhole(n: nat, name: string, unit: nat, rest: string, scale: FracScale)
    requires UnitValue(name) == Some(unit) && |name| >= 1
    requires forall i :: 0 <= i < |name| ==> name[i] != '.' && !IsDigit(name[i])
    requires rest == [] || IsDigit(rest[0])
    requires n <= TwoTo63 / unit
    ensures UnitPart(n, 0, 0, name + rest, scale) == Success((n * unit, rest))
  {
    MulDivLe(n, unit, TwoTo63);
    UnitLengthOf(name, rest);
    assert (name + rest)[..|name|] == name && (name + rest)[|name|..] == rest;
  }

  /** One component "<n><unit>" is n units, and reading stops where the next one starts. */
  lemma ComponentNumber(n: nat, name: string, unit: nat, rest: string, scale: FracScale)
    requires UnitValue(name) == Some(unit) && |name| >= 1
    requires forall i :: 0 <= i < |name| ==> name[i] != '.' && !IsDigit(name[i])
    requires rest == [] || IsDigit(rest[0])
    requires n <= TwoTo63 / unit
    ensures Component(NatToString(n) + name + rest, scale) == Success((n * unit, rest))
  {
    var s := NatToString(n) + name + rest;
    var afterInt := name + rest;
    assert n <= TwoTo63 / unit <= TwoTo63;
    assert s == NatToString(n) + afterInt;
    LeadingIntNumber(n, afterInt);
    assert IsDigit(s[0]);
    assert afterInt[0] != '.';
    ComponentWhole(s, n, afterInt, scale);
    UnitPartWhole(n, name, unit, rest, scale);
  }

  /** A component whose digits are not followed by a '.' is its whole units. */
  lemma ComponentWhole(s: string, v: nat, afterInt: string, scale: FracScale)
    requires s != [] && IsDigit(s[0])
    requires LeadingInt(s, 0) == Some((v, afterInt))
    requires afterInt == [] || afterInt[0] != '.'
    ensures Component(s, scale) == UnitPart(v, 0, 0, afterInt, scale)
  {
  }

  /** One step of the component loop. */
  lemma ComponentsStep(s: string, d: nat, v: nat, rest: string, next: nat, scale: FracScale)
    requires s != [] && next == d + v <= TwoTo63
    requires Component(s, scale) == Success((v, rest))
    ensures Components(s, d, scale) == Components(rest, next, scale)
  {
    ReadStep(s, d, v, rest, next, ComponentReader(scale));
  }

  /** A component of n nanoseconds read off the front. */
  lemma NanosComponent(n: nat, rest: string, scale: FracScale)
    requires n <= TwoTo63
    requires rest == [] || IsDigit(rest[0])
    ensures Component(NatToString(n) + "ns" + rest, scale) == Success((n, rest))
  {
    ComponentNumber(n, "ns", 1, rest, scale);
  }

  /** One step of the component loop where the sum may wrap. */
  lemma ComponentsStepWrapped(s: string, d: nat, v: nat, rest: string, scale: FracScale)
    requires s != [] && d <= TwoTo63
    requires Component(s, scale) == Success((v, rest))
    ensures (d + v) % (2 * TwoTo63) > TwoTo63 ==> Components(s, d, scale) == Failure(InvalidDuration)
    ensures (d + v) % (2 * TwoTo63) <= TwoTo63 ==>
      Components(s, d, scale) == Components(rest, (d + v) % (2 * TwoTo63), scale)
  {
    ReadStepWrapped(s, d, v, rest, ComponentReader(scale));
  }

  /**
   * Two equal components of n nanoseconds: the second addition is taken
   * modulo 2^64 and then checked against 2^63.
   */
  lemma TwiceNanos(n: nat, scale: FracScale)
    requires n <= TwoTo63
    ensures var half := NatToString(n) + "ns";
      var sum := (n + n) % (2 * TwoTo63);
      Components(half + half, 0, scale) == if sum > TwoTo63 then Failure(InvalidDuration) else Success(sum)
  {
    var half := NatToString(n) + "ns";
    assert Component(half + half, scale) == Success((n, half)) by {
      assert IsDigit(half[0]);
      NanosComponent(n, half, scale);
      assert NatToString(n) + "ns" + half == half + half;
    }
    assert Component(half, scale) == Success((n, "")) by {
      NanosComponent(n, "", scale);
      assert NatToString(n) + "ns" + "" == half;
    }
    ComponentsStep(half + half, 0, n, half, n, scale);
    ComponentsStepWrapped(half, n, n, "", scale);
  }

  /** Text that starts with a digit and is not "0" is read by the component loop, without a sign. */
  lemma ParseUnsigned(body: string, scale: FracScale)
    requires body != [] && IsDigit(body[0]) && body != "0"
    ensures ParseDuration(body, scale) ==
      match Components(body, 0, scale)
      case Failure(e) => Failure(e)
      case Success(d) => Signed(false, d)
  {
  }

  /** Two components of 2^63 nanoseconds each: the uint64 total reaches 2^64 and wraps to 0. */
  lemma ComponentsWrapToZero(n: nat, scale: FracScale)
    requires n <= TwoTo63 && n + n == 2 * TwoTo63
    ensures var half := NatToString(n) + "ns";
      Components(half + half, 0, scale) == Success(0)
  {
    var half := NatToString(n) + "ns";
    var sum := (n + n) % (2 * TwoTo63);
    assert sum == 0;
    TwiceNanos(n, scale);
    assert Components(half + half, 0, scale) == Success(sum);
  }

  /**
   * The wrapped total passes the check, so two components of 2^63
   * nanoseconds parse as a zero duration.
   */
  lemma TotalWrapsToZero(n: nat, scale: FracScale)
    requires n == TwoTo63
    ensures var half := NatToString(n) + "ns";
      ParseDuration(half + half, scale) == Success(0)
  {
    var half := NatToString(n) + "ns";
    ComponentsWrapToZero(n, scale);
    assert (half + half)[0] == half[0] && IsDigit(half[0]);
    assert |half + half| > 1;
    ParseUnsigned(half + half, scale);
  }

  /** A fraction of zero prints nothing and leaves the whole part. */
  lemma {:induction false} FracDigitsWhole(q: nat, prec: nat)
    ensures FracDigits(q * Pow10(prec), prec, false) == ("", q)
  {
    if prec > 0 {
      var x := q * Pow10(prec - 1);
      assert q * Pow10(prec) == x * 10;
      assert (x * 10) % 10 == 0 && (x * 10) / 10 == x;
      FracDigitsWhole(q, prec - 1);
      assert FracDigits(x * 10, prec, false) == FracDigits(x, prec - 1, false);
    }
  }

  /** Reading a leading "<n><unit>" adds n units to the running total. */
  lemma ComponentsCons(n: nat, name: string, unit: nat, rest: string, d: nat, next: nat, scale: FracScale)
    requires UnitValue(name) == Some(unit) && |name| >= 1
    requires forall i :: 0 <= i < |name| ==> name[i] != '.' && !IsDigit(name[i])
    requires rest == [] || IsDigit(rest[0])
    requires n <= TwoTo63 / unit && next == d + n * unit <= TwoTo63
    ensures Components(NatToString(n) + name + rest, d, scale) == Components(rest, next, scale)
  {
    var s := NatToString(n) + name + rest;
    var v := n * unit;
    assert s != [] && Component(s, scale) == Success((v, rest)) by {
      ComponentNumber(n, name, unit, rest, scale);
    }
    ComponentsStep(s, d, v, rest, next, scale);
  }

  lemma HmsSplit(secs: nat)
    ensures secs == secs / 60 / 60 * 3600 + secs / 60 % 60 * 60 + secs % 60
  {
  }

  /** A leading hours field adds its hours to the running total. */
  lemma HourComponent(h: nat, rest: string, d: nat, next: nat, scale: FracScale)
    requires h <= TwoTo63 / Hour && next == d + h * Hour && next <= TwoTo63
    requires rest == [] || IsDigit(rest[0])
    ensures Components(NatToString(h) + "h" + rest, d, scale) == Components(rest, next, scale)
  {
    ComponentsCons(h, "h", Hour, rest, d, next, scale);
  }

  /** A leading minutes field adds its minutes to the running total. */
  lemma MinuteComponent(m: nat, rest: string, d: nat, next: nat, scale: FracScale)
    requires m < 60 && next == d + m * Minute && next <= TwoTo63
    requires rest == [] || IsDigit(rest[0])
    ensures Components(NatToString(m) + "m" + rest, d, scale) == Components(rest, next, scale)
  {
    ComponentsCons(m, "m", Minute, rest, d, next, scale);
  }

  /** The seconds field: the text ends after it. */
  lemma SecondsField(sec: nat, d: nat, total: nat, scale: FracScale)
    requires sec < 60 && total == d + sec * Second && total <= TwoTo63
    ensures Components(NatToString(sec) + "" + "s", d, scale) == Success(total)
  {
    assert NatToString(sec) + "" + "s" == NatToString(sec) + "s" + "";
    ComponentsCons(sec, "s", Second, "", d, total, scale);
  }

  /** A minutes field in front of text that reads as total nanoseconds once the minutes are counted. */
  lemma MinutesThen(m: nat, rest: string, d: nat, next: nat, total: nat, scale: FracScale)
    requires m < 60 && next == d + m * Minute && next <= TwoTo63
    requires rest == [] || IsDigit(rest[0])
    requires Components(rest, next, scale) == Success(total)
    ensures Components(NatToString(m) + "m" + rest, d, scale) == Success(total)
  {
    MinuteComponent(m, rest, d, next, scale);
  }

  /** The minutes and seconds fields. */
  lemma MinutesField(m: nat, sec: nat, d: nat, total: nat, scale: FracScale)
    requires m < 60 && sec < 60 && total == d + m * Minute + sec * Second && total <= TwoTo63
    ensures Components(NatToString(m) + "m" + (NatToString(sec) + "" + "s"), d, scale) == Success(total)
  {
    var tail := NatToString(sec) + "" + "s";
    assert IsDigit(tail[0]);
    var next := d + m * Minute;
    SecondsField(sec, next, total, scale);
    MinutesThen(m, tail, d, next, total, scale);
  }

  lemma SecondsOnly(secs: nat, scale: FracScale)
    requires 1 <= secs < 60
    ensures Components(SecondsString(secs, ""), 0, scale) == Success(secs * Second)
  {
    assert SecondsString(secs, "") == NatToString(secs) + "" + "s";
    SecondsField(secs, 0, secs * Second, scale);
  }

  lemma MinutesAndSecondsText(secs: nat)
    requires 60 <= secs < 3600
    ensures SecondsString(secs, "") == NatToString(secs / 60) + "m" + (NatToString(secs % 60) + "" + "s")
  {
  }

  lemma MinutesAndSecondsArith(secs: nat)
    requires 60 <= secs < 3600
    ensures secs * Second == 0 + secs / 60 * Minute + secs % 60 * Second
    ensures secs * Second <= TwoTo63
  {
  }

  lemma MinutesAndSeconds(secs: nat, scale: FracScale)
    requires 60 <= secs < 3600
    ensures Components(SecondsString(secs, ""), 0, scale) == Success(secs * Second)
  {
    MinutesAndSecondsText(secs);
    MinutesAndSecondsArith(secs);
    MinutesField(secs / 60, secs % 60, 0, secs * Second, scale);
  }

  lemma HoursMinutesSecondsText(secs: nat)
    requires 3600 <= secs
    ensures SecondsString(secs, "")
      == NatToString(secs / 3600) + "h" + (NatToString(secs / 60 % 60) + "m" + (NatToString(secs % 60) + "" + "s"))
  {
    assert secs / 60 / 60 == secs / 3600;
  }

  lemma HoursMinutesSecondsArith(secs: nat)
    requires 3600 <= secs <= 9_223_372_036
    ensures secs / 3600 <= TwoTo63 / Hour && 0 + secs / 3600 * Hour <= TwoTo63
    ensures secs * Second == 0 + secs / 3600 * Hour + secs / 60 % 60 * Minute + secs % 60 * Second
    ensures secs * Second <= TwoTo63
  {
  }

  /** An hours field in front of text that reads as total nanoseconds once the hours are counted. */
  lemma HoursThen(h: nat, rest: string, next: nat, total: nat, scale: FracScale)
    requires h <= TwoTo63 / Hour && next == 0 + h * Hour && next <= TwoTo63
    requires rest == [] || IsDigit(rest[0])
    requires Components(rest, next, scale) == Success(total)
    ensures Components(NatToString(h) + "h" + rest, 0, scale) == Success(total)
  {
    HourComponent(h, rest, 0, next, scale);
  }

  /** The hours, minutes and seconds fields. */
  lemma HoursField(h: nat, m: nat, sec: nat, total: nat, scale: FracScale)
    requires h <= TwoTo63 / Hour && m < 60 && sec < 60
    requires 0 + h * Hour <= TwoTo63
    requires total == 0 + h * Hour + m * Minute + sec * Second && total <= TwoTo63
    ensures Components(NatToString(h) + "h" + (NatToString(m) + "m" + (NatToString(sec) + "" + "s")), 0, scale)
      == Success(total)
  {
    var withMinutes := NatToString(m) + "m" + (NatToString(sec) + "" + "s");
    assert IsDigit(withMinutes[0]);
    var next := 0 + h * Hour;
    MinutesField(m, sec, next, total, scale);
    HoursThen(h, withMinutes, next, total, scale);
  }

  lemma HoursMinutesSeconds(secs: nat, scale: FracScale)
    requires 3600 <= secs <= 9_223_372_036
    ensures Components(SecondsString(secs, ""), 0, scale) == Success(secs * Second)
  {
    HoursMinutesSecondsText(secs);
    HoursMinutesSecondsArith(secs);
    HoursField(secs / 3600, secs / 60 % 60, secs % 60, secs * Second, scale);
  }

  /** The h/m/s text of a whole number of seconds reads back as that many seconds. */
  lemma SecondsStringParses(secs: nat, scale: FracScale)
    requires 1 <= secs <= 9_223_372_036
    ensures Components(SecondsString(secs, ""), 0, scale) == Success(secs * Second)
  {
    if secs < 60 {
      SecondsOnly(secs, scale);
    } else if secs < 3600 {
      MinutesAndSeconds(secs, scale);
    } else {
      HoursMinutesSeconds(secs, scale);
    }
  }

  /** Duration.String of a non-zero whole number of seconds: a sign, then the h/m/s fields. */
  lemma WholeSecondsString(d: int)
    requires InRange(d) && d != 0 && d % Second == 0
    ensures var u := if d < 0 then -d else d;
      && 1 <= u / Second <= 9_223_372_036 && u == u / Second * Second
      && DurationString(d) == (if d < 0 then "-" + SecondsString(u / Second, "") else SecondsString(u / Second, ""))
  {
    var u: nat := if d < 0 then -d else d;
    var secs := u / Second;
    assert u == secs * Second;
    FracDigitsWhole(secs, 9);
    assert Pow10(9) == Second;
    assert FmtFrac(u, 9) == ("", secs);
  }

  /** ParseDuration of a body without a sign that the component loop reads as u. */
  lemma ParsePositiveBody(body: string, u: nat, scale: FracScale)
    requires |body| >= 2 && IsDigit(body[0])
    requires u <= MaxInt64
    requires Components(body, 0, scale) == Success(u)
    ensures ParseDuration(body, scale) == Success(u as int)
  {
  }

  /** ParseDuration of '-' and a body that the component loop reads as u. */
  lemma ParseNegativeBody(body: string, u: nat, scale: FracScale)
    requires |body| >= 2
    requires u <= TwoTo63
    requires Components(body, 0, scale) == Success(u)
    ensures ParseDuration("-" + body, scale) == Success(-(u as int))
  {
    var s := "-" + body;
    assert s != [] && s[0] == '-';
    assert s[1..] == body && body != "0" && body != [];
    assert ParseDuration(s, scale) == Signed(true, u);
    SignedNegative(u);
  }

  /** A '-' makes any total up to 2^63 its negation. */
  lemma SignedNegative(u: nat)
    requires u <= TwoTo63
    ensures Signed(true, u) == Success(-(u as int))
  {
  }

  /** "0s", the text of the zero duration, reads back as zero. */
  lemma ZeroString(scale: FracScale)
    ensures ParseDuration(DurationString(0), scale) == Success(0)
  {
    assert DurationString(0) == "0s";
    SecondsField(0, 0, 0, scale);
    assert NatToString(0) + "" + "s" == "0s";
  }

  /**
   * ParseDuration reads back every whole-second duration Duration.String
   * writes, whatever the fraction rounding, since no fraction is written.
   */
  lemma ParseDurationString(d: int, scale: FracScale)
    requires InRange(d) && d % Second == 0
    ensures ParseDuration(DurationString(d), scale) == Success(d)
  {
    if d == 0 {
      ZeroString(scale);
    } else {
      var u: nat := if d < 0 then -d else d;
      WholeSecondsString(d);
      var secs := u / Second;
      var body := SecondsString(secs, "");
      SecondsStringParses(secs, scale);
      assert Components(body, 0, scale) == Success(u);
      if d < 0 {
        ParseNegativeBody(body, u, scale);
      } else {
        ParsePositiveBody(body, u, scale);
      }
    }
  }
}
