/** The time, aspect-ratio and image helpers shared by the editor and the
    exporters (src/utils.py). */
module Utils {
  import opened Text
  import opened Numbers
  import opened Optional

  /** Python's `x % 60` on a float: the remainder has the sign of the divisor. */
  function FloatMod60(x: real): (r: real)
    ensures 0.0 <= r < 60.0
    ensures ((x - r) / 60.0).Floor as real * 60.0 == x - r
  {
    x - (x / 60.0).Floor as real * 60.0
  }

  /** `sec_to_hhmmss`: the whole seconds as `HHMMSS`, for file names. */
  function SecToHhmmss(sec: real): (s: string)
    ensures 0.0 <= sec ==> |s| >= 6 && AllDigits(s)
  {
    var n := Trunc(sec);
    PadInt(n / 3600, 2) + PadInt(n % 3600 / 60, 2) + PadInt(n % 60, 2)
  }

  /** Formatting a time already truncated to whole seconds gives the same stamp. */
  lemma HhmmssOfWhole(sec: real)
    ensures SecToHhmmss(Trunc(sec) as real) == SecToHhmmss(sec)
  {
    assert Trunc(Trunc(sec) as real) == Trunc(sec);
  }

  /** Below 100 hours the file-name stamp is six digits: two each for the hours,
      minutes and seconds of the truncated time. */
  lemma HhmmssFields(sec: real)
    requires 0.0 <= sec < 360000.0
    ensures var s := SecToHhmmss(sec);
      |s| == 6 && AllDigits(s)
      && DigitsValue(s[2..4]) < 60 && DigitsValue(s[4..]) < 60
      && DigitsValue(s[..2]) * 3600 + DigitsValue(s[2..4]) * 60 + DigitsValue(s[4..]) == Trunc(sec)
  {
    var n := Trunc(sec);
    var h, m, x := n / 3600, n % 3600 / 60, n % 60;
    TwoDigits(h);
    TwoDigits(m);
    TwoDigits(x);
    SixDigits(ZeroPad(h, 2), ZeroPad(m, 2), ZeroPad(x, 2));
  }

  /** A value below 100 zero-pads to exactly two digits. */
  lemma TwoDigits(v: nat)
    requires v < 100
    ensures |ZeroPad(v, 2)| == 2
  {
    assert Pow10(2) == 100;
    NatToStringLength(v, 2);
  }

  lemma SixDigits(a: string, b: string, c: string)
    requires |a| == 2 && |b| == 2 && |c| == 2
    ensures (a + b + c)[..2] == a && (a + b + c)[2..4] == b && (a + b + c)[4..] == c
  {
  }

  /** `sec_to_display`: `HH:MM:SS.mmm`. */
  function SecToDisplay(sec: real): string
  {
    var n := Trunc(sec);
    PadInt(n / 3600, 2) + ":" + PadInt(n % 3600 / 60, 2) + ":"
      + PadInt(Trunc(FloatMod60(sec)), 2) + "." + PadInt(Thousandths(sec), 3)
  }

  /** `int((sec - int(sec)) * 1000)`: the milliseconds, truncated. */
  function Thousandths(sec: real): int {
    Trunc((sec - Trunc(sec) as real) * 1000.0)
  }

  /** The pieces of `s.split(":")`, stripped, empty ones dropped. */
  function NonEmptyStripped(parts: seq<string>): (r: seq<string>)
    ensures |r| <= |parts|
    ensures forall k :: 0 <= k < |r| ==> |r[k]| > 0 && NoSpaceAtEnds(r[k])
  {
    if |parts| == 0 then []
    else
      var p := Strip(parts[0]);
      (if p == "" then [] else [p]) + NonEmptyStripped(parts[1..])
  }

  /** `hhmmss_to_sec`: `H:M:S`, `M:S`, `S` or a bare number of seconds; 0.0 for
      anything it cannot read. */
  function HhmmssToSec(t: string): real
  {
    if ':' in t then
      var parts := NonEmptyStripped(Split(t, ':'));
      if |parts| == 3 then
        match (ParseInt(parts[0]), ParseInt(parts[1]), ParseFloat(parts[2]))
        case (Some(h), Some(m), Some(s)) => (h * 3600 + m * 60) as real + s
        case _ => 0.0
      else if |parts| == 2 then
        match (ParseInt(parts[0]), ParseFloat(parts[1]))
        case (Some(m), Some(s)) => (m * 60) as real + s
        case _ => 0.0
      else if |parts| == 1 then ParseFloat(parts[0]).GetOr(0.0)
      else 0.0
    else ParseFloat(t).GetOr(0.0)
  }

  /** Text with no colon that does not read as a number gives 0.0, and so does
      `H:M:S` whose hours do not read as an integer. */
  lemma HhmmssUnreadable(t: string, a: string, b: string, c: string)
    ensures ':' !in t && ParseFloat(t).None? ==> HhmmssToSec(t) == 0.0
    ensures ':' !in a && ':' !in b && ':' !in c && |a| > 0 && |b| > 0 && |c| > 0
      && NoSpaceAtEnds(a) && NoSpaceAtEnds(b) && NoSpaceAtEnds(c) && ParseInt(a).None?
      ==> HhmmssToSec(a + ":" + b + ":" + c) == 0.0
  {
    if ':' !in a && ':' !in b && ':' !in c && |a| > 0 && |b| > 0 && |c| > 0
      && NoSpaceAtEnds(a) && NoSpaceAtEnds(b) && NoSpaceAtEnds(c)
    {
      HmsParts(a, b, c);
    }
  }

  /** For a non-negative time the seconds field is the truncated time modulo 60. */
  lemma SecondsField(sec: real)
    requires sec >= 0.0
    ensures Trunc(FloatMod60(sec)) == Trunc(sec) % 60
  {
    var n := Trunc(sec);
    var k := (sec / 60.0).Floor;
    var r := FloatMod60(sec);
    assert r == sec - k as real * 60.0;
    assert k * 60 <= n < k * 60 + 60;
    assert n - k * 60 == r.Floor;
    assert n / 60 == k;
  }

  /** The fractional field of the display: the thousandths, 0..999. */
  lemma MillisField(sec: real)
    requires sec >= 0.0
    ensures 0 <= Thousandths(sec) < 1000
    ensures Trunc(sec) * 1000 + Thousandths(sec) == (sec * 1000.0).Floor
  {
  }

  /** The seconds field `SS.mmm` reads back as seconds plus thousandths. */
  lemma DisplaySecondsPart(x: nat, ms: nat)
    requires x < 60 && ms < 1000
    ensures |PadInt(x, 2) + "." + PadInt(ms, 3)| > 0
    ensures NoSpaceAtEnds(PadInt(x, 2) + "." + PadInt(ms, 3))
    ensures ParseFloat(PadInt(x, 2) + "." + PadInt(ms, 3)) == Some(x as real + ms as real / 1000.0)
  {
    var whole, frac := ZeroPad(x, 2), ZeroPad(ms, 3);
    SecondsPartDigits(x, ms);
    ParseFloatDot(whole, frac);
  }

  lemma SecondsPartDigits(x: nat, ms: nat)
    requires x < 60 && ms < 1000
    ensures |ZeroPad(x, 2)| == 2 && |ZeroPad(ms, 3)| == 3
    ensures DecimalValue(ZeroPad(x, 2), ZeroPad(ms, 3)) == x as real + ms as real / 1000.0
  {
    assert Pow10(2) == 100 && Pow10(3) == 1000;
    NatToStringLength(x, 2);
    NatToStringLength(ms, 3);
    FracValueThree(ZeroPad(ms, 3));
  }

  lemma SplitThree(a: string, b: string, c: string, sep: char)
    requires sep !in a && sep !in b && sep !in c
    ensures Split(a + [sep] + b + [sep] + c, sep) == [a, b, c]
  {
    var parts := [a, b, c];
    assert parts[1..] == [b, c] && parts[1..][1..] == [c];
    assert Join([sep], [b, c]) == b + [sep] + c;
    assert Join([sep], parts) == a + [sep] + (b + [sep] + c);
    assert a + [sep] + (b + [sep] + c) == a + [sep] + b + [sep] + c;
    SplitJoin(parts, sep);
  }

  lemma PadIntNoColon(n: int, width: int)
    ensures ':' !in PadInt(n, width)
  {
    PadIntChars(n, width);
  }

  /** Reading back what `sec_to_display` shows gives the time truncated to whole
      milliseconds. */
  lemma DisplayRoundTrip(sec: real)
    requires sec >= 0.0
    ensures HhmmssToSec(SecToDisplay(sec)) == (sec * 1000.0).Floor as real / 1000.0
  {
    DisplayReads(sec);
    DisplayValue(sec);
  }

  lemma DisplayValue(sec: real)
    requires sec >= 0.0
    ensures (Trunc(sec) / 3600 * 3600 + Trunc(sec) % 3600 / 60 * 60) as real
        + ((Trunc(sec) % 60) as real + Thousandths(sec) as real / 1000.0)
      == (sec * 1000.0).Floor as real / 1000.0
  {
    var n := Trunc(sec);
    MillisField(sec);
    HoursMinutesSeconds(n);
    ThousandthsSum(n / 3600 * 3600 + n % 3600 / 60 * 60, n % 60, n, Thousandths(sec), (sec * 1000.0).Floor);
  }

  lemma HoursMinutesSeconds(n: int)
    requires n >= 0
    ensures n / 3600 * 3600 + n % 3600 / 60 * 60 + n % 60 == n
  {
    var r := n % 3600;
    var k := n / 3600 * 60 + r / 60;
    assert n == n / 3600 * 3600 + r;
    assert r == r / 60 * 60 + r % 60;
    assert n == k * 60 + r % 60;
    ModOfMultiple(k, r % 60, 60);
  }

  lemma ModOfMultiple(k: int, s: int, d: int)
    requires d > 0 && 0 <= s < d
    ensures (k * d + s) % d == s
  {
    var q, r := (k * d + s) / d, (k * d + s) % d;
    assert (k - q) * d == r - s;
    MulSignBound(k - q, d);
  }

  lemma ThousandthsSum(a: int, x: int, n: int, ms: int, f: int)
    requires a + x == n && n * 1000 + ms == f
    ensures a as real + (x as real + ms as real / 1000.0) == f as real / 1000.0
  {
  }

  /** The display reads back field by field. */
  lemma DisplayReads(sec: real)
    requires sec >= 0.0
    ensures HhmmssToSec(SecToDisplay(sec))
      == (Trunc(sec) / 3600 * 3600 + Trunc(sec) % 3600 / 60 * 60) as real
        + ((Trunc(sec) % 60) as real + Thousandths(sec) as real / 1000.0)
  {
    var n := Trunc(sec);
    SecondsField(sec);
    MillisField(sec);
    assert SecToDisplay(sec) == PadInt(n / 3600, 2) + ":" + PadInt(n % 3600 / 60, 2) + ":"
      + PadInt(n % 60, 2) + "." + PadInt(Thousandths(sec), 3);
    FieldsRead(n / 3600, n % 3600 / 60, n % 60, Thousandths(sec));
  }

  /** `HH:MM:SS.mmm` built from its four numbers reads back as their value in
      seconds. */
  lemma FieldsRead(h: nat, m: nat, x: nat, ms: nat)
    requires x < 60 && ms < 1000
    ensures HhmmssToSec(PadInt(h, 2) + ":" + PadInt(m, 2) + ":" + PadInt(x, 2) + "." + PadInt(ms, 3))
      == (h * 3600 + m * 60) as real + (x as real + ms as real / 1000.0)
  {
    PadIntNoColon(h, 2);
    PadIntNoColon(m, 2);
    PadIntNoSpace(h, 2);
    PadIntNoSpace(m, 2);
    ParseIntPadInt(h, 2);
    ParseIntPadInt(m, 2);
    SecondsRead(PadInt(h, 2), PadInt(m, 2), h, m, x, ms);
  }

  /** `H:M:SS.mmm` with readable hours and minutes. */
  lemma SecondsRead(a: string, b: string, h: int, m: int, x: nat, ms: nat)
    requires x < 60 && ms < 1000
    requires ':' !in a && ':' !in b && |a| > 0 && |b| > 0
    requires NoSpaceAtEnds(a) && NoSpaceAtEnds(b)
    requires ParseInt(a) == Some(h) && ParseInt(b) == Some(m)
    ensures HhmmssToSec(a + ":" + b + ":" + PadInt(x, 2) + "." + PadInt(ms, 3))
      == (h * 3600 + m * 60) as real + (x as real + ms as real / 1000.0)
  {
    DisplaySecondsColonFree(x, ms);
    DisplaySecondsPart(x, ms);
    HmsMillisReads(a, b, PadInt(x, 2) + "." + PadInt(ms, 3), h, m, x, ms);
    ThirdFieldAssoc(a, b, PadInt(x, 2), PadInt(ms, 3));
  }

  lemma ThirdFieldAssoc(a: string, b: string, p: string, q: string)
    ensures a + ":" + b + ":" + p + "." + q == a + ":" + b + ":" + (p + "." + q)
  {
  }

  /** `H:M:S` whose seconds field reads as x seconds and ms thousandths. */
  lemma HmsMillisReads(a: string, b: string, c: string, h: int, m: int, x: nat, ms: nat)
    requires ':' !in a && ':' !in b && |a| > 0 && |b| > 0
    requires NoSpaceAtEnds(a) && NoSpaceAtEnds(b)
    requires ParseInt(a) == Some(h) && ParseInt(b) == Some(m)
    requires ':' !in c && |c| > 0 && NoSpaceAtEnds(c)
    requires ParseFloat(c) == Some(x as real + ms as real / 1000.0)
    ensures HhmmssToSec(a + ":" + b + ":" + c)
      == (h * 3600 + m * 60) as real + (x as real + ms as real / 1000.0)
  {
    var sec := x as real + ms as real / 1000.0;
    HmsReads(a, b, c, h, m, sec);
    HoursPlus(HhmmssToSec(a + ":" + b + ":" + c), h, m, sec, x, ms);
  }

  /** Names the seconds part by its whole seconds and thousandths. */
  lemma HoursPlus(r: real, h: int, m: int, sec: real, x: nat, ms: nat)
    requires r == (h * 3600 + m * 60) as real + sec && sec == x as real + ms as real / 1000.0
    ensures r == (h * 3600 + m * 60) as real + (x as real + ms as real / 1000.0)
  {
  }

  /** `H:M:S` with readable fields is read as H*3600 + M*60 + S. */
  lemma HmsReads(a: string, b: string, c: string, h: int, m: int, x: real)
    requires ':' !in a && ':' !in b && ':' !in c
    requires |a| > 0 && |b| > 0 && |c| > 0
    requires NoSpaceAtEnds(a) && NoSpaceAtEnds(b) && NoSpaceAtEnds(c)
    requires ParseInt(a) == Some(h) && ParseInt(b) == Some(m) && ParseFloat(c) == Some(x)
    ensures HhmmssToSec(a + ":" + b + ":" + c) == (h * 3600 + m * 60) as real + x
  {
    HmsParts(a, b, c);
  }

  lemma HmsParts(a: string, b: string, c: string)
    requires ':' !in a && ':' !in b && ':' !in c
    requires |a| > 0 && |b| > 0 && |c| > 0
    requires NoSpaceAtEnds(a) && NoSpaceAtEnds(b) && NoSpaceAtEnds(c)
    ensures ':' in a + ":" + b + ":" + c
    ensures NonEmptyStripped(Split(a + ":" + b + ":" + c, ':')) == [a, b, c]
  {
    var t := a + ":" + b + ":" + c;
    SplitThree(a, b, c, ':');
    assert t[|a|] == ':';
    StripNoop(a);
    StripNoop(b);
    StripNoop(c);
    assert NonEmptyStripped([a, b, c]) == [a, b, c] by {
      assert [a, b, c][1..] == [b, c] && [b, c][1..] == [c];
      assert NonEmptyStripped([c]) == [c];
      assert NonEmptyStripped([b, c]) == [b, c];
    }
  }

  lemma DisplaySecondsColonFree(x: nat, ms: nat)
    ensures ':' !in PadInt(x, 2) + "." + PadInt(ms, 3)
  {
    PadIntNoColon(x, 2);
    PadIntNoColon(ms, 3);
  }

  /** `ratio_value_from_str`: `a:b` as a/b; None when there is not exactly one
      colon, a side is not a number, or b is zero. */
  function RatioValueFromStr(r: string): Option<real>
  {
    if ':' in r then
      var parts := Split(r, ':');
      if |parts| != 2 then None
      else
        match (ParseFloat(parts[0]), ParseFloat(parts[1]))
        case (Some(a), Some(b)) => if b == 0.0 then None else Some(a / b)
        case _ => None
    else None
  }

  /** Without exactly one colon there is no ratio. */
  lemma RatioValueNeedsOneColon(r: string)
    requires |Split(r, ':')| != 2
    ensures RatioValueFromStr(r).None?
  {
  }

  /** `a:b` written from two integers reads back as a/b. */
  lemma RatioValueOfInts(p: int, q: int)
    requires q != 0
    ensures RatioValueFromStr(IntToString(p) + ":" + IntToString(q)) == Some(p as real / q as real)
  {
    var a, b := IntToString(p), IntToString(q);
    PadIntNoColon(p, 0);
    PadIntNoColon(q, 0);
    SplitTwo(a, b, ':');
    assert (a + ":" + b)[|a|] == ':';
    ParseFloatPadInt(p, 0);
    ParseFloatPadInt(q, 0);
  }

  /** The common aspect ratios `ratio_label_from_wh` recognises, as (a, b) for `a:b`,
      in the order it tries them. */
  const Candidates: seq<(int, int)> :=
    [(16, 9), (9, 16), (4, 3), (3, 4), (21, 9), (1, 1), (4, 5), (5, 4)]

  function CandidateValue(i: nat): real
    requires i < |Candidates|
  {
    Candidates[i].0 as real / Candidates[i].1 as real
  }

  function CandidateLabel(i: nat): string
    requires i < |Candidates|
  {
    IntToString(Candidates[i].0) + ":" + IntToString(Candidates[i].1)
  }

  function Dist(x: real, y: real): real {
    if x >= y then x - y else y - x
  }

  /** The scan over the candidates from index `i` on, carrying the best index so
      far and its distance (1.0 while none is closer than that); a candidate
      replaces the best only when strictly closer. */
  function Scan(r: real, i: nat, best: Option<nat>, bestDiff: real): (res: (Option<nat>, real))
    requires i <= |Candidates|
    requires best.Some? ==> best.value < i && bestDiff == Dist(r, CandidateValue(best.value))
    requires best.None? ==> bestDiff == 1.0
    requires forall k :: 0 <= k < i ==> bestDiff <= Dist(r, CandidateValue(k))
    requires best.Some? ==> forall k :: 0 <= k < best.value ==> bestDiff < Dist(r, CandidateValue(k))
    requires bestDiff <= 1.0
    requires best.Some? ==> bestDiff < 1.0
    ensures res.1 <= bestDiff
    ensures res.0.Some? ==> res.1 < 1.0
    ensures res.0.Some? ==> res.0.value < |Candidates| && res.1 == Dist(r, CandidateValue(res.0.value))
    ensures res.0.None? ==> res.1 == 1.0
    ensures forall k :: 0 <= k < |Candidates| ==> res.1 <= Dist(r, CandidateValue(k))
    ensures res.0.Some? ==> forall k :: 0 <= k < res.0.value ==> res.1 < Dist(r, CandidateValue(k))
    decreases |Candidates| - i
  {
    if i == |Candidates| then (best, bestDiff)
    else
      var d := Dist(r, CandidateValue(i));
      if d < bestDiff then Scan(r, i + 1, Some(i), d)
      else Scan(r, i + 1, best, bestDiff)
  }

  /** The first of the closest candidates, if one is closer than 1.0. */
  function Nearest(r: real): (res: Option<nat>)
    ensures res.Some? ==> res.value < |Candidates| && Dist(r, CandidateValue(res.value)) < 1.0
    ensures res.Some? ==> forall k :: 0 <= k < |Candidates| ==>
      Dist(r, CandidateValue(res.value)) <= Dist(r, CandidateValue(k))
    ensures res.Some? ==> forall k :: 0 <= k < res.value ==>
      Dist(r, CandidateValue(res.value)) < Dist(r, CandidateValue(k))
    ensures res.None? ==> forall k :: 0 <= k < |Candidates| ==> Dist(r, CandidateValue(k)) >= 1.0
  {
    Scan(r, 0, None, 1.0).0
  }

  /** `ratio_label_from_wh`: the closest common ratio when within 0.03, else the
      reduced fraction w:h; `?:?` when h is zero. */
  function RatioLabelFromWh(w: int, h: int): string
  {
    if h == 0 then "?:?"
    else
      var r := w as real / h as real;
      var best := Nearest(r);
      if best.Some? && Dist(r, CandidateValue(best.value)) <= 0.03 then
        CandidateLabel(best.value)
      else
        var g := Gcd(Abs(w), Abs(h));
        IntToString(w / g) + ":" + IntToString(h / g)
  }

  /** A zero height has no ratio: the label is `?:?`. */
  lemma RatioLabelZeroHeight(w: int)
    ensures RatioLabelFromWh(w, 0) == "?:?"
  {
  }

  lemma DivExact(a: int, g: nat)
    requires g > 0 && Abs(a) % g == 0
    ensures a == (a / g) * g
  {
    var k := Abs(a) / g;
    assert Abs(a) == k * g;
    if a < 0 {
      assert a == (-k) * g;
      MulDiv(-k, g);
    } else {
      MulDiv(k, g);
    }
  }

  /** The label of a non-degenerate size reads back as a ratio at most 0.03 away
      from w/h, and exactly w/h when no common ratio is that close. */
  lemma RatioLabelRoundTrip(w: int, h: int)
    requires h != 0
    ensures var v := RatioValueFromStr(RatioLabelFromWh(w, h));
      v.Some? && Dist(v.value, w as real / h as real) <= 0.03
    ensures var best := Nearest(w as real / h as real);
      !(best.Some? && Dist(w as real / h as real, CandidateValue(best.value)) <= 0.03)
      ==> RatioValueFromStr(RatioLabelFromWh(w, h)) == Some(w as real / h as real)
  {
    var r := w as real / h as real;
    var best := Nearest(r);
    if best.Some? && Dist(r, CandidateValue(best.value)) <= 0.03 {
      CandidateCase(w, h);
    } else {
      ReducedCase(w, h);
    }
  }

  predicate NearCandidate(r: real) {
    var best := Nearest(r);
    best.Some? && Dist(r, CandidateValue(best.value)) <= 0.03
  }

  lemma CandidateCase(w: int, h: int)
    requires h != 0 && NearCandidate(w as real / h as real)
    ensures RatioValueFromStr(RatioLabelFromWh(w, h))
      == Some(CandidateValue(Nearest(w as real / h as real).value))
  {
    var i := Nearest(w as real / h as real).value;
    CandidateChosen(w, h);
    CandidateLabelValue(i);
  }

  /** Near a common ratio, the label is that ratio's. */
  lemma CandidateChosen(w: int, h: int)
    requires h != 0 && NearCandidate(w as real / h as real)
    ensures RatioLabelFromWh(w, h) == CandidateLabel(Nearest(w as real / h as real).value)
  {
  }

  /** A candidate's label reads back as its value. */
  lemma CandidateLabelValue(i: nat)
    requires i < |Candidates|
    ensures RatioValueFromStr(CandidateLabel(i)) == Some(CandidateValue(i))
  {
    RatioValueOfInts(Candidates[i].0, Candidates[i].1);
  }

  lemma ReducedCase(w: int, h: int)
    requires h != 0 && !NearCandidate(w as real / h as real)
    ensures RatioValueFromStr(RatioLabelFromWh(w, h)) == Some(w as real / h as real)
  {
    var g := Gcd(Abs(w), Abs(h));
    assert RatioLabelFromWh(w, h) == IntToString(w / g) + ":" + IntToString(h / g);
    ReducedRatio(w, h, g);
    RatioValueOfInts(w / g, h / g);
  }

  /** Away from every common ratio the label is the fraction w:h in lowest
      terms: both sides divided by their gcd, which leaves a gcd of 1. */
  lemma RatioLabelLowestTerms(w: int, h: int)
    requires h != 0 && !NearCandidate(w as real / h as real)
    ensures var g := Gcd(Abs(w), Abs(h));
      && RatioLabelFromWh(w, h) == IntToString(w / g) + ":" + IntToString(h / g)
      && Gcd(Abs(w / g), Abs(h / g)) == 1
  {
    var g := Gcd(Abs(w), Abs(h));
    GcdCofactorsCoprime(Abs(w), Abs(h));
    AbsQuotient(w, g);
    AbsQuotient(h, g);
  }

  /** Exact division commutes with taking the absolute value. */
  lemma AbsQuotient(a: int, g: nat)
    requires g > 0 && Abs(a) % g == 0
    ensures Abs(a / g) == Abs(a) / g
  {
    DivExact(a, g);
    var p := a / g;
    assert Abs(a) == Abs(p) * g;
    MulDiv(Abs(p), g);
  }

  /** Dividing both sides by a common divisor keeps the ratio. */
  lemma ReducedRatio(w: int, h: int, g: nat)
    requires h != 0 && g > 0 && Abs(w) % g == 0 && Abs(h) % g == 0
    ensures h / g != 0
    ensures (w / g) as real / (h / g) as real == w as real / h as real
  {
    var p, q := w / g, h / g;
    DivExact(w, g);
    DivExact(h, g);
    assert q != 0;
    assert w as real == p as real * g as real;
    assert h as real == q as real * g as real;
  }

  /** An image: rows of pixels, every row `w` wide. */
  predicate IsGrid<P>(img: seq<seq<P>>, w: nat) {
    forall y :: 0 <= y < |img| ==> |img[y]| == w
  }

  function Fill<P>(h: nat, w: nat, c: P): (out: seq<seq<P>>)
    ensures |out| == h && IsGrid(out, w)
  {
    seq(h, _ => seq(w, _ => c))
  }

  /** `out[oy:oy+ch, ox:ox+cw] = crop` */
  function Paste<P>(out: seq<seq<P>>, crop: seq<seq<P>>, oy: int, ox: int, cw: nat): (r: seq<seq<P>>)
    requires IsGrid(crop, cw)
    ensures |r| == |out|
    ensures forall y :: 0 <= y < |r| ==> |r[y]| == |out[y]|
  {
    seq(|out|, y requires 0 <= y < |out| =>
      seq(|out[y]|, x requires 0 <= x < |out[y]| =>
        if oy <= y < oy + |crop| && ox <= x < ox + cw then crop[y - oy][x - ox] else out[y][x]))
  }

  /** `img[y1:y2, x1:x2]` */
  function Sub<P>(img: seq<seq<P>>, imgW: nat, y1: nat, y2: nat, x1: nat, x2: nat): (r: seq<seq<P>>)
    requires IsGrid(img, imgW) && y1 <= y2 <= |img| && x1 <= x2 <= imgW
    ensures |r| == y2 - y1 && IsGrid(r, x2 - x1)
  {
    seq(y2 - y1, y requires 0 <= y < y2 - y1 => img[y1 + y][x1..x2])
  }

  function Max(a: int, b: int): int { if a >= b then a else b }
  function Min(a: int, b: int): int { if a <= b then a else b }

  /** `get_safe_crop`: the (x2-x1)×(y2-y1) window of the image at (x1, y1), with
      the part outside the image filled with `bg`; a 1×1 black image for an empty
      window; None for a missing image. */
  function GetSafeCrop<P>(img: Option<seq<seq<P>>>, imgW: nat, x1: int, y1: int, x2: int, y2: int, bg: P, black: P)
    : (out: Option<seq<seq<P>>>)
    requires img.Some? ==> IsGrid(img.value, imgW)
    ensures img.None? <==> out.None?
    ensures img.Some? && (x2 - x1 <= 0 || y2 - y1 <= 0) ==> out == Some([[black]])
    ensures img.Some? && x2 - x1 > 0 && y2 - y1 > 0 ==>
      var o := out.value;
      |o| == y2 - y1 && IsGrid(o, x2 - x1)
      && forall y, x :: 0 <= y < y2 - y1 && 0 <= x < x2 - x1 ==>
        o[y][x] == (if 0 <= y1 + y < |img.value| && 0 <= x1 + x < imgW then img.value[y1 + y][x1 + x] else bg)
  {
    match img
    case None => None
    case Some(im) =>
      if x2 - x1 <= 0 || y2 - y1 <= 0 then Some([[black]])
      else
        SafeCropCells(im, imgW, x1, y1, x2, y2, bg);
        Some(PastedWindow(im, imgW, x1, y1, x2, y2, bg))
  }

  /** The body of `get_safe_crop` for a non-empty window: a `bg` canvas with the
      part of the window inside the image pasted onto it. */
  function PastedWindow<P>(im: seq<seq<P>>, imgW: nat, x1: int, y1: int, x2: int, y2: int, bg: P)
    : (o: seq<seq<P>>)
    requires IsGrid(im, imgW) && x2 - x1 > 0 && y2 - y1 > 0
    ensures |o| == y2 - y1 && IsGrid(o, x2 - x1)
  {
    var ix1, iy1 := Max(0, x1), Max(0, y1);
    var ix2, iy2 := Min(imgW, x2), Min(|im|, y2);
    var out := Fill(y2 - y1, x2 - x1, bg);
    if ix1 < ix2 && iy1 < iy2 then
      Paste(out, Sub(im, imgW, iy1, iy2, ix1, ix2), iy1 - y1, ix1 - x1, ix2 - ix1)
    else out
  }

  /** Each cell of the pasted window is the image pixel under it, or `bg` off the
      image. */
  lemma SafeCropCells<P>(im: seq<seq<P>>, imgW: nat, x1: int, y1: int, x2: int, y2: int, bg: P)
    requires IsGrid(im, imgW) && x2 - x1 > 0 && y2 - y1 > 0
    ensures forall y, x :: 0 <= y < y2 - y1 && 0 <= x < x2 - x1 ==>
      PastedWindow(im, imgW, x1, y1, x2, y2, bg)[y][x]
        == (if 0 <= y1 + y < |im| && 0 <= x1 + x < imgW then im[y1 + y][x1 + x] else bg)
  {
    forall y, x | 0 <= y < y2 - y1 && 0 <= x < x2 - x1
      ensures PastedWindow(im, imgW, x1, y1, x2, y2, bg)[y][x]
        == (if 0 <= y1 + y < |im| && 0 <= x1 + x < imgW then im[y1 + y][x1 + x] else bg)
    {
      SafeCropCell(im, imgW, x1, y1, x2, y2, bg, y, x);
    }
  }

  lemma SafeCropCell<P>(im: seq<seq<P>>, imgW: nat, x1: int, y1: int, x2: int, y2: int, bg: P, y: int, x: int)
    requires IsGrid(im, imgW) && x2 - x1 > 0 && y2 - y1 > 0
    requires 0 <= y < y2 - y1 && 0 <= x < x2 - x1
    ensures PastedWindow(im, imgW, x1, y1, x2, y2, bg)[y][x]
      == (if 0 <= y1 + y < |im| && 0 <= x1 + x < imgW then im[y1 + y][x1 + x] else bg)
  {
    var o := PastedWindow(im, imgW, x1, y1, x2, y2, bg);
    var ix1, iy1 := Max(0, x1), Max(0, y1);
    var ix2, iy2 := Min(imgW, x2), Min(|im|, y2);
    if ix1 < ix2 && iy1 < iy2 {
      var crop := Sub(im, imgW, iy1, iy2, ix1, ix2);
      if iy1 - y1 <= y < iy1 - y1 + |crop| && ix1 - x1 <= x < ix2 - x1 {
        assert o[y][x] == crop[y - (iy1 - y1)][x - (ix1 - x1)];
      } else {
        assert o[y][x] == bg;
      }
    }
  }
}
