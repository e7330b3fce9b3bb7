/**
 The statistics counters of index.js: parsing a `.stat-number` label into
 a target and a suffix, the text the counter shows when it stops, and the
 `data-animated` guard that starts the counters of a section at most once.
 */
module Stats {
  import opened Options
  import opened Chars

  /** The value of one decimal digit. */
  function DigitValue(c: char): (d: nat)
    requires IsDigit(c)
    ensures d < 10
  {
    c as int - '0' as int
  }

  /** The decimal value of a string of digits. */
  function DecimalValue(ds: string): nat
    requires forall i :: 0 <= i < |ds| ==> IsDigit(ds[i])
    decreases |ds|
  {
    if ds == [] then 0
    else 10 * DecimalValue(ds[..|ds| - 1]) + DigitValue(ds[|ds| - 1])
  }

  function DigitChar(d: nat): (c: char)
    requires d < 10
    ensures IsDigit(c) && DigitValue(c) == d
  {
    ('0' as int + d) as char
  }

  /** The decimal numeral of `n`, as `String(n)` writes an integer: no leading zeros. */
  function Numeral(n: nat): (r: string)
    ensures |r| >= 1 && forall i :: 0 <= i < |r| ==> IsDigit(r[i])
    ensures |r| > 1 ==> r[0] != '0'
    decreases n
  {
    if n < 10 then [DigitChar(n)] else Numeral(n / 10) + [DigitChar(n % 10)]
  }

  /** Reading the numeral of `n` gives back `n`. */
  lemma {:induction false} NumeralValue(n: nat)
    ensures DecimalValue(Numeral(n)) == n
    decreases n
  {
    var r := Numeral(n);
    if n >= 10 {
      NumeralValue(n / 10);
      assert r[..|r| - 1] == Numeral(n / 10);
    }
  }

  /** What a label parses to: the number (None stands for NaN) and the suffix. */
  datatype StatLabel = StatLabel(target: Option<nat>, suffix: string)

  /** The label parse of index.js: the trimmed text's digits, read as one
      decimal number, and `%` if the text has one, else `+` if it has one,
      else nothing. */
  function ParseStatLabel(raw: string): (r: StatLabel)
    ensures r.target == if Digits(raw) == [] then None else Some(DecimalValue(Digits(raw)))
    ensures r.target.None? <==> forall i :: 0 <= i < |raw| ==> !IsDigit(raw[i])
    ensures r.suffix == "%" <==> '%' in raw
    ensures r.suffix == "+" <==> '%' !in raw && '+' in raw
    ensures r.suffix == "" <==> '%' !in raw && '+' !in raw
    ensures IsSuffix(r.suffix)
  {
    var text := Trim(raw);
    TrimKeepsDigits(raw);
    DigitsEmptyIff(raw);
    TrimKeepsChar(raw, '%');
    TrimKeepsChar(raw, '+');
    var ds := Digits(text);
    StatLabel(if ds == [] then None else Some(DecimalValue(ds)), SuffixOf(text))
  }

  /** The text the counter shows once it stops: the target followed by the
      suffix. For a label without digits the target is NaN, the first
      comparison with it fails, and the text becomes "NaN" and the suffix. */
  function FinalText(stat: StatLabel): string {
    match stat.target
    case Some(n) => Numeral(n) + stat.suffix
    case None => "NaN" + stat.suffix
  }

  /** The counter's final text reads back as the label it came from. */
  lemma FinalTextRoundTrip(target: Option<nat>, suffix: string)
    requires IsSuffix(suffix)
    ensures ParseStatLabel(FinalText(StatLabel(target, suffix))) == StatLabel(target, suffix)
  {
    var body := if target.Some? then Numeral(target.value) else "NaN";
    var t := body + suffix;
    assert FinalText(StatLabel(target, suffix)) == t;
    SuffixMarks(body, suffix);
    if target.Some? {
      DigitsOfDigits(body);
      NumeralValue(target.value);
    } else {
      assert Digits("NaN") == [] by {
        assert "NaN"[1..] == "aN" && "aN"[1..] == "N" && "N"[1..] == [];
      }
    }
  }

  /** The suffix rule: '%' wins over '+'. */
  function SuffixOf(text: string): (suffix: string)
    ensures suffix == "%" <==> '%' in text
    ensures suffix == "+" <==> '%' !in text && '+' in text
    ensures suffix == "" <==> '%' !in text && '+' !in text
    ensures IsSuffix(suffix)
  {
    if '%' in text then "%" else if '+' in text then "+" else ""
  }

  /** The three suffixes a label can carry. */
  predicate IsSuffix(suffix: string) {
    suffix == "%" || suffix == "+" || suffix == ""
  }

  /** Appending a suffix to a body without marks adds no digit and decides the marks. */
  lemma SuffixMarks(body: string, suffix: string)
    requires IsSuffix(suffix) && '%' !in body && '+' !in body
    ensures Digits(body + suffix) == Digits(body)
    ensures '%' in body + suffix <==> suffix == "%"
    ensures '+' in body + suffix <==> suffix == "+"
  {
    DigitsAppend(body, suffix);
    assert Digits(suffix) == [] by {
      if suffix != [] {
        assert suffix[1..] == [];
      }
    }
    if suffix == "%" {
      assert (body + suffix)[|body|] == '%';
    } else if suffix == "+" {
      assert (body + suffix)[|body|] == '+';
    } else {
      assert body + suffix == body;
    }
  }

  /** `duration / 16` with the default duration of 2000 ms: the number of
      increments the tween takes to reach its target. */
  const Steps: nat := 125

  /** The texts `animateCounter` shows, frame after frame, for the target the
      label parse produced (None stands for NaN). With a NaN target the
      increment is NaN, the first `start < finalTarget` fails, and the only
      frame is "NaN" and the suffix. */
  method AnimateCounter(target: Option<nat>, suffix: string) returns (frames: seq<string>)
    ensures target.None? ==> frames == ["NaN" + suffix]
    ensures |frames| == match target
                        case None => 1
                        case Some(n) => if n == 0 then 1 else Steps
    ensures frames[|frames| - 1] == FinalText(StatLabel(target, suffix))
    ensures target.Some? ==> forall i :: 0 <= i < |frames| - 1 ==> IsCountFrame(frames[i], i + 1, target.value, suffix)
  {
    if target.None? {
      frames := [FinalText(StatLabel(None, suffix))];
    } else {
      frames := CountUp(target.value, suffix);
    }
  }

  /** The frames for a numeric target, in exact arithmetic. `start` grows by
      `target / Steps` per frame; `scaled` is `Steps * start`, so
      `Math.floor(start)` is `scaled / Steps`. While `start < target` the
      floored value is shown, after which the exact target and suffix are. */
  method CountUp(target: nat, suffix: string) returns (frames: seq<string>)
    ensures |frames| == if target == 0 then 1 else Steps
    ensures frames[|frames| - 1] == FinalText(StatLabel(Some(target), suffix))
    ensures forall i :: 0 <= i < |frames| - 1 ==> IsCountFrame(frames[i], i + 1, target, suffix)
  {
    frames := [];
    var k := 1;
    var scaled := target;
    while scaled < Steps * target
      invariant 1 <= k && (target > 0 ==> k <= Steps) && (target == 0 ==> k == 1)
      invariant scaled == Scaled(k, target)
      invariant |frames| == k - 1
      invariant forall i :: 0 <= i < k - 1 ==> IsCountFrame(frames[i], i + 1, target, suffix)
      decreases Steps * target - scaled
    {
      FrameArithmetic(k, target);
      assert target > 0 && k < Steps;
      ghost var before := frames;
      frames := frames + [Numeral(Floored(k, target)) + suffix];
      assert forall i :: 0 <= i < k - 1 ==> frames[i] == before[i];
      scaled := scaled + target;
      k := k + 1;
    }
    FrameArithmetic(k, target);
    ghost var before := frames;
    frames := frames + [Numeral(target) + suffix];
    forall i | 0 <= i < |frames| - 1
      ensures IsCountFrame(frames[i], i + 1, target, suffix)
    {
      assert frames[i] == before[i];
    }
  }

  /** Frame `k` of a count towards `target` (k counted from 1): the running
      value is still below the target and the frame shows its floor and the suffix. */
  predicate IsCountFrame(frame: string, k: nat, target: nat, suffix: string) {
    Floored(k, target) < target && frame == Numeral(Floored(k, target)) + suffix
  }

  /** `Steps * start` after `k` frames: `k` increments of `target`. */
  function Scaled(k: nat, target: nat): nat {
    if k == 0 then 0 else Scaled(k - 1, target) + target
  }

  /** `Math.floor(start)` after `k` frames. */
  function Floored(k: nat, target: nat): nat {
    Scaled(k, target) / Steps
  }

  lemma {:induction false} ScaledIsProduct(k: nat, target: nat)
    ensures Scaled(k, target) == k * target
  {
    if k > 0 {
      ScaledIsProduct(k - 1, target);
      assert (k - 1) * target + target == k * target;
    }
  }

  /** The frame arithmetic: `start < target` exactly while fewer than `Steps`
      frames have run, and the floored value stays below the target until then. */
  lemma FrameArithmetic(k: nat, target: nat)
    ensures target > 0 ==> (Scaled(k, target) < Steps * target <==> k < Steps)
    ensures target > 0 && k < Steps ==> Floored(k, target) < target
    ensures target == 0 ==> Scaled(k, target) == 0
  {
    ScaledIsProduct(Steps, target);
    ScaledIsProduct(0, target);
    if k < Steps {
      ScaledMonotone(k, Steps - 1, target);
    } else {
      ScaledMonotone(Steps, k, target);
    }
    if target == 0 {
      ScaledIsProduct(k, target);
    }
  }

  lemma {:induction false} ScaledMonotone(j: nat, k: nat, target: nat)
    requires j <= k
    ensures Scaled(j, target) <= Scaled(k, target)
    decreases k
  {
    if j < k {
      ScaledMonotone(j, k - 1, target);
    }
  }

  /** Parsing is stable under the counter: the final text of a parsed label parses to the same label. */
  lemma ParseFinalParse(raw: string)
    ensures ParseStatLabel(FinalText(ParseStatLabel(raw))) == ParseStatLabel(raw)
  {
    var l := ParseStatLabel(raw);
    FinalTextRoundTrip(l.target, l.suffix);
  }

  // ---------------------------------------------------------------------
  // The data-animated guard
  // ---------------------------------------------------------------------

  /** The stats section as its observer sees it: the `data-animated`
      attribute and whether the observer still watches it. */
  datatype Watch = Watch(animated: bool, observed: bool)

  const Fresh := Watch(false, true)

  /** One intersection entry: the counters start when the section is
      intersecting, still observed and not yet animated; the section is then
      marked and unobserved. The second result says whether they started. */
  function OnEntry(w: Watch, isIntersecting: bool): (r: (Watch, bool))
    ensures r.1 ==> !w.animated && r.0.animated
    ensures r.0.animated == (w.animated || r.1)
  {
    if w.observed && isIntersecting && !w.animated then (Watch(true, false), true) else (w, false)
  }

  /** How many times the counters start over a sequence of entries. */
  function Starts(w: Watch, entries: seq<bool>): nat
    decreases |entries|
  {
    if entries == [] then 0
    else
      var (next, started) := OnEntry(w, entries[0]);
      (if started then 1 else 0) + Starts(next, entries[1..])
  }

  /** Once animated, a section never starts its counters again. */
  lemma {:induction false} AnimatedNeverStarts(w: Watch, entries: seq<bool>)
    requires w.animated
    ensures Starts(w, entries) == 0
    decreases |entries|
  {
    if entries != [] {
      AnimatedNeverStarts(OnEntry(w, entries[0]).0, entries[1..]);
    }
  }

  /** A fresh section starts its counters at most once, and exactly once when
      some entry reports it intersecting. */
  lemma {:induction false} AnimatesAtMostOnce(entries: seq<bool>)
    ensures Starts(Fresh, entries) <= 1
    ensures Starts(Fresh, entries) == 1 <==> true in entries
    decreases |entries|
  {
    if entries != [] {
      if entries[0] {
        AnimatedNeverStarts(Watch(true, false), entries[1..]);
      } else {
        AnimatesAtMostOnce(entries[1..]);
        assert true in entries <==> true in entries[1..];
      }
    }
  }
}
