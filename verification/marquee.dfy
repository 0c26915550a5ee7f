/** The scrolling-title parameters the renderer computes for a title too
    wide for its clip (`SvgRenderer._compute_marquee_params`) and the text
    it substitutes for them. */
module Marquee {
  import opened TextWidth
  import opened Decimal

  /** Where the second copy of the title starts, how far one scroll step
      moves, and how long it takes in seconds. */
  datatype MarqueeParams = MarqueeParams(titleX2: nat, marqueeDx: nat, marqueeDur: real)

  /** The smallest scroll distance, in pixels. */
  const MinGap: nat := 520
  /** Extra distance after the title, in pixels. */
  const TrailingSpace: nat := 70
  /** The x offset of the title's first copy. */
  const TitleX: nat := 160
  /** Scroll speed, in pixels per second. */
  const Speed: real := 55.0
  const MinDuration: real := 10.0
  const MaxDuration: real := 28.0

  /** The parameters for `title` at the title font size. The gap is the
      estimated width plus 70 pixels, but at least 520; the second copy
      starts 160 pixels further; the duration is the gap at 55 pixels a
      second, clamped to between 10 and 28 seconds. */
  function ComputeMarqueeParams(title: string): (mp: MarqueeParams)
    ensures var w := EstimateWidth(title, TitleFontSize);
      && mp.marqueeDx >= MinGap && mp.marqueeDx >= w + TrailingSpace
      && (mp.marqueeDx == MinGap || mp.marqueeDx == w + TrailingSpace)
    ensures mp.titleX2 == TitleX + mp.marqueeDx
    ensures MinDuration <= mp.marqueeDur <= MaxDuration
    ensures mp.marqueeDur == mp.marqueeDx as real / Speed
        <==> 550 <= mp.marqueeDx <= 1540
    ensures mp.marqueeDx < 550 ==> mp.marqueeDur == MinDuration
    ensures mp.marqueeDx > 1540 ==> mp.marqueeDur == MaxDuration
  {
    var w := EstimateWidth(title, TitleFontSize);
    var gap := if w + TrailingSpace > MinGap then w + TrailingSpace else MinGap;
    var x := gap as real / Speed;
    var capped := if x < MaxDuration then x else MaxDuration;
    var dur := if capped > MinDuration then capped else MinDuration;
    MarqueeParams(TitleX + gap, gap, dur)
  }

  /** A title that extends another never scrolls a shorter distance or
      faster: gap, second-copy offset and duration only grow. */
  lemma MarqueeMonotone(s: string, t: string)
    ensures var a := ComputeMarqueeParams(s);
      var b := ComputeMarqueeParams(s + t);
      a.marqueeDx <= b.marqueeDx && a.titleX2 <= b.titleX2 && a.marqueeDur <= b.marqueeDur
  {
    WidthMonotone(s, t, TitleFontSize);
    var a := ComputeMarqueeParams(s);
    var b := ComputeMarqueeParams(s + t);
    assert a.marqueeDx <= b.marqueeDx;
    DivideMonotone(a.marqueeDx, b.marqueeDx);
  }

  lemma DivideMonotone(x: nat, y: nat)
    requires x <= y
    ensures x as real / Speed <= y as real / Speed
  {
  }

  /** The nearest whole number of hundredths to `x` (a tie would go up;
      none arises for a duration, see `DurationCentisClosedForm`). */
  function RoundCentis(x: real): (c: nat)
    requires x >= 0.0
    ensures c as real - 0.5 <= 100.0 * x < c as real + 0.5
  {
    (100.0 * x + 0.5).Floor
  }

  /** `f"{dur:.2f}"`: the duration with exactly two decimals. */
  function DurationText(dur: real): (r: string)
    requires dur >= 0.0
    ensures |r| >= 4 && r[|r| - 3] == '.'
    ensures Canonical(r[..|r| - 3]) && AllDigits(r[|r| - 2..])
    ensures var c := Value(r[..|r| - 3]) * 100 + Value(r[|r| - 2..]);
      c as real - 0.5 <= 100.0 * dur < c as real + 0.5
  {
    Fixed2(RoundCentis(dur))
  }

  /** For an unclamped duration `gap / 55` the text shows
      `floor((40 * gap + 11) / 22)` hundredths: `100 * gap / 55` is
      `20 * gap / 11`, whose distance from a half-integer is at least
      1/22, so the rounding is never a tie and binary floating point
      cannot change it. */
  lemma {:induction false} DurationCentisClosedForm(gap: nat)
    ensures RoundCentis(gap as real / Speed) == (40 * gap + 11) / 22
    ensures (40 * gap + 11) % 22 != 0
  {
    var c := RoundCentis(gap as real / Speed);
    assert 100.0 * (gap as real / Speed) == (20 * gap) as real / 11.0;
    assert (22 * c - 11) as real <= (40 * gap) as real < (22 * c + 11) as real;
    assert 22 * c - 11 <= 40 * gap < 22 * c + 11;
    assert 40 * gap % 2 == 0;
  }
}
