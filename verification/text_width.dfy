/** The renderer's per-character estimate of how wide a title is drawn
    (`SvgRenderer._estimate_text_width_px`). Weights are kept exactly, in
    hundredths of the font size. */
module TextWidth {
  import opened Chars

  /** The font size the renderer estimates titles at. */
  const TitleFontSize: nat := 18

  /** The weight of one character, in hundredths of the font size. The
      checks are made in this order: whitespace 0.33, code point U+1100 or
      above 1.0, uppercase 0.72, lowercase or digit 0.62, anything else 0.7. */
  function Weight(c: char): (w: nat)
    ensures 33 <= w <= 100
  {
    if IsSpace(c) then 33
    else if c as int >= 0x1100 then 100
    else if IsUpper(c) then 72
    else if IsLower(c) || IsDigit(c) then 62
    else 70
  }

  /** The summed weight of a string, in hundredths: between 0.33 and 1.0
      per character. */
  function TotalWeight(s: string): (w: nat)
    ensures 33 * |s| <= w <= 100 * |s|
    decreases |s|
  {
    if |s| == 0 then 0 else TotalWeight(s[..|s| - 1]) + Weight(s[|s| - 1])
  }

  /** `int(w * font_size)` with `w` the summed weight: the floor of the
      exact product. */
  function EstimateWidth(s: string, fontSize: nat): nat {
    TotalWeight(s) * fontSize / 100
  }

  /** The loop of `_estimate_text_width_px`: accumulate the weights, then
      scale by the font size and truncate. */
  method EstimateTextWidth(text: string, fontSize: nat) returns (width: nat)
    ensures width == TotalWeight(text) * fontSize / 100
    ensures 33 * |text| * fontSize / 100 <= width <= |text| * fontSize
  {
    var w: nat := 0;
    var i := 0;
    while i < |text|
      invariant 0 <= i <= |text|
      invariant w == TotalWeight(text[..i])
    {
      WeightStep(text, i);
      w := w + Weight(text[i]);
      i := i + 1;
    }
    assert text[..i] == text;
    width := w * fontSize / 100;
    assert width == EstimateWidth(text, fontSize);
    WidthBounds(text, fontSize);
  }

  /** One more character of the prefix adds its own weight. */
  lemma WeightStep(text: string, i: nat)
    requires i < |text|
    ensures TotalWeight(text[..i + 1]) == TotalWeight(text[..i]) + Weight(text[i])
  {
    assert text[..i + 1][..i] == text[..i];
  }

  /** The summed weight of a concatenation is the sum of the parts. */
  lemma {:induction false} TotalWeightConcat(a: string, b: string)
    ensures TotalWeight(a + b) == TotalWeight(a) + TotalWeight(b)
    decreases |b|
  {
    if |b| == 0 {
      assert a + b == a;
    } else {
      var b' := b[..|b| - 1];
      var ab := a + b;
      assert ab[..|ab| - 1] == a + b';
      assert ab[|ab| - 1] == b[|b| - 1];
      TotalWeightConcat(a, b');
    }
  }

  lemma ScaleMonotone(x: nat, y: nat, fontSize: nat)
    requires x <= y
    ensures x * fontSize / 100 <= y * fontSize / 100
  {
    assert x * fontSize <= y * fontSize by {
      assert (y - x) * fontSize >= 0;
    }
  }

  /** The estimate lies between 0.33 and 1.0 font sizes per character; in
      particular the empty title has width 0. */
  lemma WidthBounds(s: string, fontSize: nat)
    ensures 33 * |s| * fontSize / 100 <= EstimateWidth(s, fontSize) <= |s| * fontSize
  {
    var w := TotalWeight(s);
    ScaleMonotone(33 * |s|, w, fontSize);
    ScaleMonotone(w, 100 * |s|, fontSize);
    assert 100 * |s| * fontSize / 100 == |s| * fontSize;
  }

  /** Appending a character never makes the estimate smaller, and more
      generally a title is never narrower than any of its prefixes. */
  lemma WidthMonotone(s: string, t: string, fontSize: nat)
    ensures EstimateWidth(s, fontSize) <= EstimateWidth(s + t, fontSize)
  {
    TotalWeightConcat(s, t);
    ScaleMonotone(TotalWeight(s), TotalWeight(s + t), fontSize);
  }

  lemma WidthAppendChar(s: string, c: char, fontSize: nat)
    ensures EstimateWidth(s, fontSize) <= EstimateWidth(s + [c], fontSize)
  {
    WidthMonotone(s, [c], fontSize);
  }
}
