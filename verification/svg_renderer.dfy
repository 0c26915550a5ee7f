/** `SvgRenderer.render`: fills an SVG template with the values of a
    `RenderContext`. A title wider than the clip scrolls (the static title
    block is cut out and the marquee numbers are filled in); otherwise the
    scrolling block is cut out. Then each `{{NAME}}` placeholder is
    replaced by the escaped context value, in a fixed order. */
module SvgRenderer {
  import opened Chars
  import opened Results
  import opened Text
  import opened Decimal
  import opened XmlEscape
  import opened TextWidth
  import opened Marquee

  /** The values the widget shows. */
  datatype RenderContext = RenderContext(
    channelName: string,
    title: string,
    url: string,
    thumbUrl: string,
    bgUrl: string,
    timeLeft: string,
    timeRight: string)

  /** Width of the title's clip region, in pixels. */
  const TitleClipWidth: nat := 372

  const StaticStart: string := "TITLE_STATIC_START"
  const StaticEnd: string := "TITLE_STATIC_END"
  const FlowStart: string := "TITLE_FLOW_START"
  const FlowEnd: string := "TITLE_FLOW_END"

  /** The title scrolls when its estimated width exceeds the clip. */
  predicate UsesFlow(title: string) {
    EstimateWidth(title, TitleFontSize) > TitleClipWidth
  }

  /** Whether a title scrolls follows from its length at the extremes: up
      to 20 characters never scroll (at most 18 pixels each), 63 or more
      always do (at least 0.33 * 18 pixels each). */
  lemma LayoutByLength(title: string)
    ensures |title| <= 20 ==> !UsesFlow(title)
    ensures |title| >= 63 ==> UsesFlow(title)
  {
    WidthBounds(title, TitleFontSize);
    if |title| >= 63 {
      assert 33 * |title| * 18 >= 33 * 63 * 18;
    }
  }

  // ---------------------------------------------------------------------
  // Comment-delimited blocks
  // ---------------------------------------------------------------------

  /** The comment `<!-- name -->` that delimits a block of the template. */
  function Marker(name: string): string {
    "<!-- " + name + " -->"
  }

  /** A block name as the templates use it: no `<`, no `{`, no digit. */
  predicate PlainName(name: string) {
    forall c :: c in name ==> c != '<' && c != '{' && !IsAsciiDigit(c)
  }

  /** A marker starts with its only `<`, ends with `>`, and holds no `{`
      and no digit. */
  lemma MarkerShape(name: string)
    requires PlainName(name)
    ensures var m := Marker(name);
      && |m| > 0 && m[0] == '<' && m[|m| - 1] == '>'
      && UniqueHead(m)
      && '{' !in m
      && (forall c :: c in m ==> !IsAsciiDigit(c))
  {
    var m := Marker(name);
    var a := "<!-- " + name;
    assert m == a + " -->";
    forall i | 0 < i < |m| ensures m[i] != '<' {
      if i < |a| {
        assert m[i] == a[i];
        if i >= 5 {
          assert a[i] == name[i - 5] && name[i - 5] in name;
        } else {
          assert a[i] == "<!-- "[i];
        }
      } else {
        assert m[i] == " -->"[i - |a|];
      }
    }
    forall c | c in m ensures c != '{' && !IsAsciiDigit(c) {
      var i :| 0 <= i < |m| && m[i] == c;
      if i < |a| {
        assert m[i] == a[i];
        if i >= 5 {
          assert a[i] == name[i - 5] && name[i - 5] in name;
        } else {
          assert a[i] == "<!-- "[i];
        }
      } else {
        assert m[i] == " -->"[i - |a|];
      }
    }
  }

  lemma NamesArePlain()
    ensures PlainName(StaticStart) && PlainName(StaticEnd)
    ensures PlainName(FlowStart) && PlainName(FlowEnd)
  {
  }

  /** `SvgRenderer._remove_block`: when both markers occur, the text from
      the first start marker through the end of the first end marker is
      cut out; otherwise the text is returned unchanged. Nothing new is
      brought in. */
  function RemoveBlock(svg: string, start: string, end: string): (r: string)
    ensures !Contains(svg, Marker(start)) || !Contains(svg, Marker(end)) ==> r == svg
    ensures forall c :: c in r ==> c in svg
  {
    Cut(svg, Marker(start), Marker(end))
  }

  /** `RemoveBlock` with the two marker texts given. */
  function Cut(svg: string, s: string, e: string): (r: string)
    ensures !Contains(svg, s) || !Contains(svg, e) ==> r == svg
    ensures forall c :: c in r ==> c in svg
  {
    match (IndexOf(svg, s), IndexOf(svg, e))
    case (Some(i), Some(j)) =>
      var r := svg[..i] + svg[j + |e|..];
      assert forall c :: c in r ==> c in svg by {
        forall c | c in r ensures c in svg {
          if c in svg[..i] {
            var k :| 0 <= k < i && svg[..i][k] == c;
            assert svg[k] == c;
          } else {
            var k :| 0 <= k < |svg| - (j + |e|) && svg[j + |e|..][k] == c;
            assert svg[j + |e| + k] == c;
          }
        }
      }
      r
    case _ => svg
  }

  /** The first character of `m` occurs nowhere else in it. */
  predicate UniqueHead(m: string) {
    |m| > 0 && forall i :: 0 < i < |m| ==> m[i] != m[0]
  }

  lemma CutAt(svg: string, s: string, e: string, i: nat, j: nat)
    requires IndexOf(svg, s) == Some(i) && IndexOf(svg, e) == Some(j)
    ensures j + |e| <= |svg| && Cut(svg, s, e) == svg[..i] + svg[j + |e|..]
  {
  }

  lemma CutExcises(pre: string, s: string, mid: string, e: string, post: string)
    requires UniqueHead(s) && UniqueHead(e)
    requires !Contains(pre, s) && !Contains(pre + s + mid, e)
    ensures Cut(pre + s + mid + e + post, s, e) == pre + post
  {
    var svg := pre + s + mid + e + post;
    var head := pre + s + mid;
    FiveParts(pre, s, mid, e, post);
    FirstOccurrence(pre, s, mid + e + post);
    FirstOccurrence(head, e, post);
    CutAt(svg, s, e, |pre|, |head|);
  }

  lemma CutReversed(pre: string, s: string, mid: string, e: string, post: string)
    requires UniqueHead(s) && UniqueHead(e)
    requires !Contains(pre, e) && !Contains(pre + e + mid, s)
    ensures Cut(pre + e + mid + s + post, s, e) == pre + e + mid + mid + s + post
  {
    var svg := pre + e + mid + s + post;
    var x := pre + e + mid;
    FiveParts(pre, e, mid, s, post);
    FirstOccurrence(pre, e, mid + s + post);
    FirstOccurrence(x, s, post);
    CutAt(svg, s, e, |x|, |pre|);
    Reassociate(pre, e, mid, s, post);
  }

  /** How a text of five parts splits. */
  lemma FiveParts(a: string, b: string, c: string, d: string, f: string)
    ensures var t := a + b + c + d + f;
      && t == a + b + (c + d + f) && t == a + b + c + d + f
      && t[..|a|] == a && t[..|a + b + c|] == a + b + c
      && t[|a + b + c + d|..] == f && t[|a| + |b|..] == c + d + f
  {
    var t := a + b + c + d + f;
    assert t == a + b + (c + d + f);
    assert t == (a + b + c) + d + f;
    assert t == (a + b + c + d) + f;
  }

  lemma Reassociate(a: string, b: string, c: string, d: string, f: string)
    ensures (a + b + c) + (c + d + f) == a + b + c + c + d + f
  {
  }

  /** A block delimited by the first start marker and the first end marker
      after it is cut out, markers included, and the rest is kept. */
  lemma RemoveBlockExcises(pre: string, mid: string, post: string, start: string, end: string)
    requires PlainName(start) && PlainName(end)
    requires !Contains(pre, Marker(start))
    requires !Contains(pre + Marker(start) + mid, Marker(end))
    ensures RemoveBlock(pre + Marker(start) + mid + Marker(end) + post, start, end) == pre + post
  {
    MarkerShape(start);
    MarkerShape(end);
    CutExcises(pre, Marker(start), mid, Marker(end), post);
  }

  /** With the end marker before the start marker the cut runs backwards:
      the text between the markers comes out twice and both markers stay. */
  lemma RemoveBlockReversed(pre: string, mid: string, post: string, start: string, end: string)
    requires PlainName(start) && PlainName(end)
    requires !Contains(pre, Marker(end))
    requires !Contains(pre + Marker(end) + mid, Marker(start))
    ensures RemoveBlock(pre + Marker(end) + mid + Marker(start) + post, start, end)
         == pre + Marker(end) + mid + mid + Marker(start) + post
  {
    MarkerShape(start);
    MarkerShape(end);
    CutReversed(pre, Marker(start), mid, Marker(end), post);
  }

  /** The first start marker does not come after the first end marker
      (or one of them is missing), so the block cut is a real excision. */
  predicate InOrder(svg: string, start: string, end: string) {
    match (IndexOf(svg, Marker(start)), IndexOf(svg, Marker(end)))
    case (Some(i), Some(j)) => i <= j
    case _ => true
  }

  /** Cutting a block never adds a character: it keeps at most as many
      copies as the text had when the markers are in order, and at most
      twice as many (the duplicated middle of `RemoveBlockReversed`)
      otherwise. */
  lemma RemoveBlockCount(svg: string, start: string, end: string, c: char)
    ensures multiset(RemoveBlock(svg, start, end))[c] <= 2 * multiset(svg)[c]
    ensures InOrder(svg, start, end) ==> multiset(RemoveBlock(svg, start, end))[c] <= multiset(svg)[c]
  {
    CutCount(svg, Marker(start), Marker(end), c);
  }

  lemma CutCount(svg: string, s: string, e: string, c: char)
    ensures multiset(Cut(svg, s, e))[c] <= 2 * multiset(svg)[c]
    ensures (match (IndexOf(svg, s), IndexOf(svg, e))
             case (Some(i), Some(j)) => i <= j
             case _ => true) ==> multiset(Cut(svg, s, e))[c] <= multiset(svg)[c]
  {
    var r := Cut(svg, s, e);
    match (IndexOf(svg, s), IndexOf(svg, e))
    case (Some(i), Some(j)) =>
      CutAt(svg, s, e, i, j);
      var kept := svg[..i] + svg[j + |e|..];
      assert r == kept;
      CountSlices(svg, i, j + |e|, c);
      assert multiset(r)[c] == multiset(kept)[c];
    case _ =>
      assert r == svg;
  }

  /** The count of `c` in a prefix plus a suffix of `svg`. */
  lemma CountSlices(svg: string, i: nat, k: nat, c: char)
    requires i <= |svg| && k <= |svg|
    ensures multiset(svg[..i] + svg[k..])[c] <= 2 * multiset(svg)[c]
    ensures i <= k ==> multiset(svg[..i] + svg[k..])[c] <= multiset(svg)[c]
  {
    assert svg == svg[..i] + svg[i..];
    assert svg == svg[..k] + svg[k..];
    if i <= k {
      assert svg == svg[..i] + svg[i..k] + svg[k..];
    }
  }

  // ---------------------------------------------------------------------
  // Marquee placeholders
  // ---------------------------------------------------------------------

  /** Text made of digits and `.`, starting with a digit: how every
      marquee number is written. */
  predicate NumberText(t: string) {
    |t| > 0 && IsAsciiDigit(t[0]) && forall c :: c in t ==> IsAsciiDigit(c) || c == '.'
  }

  /** The renderer's number placeholders, with the three numbers already
      written out: `{{TITLE_X2}}`, `{{MARQUEE_DX}}` and `{{MARQUEE_DUR}}`, in this
      order, become `x2`, `dx` and `dur`. */
  function FillNumbers(svg: string, x2: string, dx: string, dur: string): string {
    var s1 := Replace(svg, "{{TITLE_X2}}", x2);
    var s2 := Replace(s1, "{{MARQUEE_DX}}", dx);
    Replace(s2, "{{MARQUEE_DUR}}", dur)
  }

  /** The marquee placeholders filled for `title`: `str(title_x2)`,
      `str(gap)` and the duration with two decimals. */
  function FillMarquee(svg: string, title: string): string {
    var mp := ComputeMarqueeParams(title);
    FillNumbers(svg, Dec(mp.titleX2), Dec(mp.marqueeDx), DurationText(mp.marqueeDur))
  }

  /** Every marquee number is written with digits and `.` only. */
  lemma NumberTexts(title: string)
    ensures var mp := ComputeMarqueeParams(title);
      && NumberText(Dec(mp.titleX2)) && NumberText(Dec(mp.marqueeDx))
      && NumberText(DurationText(mp.marqueeDur))
  {
    var mp := ComputeMarqueeParams(title);
    DecChars(mp.titleX2);
    DecChars(mp.marqueeDx);
    DurationTextChars(mp.marqueeDur);
  }

  lemma DecChars(n: nat)
    ensures NumberText(Dec(n))
  {
    var r := Dec(n);
    forall c | c in r ensures IsAsciiDigit(c) {
      var i :| 0 <= i < |r| && r[i] == c;
    }
  }

  lemma DurationTextChars(dur: real)
    requires dur >= 0.0
    ensures NumberText(DurationText(dur))
  {
    var r := DurationText(dur);
    assert r[0] == r[..|r| - 3][0];
    forall c | c in r ensures IsAsciiDigit(c) || c == '.' {
      var i :| 0 <= i < |r| && r[i] == c;
      if i < |r| - 3 {
        assert r[..|r| - 3][i] == c;
      } else if i > |r| - 3 {
        assert r[|r| - 2..][i - (|r| - 2)] == c;
      }
    }
  }

  /** Filling the numbers works piece by piece around a block marker. */
  lemma FillNumbersAround(a: string, name: string, b: string, x2: string, dx: string, dur: string)
    requires PlainName(name)
    ensures FillNumbers(a + Marker(name) + b, x2, dx, dur)
         == FillNumbers(a, x2, dx, dur) + Marker(name) + FillNumbers(b, x2, dx, dur)
  {
    var m := Marker(name);
    MarkerShape(name);
    ReplaceAround(a, m, b, "{{TITLE_X2}}", x2);
    var a1 := Replace(a, "{{TITLE_X2}}", x2);
    var b1 := Replace(b, "{{TITLE_X2}}", x2);
    ReplaceAround(a1, m, b1, "{{MARQUEE_DX}}", dx);
    var a2 := Replace(a1, "{{MARQUEE_DX}}", dx);
    var b2 := Replace(b1, "{{MARQUEE_DX}}", dx);
    ReplaceAround(a2, m, b2, "{{MARQUEE_DUR}}", dur);
  }

  /** Filling in numbers never creates a block marker. */
  lemma FillNumbersKeepsAbsent(svg: string, name: string, x2: string, dx: string, dur: string)
    requires PlainName(name)
    requires NumberText(x2) && NumberText(dx) && NumberText(dur)
    requires !Contains(svg, Marker(name))
    ensures !Contains(FillNumbers(svg, x2, dx, dur), Marker(name))
  {
    var m := Marker(name);
    MarkerShape(name);
    ReplaceKeepsAbsent(svg, "{{TITLE_X2}}", x2, m);
    var s1 := Replace(svg, "{{TITLE_X2}}", x2);
    ReplaceKeepsAbsent(s1, "{{MARQUEE_DX}}", dx, m);
    var s2 := Replace(s1, "{{MARQUEE_DX}}", dx);
    ReplaceKeepsAbsent(s2, "{{MARQUEE_DUR}}", dur, m);
  }

  /** Each marquee placeholder becomes its own number. */
  lemma FillNumbersValues(x2: string, dx: string, dur: string)
    requires NumberText(x2) && NumberText(dx) && NumberText(dur)
    ensures FillNumbers("{{TITLE_X2}}", x2, dx, dur) == x2
    ensures FillNumbers("{{MARQUEE_DX}}", x2, dx, dur) == dx
    ensures FillNumbers("{{MARQUEE_DUR}}", x2, dx, dur) == dur
  {
    FillTitleX2(x2, dx, dur);
    FillMarqueeDx(x2, dx, dur);
    FillMarqueeDur(x2, dx, dur);
  }

  lemma FillTitleX2(x2: string, dx: string, dur: string)
    requires NumberText(x2)
    ensures FillNumbers("{{TITLE_X2}}", x2, dx, dur) == x2
  {
    calc {
      FillNumbers("{{TITLE_X2}}", x2, dx, dur);
      Replace(Replace(Replace("{{TITLE_X2}}", "{{TITLE_X2}}", x2), "{{MARQUEE_DX}}", dx), "{{MARQUEE_DUR}}", dur);
      { ReplaceWhole("{{TITLE_X2}}", x2); }
      Replace(Replace(x2, "{{MARQUEE_DX}}", dx), "{{MARQUEE_DUR}}", dur);
      { ReplaceFree(x2, "{{MARQUEE_DX}}", dx, '{'); }
      Replace(x2, "{{MARQUEE_DUR}}", dur);
      { ReplaceFree(x2, "{{MARQUEE_DUR}}", dur, '{'); }
      x2;
    }
  }

  lemma FillMarqueeDx(x2: string, dx: string, dur: string)
    requires NumberText(dx)
    ensures FillNumbers("{{MARQUEE_DX}}", x2, dx, dur) == dx
  {
    calc {
      FillNumbers("{{MARQUEE_DX}}", x2, dx, dur);
      Replace(Replace(Replace("{{MARQUEE_DX}}", "{{TITLE_X2}}", x2), "{{MARQUEE_DX}}", dx), "{{MARQUEE_DUR}}", dur);
      { ReplaceFree("{{MARQUEE_DX}}", "{{TITLE_X2}}", x2, '2'); }
      Replace(Replace("{{MARQUEE_DX}}", "{{MARQUEE_DX}}", dx), "{{MARQUEE_DUR}}", dur);
      { ReplaceWhole("{{MARQUEE_DX}}", dx); }
      Replace(dx, "{{MARQUEE_DUR}}", dur);
      { ReplaceFree(dx, "{{MARQUEE_DUR}}", dur, '{'); }
      dx;
    }
  }

  lemma FillMarqueeDur(x2: string, dx: string, dur: string)
    requires NumberText(dur)
    ensures FillNumbers("{{MARQUEE_DUR}}", x2, dx, dur) == dur
  {
    calc {
      FillNumbers("{{MARQUEE_DUR}}", x2, dx, dur);
      Replace(Replace(Replace("{{MARQUEE_DUR}}", "{{TITLE_X2}}", x2), "{{MARQUEE_DX}}", dx), "{{MARQUEE_DUR}}", dur);
      { ReplaceFree("{{MARQUEE_DUR}}", "{{TITLE_X2}}", x2, '2'); }
      Replace(Replace("{{MARQUEE_DUR}}", "{{MARQUEE_DX}}", dx), "{{MARQUEE_DUR}}", dur);
      { ReplaceFree("{{MARQUEE_DUR}}", "{{MARQUEE_DX}}", dx, 'X'); }
      Replace("{{MARQUEE_DUR}}", "{{MARQUEE_DUR}}", dur);
      { ReplaceWhole("{{MARQUEE_DUR}}", dur); }
      dur;
    }
  }

  /** For a scrolling title the three placeholders show the gap plus 160,
      the gap, and the duration to two decimals. */
  lemma FillMarqueeValues(title: string)
    ensures var mp := ComputeMarqueeParams(title);
      && FillMarquee("{{TITLE_X2}}", title) == Dec(mp.titleX2)
      && FillMarquee("{{MARQUEE_DX}}", title) == Dec(mp.marqueeDx)
      && FillMarquee("{{MARQUEE_DUR}}", title) == DurationText(mp.marqueeDur)
  {
    var mp := ComputeMarqueeParams(title);
    NumberTexts(title);
    FillNumbersValues(Dec(mp.titleX2), Dec(mp.marqueeDx), DurationText(mp.marqueeDur));
  }

  /** Filling in numbers brings in no character but digits and `.`. */
  lemma FillNumbersChars(svg: string, x2: string, dx: string, dur: string)
    requires NumberText(x2) && NumberText(dx) && NumberText(dur)
    ensures forall c :: c in FillNumbers(svg, x2, dx, dur) && !IsAsciiDigit(c) && c != '.' ==> c in svg
  {
    var s1 := Replace(svg, "{{TITLE_X2}}", x2);
    var s2 := Replace(s1, "{{MARQUEE_DX}}", dx);
    forall c | c in FillNumbers(svg, x2, dx, dur) && !IsAsciiDigit(c) && c != '.'
      ensures c in svg
    {
      ReplaceChars(s2, "{{MARQUEE_DUR}}", dur, c);
      ReplaceChars(s1, "{{MARQUEE_DX}}", dx, c);
      ReplaceChars(svg, "{{TITLE_X2}}", x2, c);
    }
  }

  /** `<` and `>`: the characters a value could use to inject markup. */
  predicate Bracket(c: char) {
    c == '<' || c == '>'
  }

  /** Filling in numbers keeps the count of each bracket. */
  lemma FillNumbersCount(svg: string, x2: string, dx: string, dur: string, c: char)
    requires NumberText(x2) && NumberText(dx) && NumberText(dur) && Bracket(c)
    ensures multiset(FillNumbers(svg, x2, dx, dur))[c] == multiset(svg)[c]
  {
    var s1 := Replace(svg, "{{TITLE_X2}}", x2);
    var s2 := Replace(s1, "{{MARQUEE_DX}}", dx);
    ReplaceCount(svg, "{{TITLE_X2}}", x2, c);
    ReplaceCount(s1, "{{MARQUEE_DX}}", dx, c);
    ReplaceCount(s2, "{{MARQUEE_DUR}}", dur, c);
  }

  // ---------------------------------------------------------------------
  // Layout and substitution
  // ---------------------------------------------------------------------

  /** The renderer's layout choice: a scrolling title gets the marquee
      numbers and loses the static block, any other title loses the
      scrolling block. Only digits and `.` can be new. */
  function ApplyLayout(svg: string, title: string): (r: string)
    ensures forall c :: c in r && !IsAsciiDigit(c) && c != '.' ==> c in svg
    ensures multiset(r)['<'] <= 2 * multiset(svg)['<'] && multiset(r)['>'] <= 2 * multiset(svg)['>']
  {
    if UsesFlow(title) then
      var mp := ComputeMarqueeParams(title);
      NumberTexts(title);
      FillNumbersChars(svg, Dec(mp.titleX2), Dec(mp.marqueeDx), DurationText(mp.marqueeDur));
      LayoutCount(svg, title, '<');
      LayoutCount(svg, title, '>');
      RemoveBlock(FillMarquee(svg, title), StaticStart, StaticEnd)
    else
      RemoveBlockCount(svg, FlowStart, FlowEnd, '<');
      RemoveBlockCount(svg, FlowStart, FlowEnd, '>');
      RemoveBlock(svg, FlowStart, FlowEnd)
  }

  /** Laying out keeps or lowers the count of a bracket when the cut block's
      markers are in order, and at most doubles it otherwise. */
  lemma LayoutCount(svg: string, title: string, c: char)
    requires Bracket(c)
    ensures UsesFlow(title) ==>
      var laid := RemoveBlock(FillMarquee(svg, title), StaticStart, StaticEnd);
      && multiset(laid)[c] <= 2 * multiset(svg)[c]
      && (InOrder(FillMarquee(svg, title), StaticStart, StaticEnd) ==> multiset(laid)[c] <= multiset(svg)[c])
    ensures !UsesFlow(title) ==>
      var laid := RemoveBlock(svg, FlowStart, FlowEnd);
      && multiset(laid)[c] <= 2 * multiset(svg)[c]
      && (InOrder(svg, FlowStart, FlowEnd) ==> multiset(laid)[c] <= multiset(svg)[c])
  {
    if UsesFlow(title) {
      var mp := ComputeMarqueeParams(title);
      NumberTexts(title);
      FillNumbersCount(svg, Dec(mp.titleX2), Dec(mp.marqueeDx), DurationText(mp.marqueeDur), c);
      RemoveBlockCount(FillMarquee(svg, title), StaticStart, StaticEnd, c);
    } else {
      RemoveBlockCount(svg, FlowStart, FlowEnd, c);
    }
  }

  /** Every context value passed through `escape`. */
  function EscapeContext(ctx: RenderContext): (e: RenderContext)
    ensures Unescape(e.title) == ctx.title && Unescape(e.url) == ctx.url
    ensures Unescape(e.thumbUrl) == ctx.thumbUrl && Unescape(e.bgUrl) == ctx.bgUrl
    ensures Unescape(e.timeLeft) == ctx.timeLeft && Unescape(e.timeRight) == ctx.timeRight
    ensures Unescape(e.channelName) == ctx.channelName
    ensures NoBrackets(e)
  {
    RenderContext(Escape(ctx.channelName), Escape(ctx.title), Escape(ctx.url), Escape(ctx.thumbUrl),
                  Escape(ctx.bgUrl), Escape(ctx.timeLeft), Escape(ctx.timeRight))
  }

  /** No value holds `<` or `>`. */
  predicate NoBrackets(v: RenderContext) {
    && '<' !in v.title && '>' !in v.title && '<' !in v.url && '>' !in v.url
    && '<' !in v.thumbUrl && '>' !in v.thumbUrl && '<' !in v.bgUrl && '>' !in v.bgUrl
    && '<' !in v.timeLeft && '>' !in v.timeLeft && '<' !in v.timeRight && '>' !in v.timeRight
    && '<' !in v.channelName && '>' !in v.channelName
  }

  /** The renderer's value placeholders, with the values already escaped: the
      seven placeholders, in this order, each replaced by its value. */
  function SubstituteValues(svg: string, v: RenderContext): string {
    SubstituteRest(Replace(svg, "{{TITLE}}", v.title), v)
  }

  /** The six replacements after `{{TITLE}}`. */
  function SubstituteRest(s1: string, v: RenderContext): string {
    SubstituteRestAfterUrl(Replace(s1, "{{URL}}", v.url), v)
  }

  /** The five replacements after `{{URL}}`. */
  function SubstituteRestAfterUrl(s2: string, v: RenderContext): string {
    var s3 := Replace(s2, "{{THUMB_URL}}", v.thumbUrl);
    var s4 := Replace(s3, "{{BG_URL}}", v.bgUrl);
    var s5 := Replace(s4, "{{TIME_LEFT}}", v.timeLeft);
    var s6 := Replace(s5, "{{TIME_RIGHT}}", v.timeRight);
    Replace(s6, "{{CHANNEL_NAME}}", v.channelName)
  }

  /** The renderer's value placeholders: each value is escaped, then
      substituted. */
  function Substitute(svg: string, ctx: RenderContext): string {
    SubstituteValues(svg, EscapeContext(ctx))
  }

  /** Replacing with values free of `c` brings in no `c`. */
  lemma SubstituteValuesChars(svg: string, v: RenderContext, c: char)
    requires c !in v.title && c !in v.url && c !in v.thumbUrl && c !in v.bgUrl
    requires c !in v.timeLeft && c !in v.timeRight && c !in v.channelName
    ensures c in SubstituteValues(svg, v) ==> c in svg
  {
    var s1 := Replace(svg, "{{TITLE}}", v.title);
    var s2 := Replace(s1, "{{URL}}", v.url);
    var s3 := Replace(s2, "{{THUMB_URL}}", v.thumbUrl);
    var s4 := Replace(s3, "{{BG_URL}}", v.bgUrl);
    var s5 := Replace(s4, "{{TIME_LEFT}}", v.timeLeft);
    var s6 := Replace(s5, "{{TIME_RIGHT}}", v.timeRight);
    if c in SubstituteValues(svg, v) {
      ReplaceChars(s6, "{{CHANNEL_NAME}}", v.channelName, c);
      ReplaceChars(s5, "{{TIME_RIGHT}}", v.timeRight, c);
      ReplaceChars(s4, "{{TIME_LEFT}}", v.timeLeft, c);
      ReplaceChars(s3, "{{BG_URL}}", v.bgUrl, c);
      ReplaceChars(s2, "{{THUMB_URL}}", v.thumbUrl, c);
      ReplaceChars(s1, "{{URL}}", v.url, c);
      ReplaceChars(svg, "{{TITLE}}", v.title, c);
    }
  }

  /** Replacing with bracket-free values keeps the count of each bracket. */
  lemma SubstituteValuesCount(svg: string, v: RenderContext, c: char)
    requires NoBrackets(v) && Bracket(c)
    ensures multiset(SubstituteValues(svg, v))[c] == multiset(svg)[c]
  {
    var s1 := Replace(svg, "{{TITLE}}", v.title);
    var s2 := Replace(s1, "{{URL}}", v.url);
    var s3 := Replace(s2, "{{THUMB_URL}}", v.thumbUrl);
    var s4 := Replace(s3, "{{BG_URL}}", v.bgUrl);
    var s5 := Replace(s4, "{{TIME_LEFT}}", v.timeLeft);
    var s6 := Replace(s5, "{{TIME_RIGHT}}", v.timeRight);
    ReplaceCount(svg, "{{TITLE}}", v.title, c);
    ReplaceCount(s1, "{{URL}}", v.url, c);
    ReplaceCount(s2, "{{THUMB_URL}}", v.thumbUrl, c);
    ReplaceCount(s3, "{{BG_URL}}", v.bgUrl, c);
    ReplaceCount(s4, "{{TIME_LEFT}}", v.timeLeft, c);
    ReplaceCount(s5, "{{TIME_RIGHT}}", v.timeRight, c);
    ReplaceCount(s6, "{{CHANNEL_NAME}}", v.channelName, c);
  }

  /** `SvgRenderer.render` on the template's text. No context value can
      bring markup into the result: every `<` and `>` in it comes from the
      template. */
  function Render(template: string, ctx: RenderContext): (r: string)
    ensures '<' in r ==> '<' in template
    ensures '>' in r ==> '>' in template
    ensures multiset(r)['<'] == multiset(ApplyLayout(template, ctx.title))['<']
    ensures multiset(r)['>'] == multiset(ApplyLayout(template, ctx.title))['>']
    ensures multiset(r)['<'] <= 2 * multiset(template)['<'] && multiset(r)['>'] <= 2 * multiset(template)['>']
  {
    var laid := ApplyLayout(template, ctx.title);
    SubstituteValuesChars(laid, EscapeContext(ctx), '<');
    SubstituteValuesChars(laid, EscapeContext(ctx), '>');
    SubstituteValuesCount(laid, EscapeContext(ctx), '<');
    SubstituteValuesCount(laid, EscapeContext(ctx), '>');
    Substitute(laid, ctx)
  }

  /** With the cut block's markers in order, the rendered text has no more
      `<` or `>` than the template: every bracket is one of the template's. */
  lemma RenderCount(template: string, ctx: RenderContext, c: char)
    requires Bracket(c)
    requires UsesFlow(ctx.title) ==> InOrder(FillMarquee(template, ctx.title), StaticStart, StaticEnd)
    requires !UsesFlow(ctx.title) ==> InOrder(template, FlowStart, FlowEnd)
    ensures multiset(Render(template, ctx))[c] <= multiset(template)[c]
  {
    LayoutCount(template, ctx.title, c);
  }

  // ---------------------------------------------------------------------
  // What rendering does to a template
  // ---------------------------------------------------------------------

  /** A title that fits: the scrolling block is cut out and the rest of
      the template is substituted. */
  lemma RenderStatic(pre: string, mid: string, post: string, ctx: RenderContext)
    requires !UsesFlow(ctx.title)
    requires !Contains(pre, Marker(FlowStart))
    requires !Contains(pre + Marker(FlowStart) + mid, Marker(FlowEnd))
    ensures Render(pre + Marker(FlowStart) + mid + Marker(FlowEnd) + post, ctx)
         == Substitute(pre + post, ctx)
  {
    NamesArePlain();
    RemoveBlockExcises(pre, mid, post, FlowStart, FlowEnd);
  }

  /** The block-cutting step for a scrolling title, with the numbers as
      parameters. */
  lemma FlowLayout(pre: string, mid: string, post: string, x2: string, dx: string, dur: string)
    requires NumberText(x2) && NumberText(dx) && NumberText(dur)
    requires !Contains(pre, Marker(StaticStart))
    requires !Contains(pre + Marker(StaticStart) + mid, Marker(StaticEnd))
    ensures RemoveBlock(FillNumbers(pre + Marker(StaticStart) + mid + Marker(StaticEnd) + post, x2, dx, dur),
                        StaticStart, StaticEnd)
         == FillNumbers(pre, x2, dx, dur) + FillNumbers(post, x2, dx, dur)
  {
    var s := Marker(StaticStart);
    var e := Marker(StaticEnd);
    NamesArePlain();
    var fp := FillNumbers(pre, x2, dx, dur);
    var fm := FillNumbers(mid, x2, dx, dur);
    var fq := FillNumbers(post, x2, dx, dur);
    FillNumbersFive(pre, StaticStart, mid, StaticEnd, post, x2, dx, dur);
    FillNumbersKeepsAbsent(pre, StaticStart, x2, dx, dur);
    FillNumbersAround(pre, StaticStart, mid, x2, dx, dur);
    FillNumbersKeepsAbsent(pre + s + mid, StaticEnd, x2, dx, dur);
    RemoveBlockExcises(fp, fm, fq, StaticStart, StaticEnd);
  }

  /** Filling the numbers leaves two block markers in place. */
  lemma FillNumbersFive(pre: string, start: string, mid: string, end: string, post: string,
                        x2: string, dx: string, dur: string)
    requires PlainName(start) && PlainName(end)
    ensures FillNumbers(pre + Marker(start) + mid + Marker(end) + post, x2, dx, dur)
         == FillNumbers(pre, x2, dx, dur) + Marker(start) + FillNumbers(mid, x2, dx, dur)
            + Marker(end) + FillNumbers(post, x2, dx, dur)
  {
    var s := Marker(start);
    var e := Marker(end);
    FiveParts(pre, s, mid, e, post);
    FillNumbersAround(pre, start, mid + e + post, x2, dx, dur);
    FillNumbersAround(mid, end, post, x2, dx, dur);
  }

  /** A title that scrolls: the marquee numbers are filled in, the static
      block is cut out and the rest of the template is substituted. */
  lemma RenderFlow(pre: string, mid: string, post: string, ctx: RenderContext)
    requires UsesFlow(ctx.title)
    requires !Contains(pre, Marker(StaticStart))
    requires !Contains(pre + Marker(StaticStart) + mid, Marker(StaticEnd))
    ensures Render(pre + Marker(StaticStart) + mid + Marker(StaticEnd) + post, ctx)
         == Substitute(FillMarquee(pre, ctx.title) + FillMarquee(post, ctx.title), ctx)
  {
    var mp := ComputeMarqueeParams(ctx.title);
    NumberTexts(ctx.title);
    FlowLayout(pre, mid, post, Dec(mp.titleX2), Dec(mp.marqueeDx), DurationText(mp.marqueeDur));
  }

  /** Placeholders are the only thing substitution changes: text without
      `{` comes out as it went in. */
  lemma SubstituteValuesPlain(svg: string, v: RenderContext)
    requires '{' !in svg
    ensures SubstituteValues(svg, v) == svg
  {
    ReplaceFree(svg, "{{TITLE}}", v.title, '{');
    ReplaceFree(svg, "{{URL}}", v.url, '{');
    ReplaceFree(svg, "{{THUMB_URL}}", v.thumbUrl, '{');
    ReplaceFree(svg, "{{BG_URL}}", v.bgUrl, '{');
    ReplaceFree(svg, "{{TIME_LEFT}}", v.timeLeft, '{');
    ReplaceFree(svg, "{{TIME_RIGHT}}", v.timeRight, '{');
    ReplaceFree(svg, "{{CHANNEL_NAME}}", v.channelName, '{');
  }

  /** A template with no placeholders and no block markers renders to
      itself, whatever the title. */
  lemma RenderPlain(template: string, ctx: RenderContext)
    requires '{' !in template
    requires !Contains(template, Marker(StaticStart)) && !Contains(template, Marker(FlowStart))
    ensures Render(template, ctx) == template
  {
    var mp := ComputeMarqueeParams(ctx.title);
    ReplaceFree(template, "{{TITLE_X2}}", Dec(mp.titleX2), '{');
    ReplaceFree(template, "{{MARQUEE_DX}}", Dec(mp.marqueeDx), '{');
    ReplaceFree(template, "{{MARQUEE_DUR}}", DurationText(mp.marqueeDur), '{');
    SubstituteValuesPlain(template, EscapeContext(ctx));
  }

  // ---------------------------------------------------------------------
  // Unknown placeholders
  // ---------------------------------------------------------------------

  /** The placeholder written `{{name}}`. */
  function Placeholder(name: string): string {
    "{{" + name + "}}"
  }

  /** A placeholder name: no braces inside. */
  predicate PlainKey(name: string) {
    '{' !in name && '}' !in name
  }

  /** The brace layout of a placeholder: `{` only at the first two
      positions and `}` only at the last two. */
  predicate Braced(u: string) {
    && |u| >= 4 && u[0] == '{' && u[1] == '{' && u[|u| - 2] == '}' && u[|u| - 1] == '}'
    && forall i :: 2 <= i < |u| - 2 ==> u[i] != '{' && u[i] != '}'
  }

  lemma PlaceholderBraced(name: string)
    requires PlainKey(name)
    ensures Braced(Placeholder(name))
  {
    var u := Placeholder(name);
    forall i | 2 <= i < |u| - 2 ensures u[i] != '{' && u[i] != '}' {
      assert u[i] == name[i - 2];
    }
  }

  lemma PlaceholderDistinct(a: string, b: string)
    requires a != b
    ensures Placeholder(a) != Placeholder(b)
  {
    var ua, ub := Placeholder(a), Placeholder(b);
    assert ua[2..|ua| - 2] == a;
    assert ub[2..|ub| - 2] == b;
  }

  /** The names of the seven value placeholders and of the three marquee
      placeholders. */
  const ValueKeys: seq<string> :=
    ["TITLE", "URL", "THUMB_URL", "BG_URL", "TIME_LEFT", "TIME_RIGHT", "CHANNEL_NAME"]
  const NumberKeys: seq<string> := ["TITLE_X2", "MARQUEE_DX", "MARQUEE_DUR"]

  lemma ValuePlaceholders()
    ensures "{{TITLE}}" == Placeholder("TITLE") && "{{URL}}" == Placeholder("URL")
    ensures "{{THUMB_URL}}" == Placeholder("THUMB_URL") && "{{BG_URL}}" == Placeholder("BG_URL")
    ensures "{{TIME_LEFT}}" == Placeholder("TIME_LEFT") && "{{TIME_RIGHT}}" == Placeholder("TIME_RIGHT")
    ensures "{{CHANNEL_NAME}}" == Placeholder("CHANNEL_NAME")
    ensures forall k :: k in ValueKeys ==> PlainKey(k)
  {
    ValueKeysPlain();
  }

  lemma NumberPlaceholders()
    ensures "{{TITLE_X2}}" == Placeholder("TITLE_X2") && "{{MARQUEE_DX}}" == Placeholder("MARQUEE_DX")
    ensures "{{MARQUEE_DUR}}" == Placeholder("MARQUEE_DUR")
    ensures forall k :: k in NumberKeys ==> PlainKey(k)
  {
    NumberKeysPlain();
  }

  /** Placeholder names are written with capitals, `_` and `2`. */
  predicate KeyChars(k: string) {
    forall i :: 0 <= i < |k| ==> IsAsciiUpper(k[i]) || k[i] == '_' || k[i] == '2'
  }

  lemma KeyCharsPlain(k: string)
    requires KeyChars(k)
    ensures PlainKey(k)
  {
    assert forall c :: c in k ==> IsAsciiUpper(c) || c == '_' || c == '2';
  }

  lemma ValueKeysPlain()
    ensures forall k :: k in ValueKeys ==> PlainKey(k)
  {
    KeyCharsPlain("TITLE");
    KeyCharsPlain("URL");
    KeyCharsPlain("THUMB_URL");
    KeyCharsPlain("BG_URL");
    KeyCharsPlain("TIME_LEFT");
    KeyCharsPlain("TIME_RIGHT");
    KeyCharsPlain("CHANNEL_NAME");
  }

  lemma NumberKeysPlain()
    ensures forall k :: k in NumberKeys ==> PlainKey(k)
  {
    KeyCharsPlain("TITLE_X2");
    KeyCharsPlain("MARQUEE_DX");
    KeyCharsPlain("MARQUEE_DUR");
  }

  /** A placeholder other than the seven is left as it is, and the text on
      either side of it is substituted as if it were alone. */
  lemma UnknownPlaceholderKept(pre: string, name: string, post: string, v: RenderContext)
    requires PlainKey(name) && name !in ValueKeys
    ensures SubstituteValues(pre + Placeholder(name) + post, v)
         == SubstituteValues(pre, v) + Placeholder(name) + SubstituteValues(post, v)
  {
    var u := Placeholder(name);
    PlaceholderBraced(name);
    ValuePlaceholders();
    forall k | k in ValueKeys ensures Braced(Placeholder(k)) && u != Placeholder(k) {
      PlaceholderBraced(k);
      PlaceholderDistinct(name, k);
    }
    ReplaceKeepsPlaceholder(pre, u, post, "{{TITLE}}", v.title);
    var a1, b1 := Replace(pre, "{{TITLE}}", v.title), Replace(post, "{{TITLE}}", v.title);
    ReplaceKeepsPlaceholder(a1, u, b1, "{{URL}}", v.url);
    var a2, b2 := Replace(a1, "{{URL}}", v.url), Replace(b1, "{{URL}}", v.url);
    AfterUrlKept(a2, u, b2, v);
  }

  lemma AfterUrlKept(a: string, u: string, b: string, v: RenderContext)
    requires Braced(u)
    requires forall k :: k in ValueKeys ==> Braced(Placeholder(k)) && u != Placeholder(k)
    ensures SubstituteRestAfterUrl(a + u + b, v)
         == SubstituteRestAfterUrl(a, v) + u + SubstituteRestAfterUrl(b, v)
  {
    ValuePlaceholders();
    assert "THUMB_URL" in ValueKeys && "BG_URL" in ValueKeys && "TIME_LEFT" in ValueKeys;
    assert "TIME_RIGHT" in ValueKeys && "CHANNEL_NAME" in ValueKeys;
    ReplaceKeepsPlaceholder(a, u, b, "{{THUMB_URL}}", v.thumbUrl);
    var a3, b3 := Replace(a, "{{THUMB_URL}}", v.thumbUrl), Replace(b, "{{THUMB_URL}}", v.thumbUrl);
    ReplaceKeepsPlaceholder(a3, u, b3, "{{BG_URL}}", v.bgUrl);
    var a4, b4 := Replace(a3, "{{BG_URL}}", v.bgUrl), Replace(b3, "{{BG_URL}}", v.bgUrl);
    ReplaceKeepsPlaceholder(a4, u, b4, "{{TIME_LEFT}}", v.timeLeft);
    var a5, b5 := Replace(a4, "{{TIME_LEFT}}", v.timeLeft), Replace(b4, "{{TIME_LEFT}}", v.timeLeft);
    ReplaceKeepsPlaceholder(a5, u, b5, "{{TIME_RIGHT}}", v.timeRight);
    var a6, b6 := Replace(a5, "{{TIME_RIGHT}}", v.timeRight), Replace(b5, "{{TIME_RIGHT}}", v.timeRight);
    ReplaceKeepsPlaceholder(a6, u, b6, "{{CHANNEL_NAME}}", v.channelName);
  }

  /** The same for the marquee numbers: a placeholder other than the three
      is left as it is. */
  lemma UnknownNumberKept(pre: string, name: string, post: string, x2: string, dx: string, dur: string)
    requires PlainKey(name) && name !in NumberKeys
    ensures FillNumbers(pre + Placeholder(name) + post, x2, dx, dur)
         == FillNumbers(pre, x2, dx, dur) + Placeholder(name) + FillNumbers(post, x2, dx, dur)
  {
    var u := Placeholder(name);
    PlaceholderBraced(name);
    NumberPlaceholders();
    forall k | k in NumberKeys ensures Braced(Placeholder(k)) && u != Placeholder(k) {
      PlaceholderBraced(k);
      PlaceholderDistinct(name, k);
    }
    assert "TITLE_X2" in NumberKeys && "MARQUEE_DX" in NumberKeys && "MARQUEE_DUR" in NumberKeys;
    ReplaceKeepsPlaceholder(pre, u, post, "{{TITLE_X2}}", x2);
    var a1, b1 := Replace(pre, "{{TITLE_X2}}", x2), Replace(post, "{{TITLE_X2}}", x2);
    ReplaceKeepsPlaceholder(a1, u, b1, "{{MARQUEE_DX}}", dx);
    var a2, b2 := Replace(a1, "{{MARQUEE_DX}}", dx), Replace(b1, "{{MARQUEE_DX}}", dx);
    ReplaceKeepsPlaceholder(a2, u, b2, "{{MARQUEE_DUR}}", dur);
  }

  /** No occurrence of a placeholder `p` starts before a placeholder `u`
      and reaches into it. */
  lemma BracedLeftSeam(pre: string, b: string, p: string)
    requires Braced(p) && |b| >= 2 && b[0] == '{' && b[1] == '{'
    ensures NoStraddle(pre, b, p)
  {
    var t := pre + b;
    forall k | 0 <= k < |pre| < k + |p| ensures !OccursAt(t, p, k) {
      if k + |p| <= |t| {
        var w, d := t[k..k + |p|], |pre| - k;
        assert w[d] == b[0];
        if d == 1 {
          assert w[2] == b[1] != p[2];
        } else {
          assert w[d] != p[d];
        }
      }
    }
  }

  /** A placeholder `p` other than `u` occurs nowhere from within `u`:
      neither inside it nor straddling its end. */
  lemma BracedRightSeam(u: string, post: string, p: string)
    requires Braced(u) && Braced(p) && u != p
    ensures NoStraddle(u, post, p)
    ensures forall k :: !OccursAt(u, p, k)
  {
    var t := u + post;
    forall k | 0 <= k < |u| ensures !OccursAt(t, p, k) {
      BracedNotAt(u, post, p, k);
    }
    forall k ensures !OccursAt(u, p, k) {
      if 0 <= k && k + |p| <= |u| {
        OccursAtPrefix(u, post, p, k);
      }
    }
  }

  lemma {:induction false} BracedNotAt(u: string, post: string, p: string, k: nat)
    requires Braced(u) && Braced(p) && u != p && k < |u|
    ensures !OccursAt(u + post, p, k)
  {
    var t := u + post;
    if k + |p| <= |t| {
      var w := t[k..k + |p|];
      if k >= 2 {
        assert w[0] == u[k] != p[0];
      } else if k == 1 {
        assert w[1] == u[2] != p[1];
      } else if |p| < |u| {
        assert w[|p| - 1] == u[|p| - 1];
        assert w[|p| - 2] == u[|p| - 2];
        assert w != p;
      } else if |p| > |u| {
        var i := |u| - 2;
        assert 2 <= i < |p| - 2;
        assert w[i] == u[i] == '}';
        assert p[i] != '}';
      } else {
        assert w == u != p;
      }
    }
  }

  /** Replacing the placeholder `p` passes any other placeholder `u`
      through untouched and works on each side of it separately. */
  lemma {:induction false} ReplaceKeepsPlaceholder(pre: string, u: string, post: string, p: string, rep: string)
    requires Braced(u) && Braced(p) && u != p
    ensures Replace(pre + u + post, p, rep) == Replace(pre, p, rep) + u + Replace(post, p, rep)
  {
    PlaceholderThenRest(u, post, p, rep);
    BracedLeftSeam(pre, u + post, p);
    JoinAround(pre, u, post, p, rep);
  }

  /** Gluing the replaced pieces around a kept middle `u`. */
  lemma {:induction false} JoinAround(pre: string, u: string, post: string, p: string, rep: string)
    requires |p| > 0 && NoStraddle(pre, u + post, p)
    requires Replace(u + post, p, rep) == u + Replace(post, p, rep)
    ensures Replace(pre + u + post, p, rep) == Replace(pre, p, rep) + u + Replace(post, p, rep)
  {
    var tail := u + post;
    ReplaceSplitAt(pre, tail, p, rep);
    assert pre + u + post == pre + tail;
  }

  /** A placeholder other than `p` at the front is passed through. */
  lemma {:induction false} PlaceholderThenRest(u: string, post: string, p: string, rep: string)
    requires Braced(u) && Braced(p) && u != p
    ensures |u + post| >= 2 && (u + post)[0] == '{' && (u + post)[1] == '{'
    ensures Replace(u + post, p, rep) == u + Replace(post, p, rep)
  {
    BracedRightSeam(u, post, p);
    ReplaceSplitAt(u, post, p, rep);
    assert !Contains(u, p);
    ReplaceAbsent(u, p, rep);
  }

  /** `{{CHANNEL_NAME}}` is replaced last, so it always becomes the channel
      name, whatever the other values hold. */
  lemma ChannelNameFilled(v: RenderContext)
    ensures SubstituteValues("{{CHANNEL_NAME}}", v) == v.channelName
  {
    SkipToChannelName("{{CHANNEL_NAME}}", v);
    ReplaceWhole("{{CHANNEL_NAME}}", v.channelName);
  }

  /** Text without `T`, `U` and `B` holds none of the first six
      placeholders. */
  lemma SkipToChannelName(s: string, v: RenderContext)
    requires 'T' !in s && 'U' !in s && 'B' !in s
    ensures SubstituteValues(s, v) == Replace(s, "{{CHANNEL_NAME}}", v.channelName)
  {
    ReplaceFree(s, "{{TITLE}}", v.title, 'T');
    ReplaceFree(s, "{{URL}}", v.url, 'U');
    ReplaceFree(s, "{{THUMB_URL}}", v.thumbUrl, 'T');
    ReplaceFree(s, "{{BG_URL}}", v.bgUrl, 'B');
    ReplaceFree(s, "{{TIME_LEFT}}", v.timeLeft, 'T');
    ReplaceFree(s, "{{TIME_RIGHT}}", v.timeRight, 'T');
  }

  lemma ChannelNameSubstituted(ctx: RenderContext)
    ensures Substitute("{{CHANNEL_NAME}}", ctx) == Escape(ctx.channelName)
  {
    ChannelNameFilled(EscapeContext(ctx));
  }

  /** A title value without `{` fills `{{TITLE}}` with exactly itself. */
  lemma TitleFilled(v: RenderContext)
    requires '{' !in v.title
    ensures SubstituteValues("{{TITLE}}", v) == v.title
  {
    ReplaceWhole("{{TITLE}}", v.title);
    SubstituteRestPlain(v.title, v);
  }

  /** The last six replacements leave text without `{` alone. */
  lemma SubstituteRestPlain(s: string, v: RenderContext)
    requires '{' !in s
    ensures SubstituteRest(s, v) == s
  {
    ReplaceFree(s, "{{URL}}", v.url, '{');
    SubstituteAfterUrlPlain(s, v);
  }

  lemma SubstituteAfterUrlPlain(s: string, v: RenderContext)
    requires '{' !in s
    ensures SubstituteRestAfterUrl(s, v) == s
  {
    ReplaceFree(s, "{{THUMB_URL}}", v.thumbUrl, '{');
    ReplaceFree(s, "{{BG_URL}}", v.bgUrl, '{');
    ReplaceFree(s, "{{TIME_LEFT}}", v.timeLeft, '{');
    ReplaceFree(s, "{{TIME_RIGHT}}", v.timeRight, '{');
    ReplaceFree(s, "{{CHANNEL_NAME}}", v.channelName, '{');
  }

  lemma TitleSubstituted(ctx: RenderContext)
    requires '{' !in ctx.title
    ensures Substitute("{{TITLE}}", ctx) == Escape(ctx.title)
  {
    EscapeKeepsNoBrace(ctx.title);
    TitleFilled(EscapeContext(ctx));
  }

  /** The substituted text is scanned again by the later replacements: a
      `{{URL}}` inside the title is shown as the URL, between the rest of
      the title. */
  lemma TitleRescanned(ctx: RenderContext, a: string, b: string)
    requires ctx.title == a + "{{URL}}" + b
    requires '{' !in a && '{' !in b && '{' !in ctx.url
    ensures Substitute("{{TITLE}}", ctx) == Escape(a) + Escape(ctx.url) + Escape(b)
  {
    var ea, eb := Escape(a), Escape(b);
    EscapeConcat(a + "{{URL}}", b);
    EscapeConcat(a, "{{URL}}");
    PlaceholderEscapesToItself("{{URL}}");
    EscapeKeepsNoBrace(a);
    EscapeKeepsNoBrace(b);
    EscapeKeepsNoBrace(ctx.url);
    var v := EscapeContext(ctx);
    assert v.title == ea + "{{URL}}" + eb;
    TitleRescannedValues(v, ea, eb);
  }

  lemma TitleRescannedValues(v: RenderContext, a: string, b: string)
    requires v.title == a + "{{URL}}" + b
    requires '{' !in a && '{' !in b && '{' !in v.url
    ensures SubstituteValues("{{TITLE}}", v) == a + v.url + b
  {
    ReplaceWhole("{{TITLE}}", v.title);
    UrlReplacedOnce(a, b, v.url);
    SubstituteAfterUrlPlain(a + v.url + b, v);
  }

  /** The one `{{URL}}` between brace-free texts becomes `rep`. */
  lemma {:induction false} UrlReplacedOnce(a: string, b: string, rep: string)
    requires '{' !in a && '{' !in b
    ensures Replace(a + "{{URL}}" + b, "{{URL}}", rep) == a + rep + b
  {
    var p := "{{URL}}";
    var tail := p + b;
    BracedLeftSeam(a, tail, p);
    ReplaceSplitAt(a, tail, p, rep);
    ReplaceFree(a, p, rep, '{');
    assert StartsWith(tail, p) && tail[|p|..] == b;
    ReplaceFree(b, p, rep, '{');
    assert a + p + b == a + tail;
  }

  lemma PlaceholderEscapesToItself(t: string)
    requires t == "{{URL}}"
    ensures Escape(t) == t
  {
    EscapePlainText(t);
  }

  lemma EscapeKeepsNoBrace(s: string)
    requires '{' !in s
    ensures '{' !in Escape(s)
  {
    EscapeChars(s, '{');
  }
}
