/** `xml.sax.saxutils.escape`, which the renderer applies to every context
    value it substitutes into the template. */
module XmlEscape {
  import opened Text

  /** What one character becomes: `&`, `<` and `>` turn into their entity
      references, every other character (quotes included) is kept. */
  function EscapeChar(c: char): string {
    if c == '&' then "&amp;"
    else if c == '<' then "&lt;"
    else if c == '>' then "&gt;"
    else [c]
  }

  /** Escaping as a character-by-character rewrite. */
  function EscapeEach(s: string): string
    decreases |s|
  {
    if |s| == 0 then [] else EscapeChar(s[0]) + EscapeEach(s[1..])
  }

  /** Reads the three entity references back; the partner of `Escape`. */
  function Unescape(s: string): string
    decreases |s|
  {
    if |s| == 0 then []
    else if StartsWith(s, "&amp;") then "&" + Unescape(s[5..])
    else if StartsWith(s, "&lt;") then "<" + Unescape(s[4..])
    else if StartsWith(s, "&gt;") then ">" + Unescape(s[4..])
    else [s[0]] + Unescape(s[1..])
  }

  /** `escape(data)` as the standard library writes it: three global
      replacements, `&` first so that the `&` of the other two entities is
      not escaped again. The result holds no `<` or `>`, and `Unescape`
      recovers the input. */
  function Escape(s: string): (r: string)
    ensures '<' !in r && '>' !in r
    ensures Unescape(r) == s
  {
    var r := Replace(Replace(Replace(s, "&", "&amp;"), ">", "&gt;"), "<", "&lt;");
    EscapeIsEscapeEach(s);
    EscapeEachHasNoBrackets(s);
    UnescapeEscapeEach(s);
    r
  }

  /** The three chained replacements rewrite each character on its own. */
  lemma {:induction false} EscapeIsEscapeEach(s: string)
    ensures Replace(Replace(Replace(s, "&", "&amp;"), ">", "&gt;"), "<", "&lt;") == EscapeEach(s)
    decreases |s|
  {
    if |s| > 0 {
      var x, t := [s[0]], s[1..];
      assert s == x + t;
      var a1, b1 := Replace(x, "&", "&amp;"), Replace(t, "&", "&amp;");
      ReplaceConcat(x, t, "&", "&amp;");
      var a2, b2 := Replace(a1, ">", "&gt;"), Replace(b1, ">", "&gt;");
      ReplaceConcat(a1, b1, ">", "&gt;");
      ReplaceConcat(a2, b2, "<", "&lt;");
      EscapeOne(s[0]);
      EscapeIsEscapeEach(t);
    }
  }

  lemma EscapeOne(c: char)
    ensures Replace(Replace(Replace([c], "&", "&amp;"), ">", "&gt;"), "<", "&lt;") == EscapeChar(c)
  {
    if c == '&' {
      assert Replace([c], "&", "&amp;") == "&amp;";
      ReplaceAbsentChar("&amp;", '>', "&gt;");
      ReplaceAbsentChar("&amp;", '<', "&lt;");
    } else if c == '>' {
      assert Replace([c], "&", "&amp;") == [c];
      assert Replace([c], ">", "&gt;") == "&gt;";
      ReplaceAbsentChar("&gt;", '<', "&lt;");
    } else if c == '<' {
      assert Replace([c], "&", "&amp;") == [c];
      assert Replace([c], ">", "&gt;") == [c];
      assert Replace([c], "<", "&lt;") == "&lt;";
    } else {
      assert Replace([c], "&", "&amp;") == [c];
      assert Replace([c], ">", "&gt;") == [c];
      assert Replace([c], "<", "&lt;") == [c];
    }
  }

  /** A one-character pattern that does not occur leaves the text alone. */
  lemma {:induction false} ReplaceAbsentChar(s: string, c: char, rep: string)
    requires c !in s
    ensures Replace(s, [c], rep) == s
    decreases |s|
  {
    if |s| > 0 {
      assert !StartsWith(s, [c]) by {
        assert s[..1][0] == s[0];
      }
      ReplaceAbsentChar(s[1..], c, rep);
      assert s == [s[0]] + s[1..];
    }
  }

  lemma {:induction false} EscapeEachHasNoBrackets(s: string)
    ensures '<' !in EscapeEach(s) && '>' !in EscapeEach(s)
    decreases |s|
  {
    if |s| > 0 {
      EscapeEachHasNoBrackets(s[1..]);
    }
  }

  lemma {:induction false} UnescapeEscapeEach(s: string)
    ensures Unescape(EscapeEach(s)) == s
    decreases |s|
  {
    if |s| > 0 {
      UnescapeEscapeEach(s[1..]);
      UnescapeStep(s[0], EscapeEach(s[1..]));
      assert s == [s[0]] + s[1..];
    }
  }

  /** `Unescape` reads back one escaped character and continues after it. */
  lemma UnescapeStep(c: char, rest: string)
    ensures Unescape(EscapeChar(c) + rest) == [c] + Unescape(rest)
  {
    if c == '&' {
      UnescapeEntity("&amp;", rest);
    } else if c == '<' {
      UnescapeEntity("&lt;", rest);
    } else if c == '>' {
      UnescapeEntity("&gt;", rest);
    } else {
      var e := [c] + rest;
      assert !StartsWith(e, "&amp;") && !StartsWith(e, "&lt;") && !StartsWith(e, "&gt;") by {
        assert e[0] == c;
      }
      assert e[1..] == rest;
    }
  }

  lemma UnescapeEntity(entity: string, rest: string)
    requires entity == "&amp;" || entity == "&lt;" || entity == "&gt;"
    ensures Unescape(entity + rest)
         == (if entity == "&amp;" then "&" else if entity == "&lt;" then "<" else ">") + Unescape(rest)
  {
    var e := entity + rest;
    var n := |entity|;
    assert e[..n] == entity && e[n..] == rest;
    if entity != "&amp;" {
      assert !StartsWith(e, "&amp;") by {
        assert e[1] == entity[1] != 'a';
      }
    }
    if entity == "&gt;" {
      assert !StartsWith(e, "&lt;") by {
        assert e[1] == 'g';
      }
    }
  }

  /** Text without `&`, `<` and `>` (quotes included) passes through
      `escape` unchanged. */
  lemma {:induction false} EscapePlainText(s: string)
    requires '&' !in s && '<' !in s && '>' !in s
    ensures Escape(s) == s
    decreases |s|
  {
    EscapeIsEscapeEach(s);
    EscapeEachPlain(s);
  }

  lemma {:induction false} EscapeEachPlain(s: string)
    requires '&' !in s && '<' !in s && '>' !in s
    ensures EscapeEach(s) == s
    decreases |s|
  {
    if |s| > 0 {
      EscapeEachPlain(s[1..]);
      assert s == [s[0]] + s[1..];
    }
  }

  /** Escaping works character by character, so it distributes over
      concatenation. */
  lemma EscapeConcat(x: string, y: string)
    ensures Escape(x + y) == Escape(x) + Escape(y)
  {
    EscapeIsEscapeEach(x + y);
    EscapeIsEscapeEach(x);
    EscapeIsEscapeEach(y);
    EscapeEachConcat(x, y);
  }

  lemma {:induction false} EscapeEachConcat(x: string, y: string)
    ensures EscapeEach(x + y) == EscapeEach(x) + EscapeEach(y)
    decreases |x|
  {
    if |x| == 0 {
      assert x + y == y;
    } else {
      assert (x + y)[1..] == x[1..] + y;
      EscapeEachConcat(x[1..], y);
    }
  }

  /** Escaping `<` last instead of `&` first would escape the `&` of `&lt;`
      a second time; the order the standard library uses avoids this. */
  lemma AmpersandLastDoubleEscapes()
    ensures Replace(Replace("<", "<", "&lt;"), "&", "&amp;") == "&amp;lt;"
    ensures Escape("<") == "&lt;"
  {
    assert Replace("<", "<", "&lt;") == "&lt;";
    ReplaceAbsentChar("lt;", '&', "&amp;");
    assert "&lt;" == "&" + "lt;";
    ReplaceConcat("&", "lt;", "&", "&amp;");
    assert Replace("&", "&", "&amp;") == "&amp;";
    EscapeOne('<');
  }

  /** Escaping only brings in the characters of the three entity
      references. */
  lemma EscapeChars(s: string, c: char)
    ensures c in Escape(s) ==> c in s || c in "&amp;" || c in "&gt;" || c in "&lt;"
  {
    var s1 := Replace(s, "&", "&amp;");
    var s2 := Replace(s1, ">", "&gt;");
    if c in Escape(s) {
      ReplaceChars(s2, "<", "&lt;", c);
      if c in s2 {
        ReplaceChars(s1, ">", "&gt;", c);
        if c in s1 {
          ReplaceChars(s, "&", "&amp;", c);
        }
      }
    }
  }
}
