/**
 * `escapeHtml`: five successive global replacements, `&` first, so that the
 * entities introduced by the first pass are not themselves re-escaped.
 */
module Escape {

  /** `s.replace(/c/g, by)`: every occurrence of the character c becomes `by`. */
  function Replace(s: string, c: char, sub: string): (r: string)
    ensures c !in s ==> r == s
  {
    if |s| == 0 then [] else (if s[0] == c then sub else [s[0]]) + Replace(s[1..], c, sub)
  }

  /** The five characters escapeHtml rewrites. */
  predicate Special(c: char)
  {
    c == '&' || c == '"' || c == '\'' || c == '<' || c == '>'
  }

  /** `escapeHtml`: the five replacements in its order (`&` first). The result
      is the single-pass entity substitution. */
  function EscapeHtml(s: string): (r: string)
    ensures r == EscapeEach(s)
  {
    EscapeHtmlIsEscapeEach(s);
    Passes(s)
  }

  /** No raw `<`, `>`, `"` or `'` survives escaping. */
  lemma EscapeHtmlSafe(s: string)
    ensures forall i :: 0 <= i < |EscapeHtml(s)| ==> EscapeHtml(s)[i] !in "<>\"'"
  {
    EscapeHtmlIsEscapeEach(s);
    EscapeEachIsSafe(s);
  }

  /** Because `&` is replaced first, every `&` of the output begins one of the five entities. */
  lemma EscapeHtmlAmpersands(s: string)
    ensures forall i :: 0 <= i < |EscapeHtml(s)| && EscapeHtml(s)[i] == '&' ==> IsEntityAt(EscapeHtml(s), i)
  {
    EscapeHtmlIsEscapeEach(s);
    EscapeEachIsSafe(s);
  }

  /** Text without any of the five characters is returned unchanged. */
  lemma EscapeHtmlIdentity(s: string)
    requires forall i :: 0 <= i < |s| ==> !Special(s[i])
    ensures EscapeHtml(s) == s
  {
    EscapeHtmlIsEscapeEach(s);
    EscapeEachIdentity(s);
  }

  /** Escaping loses nothing: decoding the five entities gives the input back. */
  lemma EscapeHtmlRoundTrip(s: string)
    ensures Unescape(EscapeHtml(s)) == s
  {
    EscapeHtmlIsEscapeEach(s);
    UnescapeEscapeEach(s);
  }

  // ------------------------------------------------- single-pass reference

  /** What a single character turns into after all five passes. */
  function Entity(c: char): string
  {
    match c
    case '&' => "&amp;"
    case '"' => "&quot;"
    case '\'' => "&#39;"
    case '<' => "&lt;"
    case '>' => "&gt;"
    case _ => [c]
  }

  /** Escapes each character independently, left to right. */
  function EscapeEach(s: string): string
  {
    if |s| == 0 then [] else Entity(s[0]) + EscapeEach(s[1..])
  }

  /** Each replacement pass distributes over concatenation. */
  lemma {:induction false} ReplaceAppend(a: string, b: string, c: char, sub: string)
    ensures Replace(a + b, c, sub) == Replace(a, c, sub) + Replace(b, c, sub)
  {
    if |a| > 0 {
      assert (a + b)[1..] == a[1..] + b;
      ReplaceAppend(a[1..], b, c, sub);
    } else {
      assert a + b == b;
    }
  }

  lemma ReplaceOne(x: char, c: char, sub: string)
    ensures Replace([x], c, sub) == if x == c then sub else [x]
  {
    assert [x][1..] == [];
  }

  /** The chain of `.replace` calls of escapeHtml, `&` first. */
  function Passes(s: string): string
  {
    Replace(Replace(Replace(Replace(Replace(s, '&', "&amp;"), '"', "&quot;"), '\'', "&#39;"), '<', "&lt;"), '>', "&gt;")
  }

  lemma PassesAppend(a: string, b: string)
    ensures Passes(a + b) == Passes(a) + Passes(b)
  {
    var a1, b1 := Replace(a, '&', "&amp;"), Replace(b, '&', "&amp;");
    ReplaceAppend(a, b, '&', "&amp;");
    var a2, b2 := Replace(a1, '"', "&quot;"), Replace(b1, '"', "&quot;");
    ReplaceAppend(a1, b1, '"', "&quot;");
    var a3, b3 := Replace(a2, '\'', "&#39;"), Replace(b2, '\'', "&#39;");
    ReplaceAppend(a2, b2, '\'', "&#39;");
    var a4, b4 := Replace(a3, '<', "&lt;"), Replace(b3, '<', "&lt;");
    ReplaceAppend(a3, b3, '<', "&lt;");
    ReplaceAppend(a4, b4, '>', "&gt;");
  }

  /** Once a pass has produced an entity, later passes leave it alone. */
  lemma PassesRest(e: string)
    requires forall i :: 0 <= i < |e| ==> e[i] != '"' && e[i] != '\'' && e[i] != '<' && e[i] != '>'
    ensures Replace(Replace(Replace(Replace(e, '"', "&quot;"), '\'', "&#39;"), '<', "&lt;"), '>', "&gt;") == e
  {
  }

  lemma PassesChar(c: char)
    ensures Passes([c]) == Entity(c)
  {
    ReplaceOne(c, '&', "&amp;");
    if c == '&' {
      PassesRest("&amp;");
    } else if c == '"' {
      ReplaceOne(c, '"', "&quot;");
      PassesRest("&quot;");
    } else if c == '\'' {
      ReplaceOne(c, '"', "&quot;");
      ReplaceOne(c, '\'', "&#39;");
      assert '<' !in "&#39;" && '>' !in "&#39;";
    } else if c == '<' {
      ReplaceOne(c, '"', "&quot;");
      ReplaceOne(c, '\'', "&#39;");
      ReplaceOne(c, '<', "&lt;");
      assert '>' !in "&lt;";
    } else {
      ReplaceOne(c, '"', "&quot;");
      ReplaceOne(c, '\'', "&#39;");
      ReplaceOne(c, '<', "&lt;");
      ReplaceOne(c, '>', "&gt;");
    }
  }

  /** The five-pass definition agrees with the single-pass reference. */
  lemma {:induction false} EscapeHtmlIsEscapeEach(s: string)
    ensures Passes(s) == EscapeEach(s)
  {
    if |s| > 0 {
      assert s == [s[0]] + s[1..];
      PassesAppend([s[0]], s[1..]);
      PassesChar(s[0]);
      EscapeHtmlIsEscapeEach(s[1..]);
    }
  }

  // ---------------------------------------------------------- properties

  /** s[i..] begins with one of the five entities. */
  predicate IsEntityAt(s: string, i: int)
  {
    0 <= i < |s| &&
    (IsPrefix("&amp;", s[i..]) || IsPrefix("&quot;", s[i..]) || IsPrefix("&#39;", s[i..])
     || IsPrefix("&lt;", s[i..]) || IsPrefix("&gt;", s[i..]))
  }

  predicate IsPrefix(p: string, s: string)
  {
    |p| <= |s| && s[..|p|] == p
  }

  lemma {:induction false} EscapeEachIsSafe(s: string)
    ensures forall i :: 0 <= i < |EscapeEach(s)| ==> EscapeEach(s)[i] !in "<>\"'"
    ensures forall i :: 0 <= i < |EscapeEach(s)| && EscapeEach(s)[i] == '&' ==> IsEntityAt(EscapeEach(s), i)
  {
    if |s| > 0 {
      EscapeEachIsSafe(s[1..]);
      var e, t := Entity(s[0]), EscapeEach(s[1..]);
      var r := e + t;
      forall i | 0 <= i < |r|
        ensures r[i] !in "<>\"'"
        ensures r[i] == '&' ==> IsEntityAt(r, i)
      {
        if i < |e| {
          if r[i] == '&' {
            assert i == 0;
            assert r[i..] == e + t;
            assert e[..|e|] == e;
          }
        } else {
          assert r[i] == t[i - |e|];
          assert r[i..] == t[i - |e|..];
        }
      }
    }
  }

  lemma {:induction false} EscapeEachIdentity(s: string)
    ensures (forall i :: 0 <= i < |s| ==> !Special(s[i])) ==> EscapeEach(s) == s
  {
    if |s| > 0 {
      EscapeEachIdentity(s[1..]);
    }
  }

  lemma {:induction false} EscapeEachAppend(a: string, b: string)
    ensures EscapeEach(a + b) == EscapeEach(a) + EscapeEach(b)
  {
    if |a| > 0 {
      assert (a + b)[0] == a[0];
      assert (a + b)[1..] == a[1..] + b;
      EscapeEachAppend(a[1..], b);
    } else {
      assert a + b == b;
    }
  }

  /** What escapeHtml makes of a single character. */
  lemma EscapeHtmlChar(c: char)
    ensures EscapeHtml([c]) == Entity(c)
  {
    EscapeHtmlIsEscapeEach([c]);
    assert [c][1..] == [];
  }

  /** Escaping a concatenation escapes each part. */
  lemma EscapeHtmlAppend(a: string, b: string)
    ensures EscapeHtml(a + b) == EscapeHtml(a) + EscapeHtml(b)
  {
    EscapeHtmlIsEscapeEach(a + b);
    EscapeHtmlIsEscapeEach(a);
    EscapeHtmlIsEscapeEach(b);
    EscapeEachAppend(a, b);
  }

  // ---------------------------------------------------------- inverse

  /** Decodes the five entities escapeHtml produces; every other character is kept. */
  function Unescape(s: string): string
  {
    if |s| == 0 then []
    else if IsPrefix("&amp;", s) then "&" + Unescape(s[5..])
    else if IsPrefix("&quot;", s) then "\"" + Unescape(s[6..])
    else if IsPrefix("&#39;", s) then "'" + Unescape(s[5..])
    else if IsPrefix("&lt;", s) then "<" + Unescape(s[4..])
    else if IsPrefix("&gt;", s) then ">" + Unescape(s[4..])
    else [s[0]] + Unescape(s[1..])
  }

  /** Decoding an escaped character followed by more text yields the character first. */
  lemma UnescapeEntity(c: char, t: string)
    ensures Unescape(Entity(c) + t) == [c] + Unescape(t)
  {
    match c
    case '&' => UnescapeAt("&amp;", '&', t);
    case '"' => UnescapeAt("&quot;", '"', t);
    case '\'' => UnescapeAt("&#39;", '\'', t);
    case '<' => UnescapeAt("&lt;", '<', t);
    case '>' => UnescapeAt("&gt;", '>', t);
    case _ => UnescapePlain(c, t);
  }

  /** Unescape reads the entity e at the head of e + t as c. */
  lemma UnescapeAt(e: string, c: char, t: string)
    requires |e| >= 4 && e == Entity(c)
    ensures Unescape(e + t) == [c] + Unescape(t)
  {
    var s := e + t;
    assert IsPrefix(e, s) by {
      assert s[..|e|] == e;
    }
    assert s[|e|..] == t;
    assert s[1] == e[1] && s[2] == e[2];
    if c == '&' {
    } else if c == '"' {
      assert !IsPrefix("&amp;", s);
    } else if c == '\'' {
      assert !IsPrefix("&amp;", s) && !IsPrefix("&quot;", s);
    } else if c == '<' {
      assert !IsPrefix("&amp;", s) && !IsPrefix("&quot;", s) && !IsPrefix("&#39;", s);
    } else {
      assert !IsPrefix("&amp;", s) && !IsPrefix("&quot;", s) && !IsPrefix("&#39;", s) && !IsPrefix("&lt;", s);
    }
  }

  /** A character other than `&` is kept as it is. */
  lemma UnescapePlain(c: char, t: string)
    requires c != '&'
    ensures Unescape([c] + t) == [c] + Unescape(t)
  {
    var s := [c] + t;
    assert s[0] == c;
    assert s[1..] == t;
    assert !IsPrefix("&amp;", s) && !IsPrefix("&quot;", s) && !IsPrefix("&#39;", s)
        && !IsPrefix("&lt;", s) && !IsPrefix("&gt;", s);
  }

  /** Unescaping undoes escaping: no information is lost. */
  lemma {:induction false} UnescapeEscapeEach(s: string)
    ensures Unescape(EscapeEach(s)) == s
  {
    if |s| > 0 {
      UnescapeEntity(s[0], EscapeEach(s[1..]));
      UnescapeEscapeEach(s[1..]);
    }
  }
}
