/** `escapeHtml`: the five `replaceAll` calls that make task text safe to
    place inside markup. */
module Escape {

  /** `s.replaceAll(c, rep)` for a one-character pattern and a replacement
      taken literally: every occurrence of `c` becomes `rep` and every other
      character stays. JavaScript expands `$` patterns in a string
      replacement; the five replacements `escapeHtml` passes contain no `$`
      (`EntitiesLiteral`), so for them the two agree. A string without
      `c` comes back unchanged, and a replacement without `c` leaves none
      behind. The first clause says what happens to one character; with
      `ReplaceAllAppend` that fixes the result for every string. */
  function ReplaceAll(s: string, c: char, rep: string): (r: string)
    ensures |s| == 1 ==> r == if s[0] == c then rep else s
    ensures c !in s ==> r == s
    ensures c !in rep ==> c !in r
  {
    if s == [] then []
    else
      assert s == [s[0]] + s[1..];
      (if s[0] == c then rep else [s[0]]) + ReplaceAll(s[1..], c, rep)
  }

  /** Each occurrence of `c` trades one character for `|rep|`. */
  lemma {:induction false} ReplaceAllLength(s: string, c: char, rep: string)
    ensures |ReplaceAll(s, c, rep)| == |s| + multiset(s)[c] * (|rep| - 1)
  {
    if s != [] {
      var t := s[1..];
      ReplaceAllLength(t, c, rep);
      var head := if s[0] == c then rep else [s[0]];
      assert ReplaceAll(s, c, rep) == head + ReplaceAll(t, c, rep);
      var k, w := multiset(t)[c], |rep| - 1;
      assert s == [s[0]] + t;
      assert multiset(s)[c] == k + (if s[0] == c then 1 else 0) by {
        assert multiset(s) == multiset([s[0]]) + multiset(t);
      }
      assert (k + 1) * w == k * w + w by {
        MulSucc(k, w);
      }
    }
  }

  /** None of the five entity strings holds a `$`, so `replaceAll` inserts
      each of them literally. */
  lemma EntitiesLiteral()
    ensures '$' !in "&amp;" && '$' !in "&lt;" && '$' !in "&gt;"
    ensures '$' !in "&quot;" && '$' !in "&#039;"
  {
  }

  /** `(k + 1) * w` unfolded. */
  lemma MulSucc(k: int, w: int)
    ensures (k + 1) * w == k * w + w
  {
  }

  /** The characters of `s.replaceAll(c, rep)`: every character of `s` other
      than `c` survives, and nothing else appears except characters of
      `rep`, which do appear once `c` occurs. */
  lemma {:induction false} ReplaceAllChars(s: string, c: char, rep: string)
    ensures forall x :: x in ReplaceAll(s, c, rep) ==> (x in s && x != c) || x in rep
    ensures forall x :: x in s && x != c ==> x in ReplaceAll(s, c, rep)
    ensures c in s ==> forall x :: x in rep ==> x in ReplaceAll(s, c, rep)
  {
    if s != [] {
      ReplaceAllChars(s[1..], c, rep);
      assert s == [s[0]] + s[1..];
    }
  }

  /** A character that the replacement lacks and that is absent from the
      input, or is the replaced character itself, is absent from the
      result. */
  lemma StepAbsent(s: string, c: char, rep: string, y: char)
    requires y !in rep && (y !in s || y == c)
    ensures y !in ReplaceAll(s, c, rep)
  {
    ReplaceAllChars(s, c, rep);
  }

  /** Through the five replacements of `escapeHtml`, with any replacement
      texts free of the markup characters, none of `<`, `>`, `"`, `'` is
      left. */
  lemma ChainAbsent(s: string, amp: string, lt: string, gt: string, quot: string, apos: string)
    requires '<' !in lt && '<' !in gt && '<' !in quot && '<' !in apos
    requires '>' !in gt && '>' !in quot && '>' !in apos
    requires '"' !in quot && '"' !in apos
    requires '\'' !in apos
    ensures var r := ReplaceAll(ReplaceAll(ReplaceAll(ReplaceAll(ReplaceAll(s, '&', amp), '<', lt), '>', gt), '"', quot), '\'', apos);
      '<' !in r && '>' !in r && '"' !in r && '\'' !in r
  {
    var a := ReplaceAll(s, '&', amp);
    var b := ReplaceAll(a, '<', lt);
    var c := ReplaceAll(b, '>', gt);
    var d := ReplaceAll(c, '"', quot);
    StepAbsent(a, '<', lt, '<');
    StepAbsent(b, '>', gt, '<');
    StepAbsent(c, '"', quot, '<');
    StepAbsent(d, '\'', apos, '<');
    StepAbsent(b, '>', gt, '>');
    StepAbsent(c, '"', quot, '>');
    StepAbsent(d, '\'', apos, '>');
    StepAbsent(c, '"', quot, '"');
    StepAbsent(d, '\'', apos, '"');
    StepAbsent(d, '\'', apos, '\'');
  }

  /** `escapeHtml`: ampersands first, then the other four characters. The
      result holds none of the four markup characters `<`, `>`, `"` and `'`;
      `EscapeHtmlIsSinglePass` gives it exactly. */
  function EscapeHtml(s: string): (r: string)
    ensures '<' !in r && '>' !in r && '"' !in r && '\'' !in r
  {
    ChainAbsent(s, "&amp;", "&lt;", "&gt;", "&quot;", "&#039;");
    var a := ReplaceAll(s, '&', "&amp;");
    var b := ReplaceAll(a, '<', "&lt;");
    var c := ReplaceAll(b, '>', "&gt;");
    var d := ReplaceAll(c, '"', "&quot;");
    ReplaceAll(d, '\'', "&#039;")
  }

  /** The entity standing for one character, or the character itself. */
  function EscapeChar(c: char): string {
    match c
    case '&' => "&amp;"
    case '<' => "&lt;"
    case '>' => "&gt;"
    case '"' => "&quot;"
    case '\'' => "&#039;"
    case _ => [c]
  }

  /** Escaping in a single pass, one character at a time. */
  function EscapeEach(s: string): string {
    if s == [] then [] else EscapeChar(s[0]) + EscapeEach(s[1..])
  }

  predicate IsPrefix(p: string, s: string) {
    |p| <= |s| && s[..|p|] == p
  }

  /** `s` begins with one of the five entities `escapeHtml` produces. */
  predicate StartsWithEntity(s: string) {
    IsPrefix("&amp;", s) || IsPrefix("&lt;", s) || IsPrefix("&gt;", s)
    || IsPrefix("&quot;", s) || IsPrefix("&#039;", s)
  }

  /** Every `&` in `s` begins one of the five entities. */
  predicate AmpersandsBeginEntity(s: string) {
    forall i :: 0 <= i < |s| && s[i] == '&' ==> StartsWithEntity(s[i..])
  }

  /** Reads the entities back as the characters they stand for. */
  function Unescape(s: string): string
    decreases |s|
  {
    if s == [] then []
    else if IsPrefix("&amp;", s) then "&" + Unescape(s[5..])
    else if IsPrefix("&lt;", s) then "<" + Unescape(s[4..])
    else if IsPrefix("&gt;", s) then ">" + Unescape(s[4..])
    else if IsPrefix("&quot;", s) then "\"" + Unescape(s[6..])
    else if IsPrefix("&#039;", s) then "'" + Unescape(s[6..])
    else [s[0]] + Unescape(s[1..])
  }

  /** `replaceAll` distributes over concatenation. */
  lemma {:induction false} ReplaceAllAppend(a: string, b: string, c: char, rep: string)
    ensures ReplaceAll(a + b, c, rep) == ReplaceAll(a, c, rep) + ReplaceAll(b, c, rep)
  {
    if a == [] {
      assert a + b == b;
    } else {
      assert (a + b)[0] == a[0];
      assert (a + b)[1..] == a[1..] + b;
      ReplaceAllAppend(a[1..], b, c, rep);
    }
  }

  /** So does the whole chain. */
  lemma EscapeHtmlAppend(a: string, b: string)
    ensures EscapeHtml(a + b) == EscapeHtml(a) + EscapeHtml(b)
  {
    var a1, b1 := ReplaceAll(a, '&', "&amp;"), ReplaceAll(b, '&', "&amp;");
    ReplaceAllAppend(a, b, '&', "&amp;");
    var a2, b2 := ReplaceAll(a1, '<', "&lt;"), ReplaceAll(b1, '<', "&lt;");
    ReplaceAllAppend(a1, b1, '<', "&lt;");
    var a3, b3 := ReplaceAll(a2, '>', "&gt;"), ReplaceAll(b2, '>', "&gt;");
    ReplaceAllAppend(a2, b2, '>', "&gt;");
    var a4, b4 := ReplaceAll(a3, '"', "&quot;"), ReplaceAll(b3, '"', "&quot;");
    ReplaceAllAppend(a3, b3, '"', "&quot;");
    ReplaceAllAppend(a4, b4, '\'', "&#039;");
  }

  /** On one character the chain produces that character's entity: later
      replacements never touch the ampersand an earlier one introduced. */
  lemma EscapeHtmlChar(x: char)
    ensures EscapeHtml([x]) == EscapeChar(x)
  {
    assert [x][1..] == [];
    if x == '&' {
      var a := ReplaceAll([x], '&', "&amp;");
      assert a == "&amp;";
      assert '<' !in a && '>' !in a && '"' !in a && '\'' !in a;
    } else if x == '<' {
      var b := ReplaceAll([x], '<', "&lt;");
      assert b == "&lt;";
      assert '>' !in b && '"' !in b && '\'' !in b;
    } else if x == '>' {
      var c := ReplaceAll([x], '>', "&gt;");
      assert c == "&gt;";
      assert '"' !in c && '\'' !in c;
    } else if x == '"' {
      var d := ReplaceAll([x], '"', "&quot;");
      assert d == "&quot;";
      assert '\'' !in d;
    } else if x == '\'' {
      assert ReplaceAll([x], '\'', "&#039;") == "&#039;";
    }
  }

  /** Because `&` is replaced first, the chain escapes every character
      exactly once: it equals the single-pass escape, so no entity is
      escaped twice. */
  lemma {:induction false} EscapeHtmlIsSinglePass(s: string)
    ensures EscapeHtml(s) == EscapeEach(s)
  {
    if s != [] {
      assert s == [s[0]] + s[1..];
      EscapeHtmlAppend([s[0]], s[1..]);
      EscapeHtmlChar(s[0]);
      EscapeHtmlIsSinglePass(s[1..]);
    }
  }

  /** The escape of one character holds no `&` past its first character,
      and starts with an entity when it starts with `&`. */
  lemma EntityPrefix(x: char, t: string)
    ensures forall i :: 0 < i < |EscapeChar(x)| ==> EscapeChar(x)[i] != '&'
    ensures EscapeChar(x)[0] == '&' ==> StartsWithEntity(EscapeChar(x) + t)
  {
    var e := EscapeChar(x);
    assert (e + t)[..|e|] == e;
  }

  /** Unescaping undoes the escape of the first character. */
  lemma UnescapeCons(x: char, t: string)
    ensures Unescape(EscapeChar(x) + t) == [x] + Unescape(t)
  {
    if x == '&' {
      UnescapeEntity(x, "&amp;", t);
    } else if x == '<' {
      UnescapeEntity(x, "&lt;", t);
    } else if x == '>' {
      UnescapeEntity(x, "&gt;", t);
    } else if x == '"' {
      UnescapeEntity(x, "&quot;", t);
    } else if x == '\'' {
      UnescapeEntity(x, "&#039;", t);
    } else {
      var r := [x] + t;
      assert EscapeChar(x) == [x];
      assert r[0] == x && r[1..] == t;
      assert !IsPrefix("&amp;", r) && !IsPrefix("&lt;", r) && !IsPrefix("&gt;", r);
      assert !IsPrefix("&quot;", r) && !IsPrefix("&#039;", r);
    }
  }

  /** Unescaping an entity followed by more text. */
  lemma UnescapeEntity(x: char, e: string, t: string)
    requires e == EscapeChar(x) && e != [x]
    ensures Unescape(e + t) == [x] + Unescape(t)
  {
    var r := e + t;
    assert r[..|e|] == e && r[|e|..] == t;
    assert r[1] == e[1];
    if x == '&' {
      assert IsPrefix("&amp;", r);
    } else if x == '<' {
      assert !IsPrefix("&amp;", r) && IsPrefix("&lt;", r);
    } else if x == '>' {
      assert !IsPrefix("&amp;", r) && !IsPrefix("&lt;", r) && IsPrefix("&gt;", r);
    } else if x == '"' {
      assert !IsPrefix("&amp;", r) && !IsPrefix("&lt;", r) && !IsPrefix("&gt;", r);
      assert IsPrefix("&quot;", r);
    } else {
      assert !IsPrefix("&amp;", r) && !IsPrefix("&lt;", r) && !IsPrefix("&gt;", r);
      assert !IsPrefix("&quot;", r) && IsPrefix("&#039;", r);
    }
  }

  /** Every `&` in the escaped text begins one of the five entities. */
  lemma {:induction false} AmpersandsBeginEntities(s: string)
    ensures AmpersandsBeginEntity(EscapeEach(s))
  {
    if s != [] {
      AmpersandsBeginEntities(s[1..]);
      var e, t := EscapeChar(s[0]), EscapeEach(s[1..]);
      var r := e + t;
      forall i | 0 <= i < |r| && r[i] == '&'
        ensures StartsWithEntity(r[i..])
      {
        if i < |e| {
          EntityPrefix(s[0], t);
          assert i == 0 && r[0..] == r && e[0] == '&';
        } else {
          var j := i - |e|;
          assert t[j] == '&';
          assert r[i..] == t[j..];
        }
      }
    }
  }

  /** Escaped text reads back as the original. */
  lemma {:induction false} UnescapeEscapeEach(s: string)
    ensures Unescape(EscapeEach(s)) == s
  {
    if s != [] {
      var e, t := EscapeChar(s[0]), EscapeEach(s[1..]);
      UnescapeCons(s[0], t);
      UnescapeEscapeEach(s[1..]);
      assert s == [s[0]] + s[1..];
    }
  }

  /** The escaped text contains none of the four markup characters. */
  lemma {:induction false} NoMarkupChars(s: string)
    ensures var r := EscapeEach(s);
      '<' !in r && '>' !in r && '"' !in r && '\'' !in r
  {
    if s != [] {
      NoMarkupChars(s[1..]);
    }
  }

  /** The properties `escapeHtml` is there for: its output contains none of
      `<`, `>`, `"` and `'`, each `&` in it begins an entity, and it reads
      back as the input. */
  lemma EscapeHtmlSafe(s: string)
    ensures var r := EscapeHtml(s);
      && '<' !in r && '>' !in r && '"' !in r && '\'' !in r
      && AmpersandsBeginEntity(r)
      && Unescape(r) == s
  {
    EscapeHtmlIsSinglePass(s);
    NoMarkupChars(s);
    AmpersandsBeginEntities(s);
    UnescapeEscapeEach(s);
  }
}
