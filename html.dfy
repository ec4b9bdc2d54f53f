/**
  `escapeHtml`: the text of a task is made safe for insertion into markup by
  five successive `replaceAll` passes, `&` first. The lemmas show that the
  chain is the same as replacing each character by its entity on its own,
  that the result holds no markup-significant character, and that text
  without the five characters is left alone.
 */
module Html {

  /** `s.replaceAll(c, rep)` for a one-character pattern and a replacement
      without `$` (so no substitution patterns are expanded). */
  function ReplaceAll(s: string, c: char, rep: string): (r: string)
    ensures (forall k :: 0 <= k < |s| ==> s[k] != c) ==> r == s
  {
    if s == [] then []
    else (if s[0] == c then rep else [s[0]]) + ReplaceAll(s[1..], c, rep)
  }

  /** The chain of `replaceAll` calls, in the order the source applies them. */
  function EscapeHtml(text: string): (r: string)
    ensures |r| >= |text|
  {
    var amp := ReplaceAll(text, '&', "&amp;");
    var lt := ReplaceAll(amp, '<', "&lt;");
    var gt := ReplaceAll(lt, '>', "&gt;");
    var quot := ReplaceAll(gt, '"', "&quot;");
    ReplaceAllLength(text, '&', "&amp;");
    ReplaceAllLength(amp, '<', "&lt;");
    ReplaceAllLength(lt, '>', "&gt;");
    ReplaceAllLength(gt, '"', "&quot;");
    ReplaceAllLength(quot, '\'', "&#039;");
    ReplaceAll(quot, '\'', "&#039;")
  }

  /** A pass with a non-empty replacement never shortens the string. */
  lemma {:induction false} ReplaceAllLength(s: string, c: char, rep: string)
    requires |rep| >= 1
    ensures |ReplaceAll(s, c, rep)| >= |s|
  {
    if s != [] {
      ReplaceAllLength(s[1..], c, rep);
    }
  }

  predicate IsSpecial(c: char) {
    c == '&' || c == '<' || c == '>' || c == '"' || c == '\''
  }

  /** The entity that stands for one character of the text. */
  function EscapeChar(c: char): (r: string)
    ensures IsSpecial(c) ==> |r| > 1 && r[0] == '&' && r[|r| - 1] == ';'
    ensures !IsSpecial(c) ==> r == [c]
  {
    match c
    case '&' => "&amp;"
    case '<' => "&lt;"
    case '>' => "&gt;"
    case '"' => "&quot;"
    case '\'' => "&#039;"
    case _ => [c]
  }

  /** The reference definition: every character escaped independently. */
  function EscapeEach(s: string): (r: string)
    ensures |r| >= |s|
  {
    if s == [] then [] else EscapeChar(s[0]) + EscapeEach(s[1..])
  }

  lemma {:induction false} ReplaceAllConcat(a: string, b: string, c: char, rep: string)
    ensures ReplaceAll(a + b, c, rep) == ReplaceAll(a, c, rep) + ReplaceAll(b, c, rep)
  {
    if a == [] {
      assert a + b == b;
    } else {
      var head := if a[0] == c then rep else [a[0]];
      assert a + b == [a[0]] + (a[1..] + b);
      ReplaceAllConcat(a[1..], b, c, rep);
      assert ReplaceAll(a + b, c, rep) == head + ReplaceAll(a[1..] + b, c, rep);
    }
  }

  lemma EscapeHtmlConcat(a: string, b: string)
    ensures EscapeHtml(a + b) == EscapeHtml(a) + EscapeHtml(b)
  {
    var amp1, amp2 := ReplaceAll(a, '&', "&amp;"), ReplaceAll(b, '&', "&amp;");
    ReplaceAllConcat(a, b, '&', "&amp;");
    var lt1, lt2 := ReplaceAll(amp1, '<', "&lt;"), ReplaceAll(amp2, '<', "&lt;");
    ReplaceAllConcat(amp1, amp2, '<', "&lt;");
    var gt1, gt2 := ReplaceAll(lt1, '>', "&gt;"), ReplaceAll(lt2, '>', "&gt;");
    ReplaceAllConcat(lt1, lt2, '>', "&gt;");
    var quot1, quot2 := ReplaceAll(gt1, '"', "&quot;"), ReplaceAll(gt2, '"', "&quot;");
    ReplaceAllConcat(gt1, gt2, '"', "&quot;");
    ReplaceAllConcat(quot1, quot2, '\'', "&#039;");
  }

  lemma ReplaceAllSingle(c: char, d: char, rep: string)
    ensures ReplaceAll([c], d, rep) == if c == d then rep else [c]
  {
    assert [c][1..] == [];
  }

  /** On one character the chain produces that character's entity: no later
      pass touches what an earlier pass inserted, because `&` goes first. */
  lemma EscapeHtmlChar(c: char)
    ensures EscapeHtml([c]) == EscapeChar(c)
  {
    ReplaceAllSingle(c, '&', "&amp;");
    if c == '&' {
      LaterPassesKeep(ReplaceAll([c], '&', "&amp;"), 1);
    } else {
      ReplaceAllSingle(c, '<', "&lt;");
      if c == '<' {
        LaterPassesKeep(ReplaceAll([c], '<', "&lt;"), 2);
      } else {
        ReplaceAllSingle(c, '>', "&gt;");
        if c == '>' {
          LaterPassesKeep(ReplaceAll([c], '>', "&gt;"), 3);
        } else {
          ReplaceAllSingle(c, '"', "&quot;");
          ReplaceAllSingle(c, '\'', "&#039;");
        }
      }
    }
  }

  /** The passes after the first `done` ones leave alone a string that holds
      none of their characters. */
  lemma LaterPassesKeep(s: string, done: nat)
    requires 1 <= done <= 3
    requires '"' !in s && '\'' !in s
    requires done <= 2 ==> '>' !in s
    requires done <= 1 ==> '<' !in s
    ensures done == 1 ==> ReplaceAll(ReplaceAll(ReplaceAll(ReplaceAll(s, '<', "&lt;"), '>', "&gt;"), '"', "&quot;"), '\'', "&#039;") == s
    ensures done == 2 ==> ReplaceAll(ReplaceAll(ReplaceAll(s, '>', "&gt;"), '"', "&quot;"), '\'', "&#039;") == s
    ensures done == 3 ==> ReplaceAll(ReplaceAll(s, '"', "&quot;"), '\'', "&#039;") == s
  {
  }

  lemma {:induction false} EscapeHtmlIsEscapeEach(s: string)
    ensures EscapeHtml(s) == EscapeEach(s)
  {
    if s == [] {
      assert EscapeHtml(s) == [];
    } else {
      assert s == [s[0]] + s[1..];
      EscapeHtmlConcat([s[0]], s[1..]);
      EscapeHtmlChar(s[0]);
      EscapeHtmlIsEscapeEach(s[1..]);
    }
  }

  /** The output holds no `<`, `>`, `"` or `'`: each pass removes its
      character, and no later pass inserts it again. */
  lemma EscapeHtmlNoMarkup(text: string)
    ensures var r := EscapeHtml(text); '<' !in r && '>' !in r && '"' !in r && '\'' !in r
  {
    var amp := ReplaceAll(text, '&', "&amp;");
    AngleBracketPasses(amp);
    QuotePasses(ReplaceAll(ReplaceAll(amp, '<', "&lt;"), '>', "&gt;"));
  }

  /** The `<` and `>` passes leave neither character behind. */
  lemma AngleBracketPasses(s: string)
    ensures var gt := ReplaceAll(ReplaceAll(s, '<', "&lt;"), '>', "&gt;"); '<' !in gt && '>' !in gt
  {
    var lt := ReplaceAll(s, '<', "&lt;");
    assert '<' !in "&lt;" && '<' !in "&gt;" && '>' !in "&gt;";
    ReplaceAllRemoves(s, '<', "&lt;");
    ReplaceAllKeepsOut(lt, '>', "&gt;", '<');
    ReplaceAllRemoves(lt, '>', "&gt;");
  }

  /** The quote passes remove both quotes and bring back no angle bracket. */
  lemma QuotePasses(s: string)
    requires '<' !in s && '>' !in s
    ensures var r := ReplaceAll(ReplaceAll(s, '"', "&quot;"), '\'', "&#039;");
      '<' !in r && '>' !in r && '"' !in r && '\'' !in r
  {
    var quot := ReplaceAll(s, '"', "&quot;");
    assert '<' !in "&quot;" && '>' !in "&quot;" && '"' !in "&quot;";
    ReplaceAllKeepsOut(s, '"', "&quot;", '<');
    ReplaceAllKeepsOut(s, '"', "&quot;", '>');
    ReplaceAllRemoves(s, '"', "&quot;");
    assert '<' !in "&#039;" && '>' !in "&#039;" && '"' !in "&#039;" && '\'' !in "&#039;";
    ReplaceAllKeepsOut(quot, '\'', "&#039;", '<');
    ReplaceAllKeepsOut(quot, '\'', "&#039;", '>');
    ReplaceAllKeepsOut(quot, '\'', "&#039;", '"');
    ReplaceAllRemoves(quot, '\'', "&#039;");
  }

  /** A pass removes its character unless the replacement holds it. */
  lemma {:induction false} ReplaceAllRemoves(s: string, c: char, rep: string)
    requires c !in rep
    ensures c !in ReplaceAll(s, c, rep)
  {
    if s != [] {
      ReplaceAllRemoves(s[1..], c, rep);
    }
  }

  /** A character absent from the input and from the replacement is absent
      from the output. */
  lemma {:induction false} ReplaceAllKeepsOut(s: string, c: char, rep: string, x: char)
    requires x !in s && x !in rep
    ensures x !in ReplaceAll(s, c, rep)
  {
    if s != [] {
      assert x !in s[1..] by { assert forall k :: 0 <= k < |s| - 1 ==> s[1..][k] == s[k + 1]; }
      ReplaceAllKeepsOut(s[1..], c, rep, x);
    }
  }

  /** Text with none of the five characters is displayed as it is. */
  lemma {:induction false} EscapeHtmlIdentity(s: string)
    requires forall k :: 0 <= k < |s| ==> !IsSpecial(s[k])
    ensures EscapeHtml(s) == s
  {
    EscapeHtmlIsEscapeEach(s);
    EscapeEachIdentity(s);
  }

  lemma {:induction false} EscapeEachIdentity(s: string)
    requires forall k :: 0 <= k < |s| ==> !IsSpecial(s[k])
    ensures EscapeEach(s) == s
  {
    if s != [] {
      EscapeEachIdentity(s[1..]);
    }
  }

  /** Escaping lengthens the text exactly when it holds one of the five
      characters, each of which becomes a longer entity. */
  lemma {:induction false} EscapeHtmlLength(s: string)
    ensures |EscapeHtml(s)| == |s| <==> forall k :: 0 <= k < |s| ==> !IsSpecial(s[k])
  {
    EscapeHtmlIsEscapeEach(s);
    EscapeEachLength(s);
  }

  lemma {:induction false} EscapeEachLength(s: string)
    ensures |EscapeEach(s)| == |s| <==> forall k :: 0 <= k < |s| ==> !IsSpecial(s[k])
  {
    if s != [] {
      EscapeEachLength(s[1..]);
      if IsSpecial(s[0]) {
        assert |EscapeChar(s[0])| > 1;
      }
    }
  }
}
