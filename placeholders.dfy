/** The marker table and `replace_placeholders`: three literal passes over a
    chapter's text, theorem marker first, then the proof-end marker, then the
    proof-start marker. */
module Placeholders {

  import opened Results
  import opened StrReplace

  const TheoremMarker: string := "{#theorem}"
  const TheoremExpanded: string := "<strong>Theorem.</strong>"

  const ProofStartMarker: string := "{#proof}"
  /** The opening fragment, written in pieces that follow the source lines;
      the space after `</summary>` and the four-space indents belong to it. */
  const ProofStartExpanded: string :=
    "<details markdown=\"block\">"
    + "\n    <summary>"
    + "\n    <b>Proof</b>. (Expand to view)"
    + "\n    </summary> "
    + "\n    <p>"

  const ProofEndMarker: string := "{/proof}"
  /** The closing fragment, written in pieces that follow the source lines;
      the space after `</p>` and the four-space indents belong to it. */
  const ProofEndExpanded: string :=
    "</p> "
    + "\n    <span style=\"float:right;\">" + " &#9634; </span>&nbsp;"
    + "\n    </details>"

  /** Some marker literal occurs in `s`. */
  predicate HasMarker(s: string) {
    Occurs(TheoremMarker, s) || Occurs(ProofEndMarker, s) || Occurs(ProofStartMarker, s)
  }

  /** The three passes, in the order the source chains them. */
  function Expand(content: string): string {
    ReplaceAll(
      ReplaceAll(
        ReplaceAll(content, TheoremMarker, TheoremExpanded),
        ProofEndMarker, ProofEndExpanded),
      ProofStartMarker, ProofStartExpanded)
  }

  /** `replace_placeholders`: always `Ok`, and no marker is left in the text. */
  function ReplacePlaceholders(content: string): (r: Result<string, Error>)
    ensures r.Ok?
    ensures !HasMarker(r.value)
  {
    NoMarkerSurvives(content);
    Ok(Expand(content))
  }

  /** Each marker contains '{' and neither '<' nor '>'. */
  lemma MarkerCharacters()
    ensures '{' in TheoremMarker && '<' !in TheoremMarker && '>' !in TheoremMarker
    ensures '{' in ProofEndMarker && '<' !in ProofEndMarker && '>' !in ProofEndMarker
    ensures '{' in ProofStartMarker && '<' !in ProofStartMarker && '>' !in ProofStartMarker
  {
  }

  /** Each marker holds '{' only at its front, and the markers tell each
      other apart at index 1 or 2. */
  lemma MarkerShapes()
    ensures TheoremMarker[0] == ProofEndMarker[0] == ProofStartMarker[0] == '{'
    ensures '{' !in TheoremMarker[1..] && '{' !in ProofEndMarker[1..] && '{' !in ProofStartMarker[1..]
    ensures TheoremMarker[1] == ProofStartMarker[1] == '#' && ProofEndMarker[1] == '/'
    ensures TheoremMarker[2] == 't' && ProofStartMarker[2] == 'p'
  {
    assert TheoremMarker[1..] == "#theorem}";
    assert ProofEndMarker[1..] == "/proof}";
    assert ProofStartMarker[1..] == "#proof}";
  }

  /** Each expansion opens with '<', closes with '>' and contains no '{'. */
  lemma TheoremExpandedCharacters()
    ensures TheoremExpanded[0] == '<' && TheoremExpanded[|TheoremExpanded| - 1] == '>'
    ensures '{' !in TheoremExpanded
  {
  }

  lemma ProofEndExpandedCharacters()
    ensures ProofEndExpanded[0] == '<' && ProofEndExpanded[|ProofEndExpanded| - 1] == '>'
    ensures '{' !in ProofEndExpanded
  {
    ProofEndPiecesLackBrace();
    LacksBoth('{', "</p> ", "\n    <span style=\"float:right;\">");
    LacksBoth('{', "</p> " + "\n    <span style=\"float:right;\">", " &#9634; </span>&nbsp;");
    LacksBoth('{', "</p> " + "\n    <span style=\"float:right;\">" + " &#9634; </span>&nbsp;", "\n    </details>");
  }

  lemma ProofEndPiecesLackBrace()
    ensures '{' !in "</p> "
    ensures '{' !in "\n    <span style=\"float:right;\">"
    ensures '{' !in " &#9634; </span>&nbsp;"
    ensures '{' !in "\n    </details>"
  {
  }

  lemma ProofStartExpandedCharacters()
    ensures ProofStartExpanded[0] == '<' && ProofStartExpanded[|ProofStartExpanded| - 1] == '>'
    ensures '{' !in ProofStartExpanded
  {
    ProofStartPiecesLackBrace();
    var p1, p2, p3 := "<details markdown=\"block\">", "\n    <summary>", "\n    <b>Proof</b>. (Expand to view)";
    var p4, p5 := "\n    </summary> ", "\n    <p>";
    LacksBoth('{', p1, p2);
    LacksBoth('{', p1 + p2, p3);
    LacksBoth('{', p1 + p2 + p3, p4);
    LacksBoth('{', p1 + p2 + p3 + p4, p5);
  }

  lemma ProofStartPiecesLackBrace()
    ensures '{' !in "<details markdown=\"block\">"
    ensures '{' !in "\n    <summary>"
    ensures '{' !in "\n    <b>Proof</b>. (Expand to view)"
    ensures '{' !in "\n    </summary> "
    ensures '{' !in "\n    <p>"
  {
    assert '{' !in "<details markdown=\"block\">" by { LiteralLacksBrace1(); }
    assert '{' !in "\n    <b>Proof</b>. (Expand to view)" by { LiteralLacksBrace2(); }
  }

  // LiteralLacksBrace1, LiteralLacksBrace2 and LacksBoth split the literal
  // into short pieces so the solver checks each one cheaply and stably.
  lemma LiteralLacksBrace1()
    ensures '{' !in "<details markdown=\"block\">"
  {
  }

  lemma LiteralLacksBrace2()
    ensures '{' !in "\n    <b>Proof</b>. (Expand to view)"
  {
  }

  /** A text built from two parts that both lack `x` lacks it too. */
  lemma LacksBoth(x: char, a: string, b: string)
    requires x !in a && x !in b
    ensures x !in a + b
  {
  }

  /** No marker can overlap an inserted expansion: every expansion is fenced
      against every marker. */
  lemma ExpansionsFenced()
    ensures Fenced(TheoremExpanded, TheoremMarker)
    ensures Fenced(TheoremExpanded, ProofEndMarker)
    ensures Fenced(TheoremExpanded, ProofStartMarker)
    ensures Fenced(ProofEndExpanded, TheoremMarker)
    ensures Fenced(ProofEndExpanded, ProofEndMarker)
    ensures Fenced(ProofEndExpanded, ProofStartMarker)
    ensures Fenced(ProofStartExpanded, TheoremMarker)
    ensures Fenced(ProofStartExpanded, ProofEndMarker)
    ensures Fenced(ProofStartExpanded, ProofStartMarker)
  {
    MarkerCharacters();
    TheoremExpandedCharacters();
    ProofEndExpandedCharacters();
    ProofStartExpandedCharacters();
    var markers := [TheoremMarker, ProofEndMarker, ProofStartMarker];
    var expansions := [TheoremExpanded, ProofEndExpanded, ProofStartExpanded];
    forall e, m | e in expansions && m in markers ensures Fenced(e, m) {
      FencedByMissingElement(e, m, '{');
    }
  }

  /** No marker literal survives the three passes: each pass removes its own
      marker and cannot re-form one removed by an earlier pass. */
  lemma NoMarkerSurvives(content: string)
    ensures !HasMarker(Expand(content))
  {
    ExpansionsFenced();
    var s1 := ReplaceAll(content, TheoremMarker, TheoremExpanded);
    var s2 := ReplaceAll(s1, ProofEndMarker, ProofEndExpanded);
    ReplaceAllRemovesPattern(content, TheoremMarker, TheoremExpanded);
    ReplaceAllCreatesNoOccurrence(s1, ProofEndMarker, ProofEndExpanded, TheoremMarker);
    ReplaceAllRemovesPattern(s1, ProofEndMarker, ProofEndExpanded);
    ReplaceAllCreatesNoOccurrence(s2, ProofStartMarker, ProofStartExpanded, TheoremMarker);
    ReplaceAllCreatesNoOccurrence(s2, ProofStartMarker, ProofStartExpanded, ProofEndMarker);
    ReplaceAllRemovesPattern(s2, ProofStartMarker, ProofStartExpanded);
  }

  /** Text without markers comes back unchanged. */
  lemma Identity(content: string)
    requires !HasMarker(content)
    ensures ReplacePlaceholders(content) == Ok(content)
  {
    ReplaceAllAbsent(content, TheoremMarker, TheoremExpanded);
    ReplaceAllAbsent(content, ProofEndMarker, ProofEndExpanded);
    ReplaceAllAbsent(content, ProofStartMarker, ProofStartExpanded);
  }

  /** The empty chapter stays empty. */
  lemma EmptyInput()
    ensures ReplacePlaceholders("") == Ok("")
  {
    Identity("");
  }

  /** The result of the three passes, given each pass's result. */
  lemma Passes(content: string, s1: string, s2: string, s3: string)
    requires s1 == ReplaceAll(content, TheoremMarker, TheoremExpanded)
    requires s2 == ReplaceAll(s1, ProofEndMarker, ProofEndExpanded)
    requires s3 == ReplaceAll(s2, ProofStartMarker, ProofStartExpanded)
    ensures ReplacePlaceholders(content) == Ok(s3)
  {
  }

  /** A lone theorem marker becomes exactly the bold "Theorem." label. */
  lemma SingleTheorem()
    ensures ReplacePlaceholders(TheoremMarker) == Ok(TheoremExpanded)
  {
    assert ReplaceAll(TheoremMarker, TheoremMarker, TheoremExpanded) == TheoremExpanded by {
      ReplaceAllMatchAtStart([], TheoremMarker, TheoremExpanded);
      assert TheoremMarker + [] == TheoremMarker;
    }
    assert ReplaceAll(TheoremExpanded, ProofEndMarker, ProofEndExpanded) == TheoremExpanded by {
      TheoremExpandedCharacters();
      MarkerCharacters();
      AbsentByMissingElement(TheoremExpanded, ProofEndMarker, '{');
      ReplaceAllAbsent(TheoremExpanded, ProofEndMarker, ProofEndExpanded);
    }
    assert ReplaceAll(TheoremExpanded, ProofStartMarker, ProofStartExpanded) == TheoremExpanded by {
      TheoremExpandedCharacters();
      MarkerCharacters();
      AbsentByMissingElement(TheoremExpanded, ProofStartMarker, '{');
      ReplaceAllAbsent(TheoremExpanded, ProofStartMarker, ProofStartExpanded);
    }
    Passes(TheoremMarker, TheoremExpanded, TheoremExpanded, TheoremExpanded);
  }

  /** A proof block around " body " becomes the opening fragment, the body and
      the closing fragment, with nothing added or dropped. */
  lemma MixedProofBlock()
    ensures ReplacePlaceholders("{#proof} body {/proof}")
         == Ok(ProofStartExpanded + " body " + ProofEndExpanded)
  {
    var s := ProofStartMarker + " body " + ProofEndMarker;
    var s2 := ProofStartMarker + " body " + ProofEndExpanded;
    MixedSplit();
    MixedTheoremPass();
    MixedProofEndPass("#proof} body ");
    MixedProofStartPass();
    Passes(s, s, s2, ProofStartExpanded + " body " + ProofEndExpanded);
  }

  lemma MixedSplit()
    ensures "{#proof} body {/proof}" == ProofStartMarker + " body " + ProofEndMarker
    ensures ProofStartMarker + " body " + ProofEndMarker == ['{'] + ("#proof} body " + ProofEndMarker)
    ensures ['{'] + "#proof} body " == ProofStartMarker + " body "
  {
  }

  /** The example has no 't', so the theorem pass finds nothing. */
  lemma MixedTheoremPass()
    ensures var s := ProofStartMarker + " body " + ProofEndMarker;
            ReplaceAll(s, TheoremMarker, TheoremExpanded) == s
  {
    var s := ProofStartMarker + " body " + ProofEndMarker;
    assert 't' !in s && 't' in TheoremMarker;
    AbsentByMissingElement(s, TheoremMarker, 't');
    ReplaceAllAbsent(s, TheoremMarker, TheoremExpanded);
  }

  /** The proof-end marker at the very end is the only match of the second pass. */
  lemma MixedProofEndPass(tail: string)
    requires tail == "#proof} body "
    ensures ReplaceAll(['{'] + (tail + ProofEndMarker), ProofEndMarker, ProofEndExpanded)
         == ['{'] + tail + ProofEndExpanded
  {
    MarkerShapes();
    assert '{' !in tail && tail[0] == '#';
    OnlyAtBack('{', tail, ProofEndMarker, ProofEndExpanded);
  }

  /** A text that starts with `c`, then holds no front element of `pat`,
      then ends in `pat`: only the end is rewritten, as long as the text
      cannot start with `pat` because it differs at its second element. */
  lemma OnlyAtBack(c: char, tail: string, pat: string, rep: string)
    requires |pat| >= 2 && tail != [] && tail[0] != pat[1] && pat[0] !in tail
    ensures ReplaceAll([c] + (tail + pat), pat, rep) == [c] + tail + rep
  {
    assert ([c] + (tail + pat))[1] != pat[1];
    ReplaceAllCopiesFirst(c, tail + pat, pat, rep);
    ReplaceAllSkipsForeignText(tail, pat, pat, rep);
    ReplaceAllMatchAtStart([], pat, rep);
    assert pat + [] == pat;
  }

  /** The proof-start marker at the front is the only match of the third pass. */
  lemma MixedProofStartPass()
    ensures ReplaceAll(ProofStartMarker + " body " + ProofEndExpanded, ProofStartMarker, ProofStartExpanded)
         == ProofStartExpanded + " body " + ProofEndExpanded
  {
    ExpansionsFenced();
    MarkerShapes();
    ProofStartOnlyAtFront(" body ", ProofEndExpanded);
  }

  /** A proof-start marker followed by text with no '{' and then a text the
      marker does not occur in: only the front is rewritten. */
  lemma ProofStartOnlyAtFront(mid: string, e: string)
    requires '{' !in mid && ProofStartMarker[0] == '{'
    requires Fenced(e, ProofStartMarker)
    ensures ReplaceAll(ProofStartMarker + mid + e, ProofStartMarker, ProofStartExpanded)
         == ProofStartExpanded + mid + e
  {
    assert ProofStartMarker + mid + e == ProofStartMarker + (mid + e);
    ReplaceAllMatchAtStart(mid + e, ProofStartMarker, ProofStartExpanded);
    ReplaceAllSkipsForeignText(mid, e, ProofStartMarker, ProofStartExpanded);
    ReplaceAllAbsent(e, ProofStartMarker, ProofStartExpanded);
  }

  /** A reference definition: one left-to-right scan that tries the three
      markers at every position and never looks at inserted text again. */
  function SingleScan(s: string): string
    decreases |s|
  {
    if s == [] then []
    else if StartsWith(s, TheoremMarker) then TheoremExpanded + SingleScan(s[|TheoremMarker|..])
    else if StartsWith(s, ProofEndMarker) then ProofEndExpanded + SingleScan(s[|ProofEndMarker|..])
    else if StartsWith(s, ProofStartMarker) then ProofStartExpanded + SingleScan(s[|ProofStartMarker|..])
    else [s[0]] + SingleScan(s[1..])
  }

  /** A theorem marker at the front expands, and the rest is expanded on its own. */
  lemma ExpandTheoremFirst(rest: string)
    ensures Expand(TheoremMarker + rest) == TheoremExpanded + Expand(rest)
  {
    TheoremExpandedCharacters();
    MarkerShapes();
    var y := ReplaceAll(rest, TheoremMarker, TheoremExpanded);
    ReplaceAllMatchAtStart(rest, TheoremMarker, TheoremExpanded);
    ReplaceAllSkipsForeignText(TheoremExpanded, y, ProofEndMarker, ProofEndExpanded);
    var z := ReplaceAll(y, ProofEndMarker, ProofEndExpanded);
    ReplaceAllSkipsForeignText(TheoremExpanded, z, ProofStartMarker, ProofStartExpanded);
  }

  /** A proof-end marker at the front expands, and the rest is expanded on its own. */
  lemma ExpandProofEndFirst(rest: string)
    ensures Expand(ProofEndMarker + rest) == ProofEndExpanded + Expand(rest)
  {
    ProofEndExpandedCharacters();
    MarkerShapes();
    var y := ReplaceAll(rest, TheoremMarker, TheoremExpanded);
    ReplaceAllCopiesMismatch(ProofEndMarker, rest, TheoremMarker, TheoremExpanded, 1);
    ReplaceAllMatchAtStart(y, ProofEndMarker, ProofEndExpanded);
    var z := ReplaceAll(y, ProofEndMarker, ProofEndExpanded);
    ReplaceAllSkipsForeignText(ProofEndExpanded, z, ProofStartMarker, ProofStartExpanded);
  }

  /** A proof-start marker at the front expands, and the rest is expanded on its own. */
  lemma ExpandProofStartFirst(rest: string)
    ensures Expand(ProofStartMarker + rest) == ProofStartExpanded + Expand(rest)
  {
    MarkerShapes();
    var y := ReplaceAll(rest, TheoremMarker, TheoremExpanded);
    ReplaceAllCopiesMismatch(ProofStartMarker, rest, TheoremMarker, TheoremExpanded, 2);
    var z := ReplaceAll(y, ProofEndMarker, ProofEndExpanded);
    ReplaceAllCopiesMismatch(ProofStartMarker, y, ProofEndMarker, ProofEndExpanded, 1);
    ReplaceAllMatchAtStart(z, ProofStartMarker, ProofStartExpanded);
  }

  /** A character where no marker begins is copied, and the rest is expanded on its own. */
  lemma ExpandCopiesFirst(s: string)
    requires s != []
    requires !StartsWith(s, TheoremMarker) && !StartsWith(s, ProofEndMarker) && !StartsWith(s, ProofStartMarker)
    ensures Expand(s) == [s[0]] + Expand(s[1..])
  {
    MarkerCharacters();
    TheoremExpandedCharacters();
    ProofEndExpandedCharacters();
    assert s == [s[0]] + s[1..];
    var y := ReplaceAll(s[1..], TheoremMarker, TheoremExpanded);
    ReplaceAllCopiesFirst(s[0], s[1..], TheoremMarker, TheoremExpanded);
    var s1 := ReplaceAll(s, TheoremMarker, TheoremExpanded);
    ReplaceAllKeepsNoStart(s, TheoremMarker, TheoremExpanded, ProofEndMarker);
    ReplaceAllKeepsNoStart(s, TheoremMarker, TheoremExpanded, ProofStartMarker);
    ReplaceAllCopiesFirst(s[0], y, ProofEndMarker, ProofEndExpanded);
    var z := ReplaceAll(y, ProofEndMarker, ProofEndExpanded);
    ReplaceAllKeepsNoStart(s1, ProofEndMarker, ProofEndExpanded, ProofStartMarker);
    ReplaceAllCopiesFirst(s[0], z, ProofStartMarker, ProofStartExpanded);
  }

  /** With these literals, the three sequential passes give exactly what one
      simultaneous scan gives: no pass ever meets text an earlier pass inserted. */
  lemma {:induction false} ExpandIsSingleScan(s: string)
    ensures Expand(s) == SingleScan(s)
    decreases |s|
  {
    if s == [] {
    } else if StartsWith(s, TheoremMarker) {
      var rest := s[|TheoremMarker|..];
      assert s == TheoremMarker + rest;
      ExpandTheoremFirst(rest);
      ExpandIsSingleScan(rest);
    } else if StartsWith(s, ProofEndMarker) {
      var rest := s[|ProofEndMarker|..];
      assert s == ProofEndMarker + rest;
      ExpandProofEndFirst(rest);
      ExpandIsSingleScan(rest);
    } else if StartsWith(s, ProofStartMarker) {
      var rest := s[|ProofStartMarker|..];
      assert s == ProofStartMarker + rest;
      ExpandProofStartFirst(rest);
      ExpandIsSingleScan(rest);
    } else {
      ExpandCopiesFirst(s);
      ExpandIsSingleScan(s[1..]);
    }
  }

  /** Running the passes on their own output changes nothing more. */
  lemma Idempotent(content: string)
    ensures ReplacePlaceholders(ReplacePlaceholders(content).value) == ReplacePlaceholders(content)
  {
    NoMarkerSurvives(content);
    Identity(Expand(content));
  }
}
