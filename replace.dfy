/** A model of Rust's `str::replace(&self, from, to)`: every non-overlapping
    occurrence of `from`, found left to right, is replaced by `to`, and the
    inserted text is never scanned again. Strings are sequences of characters;
    the lemmas hold for any element type with equality. */
module StrReplace {

  import opened Results

  /** `s` begins with `pat`. */
  predicate StartsWith<T(==)>(s: seq<T>, pat: seq<T>) {
    |pat| <= |s| && s[..|pat|] == pat
  }

  /** An occurrence of `pat` begins at index `i` of `s`. */
  predicate OccursAt<T(==)>(pat: seq<T>, s: seq<T>, i: nat) {
    i <= |s| && StartsWith(s[i..], pat)
  }

  /** `pat` is a substring of `s`. */
  predicate Occurs<T(==)>(pat: seq<T>, s: seq<T>) {
    exists i: nat | i <= |s| :: OccursAt(pat, s, i)
  }

  /** `s.replace(pat, rep)`: scan left to right; where `s` starts with `pat`,
      emit `rep` and continue after the match, otherwise copy one character.
      An empty pattern matches at every character boundary, as in Rust. */
  function ReplaceAll<T(==)>(s: seq<T>, pat: seq<T>, rep: seq<T>): seq<T>
    decreases |s|
  {
    if s == [] then
      (if pat == [] then rep else [])
    else if pat == [] then
      rep + [s[0]] + ReplaceAll(s[1..], pat, rep)
    else if StartsWith(s, pat) then
      rep + ReplaceAll(s[|pat|..], pat, rep)
    else
      [s[0]] + ReplaceAll(s[1..], pat, rep)
  }

  /** The leftmost occurrence of `pat` in `s`, if any (`str::find`). */
  function Find<T(==)>(s: seq<T>, pat: seq<T>): (r: Option<nat>)
    ensures r.Some? ==> OccursAt(pat, s, r.value)
    ensures r.Some? ==> forall j: nat :: j < r.value ==> !OccursAt(pat, s, j)
    ensures r.None? <==> !Occurs(pat, s)
    decreases |s|
  {
    if StartsWith(s, pat) then
      assert s[0..] == s && OccursAt(pat, s, 0);
      Some(0)
    else if s == [] then
      None
    else
      match Find(s[1..], pat)
      case None =>
        NoOccurrenceAfterFirst(s, pat);
        None
      case Some(k) =>
        OccursAtShift(pat, s, 1, k);
        forall j: nat | 0 < j <= k ensures OccursAt(pat, s, j) <==> OccursAt(pat, s[1..], j - 1) {
          OccursAtShift(pat, s, 1, j - 1);
        }
        Some(k + 1)
  }

  /** The same replacement phrased the way `str::replace` is implemented:
      find the leftmost match, copy what precedes it, push `rep`, and carry on
      after the match. An independent definition to check `ReplaceAll` against. */
  function ReplaceByFind<T(==)>(s: seq<T>, pat: seq<T>, rep: seq<T>): seq<T>
    requires pat != []
    decreases |s|
  {
    match Find(s, pat)
    case None => s
    case Some(i) => s[..i] + rep + ReplaceByFind(s[i + |pat|..], pat, rep)
  }

  lemma OccursAtShift<T>(pat: seq<T>, s: seq<T>, k: nat, i: nat)
    requires k <= |s|
    ensures OccursAt(pat, s[k..], i) <==> OccursAt(pat, s, k + i)
  {
    if k + i <= |s| {
      assert s[k..][i..] == s[k + i..];
    }
  }

  /** A text that does not start with `pat`, and whose tail does not contain
      it, does not contain it. */
  lemma NoOccurrenceAfterFirst<T>(s: seq<T>, pat: seq<T>)
    requires s != [] && !StartsWith(s, pat) && !Occurs(pat, s[1..])
    ensures !Occurs(pat, s)
  {
    assert s[0..] == s;
    forall j: nat | 0 < j ensures !OccursAt(pat, s, j) {
      OccursAtShift(pat, s, 1, j - 1);
    }
  }

  /** With a non-empty pattern, the empty string is left empty. */
  lemma ReplaceAllEmptyInput<T>(pat: seq<T>, rep: seq<T>)
    requires pat != []
    ensures ReplaceAll([], pat, rep) == []
  {
  }

  /** A pattern that does not occur leaves the text unchanged. */
  lemma {:induction false} ReplaceAllAbsent<T>(s: seq<T>, pat: seq<T>, rep: seq<T>)
    requires pat != []
    requires !Occurs(pat, s)
    ensures ReplaceAll(s, pat, rep) == s
    decreases |s|
  {
    if s != [] {
      assert !OccursAt(pat, s, 0);
      forall i: nat ensures !OccursAt(pat, s[1..], i) {
        OccursAtShift(pat, s, 1, i);
      }
      ReplaceAllAbsent(s[1..], pat, rep);
    }
  }

  /** A match at the front is replaced and the scan resumes after it: the
      inserted `rep` is not scanned again, whatever it contains. */
  lemma ReplaceAllMatchAtStart<T>(b: seq<T>, pat: seq<T>, rep: seq<T>)
    requires pat != []
    ensures ReplaceAll(pat + b, pat, rep) == rep + ReplaceAll(b, pat, rep)
  {
    assert (pat + b)[..|pat|] == pat;
    assert (pat + b)[|pat|..] == b;
  }

  /** Where no match begins, the first element is copied. */
  lemma ReplaceAllCopiesFirst<T>(c: T, rest: seq<T>, pat: seq<T>, rep: seq<T>)
    requires pat != [] && !StartsWith([c] + rest, pat)
    ensures ReplaceAll([c] + rest, pat, rep) == [c] + ReplaceAll(rest, pat, rep)
  {
    assert ([c] + rest)[1..] == rest;
  }

  /** Text in which no match begins is copied verbatim. */
  lemma {:induction false} ReplaceAllCopiesUntilMatch<T>(a: seq<T>, b: seq<T>, pat: seq<T>, rep: seq<T>)
    requires pat != []
    requires forall i: nat :: i < |a| ==> !OccursAt(pat, a + b, i)
    ensures ReplaceAll(a + b, pat, rep) == a + ReplaceAll(b, pat, rep)
    decreases |a|
  {
    if a != [] {
      var tail := a[1..] + b;
      assert a + b == [a[0]] + tail;
      assert (a + b)[0..] == a + b;
      assert !OccursAt(pat, a + b, 0);
      ReplaceAllCopiesFirst(a[0], tail, pat, rep);
      forall i: nat | i < |a[1..]| ensures !OccursAt(pat, tail, i) {
        OccursAtShift(pat, a + b, 1, i);
        assert (a + b)[1..] == tail;
      }
      ReplaceAllCopiesUntilMatch(a[1..], b, pat, rep);
      assert a == [a[0]] + a[1..];
      assert [a[0]] + (a[1..] + ReplaceAll(b, pat, rep)) == a + ReplaceAll(b, pat, rep);
    }
  }

  /** Text that does not contain the pattern's first character is copied verbatim. */
  lemma ReplaceAllSkipsForeignText<T>(a: seq<T>, b: seq<T>, pat: seq<T>, rep: seq<T>)
    requires pat != [] && pat[0] !in a
    ensures ReplaceAll(a + b, pat, rep) == a + ReplaceAll(b, pat, rep)
  {
    forall i: nat | i < |a| ensures !OccursAt(pat, a + b, i) {
      assert (a + b)[i..][0] == a[i];
    }
    ReplaceAllCopiesUntilMatch(a, b, pat, rep);
  }

  /** A text `m` that differs from the pattern at some index `d`, and
      holds the pattern's first element only at its own front, is copied
      verbatim: no match can begin inside it. */
  lemma ReplaceAllCopiesMismatch<T>(m: seq<T>, x: seq<T>, pat: seq<T>, rep: seq<T>, d: nat)
    requires pat != [] && d < |m| && d < |pat| && m[d] != pat[d]
    requires pat[0] !in m[1..]
    ensures ReplaceAll(m + x, pat, rep) == m + ReplaceAll(x, pat, rep)
  {
    if |pat| <= |m + x| {
      assert (m + x)[..|pat|][d] == m[d];
    }
    assert m + x == [m[0]] + (m[1..] + x);
    ReplaceAllCopiesFirst(m[0], m[1..] + x, pat, rep);
    ReplaceAllSkipsForeignText(m[1..], x, pat, rep);
    assert m == [m[0]] + m[1..];
  }

  /** Left to right, non-overlapping: when the first match of `pat` in
      `a + pat + b` is the one after `a`, the result is `a`, then `rep`, then
      the replacement of what follows the match. */
  lemma ReplaceAllLeftmost<T>(a: seq<T>, b: seq<T>, pat: seq<T>, rep: seq<T>)
    requires pat != []
    requires forall i: nat :: i < |a| ==> !OccursAt(pat, a + pat + b, i)
    ensures ReplaceAll(a + pat + b, pat, rep) == a + rep + ReplaceAll(b, pat, rep)
  {
    assert a + pat + b == a + (pat + b);
    ReplaceAllCopiesUntilMatch(a, pat + b, pat, rep);
    ReplaceAllMatchAtStart(b, pat, rep);
  }

  /** The scanning definition agrees with the find-and-copy definition. */
  lemma {:induction false} ReplaceAllIsReplaceByFind<T>(s: seq<T>, pat: seq<T>, rep: seq<T>)
    requires pat != []
    ensures ReplaceAll(s, pat, rep) == ReplaceByFind(s, pat, rep)
    decreases |s|
  {
    match Find(s, pat)
    case None =>
      ReplaceAllAbsent(s, pat, rep);
    case Some(i) =>
      var a, b := s[..i], s[i + |pat|..];
      assert s == a + pat + b;
      ReplaceAllLeftmost(a, b, pat, rep);
      ReplaceAllIsReplaceByFind(b, pat, rep);
  }

  /** Running a second pass exposes the first pass's output to it: a later
      pattern is matched inside text the earlier pass inserted. */
  lemma SecondPassScansInsertedText<T>(pat1: seq<T>, rep1: seq<T>, pat2: seq<T>, rep2: seq<T>)
    requires pat1 != []
    ensures ReplaceAll(ReplaceAll(pat1, pat1, rep1), pat2, rep2) == ReplaceAll(rep1, pat2, rep2)
  {
    ReplaceAllMatchAtStart([], pat1, rep1);
    assert pat1 + [] == pat1;
    assert rep1 + [] == rep1;
  }

  /** `rep` is fenced against `q`: its first and last elements do not occur in
      `q`, and `q` does not occur inside it. No occurrence of `q` can then
      overlap a copy of `rep` in a larger text. */
  predicate Fenced<T(==)>(rep: seq<T>, q: seq<T>) {
    q != [] && rep != [] && rep[0] !in q && rep[|rep| - 1] !in q && !Occurs(q, rep)
  }

  /** A window starting inside a fenced `rep` cannot spell `q`. */
  lemma FencedWindow<T>(rep: seq<T>, t: seq<T>, q: seq<T>, i: nat)
    requires Fenced(rep, q) && i < |rep|
    ensures !OccursAt(q, rep + t, i)
  {
    if i + |q| <= |rep| {
      assert (rep + t)[i..][..|q|] == rep[i..][..|q|];
      assert !OccursAt(q, rep, i);
    } else if i + |q| <= |rep + t| {
      assert (rep + t)[i..][..|q|][|rep| - 1 - i] == rep[|rep| - 1];
    }
  }

  /** A prefix of the output is either a verbatim prefix of the input, or it
      contains the first element of `rep`. */
  lemma {:induction false} ReplaceAllPrefix<T>(u: seq<T>, pat: seq<T>, rep: seq<T>, k: nat)
    requires pat != [] && rep != []
    requires k <= |ReplaceAll(u, pat, rep)|
    ensures (k <= |u| && ReplaceAll(u, pat, rep)[..k] == u[..k]) || rep[0] in ReplaceAll(u, pat, rep)[..k]
    decreases |u|
  {
    var r := ReplaceAll(u, pat, rep);
    if u != [] && k > 0 {
      if StartsWith(u, pat) {
        assert r[..k][0] == rep[0];
      } else {
        var t := ReplaceAll(u[1..], pat, rep);
        assert r == [u[0]] + t;
        ReplaceAllPrefix(u[1..], pat, rep, k - 1);
        assert r[..k] == [u[0]] + t[..k - 1];
        if k - 1 <= |u[1..]| && t[..k - 1] == u[1..][..k - 1] {
          assert u[..k] == [u[0]] + u[1..][..k - 1];
        }
      }
    }
  }

  /** Where an occurrence of `q` in the output comes from, when `rep` is fenced
      against `q`: it was already in the input, and `q` is not the pattern. */
  lemma {:induction false} OccurrenceOrigin<T>(s: seq<T>, pat: seq<T>, rep: seq<T>, q: seq<T>, i: nat)
    requires pat != [] && Fenced(rep, q)
    ensures OccursAt(q, ReplaceAll(s, pat, rep), i) ==> q != pat && Occurs(q, s)
    decreases |s|
  {
    if s != [] {
      if StartsWith(s, pat) {
        var t := ReplaceAll(s[|pat|..], pat, rep);
        assert ReplaceAll(s, pat, rep) == rep + t;
        if i < |rep| {
          FencedWindow(rep, t, q, i);
        } else {
          OccursAtShift(q, rep + t, |rep|, i - |rep|);
          assert (rep + t)[|rep|..] == t;
          OccurrenceOrigin(s[|pat|..], pat, rep, q, i - |rep|);
          if OccursAt(q, t, i - |rep|) {
            var j: nat :| OccursAt(q, s[|pat|..], j);
            OccursAtShift(q, s, |pat|, j);
          }
        }
      } else {
        var t := ReplaceAll(s[1..], pat, rep);
        assert ReplaceAll(s, pat, rep) == [s[0]] + t;
        if i == 0 {
          if OccursAt(q, [s[0]] + t, 0) {
            var k := |q| - 1;
            ReplaceAllPrefix(s[1..], pat, rep, k);
            assert q == ([s[0]] + t)[..|q|] == [s[0]] + t[..k];
            assert t[..k] == s[1..][..k];
            assert q == s[..|q|];
            assert OccursAt(q, s, 0);
          }
        } else {
          OccursAtShift(q, [s[0]] + t, 1, i - 1);
          assert ([s[0]] + t)[1..] == t;
          OccurrenceOrigin(s[1..], pat, rep, q, i - 1);
          if OccursAt(q, t, i - 1) {
            var j: nat :| OccursAt(q, s[1..], j);
            OccursAtShift(q, s, 1, j);
          }
        }
      }
    }
  }

  /** A pass whose replacement is fenced against its own pattern leaves no
      occurrence of the pattern behind. */
  lemma ReplaceAllRemovesPattern<T>(s: seq<T>, pat: seq<T>, rep: seq<T>)
    requires pat != [] && Fenced(rep, pat)
    ensures !Occurs(pat, ReplaceAll(s, pat, rep))
  {
    forall i: nat ensures !OccursAt(pat, ReplaceAll(s, pat, rep), i) {
      OccurrenceOrigin(s, pat, rep, pat, i);
    }
  }

  /** A pass whose replacement is fenced against `q` creates no occurrence of
      `q` that the input did not already have. */
  lemma ReplaceAllCreatesNoOccurrence<T>(s: seq<T>, pat: seq<T>, rep: seq<T>, q: seq<T>)
    requires pat != [] && Fenced(rep, q) && !Occurs(q, s)
    ensures !Occurs(q, ReplaceAll(s, pat, rep))
  {
    forall i: nat ensures !OccursAt(q, ReplaceAll(s, pat, rep), i) {
      OccurrenceOrigin(s, pat, rep, q, i);
    }
  }

  /** A pass whose replacement is fenced against `q` does not make the text
      start with `q` when it did not before. */
  lemma ReplaceAllKeepsNoStart<T>(s: seq<T>, pat: seq<T>, rep: seq<T>, q: seq<T>)
    requires pat != [] && rep != [] && q != [] && rep[0] !in q
    requires !StartsWith(s, q)
    ensures !StartsWith(ReplaceAll(s, pat, rep), q)
  {
    var r := ReplaceAll(s, pat, rep);
    if s != [] && |q| <= |r| {
      if StartsWith(s, pat) {
        assert r[..|q|][0] == rep[0];
      } else {
        var t := ReplaceAll(s[1..], pat, rep);
        var k := |q| - 1;
        assert r == [s[0]] + t;
        ReplaceAllPrefix(s[1..], pat, rep, k);
        assert r[..|q|] == [s[0]] + t[..k];
        if k <= |s[1..]| {
          assert s[..|q|] == [s[0]] + s[1..][..k];
        }
      }
    }
  }

  /** A fenced replacement is fenced because some element of `q` never occurs in it. */
  lemma FencedByMissingElement<T>(rep: seq<T>, q: seq<T>, c: T)
    requires rep != [] && rep[0] !in q && rep[|rep| - 1] !in q
    requires c in q && c !in rep
    ensures Fenced(rep, q)
  {
    forall i: nat ensures !OccursAt(q, rep, i) {
      var j :| 0 <= j < |q| && q[j] == c;
      if i + |q| <= |rep| {
        assert rep[i..][..|q|][j] == rep[i + j];
      }
    }
  }

  /** A text that lacks some element of `q` does not contain `q`. */
  lemma AbsentByMissingElement<T>(s: seq<T>, q: seq<T>, c: T)
    requires c in q && c !in s
    ensures !Occurs(q, s)
  {
    forall i: nat ensures !OccursAt(q, s, i) {
      var j :| 0 <= j < |q| && q[j] == c;
      if i + |q| <= |s| {
        assert s[i..][..|q|][j] == s[i + j];
      }
    }
  }
}
