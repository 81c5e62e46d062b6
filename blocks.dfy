/** `text.split(/\n\s*\n/)`: the experience and education sections are cut
    into blocks at blank lines, following the split algorithm of ECMA-262
    (section 22.2.6.14, RegExp.prototype[@@split]): the separator is tried at
    every position from left to right, and each match closes a block. */
module Blocks {
  import opened Text
  import Patterns

  /** What lies between two blocks: a line break, whitespace, a line break. */
  predicate IsBlankSeparator(x: string) {
    |x| >= 2 && x[0] == '\n' && x[|x| - 1] == '\n' && AllSpace(x)
  }

  /** `b` has a blank line from `j` to `k`: two line breaks with only whitespace between. */
  ghost predicate BlankLineAt(b: string, j: nat, k: nat) {
    j < k < |b| && b[j] == '\n' && b[k] == '\n' && forall m | j < m < k :: IsSpace(b[m])
  }

  /** The last line break in [lo, hi). */
  function LastNewline(s: string, lo: nat, hi: nat): (r: Option<nat>)
    requires hi <= |s|
    ensures r.Some? ==> lo <= r.value < hi && s[r.value] == '\n'
    ensures r.Some? ==> forall j | r.value < j < hi :: s[j] != '\n'
    ensures r.None? ==> forall j | lo <= j < hi :: s[j] != '\n'
    decreases hi
  {
    if hi <= lo then None
    else if s[hi - 1] == '\n' then Some(hi - 1)
    else LastNewline(s, lo, hi - 1)
  }

  /** End of the match of /\n\s*\n/ at exactly position `q`: a line break,
      then the greedy whitespace run after it, given back to its last line
      break (a line break is whitespace itself). */
  function SeparatorAt(s: string, q: nat): (r: Option<nat>)
    requires q <= |s|
    ensures r.Some? ==> q + 2 <= r.value <= |s| && IsBlankSeparator(s[q..r.value])
  {
    if q < |s| && s[q] == '\n' then
      var w := Patterns.RunEnd(s, q + 1, Patterns.Space);
      match LastNewline(s, q + 1, w)
      case None => None
      case Some(j) =>
        assert forall m | q < m <= j :: IsSpace(s[m]) by {
          assert forall m | q + 1 <= m < w :: Patterns.InClass(s[m], Patterns.Space);
        }
        Some(j + 1)
    else None
  }

  /** Wherever `s` has a blank line, the separator matches there. */
  lemma SeparatorAtComplete(s: string, j: nat, k: nat)
    requires BlankLineAt(s, j, k)
    ensures SeparatorAt(s, j).Some?
  {
    var w := Patterns.RunEnd(s, j + 1, Patterns.Space);
    assert Patterns.InClass(s[k], Patterns.Space);
    assert k < w;
  }

  /** The greedy `\s*` gives back only what it must: the match at `q` runs
      past every blank line that starts at `q`. */
  lemma SeparatorAtLongest(s: string, q: nat, k: nat)
    requires BlankLineAt(s, q, k)
    ensures SeparatorAt(s, q).Some? && k < SeparatorAt(s, q).value
  {
    SeparatorAtComplete(s, q, k);
    var w := Patterns.RunEnd(s, q + 1, Patterns.Space);
    assert Patterns.InClass(s[k], Patterns.Space);
    assert k < w;
  }

  /** The first position from `q` on where the separator matches, with the
      end of that match. */
  function NextSeparator(s: string, q: nat): (r: Option<(nat, nat)>)
    requires q <= |s|
    ensures r.Some? ==> q <= r.value.0 < |s| && SeparatorAt(s, r.value.0) == Some(r.value.1)
    ensures forall j | q <= j < |s| && (r.None? || j < r.value.0) :: SeparatorAt(s, j).None?
    decreases |s| - q
  {
    if q == |s| then None
    else
      match SeparatorAt(s, q)
      case Some(e) => Some((q, e))
      case None => NextSeparator(s, q + 1)
  }

  /** The pieces of the split from block start `p`, as (start, end)
      positions in `s`: each piece runs up to the next separator match, and
      the next piece starts where that match ends. */
  function Spans(s: string, p: nat): (r: seq<(nat, nat)>)
    requires p <= |s|
    ensures |r| >= 1 && r[0].0 == p && r[|r| - 1].1 == |s|
    ensures forall k | 0 <= k < |r| :: p <= r[k].0 <= r[k].1 <= |s|
    ensures forall k | 0 <= k < |r| - 1 :: r[k].1 < r[k + 1].0
    decreases |s| - p
  {
    match NextSeparator(s, p)
    case None => [(p, |s|)]
    case Some((q, e)) =>
      var rest := Spans(s, e);
      var r := [(p, q)] + rest;
      assert forall k | 1 <= k < |r| :: r[k] == rest[k - 1];
      r
  }

  /** Consecutive pieces are cut by a separator match, which runs from the
      end of one to the start of the next. */
  lemma {:induction false} SpansCut(s: string, p: nat)
    requires p <= |s|
    ensures forall k | 0 <= k < |Spans(s, p)| - 1 :: SeparatorAt(s, Spans(s, p)[k].1) == Some(Spans(s, p)[k + 1].0)
    decreases |s| - p
  {
    match NextSeparator(s, p)
    case None =>
    case Some((q, e)) =>
      SpansCut(s, e);
      var rest := Spans(s, e);
      var r := [(p, q)] + rest;
      assert Spans(s, p) == r;
      forall k | 0 <= k < |r| - 1 ensures SeparatorAt(s, r[k].1) == Some(r[k + 1].0) {
        if k > 0 {
          assert r[k] == rest[k - 1] && r[k + 1] == rest[k];
        }
      }
  }

  /** The separator matches nowhere inside a piece. */
  lemma {:induction false} SpansUncut(s: string, p: nat)
    requires p <= |s|
    ensures forall k, j | 0 <= k < |Spans(s, p)| && Spans(s, p)[k].0 <= j < Spans(s, p)[k].1 :: SeparatorAt(s, j).None?
    decreases |s| - p
  {
    match NextSeparator(s, p)
    case None =>
    case Some((q, e)) =>
      SpansUncut(s, e);
      var rest := Spans(s, e);
      var r := [(p, q)] + rest;
      assert Spans(s, p) == r;
      forall k, j | 0 <= k < |r| && r[k].0 <= j < r[k].1 ensures SeparatorAt(s, j).None? {
        if k > 0 {
          assert r[k] == rest[k - 1];
        }
      }
  }

  /** The spans `r` lie in `s` and follow each other left to right. */
  predicate Ordered(s: string, r: seq<(nat, nat)>) {
    && (forall k | 0 <= k < |r| :: r[k].0 <= r[k].1 <= |s|)
    && (forall k | 0 <= k < |r| - 1 :: r[k].1 <= r[k + 1].0)
  }

  /** The text of each span. */
  function Pieces(s: string, r: seq<(nat, nat)>): (ps: seq<string>)
    requires Ordered(s, r)
    ensures |ps| == |r|
    ensures forall k | 0 <= k < |r| :: ps[k] == s[r[k].0..r[k].1]
  {
    if r == [] then [] else [s[r[0].0..r[0].1]] + Pieces(s, r[1..])
  }

  /** The text between consecutive spans. */
  function Gaps(s: string, r: seq<(nat, nat)>): (gs: seq<string>)
    requires Ordered(s, r) && |r| >= 1
    ensures |gs| == |r| - 1
    ensures forall k | 0 <= k < |r| - 1 :: gs[k] == s[r[k].1..r[k + 1].0]
  {
    if |r| == 1 then [] else [s[r[0].1..r[1].0]] + Gaps(s, r[1..])
  }

  /** `s.split(/\n\s*\n/)`. */
  function SplitBlocks(s: string): (blocks: seq<string>)
    ensures |blocks| >= 1
  {
    Pieces(s, Spans(s, 0))
  }

  /** Blocks with the separators between them, in order. */
  function Weave(blocks: seq<string>, seps: seq<string>): string
    requires |blocks| == |seps| + 1
    decreases |seps|
  {
    if seps == [] then blocks[0] else blocks[0] + seps[0] + Weave(blocks[1..], seps[1..])
  }

  /** Spans that run from `a` to the end of `s`, with their gaps, spell `s[a..]`. */
  lemma {:induction false} WeaveTiles(s: string, r: seq<(nat, nat)>, a: nat)
    requires Ordered(s, r) && |r| >= 1 && r[0].0 == a && r[|r| - 1].1 == |s|
    ensures Weave(Pieces(s, r), Gaps(s, r)) == s[a..]
    decreases |r|
  {
    var ps, gs := Pieces(s, r), Gaps(s, r);
    if |r| > 1 {
      var rest := r[1..];
      WeaveTiles(s, rest, r[1].0);
      var ps', gs' := Pieces(s, rest), Gaps(s, rest);
      assert ps[1..] == ps';
      assert gs[1..] == gs';
      assert Weave(ps, gs) == ps[0] + gs[0] + Weave(ps', gs');
      assert s[a..r[0].1] + s[r[0].1..r[1].0] + s[r[1].0..] == s[a..];
    } else {
      assert s[a..r[0].1] == s[a..];
    }
  }

  /** A separator match is a blank line. */
  lemma SeparatorIsBlankLine(s: string, q: nat)
    requires q <= |s| && SeparatorAt(s, q).Some?
    ensures BlankLineAt(s, q, SeparatorAt(s, q).value - 1)
  {
    var e := SeparatorAt(s, q).value;
    var x := s[q..e];
    forall m | q < m < e - 1 ensures IsSpace(s[m]) {
      assert s[m] == x[m - q];
    }
    assert s[e - 1] == x[|x| - 1];
  }

  /** A blank line inside a piece of `s` is a blank line of `s`. */
  lemma BlankLineInPiece(s: string, a: nat, c: nat, j: nat, m: nat)
    requires a <= c <= |s| && BlankLineAt(s[a..c], j, m)
    ensures BlankLineAt(s, a + j, a + m)
  {
    var b := s[a..c];
    forall i | a + j < i < a + m ensures IsSpace(s[i]) {
      assert s[i] == b[i - a];
    }
  }

  /** The split is undone by putting the separators back: the blocks,
      interleaved with blank-line separators, spell `s` again. */
  lemma SplitWeave(s: string) returns (seps: seq<string>)
    ensures |seps| == |SplitBlocks(s)| - 1
    ensures forall k | 0 <= k < |seps| :: IsBlankSeparator(seps[k])
    ensures Weave(SplitBlocks(s), seps) == s
  {
    var r := Spans(s, 0);
    seps := Gaps(s, r);
    GapsAreSeparators(s);
    WeaveTiles(s, r, 0);
    assert s[0..] == s;
  }

  /** The text between consecutive blocks is a separator match. */
  lemma GapsAreSeparators(s: string)
    ensures forall k | 0 <= k < |Gaps(s, Spans(s, 0))| :: IsBlankSeparator(Gaps(s, Spans(s, 0))[k])
  {
    var r := Spans(s, 0);
    var seps := Gaps(s, r);
    SpansCut(s, 0);
    forall k | 0 <= k < |seps| ensures IsBlankSeparator(seps[k]) {
      assert SeparatorAt(s, r[k].1) == Some(r[k + 1].0);
    }
  }


  /** A blank line inside a piece of `s` is a place in that piece where the separator matches. */
  lemma BlankLineMatches(s: string, a: nat, c: nat, j: nat, m: nat) returns (i: nat)
    requires a <= c <= |s| && BlankLineAt(s[a..c], j, m)
    ensures a <= i < c && SeparatorAt(s, i).Some?
  {
    BlankLineInPiece(s, a, c, j, m);
    SeparatorAtComplete(s, a + j, a + m);
    i := a + j;
  }

  /** No block holds a blank line, since the separator would have matched there. */
  lemma SplitNoBlankLine(s: string)
    ensures forall k, j, m | 0 <= k < |SplitBlocks(s)| :: !BlankLineAt(SplitBlocks(s)[k], j, m)
  {
    var r := Spans(s, 0);
    SpansUncut(s, 0);
    var blocks := SplitBlocks(s);
    forall k, j, m | 0 <= k < |blocks| ensures !BlankLineAt(blocks[k], j, m) {
      assert blocks[k] == s[r[k].0..r[k].1];
      if BlankLineAt(s[r[k].0..r[k].1], j, m) {
        var i := BlankLineMatches(s, r[k].0, r[k].1, j, m);
        assert false;
      }
    }
  }

  /** Text without a blank line is one block. */
  lemma NoBlankLineOneBlock(s: string)
    requires forall j, k :: !BlankLineAt(s, j, k)
    ensures SplitBlocks(s) == [s]
  {
    var r := Spans(s, 0);
    SpansCut(s, 0);
    if |r| > 1 {
      assert SeparatorAt(s, r[0].1) == Some(r[1].0);
      SeparatorIsBlankLine(s, r[0].1);
      assert false;
    }
    assert s[0..|s|] == s;
  }

  /** The cuts of a split from `p` on: spans `r` that tile `s[p..]`, each gap
      a blank line; no blank line of `s` starts inside a span (every cut is
      made at the leftmost place it can be), and no blank line starting where
      a gap starts reaches past that gap (every separator is as long as it
      can be). */
  ghost predicate LeftmostLongestCuts(s: string, r: seq<(nat, nat)>, p: nat) {
    && Ordered(s, r) && |r| >= 1 && r[0].0 == p && r[|r| - 1].1 == |s|
    && (forall k | 0 <= k < |r| - 1 :: IsBlankSeparator(s[r[k].1..r[k + 1].0]))
    && (forall k, j, m | 0 <= k < |r| && r[k].0 <= j < r[k].1 :: !BlankLineAt(s, j, m))
    && (forall k, m | 0 <= k < |r| - 1 && BlankLineAt(s, r[k].1, m) :: m < r[k + 1].0)
  }

  /** The split cuts at the leftmost blank line and takes the longest
      separator there. */
  lemma SpansLeftmostLongest(s: string, p: nat)
    requires p <= |s|
    ensures LeftmostLongestCuts(s, Spans(s, p), p)
  {
    SpansGapsBlank(s, p);
    SpansLeftmost(s, p);
    SpansLongest(s, p);
  }

  lemma SpansGapsBlank(s: string, p: nat)
    requires p <= |s|
    ensures forall k | 0 <= k < |Spans(s, p)| - 1 :: IsBlankSeparator(s[Spans(s, p)[k].1..Spans(s, p)[k + 1].0])
  {
    var r := Spans(s, p);
    SpansCut(s, p);
    forall k | 0 <= k < |r| - 1 ensures IsBlankSeparator(s[r[k].1..r[k + 1].0]) {
      assert SeparatorAt(s, r[k].1) == Some(r[k + 1].0);
    }
  }

  /** A blank separator in `s` is a blank line of `s`. */
  lemma SeparatorBlankLine(s: string, q: nat, e: nat)
    requires q <= e <= |s| && IsBlankSeparator(s[q..e])
    ensures q + 2 <= e && BlankLineAt(s, q, e - 1)
  {
    var x := s[q..e];
    forall m | q < m < e - 1 ensures IsSpace(s[m]) {
      assert s[m] == x[m - q];
    }
    assert s[e - 1] == x[|x| - 1];
  }

  lemma SpansLeftmost(s: string, p: nat)
    requires p <= |s|
    ensures forall k, j, m | 0 <= k < |Spans(s, p)| && Spans(s, p)[k].0 <= j < Spans(s, p)[k].1 :: !BlankLineAt(s, j, m)
  {
    var r := Spans(s, p);
    SpansUncut(s, p);
    forall k, j: nat, m: nat | 0 <= k < |r| && r[k].0 <= j < r[k].1 ensures !BlankLineAt(s, j, m) {
      if BlankLineAt(s, j, m) {
        SeparatorAtComplete(s, j, m);
        assert false;
      }
    }
  }

  lemma SpansLongest(s: string, p: nat)
    requires p <= |s|
    ensures forall k, m | 0 <= k < |Spans(s, p)| - 1 && BlankLineAt(s, Spans(s, p)[k].1, m) :: m < Spans(s, p)[k + 1].0
  {
    var r := Spans(s, p);
    SpansCut(s, p);
    forall k, m: nat | 0 <= k < |r| - 1 && BlankLineAt(s, r[k].1, m) ensures m < r[k + 1].0 {
      SeparatorAtLongest(s, r[k].1, m);
    }
  }

  /** A leftmost-longest cut from `p` makes its first cut where the split
      does, and its second span starts where the split's does. */
  lemma LeftmostLongestHead(s: string, r: seq<(nat, nat)>, p: nat)
    requires p <= |s| && LeftmostLongestCuts(s, r, p)
    ensures NextSeparator(s, p).None? ==> |r| == 1
    ensures NextSeparator(s, p).Some? ==> |r| > 1 && (r[0].1, r[1].0) == NextSeparator(s, p).value
  {
    if |r| > 1 {
      SeparatorBlankLine(s, r[0].1, r[1].0);
    }
    match NextSeparator(s, p)
    case None =>
      if |r| > 1 {
        SeparatorAtComplete(s, r[0].1, r[1].0 - 1);
        assert false;
      }
    case Some((q, e)) =>
      SeparatorIsBlankLine(s, q);
      if |r| == 1 {
        assert false;
      }
      if r[0].1 < q {
        SeparatorAtComplete(s, r[0].1, r[1].0 - 1);
        assert false;
      }
      if q < r[0].1 {
        assert false;
      }
      SeparatorAtLongest(s, q, r[1].0 - 1);
      assert e - 1 < r[1].0;
  }

  /** What follows the first cut is a leftmost-longest cut again. */
  lemma LeftmostLongestTail(s: string, r: seq<(nat, nat)>, p: nat)
    requires LeftmostLongestCuts(s, r, p) && |r| > 1
    ensures LeftmostLongestCuts(s, r[1..], r[1].0)
  {
    var rest := r[1..];
    forall k | 0 <= k < |rest| ensures rest[k] == r[k + 1] {}
  }

  /** Only one way of cutting is leftmost and longest: it is the split's. */
  lemma {:induction false} LeftmostLongestUnique(s: string, r: seq<(nat, nat)>, p: nat)
    requires p <= |s| && LeftmostLongestCuts(s, r, p)
    ensures r == Spans(s, p)
    decreases |s| - p
  {
    LeftmostLongestHead(s, r, p);
    SpansStep(s, p);
    if NextSeparator(s, p).Some? {
      var e := r[1].0;
      LeftmostLongestTail(s, r, p);
      LeftmostLongestUnique(s, r[1..], e);
      assert r == [r[0]] + r[1..];
    }
  }

  /** One step of the split: the first span, then the spans after the first match. */
  lemma SpansStep(s: string, p: nat)
    requires p <= |s|
    ensures NextSeparator(s, p).None? ==> Spans(s, p) == [(p, |s|)]
    ensures NextSeparator(s, p).Some? ==>
      NextSeparator(s, p).value.1 <= |s| && Spans(s, p) == [(p, NextSeparator(s, p).value.0)] + Spans(s, NextSeparator(s, p).value.1)
  {
  }

  /** The blocks of the split are the pieces of a leftmost-longest way of
      cutting `s`. */
  lemma SplitBlocksSpec(s: string) returns (r: seq<(nat, nat)>)
    ensures LeftmostLongestCuts(s, r, 0) && SplitBlocks(s) == Pieces(s, r)
  {
    r := Spans(s, 0);
    SpansLeftmostLongest(s, 0);
  }

  /** `SplitBlocks` is determined by its specification: its blocks are the
      pieces of the one leftmost-longest way of cutting `s`. */
  lemma SplitBlocksCuts(s: string, r: seq<(nat, nat)>)
    requires LeftmostLongestCuts(s, r, 0)
    ensures SplitBlocks(s) == Pieces(s, r)
  {
    LeftmostLongestUnique(s, r, 0);
  }
}
