/** The JavaScript string built-ins the resume structurer is written with:
    `trim`, `toLowerCase`, `includes`, `split` on single characters, `join`
    and `Array.prototype.slice`. */
module Text {

  datatype Option<+T> = None | Some(value: T)

  /** The characters `String.prototype.trim` strips and the regular-expression
      class `\s` matches: WhiteSpace and LineTerminator of ECMA-262. */
  predicate IsSpace(c: char) {
    c == '\t' || c == '\n' || c == '\U{000B}' || c == '\U{000C}' || c == '\r' || c == ' '
    || c == '\U{00A0}' || c == '\U{1680}' || ('\U{2000}' <= c <= '\U{200A}')
    || c == '\U{2028}' || c == '\U{2029}' || c == '\U{202F}' || c == '\U{205F}'
    || c == '\U{3000}' || c == '\U{FEFF}'
  }

  predicate AllSpace(s: string) {
    forall k | 0 <= k < |s| :: IsSpace(s[k])
  }

  /** `s` without its leading whitespace. */
  function TrimStart(s: string): (r: string)
    ensures |r| <= |s|
  {
    if |s| > 0 && IsSpace(s[0]) then TrimStart(s[1..]) else s
  }

  /** `s` without its trailing whitespace. */
  function TrimEnd(s: string): (r: string)
    ensures |r| <= |s|
  {
    if |s| > 0 && IsSpace(s[|s| - 1]) then TrimEnd(s[..|s| - 1]) else s
  }

  /** `s.trim()`. */
  function Trim(s: string): (r: string)
    ensures |r| <= |s|
  {
    TrimEnd(TrimStart(s))
  }

  lemma {:induction false} TrimStartSpec(s: string)
    ensures var r := TrimStart(s);
      && r == s[|s| - |r|..]
      && AllSpace(s[..|s| - |r|])
      && (r != [] ==> !IsSpace(r[0]))
  {
    if |s| > 0 && IsSpace(s[0]) {
      TrimStartSpec(s[1..]);
      var r := TrimStart(s);
      assert s[1..][|s| - 1 - |r|..] == s[|s| - |r|..];
      var pre := s[..|s| - |r|];
      assert s[1..][..|s| - 1 - |r|] == pre[1..];
      forall k | 0 <= k < |pre| ensures IsSpace(pre[k]) {
        if k > 0 {
          assert pre[k] == pre[1..][k - 1];
        }
      }
    }
  }

  lemma {:induction false} TrimEndSpec(s: string)
    ensures var r := TrimEnd(s);
      && r == s[..|r|]
      && AllSpace(s[|r|..])
      && (r != [] ==> !IsSpace(r[|r| - 1]))
  {
    if |s| > 0 && IsSpace(s[|s| - 1]) {
      TrimEndSpec(s[..|s| - 1]);
      var r := TrimEnd(s);
      assert s[..|s| - 1][..|r|] == s[..|r|];
      assert forall k | 0 <= k < |s| - 1 - |r| :: s[..|s| - 1][|r|..][k] == s[|r|..][k];
    }
  }

  /** `s.trim()` removes exactly the whitespace at both ends of `s`: the
      result is a piece of `s` with only whitespace around it, it is empty
      exactly when `s` is all whitespace, and otherwise it neither starts nor
      ends with whitespace. */
  lemma TrimSpec(s: string)
    ensures var r := Trim(s);
      && (r == [] <==> AllSpace(s))
      && (r != [] ==> !IsSpace(r[0]) && !IsSpace(r[|r| - 1]))
      && exists i :: OccursAt(s, r, i) && AllSpace(s[..i]) && AllSpace(s[i + |r|..])
  {
    var t := TrimStart(s);
    var r := Trim(s);
    TrimStartSpec(s);
    TrimEndSpec(t);
    var i := |s| - |t|;
    assert s[i..i + |r|] == r;
    assert OccursAt(s, r, i);
    assert forall k | i + |r| <= k < |s| :: s[k] == t[|r|..][k - i - |r|];
    assert forall k | 0 <= k < i :: s[k] == s[..i][k];
    if r == [] {
      if t != [] {
        assert false;
      }
      assert s[..i] == s;
    } else {
      assert s[i] == r[0];
    }
  }

  /** A trimmed piece of a line is non-empty exactly when the piece is not
      all whitespace, holds no line break, and has no whitespace at either end. */
  lemma TrimmedLineShape(p: string)
    requires '\n' !in p
    ensures Trim(p) != [] <==> exists c | 0 <= c < |p| :: !IsSpace(p[c])
    ensures var t := Trim(p); t != [] ==> '\n' !in t && !IsSpace(t[0]) && !IsSpace(t[|t| - 1])
  {
    var t := Trim(p);
    TrimSpec(p);
    var i :| OccursAt(p, t, i) && AllSpace(p[..i]) && AllSpace(p[i + |t|..]);
    forall c | 0 <= c < |t| ensures t[c] != '\n' {
      assert t[c] == p[i + c];
    }
  }

  /** ASCII part of `toLowerCase`. */
  function LowerChar(c: char): char {
    if 'A' <= c <= 'Z' then (c as int + 32) as char else c
  }

  /** `s.toLowerCase()` on ASCII letters; it keeps the length. */
  function ToLower(s: string): (r: string)
    ensures |r| == |s|
    ensures forall k | 0 <= k < |s| :: r[k] == LowerChar(s[k])
  {
    seq(|s|, k requires 0 <= k < |s| => LowerChar(s[k]))
  }

  predicate OccursAt(s: string, sub: string, i: int) {
    0 <= i && i + |sub| <= |s| && s[i..i + |sub|] == sub
  }

  /** `s.includes(sub)`, written as the left-to-right search it performs. */
  predicate Contains(s: string, sub: string)
    decreases |s|
  {
    (|sub| <= |s| && s[..|sub|] == sub) || (|s| > 0 && Contains(s[1..], sub))
  }

  /** The search finds `sub` exactly when `sub` occurs in `s` at some position. */
  lemma {:induction false} ContainsIff(s: string, sub: string)
    ensures Contains(s, sub) <==> exists i :: OccursAt(s, sub, i)
  {
    if Contains(s, sub) {
      var i := ContainsWitness(s, sub);
    }
    if i :| OccursAt(s, sub, i) {
      OccursContains(s, sub, i);
    }
  }

  lemma {:induction false} ContainsWitness(s: string, sub: string) returns (i: nat)
    requires Contains(s, sub)
    ensures OccursAt(s, sub, i)
    decreases |s|
  {
    if |sub| <= |s| && s[..|sub|] == sub {
      i := 0;
    } else {
      var j := ContainsWitness(s[1..], sub);
      assert s[1..][j..j + |sub|] == s[j + 1..j + 1 + |sub|];
      i := j + 1;
    }
  }

  lemma {:induction false} OccursContains(s: string, sub: string, i: nat)
    requires OccursAt(s, sub, i)
    ensures Contains(s, sub)
    decreases i
  {
    if i > 0 {
      assert s[1..][i - 1..i - 1 + |sub|] == s[i..i + |sub|];
      OccursContains(s[1..], sub, i - 1);
    } else {
      assert s[..|sub|] == s[0..|sub|];
    }
  }

  /** `s.split(...)` on a set of single separator characters: the pieces
      between separators, in order, always at least one. */
  function Split(s: string, seps: set<char>): (parts: seq<string>)
    ensures |parts| >= 1
    ensures forall k, j | 0 <= k < |parts| && 0 <= j < |parts[k]| :: parts[k][j] !in seps
    decreases |s|
  {
    if s == [] then [[]]
    else
      var rest := Split(s[1..], seps);
      if s[0] in seps then [[]] + rest else [[s[0]] + rest[0]] + rest[1..]
  }

  /** `parts.join(sep)`. */
  function Join(parts: seq<string>, sep: string): string {
    if |parts| == 0 then []
    else if |parts| == 1 then parts[0]
    else parts[0] + sep + Join(parts[1..], sep)
  }

  lemma {:induction false} JoinCons(x: string, parts: seq<string>, sep: string)
    requires |parts| >= 1
    ensures Join([x + parts[0]] + parts[1..], sep) == x + Join(parts, sep)
  {
    var ps := [x + parts[0]] + parts[1..];
    if |parts| > 1 {
      assert ps[1..] == parts[1..];
    }
  }

  /** Joining the pieces of a split with the separator gives back the text. */
  lemma {:induction false} JoinSplit(s: string, c: char)
    ensures Join(Split(s, {c}), [c]) == s
    decreases |s|
  {
    if s != [] {
      var rest := Split(s[1..], {c});
      JoinSplit(s[1..], c);
      if s[0] == c {
        assert ([[]] + rest)[1..] == rest;
        assert s == [c] + s[1..];
      } else {
        JoinCons([s[0]], rest, [c]);
        assert s == [s[0]] + s[1..];
      }
    }
  }

  lemma {:induction false} SplitPrefixFree(x: string, y: string, seps: set<char>)
    requires forall k | 0 <= k < |x| :: x[k] !in seps
    ensures Split(x + y, seps) == [x + Split(y, seps)[0]] + Split(y, seps)[1..]
    decreases |x|
  {
    if x != [] {
      var ps := Split(y, seps);
      assert (x + y)[1..] == x[1..] + y;
      SplitPrefixFree(x[1..], y, seps);
      var rest := Split(x[1..] + y, seps);
      assert rest[0] == x[1..] + ps[0] && rest[1..] == ps[1..];
      assert (x + y)[0] == x[0] && x[0] !in seps;
      assert Split(x + y, seps) == [[x[0]] + rest[0]] + rest[1..];
      assert [x[0]] + (x[1..] + ps[0]) == x + ps[0];
    } else {
      assert x + y == y;
      var ps := Split(y, seps);
      assert [] + ps[0] == ps[0];
      assert ps == [ps[0]] + ps[1..];
    }
  }

  /** Splitting a join of separator-free pieces gives back the pieces. */
  lemma {:induction false} SplitJoin(parts: seq<string>, c: char)
    requires |parts| >= 1
    requires forall k, j | 0 <= k < |parts| && 0 <= j < |parts[k]| :: parts[k][j] != c
    ensures Split(Join(parts, [c]), {c}) == parts
    decreases |parts|
  {
    var x := parts[0];
    if |parts| == 1 {
      SplitPrefixFree(x, [], {c});
      assert x + [] == x;
    } else {
      var y := Join(parts[1..], [c]);
      SplitJoin(parts[1..], c);
      assert Split([c] + y, {c}) == [[]] + Split(y, {c}) by {
        assert ([c] + y)[1..] == y;
      }
      SplitPrefixFree(x, [c] + y, {c});
      assert x + [c] + y == x + ([c] + y);
      assert x + [] == x;
    }
  }

  /** The pieces with one separator character between each two: what a
      split on a set of characters undoes. */
  function Interleave(parts: seq<string>, cs: seq<char>): string
    requires |parts| == |cs| + 1
    decreases |cs|
  {
    if cs == [] then parts[0] else parts[0] + [cs[0]] + Interleave(parts[1..], cs[1..])
  }

  /** A split on a set of characters loses nothing: the pieces, with the
      separator characters `cs` that stood between them put back, spell the
      text again. */
  lemma {:induction false} SplitSeparators(s: string, seps: set<char>) returns (cs: seq<char>)
    ensures |cs| == |Split(s, seps)| - 1
    ensures forall k | 0 <= k < |cs| :: cs[k] in seps
    ensures Interleave(Split(s, seps), cs) == s
    decreases |s|
  {
    if s == [] {
      cs := [];
    } else {
      var rest := Split(s[1..], seps);
      var cs' := SplitSeparators(s[1..], seps);
      if s[0] in seps {
        cs := [s[0]] + cs';
        var parts := [[]] + rest;
        assert parts[1..] == rest && cs[1..] == cs';
        assert s == [] + [s[0]] + s[1..];
      } else {
        cs := cs';
        InterleaveCons([s[0]], rest, cs);
        assert s == [s[0]] + s[1..];
      }
    }
  }

  lemma {:induction false} InterleaveCons(x: string, parts: seq<string>, cs: seq<char>)
    requires |parts| == |cs| + 1
    ensures Interleave([x + parts[0]] + parts[1..], cs) == x + Interleave(parts, cs)
  {
    var ps := [x + parts[0]] + parts[1..];
    if cs != [] {
      assert ps[1..] == parts[1..];
    }
  }

  /** Conversely, pieces free of separators, put together with separator
      characters between them, are split back into exactly those pieces; with
      `SplitSeparators` this pins down the pieces of every split. */
  lemma {:induction false} SplitInterleave(parts: seq<string>, cs: seq<char>, seps: set<char>)
    requires |parts| == |cs| + 1
    requires forall k, j | 0 <= k < |parts| && 0 <= j < |parts[k]| :: parts[k][j] !in seps
    requires forall k | 0 <= k < |cs| :: cs[k] in seps
    ensures Split(Interleave(parts, cs), seps) == parts
    decreases |cs|
  {
    var x := parts[0];
    if cs == [] {
      SplitPrefixFree(x, [], seps);
      assert x + [] == x;
    } else {
      var y := Interleave(parts[1..], cs[1..]);
      SplitInterleave(parts[1..], cs[1..], seps);
      assert Split([cs[0]] + y, seps) == [[]] + Split(y, seps) by {
        assert ([cs[0]] + y)[1..] == y;
      }
      SplitPrefixFree(x, [cs[0]] + y, seps);
      assert x + [cs[0]] + y == x + ([cs[0]] + y);
      assert x + [] == x;
    }
  }

  /** Every character outside the separator set lies in some piece of the split. */
  lemma {:induction false} SplitKeepsChar(s: string, seps: set<char>, i: nat) returns (k: nat, j: nat)
    requires i < |s| && s[i] !in seps
    ensures k < |Split(s, seps)| && j < |Split(s, seps)[k]| && Split(s, seps)[k][j] == s[i]
    decreases |s|
  {
    var parts := Split(s, seps);
    var rest := Split(s[1..], seps);
    if i == 0 {
      k, j := 0, 0;
      assert parts[0][0] == s[0];
    } else {
      var k', j' := SplitKeepsChar(s[1..], seps, i - 1);
      assert rest[k'][j'] == s[i];
      if s[0] in seps {
        k, j := k' + 1, j';
        assert parts == [[]] + rest;
      } else if k' == 0 {
        k, j := 0, j' + 1;
        assert parts[0] == [s[0]] + rest[0];
      } else {
        k, j := k', j';
        assert parts[k] == rest[k];
      }
    }
  }


  /** `a.slice(start, end)` for non-negative arguments: both ends are clamped
      to the length and a reversed range is empty. */
  function SliceOf<T>(a: seq<T>, start: nat, end: nat): (r: seq<T>)
    ensures start <= end <= |a| ==> r == a[start..end]
    ensures |r| <= |a|
  {
    var from := if start <= |a| then start else |a|;
    var to := if end <= |a| then end else |a|;
    if from <= to then a[from..to] else []
  }

  /** `a.slice(n)`. */
  function Drop<T>(a: seq<T>, n: nat): seq<T> {
    if n <= |a| then a[n..] else []
  }

  /** `a.slice(0, n)`. */
  function Take<T>(a: seq<T>, n: nat): (r: seq<T>)
    ensures |r| <= n && |r| <= |a|
    ensures |a| <= n ==> r == a
    ensures forall k | 0 <= k < |r| :: r[k] == a[k]
  {
    if n <= |a| then a[..n] else a
  }

  // ---------------------------------------------------------------------
  // The positions an order-keeping `filter` keeps

  /** Positions moved one place to the right. */
  function Shifted(xs: seq<nat>): (r: seq<nat>)
    ensures |r| == |xs| && forall i | 0 <= i < |xs| :: r[i] == xs[i] + 1
  {
    seq(|xs|, i requires 0 <= i < |xs| => xs[i] + 1)
  }

  predicate Increasing(idx: seq<nat>) {
    forall i, i' | 0 <= i < i' < |idx| :: idx[i] < idx[i']
  }

  /** The positions `k` with `keep[k]`, from left to right: the elements a
      `filter` whose test gave `keep` retains. */
  function Positions(keep: seq<bool>): (idx: seq<nat>)
    ensures forall i | 0 <= i < |idx| :: idx[i] < |keep|
    decreases |keep|
  {
    if keep == [] then []
    else
      var shifted := Shifted(Positions(keep[1..]));
      if keep[0] then [0] + shifted else shifted
  }

  /** The positions are listed from left to right, each once. */
  lemma {:induction false} PositionsIncreasing(keep: seq<bool>)
    ensures Increasing(Positions(keep))
    decreases |keep|
  {
    if keep != [] {
      PositionsIncreasing(keep[1..]);
      var rest := Positions(keep[1..]);
      var shifted := Shifted(rest);
      forall i, i' | 0 <= i < i' < |shifted| ensures shifted[i] < shifted[i'] {
        assert rest[i] < rest[i'];
      }
      if keep[0] {
        var idx := [0] + shifted;
        assert Positions(keep) == idx;
        forall i, i' | 0 <= i < i' < |idx| ensures idx[i] < idx[i'] {
          assert idx[i'] == shifted[i' - 1];
          if i > 0 {
            assert idx[i] == shifted[i - 1];
          }
        }
      }
    }
  }

  /** A position is listed exactly when it is kept. */
  lemma {:induction false} PositionsComplete(keep: seq<bool>)
    ensures forall k | 0 <= k < |keep| :: keep[k] <==> k in Positions(keep)
    decreases |keep|
  {
    if keep != [] {
      var tail := keep[1..];
      PositionsComplete(tail);
      var rest := Positions(tail);
      var shifted := Shifted(rest);
      forall k | 1 <= k < |keep| ensures keep[k] <==> k in shifted {
        assert keep[k] == tail[k - 1];
        if k - 1 in rest {
          var i :| 0 <= i < |rest| && rest[i] == k - 1;
          assert shifted[i] == k;
        }
      }
      assert 0 !in shifted;
    }
  }

  /** `xs.filter(...)` given the test's outcome `keep` on each element: the
      elements that pass, in order. */
  function Kept<T>(xs: seq<T>, keep: seq<bool>): (r: seq<T>)
    requires |keep| == |xs|
    ensures |r| <= |xs|
  {
    if xs == [] then [] else (if keep[0] then [xs[0]] else []) + Kept(xs[1..], keep[1..])
  }

  /** The kept elements are the elements at the kept positions. */
  lemma {:induction false} KeptAt<T>(xs: seq<T>, keep: seq<bool>)
    requires |keep| == |xs|
    ensures |Kept(xs, keep)| == |Positions(keep)|
    ensures forall i | 0 <= i < |Positions(keep)| :: Kept(xs, keep)[i] == xs[Positions(keep)[i]]
    decreases |xs|
  {
    if xs != [] {
      var tail, keepTail := xs[1..], keep[1..];
      KeptAt(tail, keepTail);
      var rest := Positions(keepTail);
      var shifted := Shifted(rest);
      var keptTail := Kept(tail, keepTail);
      forall i | 0 <= i < |rest| ensures keptTail[i] == xs[shifted[i]] {
        assert tail[rest[i]] == xs[rest[i] + 1];
      }
      if keep[0] {
        var idx, kept := [0] + shifted, [xs[0]] + keptTail;
        assert Positions(keep) == idx && Kept(xs, keep) == kept;
        forall i | 0 <= i < |idx| ensures kept[i] == xs[idx[i]] {
          if i > 0 {
            assert idx[i] == shifted[i - 1] && kept[i] == keptTail[i - 1];
          }
        }
      } else {
        assert Positions(keep) == shifted && Kept(xs, keep) == [] + keptTail;
      }
    }
  }

  /** `filter` keeps order: the result lists, from left to right, every
      element that passes the test and nothing else; `idx` holds their
      positions. */
  lemma KeptSelect<T>(xs: seq<T>, keep: seq<bool>) returns (idx: seq<nat>)
    requires |keep| == |xs|
    ensures |idx| == |Kept(xs, keep)|
    ensures forall i | 0 <= i < |idx| :: idx[i] < |xs| && Kept(xs, keep)[i] == xs[idx[i]]
    ensures Increasing(idx)
    ensures forall k | 0 <= k < |xs| :: keep[k] <==> k in idx
  {
    idx := Positions(keep);
    KeptAt(xs, keep);
    PositionsIncreasing(keep);
    PositionsComplete(keep);
  }

  /** `pieces.map(s => s.trim())`. */
  function Trims(pieces: seq<string>): (r: seq<string>)
    ensures |r| == |pieces| && forall k | 0 <= k < |pieces| :: r[k] == Trim(pieces[k])
  {
    seq(|pieces|, k requires 0 <= k < |pieces| => Trim(pieces[k]))
  }

  /** For each piece, whether it holds anything but whitespace. */
  function NonBlankFlags(pieces: seq<string>): (keep: seq<bool>)
    ensures |keep| == |pieces|
  {
    seq(|pieces|, k requires 0 <= k < |pieces| => Trim(pieces[k]) != [])
  }
}
