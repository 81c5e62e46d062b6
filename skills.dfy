/** The skills extractor of `parseResume`: dictionary terms found anywhere in
    the text, then the short tokens of the skills section, gathered in an
    insertion-ordered set and cut to twenty entries. */
module Skills {
  import opened Text

  /** The fixed dictionary of well-known technologies, in its source order. */
  const DefaultDictionary: seq<string> := [
    "React", "JavaScript", "Python", "Java", "Node.js", "CSS", "HTML", "SQL", "Git", "AWS",
    "Docker", "Kubernetes", "C++", "C#", "Go", "Rust", "TypeScript", "Angular", "Vue",
    "MongoDB", "PostgreSQL", "Express", "Django", "Flask", "Spring Boot"]

  /** No term of the fixed dictionary is empty, so none matches every text. */
  lemma DefaultDictionaryNonEmpty()
    ensures forall d | d in DefaultDictionary :: |d| > 0
  {
    forall d | d in DefaultDictionary ensures |d| > 0 {
      var k :| 0 <= k < |DefaultDictionary| && DefaultDictionary[k] == d;
    }
  }

  /** At most this many skills are reported. */
  const MaxSkills := 20

  /** The characters the skills section is split on. */
  const SkillSeparators: set<char> := {',', '•', '\n'}

  predicate NoDuplicates(xs: seq<string>) {
    forall i, j | 0 <= i < j < |xs| :: xs[i] != xs[j]
  }

  /** `set.add(x)` on a set that remembers insertion order. */
  function AddUnique(found: seq<string>, x: string): seq<string> {
    if x in found then found else found + [x]
  }

  /** `xs.forEach(x => set.add(x))`. */
  function AddAll(found: seq<string>, xs: seq<string>): seq<string>
    decreases |xs|
  {
    if xs == [] then found else AddAll(AddUnique(found, xs[0]), xs[1..])
  }

  /** Adding to an insertion-ordered set keeps what was there in front and
      adds exactly the new values. */
  lemma {:induction false} AddAllGrows(found: seq<string>, xs: seq<string>)
    ensures found <= AddAll(found, xs)
    ensures forall x :: x in AddAll(found, xs) <==> x in found || x in xs
    ensures forall k | |found| <= k < |AddAll(found, xs)| :: AddAll(found, xs)[k] !in found && AddAll(found, xs)[k] in xs
    decreases |xs|
  {
    if xs != [] {
      var next := AddUnique(found, xs[0]);
      AddAllGrows(next, xs[1..]);
      forall x ensures x in xs <==> x == xs[0] || x in xs[1..] {
        assert xs == [xs[0]] + xs[1..];
      }
    }
  }

  /** Adding never duplicates a value, and a list without repeats is added unchanged. */
  lemma {:induction false} AddAllDistinct(found: seq<string>, xs: seq<string>)
    ensures NoDuplicates(found) ==> NoDuplicates(AddAll(found, xs))
    ensures NoDuplicates(found + xs) ==> AddAll(found, xs) == found + xs
    decreases |xs|
  {
    if xs != [] {
      var next := AddUnique(found, xs[0]);
      AddAllDistinct(next, xs[1..]);
      if NoDuplicates(found + xs) {
        assert xs[0] == (found + xs)[|found|];
        forall i | 0 <= i < |found| ensures found[i] != xs[0] {
          assert (found + xs)[i] == found[i];
        }
        assert next + xs[1..] == found + xs;
      }
    }
  }

  /** The test `set.add` applies to `xs[k]`, position by position: the value
      is new to `found` and to the values of `xs` before it. */
  function NewFlags(found: seq<string>, xs: seq<string>): (keep: seq<bool>)
    ensures |keep| == |xs|
  {
    seq(|xs|, k requires 0 <= k < |xs| => xs[k] !in found && xs[k] !in xs[..k])
  }

  /** The values appended to `found` are the filter of `xs` by that test. */
  lemma {:induction false} AddAllKept(found: seq<string>, xs: seq<string>)
    ensures AddAll(found, xs) == found + Kept(xs, NewFlags(found, xs))
    decreases |xs|
  {
    if xs != [] {
      var tail := xs[1..];
      var next := AddUnique(found, xs[0]);
      var keep := NewFlags(found, xs);
      forall k | 0 <= k < |tail| ensures NewFlags(next, tail)[k] == keep[k + 1] {
        assert xs[..k + 1] == [xs[0]] + tail[..k];
      }
      assert NewFlags(next, tail) == keep[1..];
      AddAllKept(next, tail);
      if keep[0] {
        assert next == found + [xs[0]];
      } else {
        assert xs[..0] == [];
        assert next == found;
      }
    }
  }

  /** `set.add` in a loop keeps insertion order: after what was there come,
      from left to right, the values of `xs` at their first occurrence that
      were not there yet; `idx` holds their positions in `xs`. */
  lemma AddAllOrder(found: seq<string>, xs: seq<string>) returns (idx: seq<nat>)
    ensures found <= AddAll(found, xs)
    ensures |AddAll(found, xs)| == |found| + |idx|
    ensures forall i | 0 <= i < |idx| :: idx[i] < |xs| && AddAll(found, xs)[|found| + i] == xs[idx[i]]
    ensures Increasing(idx)
    ensures forall k | 0 <= k < |xs| :: (xs[k] !in found && xs[k] !in xs[..k]) <==> k in idx
  {
    var keep := NewFlags(found, xs);
    idx := KeptSelect(xs, keep);
    AddAllKept(found, xs);
  }

  /** The dictionary terms whose lower-case form occurs in the lower-cased
      text, in dictionary order, kept in their own spelling. */
  function DictionaryHits(text: string, dictionary: seq<string>): (r: seq<string>)
    ensures |r| <= |dictionary|
    ensures forall x | x in r :: x in dictionary && Contains(ToLower(text), ToLower(x))
    ensures forall x | x in dictionary && Contains(ToLower(text), ToLower(x)) :: x in r
    ensures NoDuplicates(dictionary) ==> NoDuplicates(r)
    ensures r == [] <==> forall x | x in dictionary :: !Contains(ToLower(text), ToLower(x))
    decreases |dictionary|
  {
    if dictionary == [] then []
    else
      var rest := DictionaryHits(text, dictionary[1..]);
      assert forall x | x in dictionary :: x == dictionary[0] || x in dictionary[1..];
      if Contains(ToLower(text), ToLower(dictionary[0])) then [dictionary[0]] + rest else rest
  }

  /** `pieces.map(s => s.trim()).filter(s => s.length > 2 && s.length < 25)`. */
  function KeepTokens(pieces: seq<string>): (r: seq<string>)
    ensures forall t | t in r :: 2 < |t| < 25 && exists p | p in pieces :: Trim(p) == t
    ensures forall p | p in pieces && 2 < |Trim(p)| < 25 :: Trim(p) in r
    decreases |pieces|
  {
    if pieces == [] then []
    else
      var rest := KeepTokens(pieces[1..]);
      assert forall p | p in pieces :: p == pieces[0] || p in pieces[1..];
      var t := Trim(pieces[0]);
      if 2 < |t| < 25 then [t] + rest else rest
  }

  /** The test of the dictionary pass, term by term. */
  function HitFlags(text: string, dictionary: seq<string>): (keep: seq<bool>)
    ensures |keep| == |dictionary|
  {
    seq(|dictionary|, k requires 0 <= k < |dictionary| => Contains(ToLower(text), ToLower(dictionary[k])))
  }

  /** The hits are the filter of the dictionary. */
  lemma {:induction false} DictionaryHitsKept(text: string, dictionary: seq<string>)
    ensures DictionaryHits(text, dictionary) == Kept(dictionary, HitFlags(text, dictionary))
    decreases |dictionary|
  {
    if dictionary != [] {
      assert HitFlags(text, dictionary[1..]) == HitFlags(text, dictionary)[1..];
      DictionaryHitsKept(text, dictionary[1..]);
    }
  }

  /** The dictionary pass keeps dictionary order: the hits list, from left to
      right, every term whose lower-case form occurs in the lower-cased text,
      and nothing else; `idx` holds their positions in the dictionary. */
  lemma DictionaryHitsSelect(text: string, dictionary: seq<string>) returns (idx: seq<nat>)
    ensures |idx| == |DictionaryHits(text, dictionary)|
    ensures forall i | 0 <= i < |idx| :: idx[i] < |dictionary| && DictionaryHits(text, dictionary)[i] == dictionary[idx[i]]
    ensures Increasing(idx)
    ensures forall k | 0 <= k < |dictionary| :: Contains(ToLower(text), ToLower(dictionary[k])) <==> k in idx
  {
    var keep := HitFlags(text, dictionary);
    idx := KeptSelect(dictionary, keep);
    DictionaryHitsKept(text, dictionary);
  }

  /** The test of the token filter after the trim, piece by piece. */
  function TokenFlags(pieces: seq<string>): (keep: seq<bool>)
    ensures |keep| == |pieces|
  {
    seq(|pieces|, k requires 0 <= k < |pieces| => 2 < |Trim(pieces[k])| < 25)
  }

  /** The tokens are the filter of the trimmed pieces. */
  lemma {:induction false} KeepTokensKept(pieces: seq<string>)
    ensures KeepTokens(pieces) == Kept(Trims(pieces), TokenFlags(pieces))
    decreases |pieces|
  {
    if pieces != [] {
      assert TokenFlags(pieces[1..]) == TokenFlags(pieces)[1..];
      assert Trims(pieces[1..]) == Trims(pieces)[1..];
      KeepTokensKept(pieces[1..]);
    }
  }

  /** The candidate skills of the skills section: nothing when the section is
      empty, otherwise its trimmed pieces between `,`, `•` and line breaks that
      are 3 to 24 characters long. */
  function SkillTokens(skillsText: string): (r: seq<string>)
    ensures skillsText == [] ==> r == []
    ensures forall t | t in r :: 2 < |t| < 25 && exists p | p in Split(skillsText, SkillSeparators) :: Trim(p) == t
    ensures skillsText != [] ==>
      forall p | p in Split(skillsText, SkillSeparators) && 2 < |Trim(p)| < 25 :: Trim(p) in r
  {
    if skillsText == [] then [] else KeepTokens(Split(skillsText, SkillSeparators))
  }

  /** The token filter keeps order: the result lists, from left to right,
      the trim of every piece whose trimmed length is 3 to 24, and nothing
      else; `idx` holds the positions of those pieces. */
  lemma KeepTokensSelect(pieces: seq<string>) returns (idx: seq<nat>)
    ensures |idx| == |KeepTokens(pieces)|
    ensures forall i | 0 <= i < |idx| :: idx[i] < |pieces| && KeepTokens(pieces)[i] == Trim(pieces[idx[i]])
    ensures Increasing(idx)
    ensures forall k | 0 <= k < |pieces| :: 2 < |Trim(pieces[k])| < 25 <==> k in idx
  {
    var keep := TokenFlags(pieces);
    idx := KeptSelect(Trims(pieces), keep);
    KeepTokensKept(pieces);
    forall k | 0 <= k < |pieces| ensures keep[k] == (2 < |Trim(pieces[k])| < 25) {
    }
  }

  /** The token pass keeps section order: for a non-empty section, the
      tokens list, from left to right, the trim of every piece between
      separators whose trimmed length is 3 to 24, and nothing else; `idx`
      holds the positions of those pieces. */
  lemma SkillTokensSelect(skillsText: string) returns (idx: seq<nat>)
    ensures skillsText == [] ==> SkillTokens(skillsText) == [] && idx == []
    ensures var pieces, tokens := Split(skillsText, SkillSeparators), SkillTokens(skillsText);
      skillsText != [] ==>
        && |idx| == |tokens|
        && (forall i | 0 <= i < |idx| :: idx[i] < |pieces| && tokens[i] == Trim(pieces[idx[i]]))
        && Increasing(idx)
        && (forall k | 0 <= k < |pieces| :: 2 < |Trim(pieces[k])| < 25 <==> k in idx)
  {
    if skillsText == [] {
      idx := [];
    } else {
      idx := KeepTokensSelect(Split(skillsText, SkillSeparators));
    }
  }

  /** The skills the parser reports. */
  function Skills(text: string, skillsText: string, dictionary: seq<string>): seq<string> {
    Take(AllSkills(text, skillsText, dictionary), MaxSkills)
  }

  /** The two `forEach` passes that fill the set, then `Array.from(set).slice(0, 20)`. */
  method CollectSkills(text: string, skillsText: string, dictionary: seq<string>) returns (skills: seq<string>)
    ensures skills == Skills(text, skillsText, dictionary)
  {
    var found: seq<string> := [];
    var lowerText := ToLower(text);
    for i := 0 to |dictionary|
      invariant AddAll(found, DictionaryHits(text, dictionary[i..])) == AddAll([], DictionaryHits(text, dictionary))
    {
      assert dictionary[i..][1..] == dictionary[i + 1..];
      if Contains(lowerText, ToLower(dictionary[i])) {
        found := AddUnique(found, dictionary[i]);
      }
    }
    assert dictionary[|dictionary|..] == [];
    if skillsText != [] {
      var tokens := KeepTokens(Split(skillsText, SkillSeparators));
      for i := 0 to |tokens|
        invariant AddAll(found, tokens[i..]) == AllSkills(text, skillsText, dictionary)
      {
        assert tokens[i..][1..] == tokens[i + 1..];
        found := AddUnique(found, tokens[i]);
      }
      assert tokens[|tokens|..] == [];
    }
    skills := Take(found, MaxSkills);
  }

  /** All skills gathered, before the cut to twenty. */
  function AllSkills(text: string, skillsText: string, dictionary: seq<string>): seq<string> {
    AddAll(AddAll([], DictionaryHits(text, dictionary)), SkillTokens(skillsText))
  }

  /** At most twenty skills, none twice; each one is either a dictionary term,
      in the dictionary's spelling, that occurs in the text regardless of case,
      or a trimmed piece of the skills section of 3 to 24 characters. So a skill
      of one or two characters, such as "Go", can only come from the dictionary. */
  lemma SkillsSpec(text: string, skillsText: string, dictionary: seq<string>)
    ensures var r := Skills(text, skillsText, dictionary);
      && |r| <= MaxSkills
      && NoDuplicates(r)
      && (forall s | s in r ::
            || (s in dictionary && Contains(ToLower(text), ToLower(s)))
            || (2 < |s| < 25 && exists p | p in Split(skillsText, SkillSeparators) :: Trim(p) == s))
      && (forall s | s in r && |s| <= 2 :: s in dictionary)
  {
    var hits := DictionaryHits(text, dictionary);
    var tokens := SkillTokens(skillsText);
    AddAllGrows([], hits);
    AddAllDistinct([], hits);
    var fromDictionary := AddAll([], hits);
    AddAllGrows(fromDictionary, tokens);
    AddAllDistinct(fromDictionary, tokens);
    var all := AddAll(fromDictionary, tokens);
    var r := Take(all, MaxSkills);
    forall i, j | 0 <= i < j < |r| ensures r[i] != r[j] {
      assert r[i] == all[i] && r[j] == all[j];
    }
    forall s | s in r ensures s in all {
      var k :| 0 <= k < |r| && r[k] == s;
      assert all[k] == s;
    }
  }

  /** The reported skills in order: first the distinct hits, each at its
      first occurrence in `hits`, then the tokens that are not hits, each at
      its first occurrence in `tokens`, cut to twenty; `hitIdx` and
      `tokenIdx` hold the positions taken from `hits` and from `tokens`. */
  lemma OrderOf(hits: seq<string>, tokens: seq<string>) returns (hitIdx: seq<nat>, tokenIdx: seq<nat>)
    ensures Increasing(hitIdx) && Increasing(tokenIdx)
    ensures forall i | 0 <= i < |hitIdx| :: hitIdx[i] < |hits|
    ensures forall k | 0 <= k < |hits| :: hits[k] !in hits[..k] <==> k in hitIdx
    ensures forall i | 0 <= i < |tokenIdx| :: tokenIdx[i] < |tokens|
    ensures forall k | 0 <= k < |tokens| :: (tokens[k] !in hits && tokens[k] !in tokens[..k]) <==> k in tokenIdx
    ensures var r := Take(AddAll(AddAll([], hits), tokens), MaxSkills);
      && |r| == (if |hitIdx| + |tokenIdx| <= MaxSkills then |hitIdx| + |tokenIdx| else MaxSkills)
      && (forall k | 0 <= k < |r| && k < |hitIdx| :: r[k] == hits[hitIdx[k]])
      && (forall k | |hitIdx| <= k < |r| :: r[k] == tokens[tokenIdx[k - |hitIdx|]])
  {
    hitIdx := AddAllOrder([], hits);
    var fromHits := AddAll([], hits);
    tokenIdx := AddAllOrder(fromHits, tokens);
    forall k | 0 <= k < |tokens| ensures tokens[k] in fromHits <==> tokens[k] in hits {
      AddAllGrows([], hits);
    }
    var all := AddAll(fromHits, tokens);
    var r := Take(all, MaxSkills);
    forall k | 0 <= k < |r| && k < |hitIdx| ensures r[k] == hits[hitIdx[k]] {
      assert r[k] == all[k] == fromHits[k];
      assert fromHits[0 + k] == hits[hitIdx[k]];
    }
    forall k | |hitIdx| <= k < |r| ensures r[k] == tokens[tokenIdx[k - |hitIdx|]] {
      assert r[k] == all[|fromHits| + (k - |hitIdx|)];
    }
  }

  /** Dictionary hits come first, then the section tokens that are not hits,
      each value once, at its first occurrence, in the order the two passes
      meet them, cut to twenty. With `DictionaryHitsSelect` and
      `SkillTokensSelect` this is dictionary order, then section order. */
  lemma SkillsOrder(text: string, skillsText: string, dictionary: seq<string>) returns (hitIdx: seq<nat>, tokenIdx: seq<nat>)
    ensures Increasing(hitIdx) && Increasing(tokenIdx)
    ensures var hits := DictionaryHits(text, dictionary);
      && (forall i | 0 <= i < |hitIdx| :: hitIdx[i] < |hits|)
      && (forall k | 0 <= k < |hits| :: hits[k] !in hits[..k] <==> k in hitIdx)
    ensures var hits, tokens := DictionaryHits(text, dictionary), SkillTokens(skillsText);
      && (forall i | 0 <= i < |tokenIdx| :: tokenIdx[i] < |tokens|)
      && (forall k | 0 <= k < |tokens| :: (tokens[k] !in hits && tokens[k] !in tokens[..k]) <==> k in tokenIdx)
    ensures var r, hits, tokens := Skills(text, skillsText, dictionary), DictionaryHits(text, dictionary), SkillTokens(skillsText);
      && |r| == (if |hitIdx| + |tokenIdx| <= MaxSkills then |hitIdx| + |tokenIdx| else MaxSkills)
      && (forall k | 0 <= k < |r| && k < |hitIdx| :: r[k] == hits[hitIdx[k]])
      && (forall k | |hitIdx| <= k < |r| :: r[k] == tokens[tokenIdx[k - |hitIdx|]])
  {
    hitIdx, tokenIdx := OrderOf(DictionaryHits(text, dictionary), SkillTokens(skillsText));
  }

  /** Nothing found is lost to the cut while fewer than twenty skills are found:
      then every dictionary hit and every section token is reported. */
  lemma SkillsComplete(text: string, skillsText: string, dictionary: seq<string>)
    requires |AllSkills(text, skillsText, dictionary)| <= MaxSkills
    ensures var r := Skills(text, skillsText, dictionary);
      && (forall x | x in dictionary && Contains(ToLower(text), ToLower(x)) :: x in r)
      && (forall t | t in SkillTokens(skillsText) :: t in r)
  {
    var hits := DictionaryHits(text, dictionary);
    AddAllGrows([], hits);
    AddAllGrows(AddAll([], hits), SkillTokens(skillsText));
  }
}
