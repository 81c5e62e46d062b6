/** The experience and education extractors of `parseResume`: a section slice
    is cut into blank-line-delimited blocks, blocks whose trimmed text is too
    short are dropped, and each remaining block becomes one entry whose fields
    are its non-blank lines by position, with fixed fallbacks. */
module Entries {
  import opened Text
  import Blocks

  datatype Experience = Experience(company: string, position: string, startDate: string, endDate: string, description: string)

  datatype Education = Education(school: string, degree: string, startDate: string, endDate: string)

  /** An experience block must be longer than this once trimmed. */
  const ExperienceMinLength := 20

  /** An education block must be longer than this once trimmed. */
  const EducationMinLength := 10

  /** `pieces.map(l => l.trim()).filter(l => l)`. */
  function TrimmedLines(pieces: seq<string>): (r: seq<string>)
    ensures forall t | t in r :: t != [] && exists p | p in pieces :: Trim(p) == t
    ensures forall p | p in pieces && Trim(p) != [] :: Trim(p) in r
    decreases |pieces|
  {
    if pieces == [] then []
    else
      var rest := TrimmedLines(pieces[1..]);
      assert forall p | p in pieces :: p == pieces[0] || p in pieces[1..];
      var t := Trim(pieces[0]);
      if t != [] then [t] + rest else rest
  }

  /** The trimmed lines are the filter of the trimmed pieces. */
  lemma {:induction false} TrimmedLinesKept(pieces: seq<string>)
    ensures TrimmedLines(pieces) == Kept(Trims(pieces), NonBlankFlags(pieces))
    decreases |pieces|
  {
    if pieces != [] {
      assert NonBlankFlags(pieces[1..]) == NonBlankFlags(pieces)[1..];
      assert Trims(pieces[1..]) == Trims(pieces)[1..];
      TrimmedLinesKept(pieces[1..]);
    }
  }

  /** `map` then `filter` keep the source order: the result lists, from left
      to right, the trim of every piece that is not blank, and nothing else;
      `idx` holds their positions. */
  lemma TrimmedLinesSelect(pieces: seq<string>) returns (idx: seq<nat>)
    ensures |idx| == |TrimmedLines(pieces)|
    ensures forall i | 0 <= i < |idx| :: idx[i] < |pieces| && TrimmedLines(pieces)[i] == Trim(pieces[idx[i]])
    ensures forall i, i' | 0 <= i < i' < |idx| :: idx[i] < idx[i']
    ensures forall k | 0 <= k < |pieces| :: Trim(pieces[k]) != [] <==> k in idx
  {
    var keep := NonBlankFlags(pieces);
    idx := KeptSelect(Trims(pieces), keep);
    TrimmedLinesKept(pieces);
    forall k | 0 <= k < |pieces| ensures keep[k] == (Trim(pieces[k]) != []) {
    }
  }

  /** `block.split('\n').map(l => l.trim()).filter(l => l)`. */
  function BlockLines(block: string): seq<string> {
    TrimmedLines(Split(block, {'\n'}))
  }

  /** Every line of a block is non-empty, holds no line break and has no
      whitespace at either end. */
  lemma BlockLinesShape(block: string)
    ensures forall t | t in BlockLines(block) ::
      t != [] && '\n' !in t && !IsSpace(t[0]) && !IsSpace(t[|t| - 1])
  {
    var pieces := Split(block, {'\n'});
    forall t | t in BlockLines(block) ensures t != [] && '\n' !in t && !IsSpace(t[0]) && !IsSpace(t[|t| - 1]) {
      var p :| p in pieces && Trim(p) == t;
      var k :| 0 <= k < |pieces| && pieces[k] == p;
      assert forall j | 0 <= j < |p| :: p[j] != '\n';
      TrimmedLineShape(p);
    }
  }

  /** The trimmed lines are the non-blank pieces in order: there are none
      exactly when every piece is blank, the first is the first non-blank
      piece trimmed, and the second is the next non-blank piece trimmed. */
  lemma TrimmedLinesLeading(pieces: seq<string>)
    ensures TrimmedLines(pieces) == [] <==> forall j | 0 <= j < |pieces| :: Trim(pieces[j]) == []
    ensures forall j | 0 <= j < |pieces| && Trim(pieces[j]) != [] && (forall j' | 0 <= j' < j :: Trim(pieces[j']) == []) ::
      TrimmedLines(pieces) != [] && TrimmedLines(pieces)[0] == Trim(pieces[j])
    ensures forall j, j2 | 0 <= j < j2 < |pieces| && Trim(pieces[j]) != [] && Trim(pieces[j2]) != []
        && (forall j' | 0 <= j' < j2 && j' != j :: Trim(pieces[j']) == []) ::
      |TrimmedLines(pieces)| >= 2 && TrimmedLines(pieces)[1] == Trim(pieces[j2])
  {
    var lines := TrimmedLines(pieces);
    var idx := TrimmedLinesSelect(pieces);
    if lines == [] {
      forall j | 0 <= j < |pieces| ensures Trim(pieces[j]) == [] {
        assert j !in idx;
      }
    } else {
      assert idx[0] in idx;
    }
    forall j | 0 <= j < |pieces| && Trim(pieces[j]) != [] && (forall j' | 0 <= j' < j :: Trim(pieces[j']) == [])
      ensures lines != [] && lines[0] == Trim(pieces[j])
    {
      assert j in idx;
      var m :| 0 <= m < |idx| && idx[m] == j;
      assert idx[0] in idx;
      assert Trim(pieces[idx[0]]) != [];
      assert !(idx[0] < j);
      assert idx[0] <= idx[m];
    }
    forall j, j2 | 0 <= j < j2 < |pieces| && Trim(pieces[j]) != [] && Trim(pieces[j2]) != []
        && (forall j' | 0 <= j' < j2 && j' != j :: Trim(pieces[j']) == [])
      ensures |lines| >= 2 && lines[1] == Trim(pieces[j2])
    {
      assert j in idx && j2 in idx;
      var m :| 0 <= m < |idx| && idx[m] == j;
      var m2 :| 0 <= m2 < |idx| && idx[m2] == j2;
      assert |idx| >= 2;
      assert idx[0] in idx && idx[1] in idx;
      assert Trim(pieces[idx[0]]) != [] && Trim(pieces[idx[1]]) != [];
      assert idx[0] <= idx[m] && !(idx[0] < j);
      assert m2 >= 1;
      assert idx[1] <= idx[m2];
      assert !(idx[1] < j2);
    }
  }

  /** The lines of a block are its non-blank lines in order: with `pieces`
      the block split at line breaks, there are none exactly when every line
      is blank, the first is the first non-blank line trimmed, and the second
      is the next non-blank line trimmed. */
  lemma BlockLinesLeading(block: string, pieces: seq<string>)
    requires pieces == Split(block, {'\n'})
    ensures BlockLines(block) == [] <==> forall j | 0 <= j < |pieces| :: Trim(pieces[j]) == []
    ensures forall j | 0 <= j < |pieces| && Trim(pieces[j]) != [] && (forall j' | 0 <= j' < j :: Trim(pieces[j']) == []) ::
      BlockLines(block) != [] && BlockLines(block)[0] == Trim(pieces[j])
    ensures forall j, j2 | 0 <= j < j2 < |pieces| && Trim(pieces[j]) != [] && Trim(pieces[j2]) != []
        && (forall j' | 0 <= j' < j2 && j' != j :: Trim(pieces[j']) == []) ::
      |BlockLines(block)| >= 2 && BlockLines(block)[1] == Trim(pieces[j2])
  {
    assert BlockLines(block) == TrimmedLines(pieces);
    TrimmedLinesLeading(pieces);
  }

  /** A block that is not all whitespace has at least one line. */
  lemma NonBlankBlockHasLine(block: string)
    requires Trim(block) != []
    ensures BlockLines(block) != []
  {
    var pieces := Split(block, {'\n'});
    TrimSpec(block);
    var r := Trim(block);
    var i :| OccursAt(block, r, i) && AllSpace(block[..i]) && AllSpace(block[i + |r|..]);
    assert block[i] == r[0];
    var k, j := SplitKeepsChar(block, {'\n'}, i);
    assert forall c | 0 <= c < |pieces[k]| :: pieces[k][c] != '\n';
    TrimmedLineShape(pieces[k]);
    assert Trim(pieces[k]) in BlockLines(block);
  }

  /** `blocks.filter(b => b.trim().length > minLength)`. */
  function LongBlocks(blocks: seq<string>, minLength: nat): (r: seq<string>)
    ensures |r| <= |blocks|
    decreases |blocks|
  {
    if blocks == [] then []
    else
      var rest := LongBlocks(blocks[1..], minLength);
      if |Trim(blocks[0])| > minLength then [blocks[0]] + rest else rest
  }

  /** The test of `blocks.filter(b => b.trim().length > minLength)`, block by block. */
  function LongFlags(blocks: seq<string>, minLength: nat): (keep: seq<bool>)
    ensures |keep| == |blocks|
  {
    seq(|blocks|, k requires 0 <= k < |blocks| => |Trim(blocks[k])| > minLength)
  }

  /** The long blocks are the filter of the blocks. */
  lemma {:induction false} LongBlocksKept(blocks: seq<string>, minLength: nat)
    ensures LongBlocks(blocks, minLength) == Kept(blocks, LongFlags(blocks, minLength))
    decreases |blocks|
  {
    if blocks != [] {
      assert LongFlags(blocks[1..], minLength) == LongFlags(blocks, minLength)[1..];
      LongBlocksKept(blocks[1..], minLength);
    }
  }

  /** The filter keeps, in order, exactly the blocks whose trimmed text is
      longer than `minLength`: `idx` lists their positions. */
  lemma LongBlocksSelect(blocks: seq<string>, minLength: nat) returns (idx: seq<nat>)
    ensures |idx| == |LongBlocks(blocks, minLength)|
    ensures forall i | 0 <= i < |idx| :: idx[i] < |blocks| && LongBlocks(blocks, minLength)[i] == blocks[idx[i]]
    ensures forall i, i' | 0 <= i < i' < |idx| :: idx[i] < idx[i']
    ensures forall k | 0 <= k < |blocks| :: |Trim(blocks[k])| > minLength <==> k in idx
  {
    var keep := LongFlags(blocks, minLength);
    idx := KeptSelect(blocks, keep);
    LongBlocksKept(blocks, minLength);
    forall k | 0 <= k < |blocks| ensures keep[k] == (|Trim(blocks[k])| > minLength) {
    }
  }

  /** The lines of every block of `sliceText` whose trimmed text is longer
      than `minLength`; nothing for an empty slice. */
  function SectionEntries(sliceText: string, minLength: nat): seq<seq<string>> {
    if sliceText == [] then []
    else
      var long := LongBlocks(Blocks.SplitBlocks(sliceText), minLength);
      seq(|long|, k requires 0 <= k < |long| => BlockLines(long[k]))
  }

  /** An empty slice yields no entries; otherwise there is one entry per
      block longer than `minLength` once trimmed, in block order, made of that
      block's lines, of which there is at least one. */
  lemma SectionEntriesSpec(sliceText: string, minLength: nat) returns (idx: seq<nat>)
    ensures sliceText == [] ==> SectionEntries(sliceText, minLength) == []
    ensures sliceText != [] ==>
      var blocks := Blocks.SplitBlocks(sliceText);
      var entries := SectionEntries(sliceText, minLength);
      && |entries| == |idx|
      && (forall i, i' | 0 <= i < i' < |idx| :: idx[i] < idx[i'])
      && (forall k | 0 <= k < |blocks| :: |Trim(blocks[k])| > minLength <==> k in idx)
      && (forall i | 0 <= i < |idx| :: idx[i] < |blocks| && entries[i] == BlockLines(blocks[idx[i]]) && entries[i] != [])
  {
    if sliceText != [] {
      var blocks := Blocks.SplitBlocks(sliceText);
      var long := LongBlocks(blocks, minLength);
      var entries := SectionEntries(sliceText, minLength);
      idx := LongBlocksSelect(blocks, minLength);
      assert |entries| == |long|;
      forall i | 0 <= i < |idx| ensures entries[i] == BlockLines(blocks[idx[i]]) && entries[i] != [] {
        assert entries[i] == BlockLines(long[i]);
        assert |Trim(blocks[idx[i]])| > minLength;
        NonBlankBlockHasLine(blocks[idx[i]]);
      }
    } else {
      idx := [];
    }
  }

  /** `lines[k] || fallback`: a missing or empty line gives the fallback. */
  function LineOr(lines: seq<string>, k: nat, fallback: string): string {
    if k < |lines| && lines[k] != [] then lines[k] else fallback
  }

  /** One experience entry from a block's lines. */
  function ToExperience(lines: seq<string>): Experience {
    Experience(LineOr(lines, 0, "Unknown Company"), LineOr(lines, 1, "Role"), "", "", Join(Drop(lines, 2), "\n"))
  }

  /** One education entry from a block's lines. */
  function ToEducation(lines: seq<string>): Education {
    Education(LineOr(lines, 0, "Unknown School"), LineOr(lines, 1, "Degree"), "", "")
  }

  function ExtractExperience(expText: string): (r: seq<Experience>)
    ensures expText == [] ==> r == []
  {
    var entries := SectionEntries(expText, ExperienceMinLength);
    seq(|entries|, k requires 0 <= k < |entries| => ToExperience(entries[k]))
  }

  function ExtractEducation(eduText: string): (r: seq<Education>)
    ensures eduText == [] ==> r == []
  {
    var entries := SectionEntries(eduText, EducationMinLength);
    seq(|entries|, k requires 0 <= k < |entries| => ToEducation(entries[k]))
  }

  /** An experience entry built from a block's lines: the company is the first
      line, the position the second or "Role", the dates are empty, and the
      description splits back into the remaining lines. */
  lemma ToExperienceSpec(block: string)
    requires BlockLines(block) != []
    ensures var lines, e := BlockLines(block), ToExperience(BlockLines(block));
      && e.company == lines[0]
      && (|lines| >= 2 ==> e.position == lines[1])
      && (|lines| < 2 ==> e.position == "Role")
      && e.startDate == "" && e.endDate == ""
      && (|lines| <= 2 ==> e.description == "")
      && (|lines| > 2 ==> Split(e.description, {'\n'}) == lines[2..])
  {
    var lines := BlockLines(block);
    BlockLinesShape(block);
    assert lines[0] in lines;
    if |lines| >= 2 {
      assert lines[1] in lines;
    }
    if |lines| > 2 {
      var rest := lines[2..];
      forall k, j | 0 <= k < |rest| && 0 <= j < |rest[k]| ensures rest[k][j] != '\n' {
        assert rest[k] in lines;
      }
      SplitJoin(rest, '\n');
    }
  }

  /** An education entry built from a block's lines: the school is the first
      line, the degree the second or "Degree", the dates are empty. */
  lemma ToEducationSpec(block: string)
    requires BlockLines(block) != []
    ensures var lines, e := BlockLines(block), ToEducation(BlockLines(block));
      && e.school == lines[0]
      && (|lines| >= 2 ==> e.degree == lines[1])
      && (|lines| < 2 ==> e.degree == "Degree")
      && e.startDate == "" && e.endDate == ""
  {
    var lines := BlockLines(block);
    BlockLinesShape(block);
    assert lines[0] in lines;
    if |lines| >= 2 {
      assert lines[1] in lines;
    }
  }

  /** One experience entry per block of the slice longer than twenty
      characters once trimmed, in order, each read from that block; none for
      an empty slice. The "Unknown Company" fallback is never taken. */
  lemma ExperienceSpec(expText: string) returns (idx: seq<nat>)
    ensures expText == [] ==> ExtractExperience(expText) == []
    ensures expText != [] ==>
      var blocks := Blocks.SplitBlocks(expText);
      var r := ExtractExperience(expText);
      && |r| == |idx|
      && (forall i, i' | 0 <= i < i' < |idx| :: idx[i] < idx[i'])
      && (forall k | 0 <= k < |blocks| :: |Trim(blocks[k])| > ExperienceMinLength <==> k in idx)
      && (forall i | 0 <= i < |idx| :: idx[i] < |blocks| && BlockLines(blocks[idx[i]]) != []
            && r[i] == ToExperience(BlockLines(blocks[idx[i]])))
  {
    idx := SectionEntriesSpec(expText, ExperienceMinLength);
  }

  /** One education entry per block of the slice longer than ten characters
      once trimmed, in order, each read from that block; none for an empty
      slice. The "Unknown School" fallback is never taken. */
  lemma EducationSpec(eduText: string) returns (idx: seq<nat>)
    ensures eduText == [] ==> ExtractEducation(eduText) == []
    ensures eduText != [] ==>
      var blocks := Blocks.SplitBlocks(eduText);
      var r := ExtractEducation(eduText);
      && |r| == |idx|
      && (forall i, i' | 0 <= i < i' < |idx| :: idx[i] < idx[i'])
      && (forall k | 0 <= k < |blocks| :: |Trim(blocks[k])| > EducationMinLength <==> k in idx)
      && (forall i | 0 <= i < |idx| :: idx[i] < |blocks| && BlockLines(blocks[idx[i]]) != []
            && r[i] == ToEducation(BlockLines(blocks[idx[i]])))
  {
    idx := SectionEntriesSpec(eduText, EducationMinLength);
  }

  /** A single-line block of more than twenty characters becomes that line as
      company with position "Role" and an empty description. */
  lemma SingleLineExperience(block: string)
    requires |BlockLines(block)| == 1
    ensures ToExperience(BlockLines(block)) == Experience(BlockLines(block)[0], "Role", "", "", "")
  {
    ToExperienceSpec(block);
  }
}
