/** Section detection and slicing: `identifySections` finds the header lines
    of a resume and `extractSectionText` cuts out the lines under one of them. */
module Sections {
  import opened Text

  datatype SectionType = Summary | Experience | Education | Skills

  /** The order in which the section types are tried on a candidate header
      line (the key order of the keyword table); the first that matches wins. */
  const Precedence: seq<SectionType> := [Summary, Experience, Education, Skills]

  function Rank(t: SectionType): nat {
    match t
    case Summary => 0
    case Experience => 1
    case Education => 2
    case Skills => 3
  }

  /** The keyword table: for each section type, the lower-case phrases that
      mark a header of that type. */
  datatype SectionTable = SectionTable(
    summary: seq<string>, experience: seq<string>, education: seq<string>, skills: seq<string>)
  {
    function Keywords(t: SectionType): seq<string> {
      match t
      case Summary => summary
      case Experience => experience
      case Education => education
      case Skills => skills
    }
  }

  /** The table the service ships with. */
  const DefaultSections := SectionTable(
    ["summary", "profile", "objective", "about me", "professional summary"],
    ["experience", "work history", "employment", "work experience", "professional experience"],
    ["education", "academic", "qualifications", "credentials", "academic background"],
    ["skills", "technologies", "technical skills", "core competencies", "expertise", "technical proficiency"])

  /** A detected header: its type, its line number and its trimmed text. */
  datatype Anchor = Anchor(kind: SectionType, index: nat, header: string)

  /** The document split into lines, as `text.split('\n')`. */
  function Lines(text: string): seq<string> {
    Split(text, {'\n'})
  }

  /** `keywords.some(k => lowerLine.includes(k))`. */
  predicate MentionsAny(lowerLine: string, keywords: seq<string>) {
    exists k <- keywords :: Contains(lowerLine, k)
  }

  /** The first of `types` whose keywords the line mentions. */
  function FirstMentioned(lowerLine: string, table: SectionTable, types: seq<SectionType>): Option<SectionType> {
    if types == [] then None
    else if MentionsAny(lowerLine, table.Keywords(types[0])) then Some(types[0])
    else FirstMentioned(lowerLine, table, types[1..])
  }

  /** The header type of one line: its trimmed lower-case form must be
      between 3 and 39 characters long and mention a keyword. */
  function Classify(line: string, table: SectionTable): Option<SectionType> {
    var lowerLine := ToLower(Trim(line));
    if |lowerLine| < 40 && |lowerLine| > 2 then FirstMentioned(lowerLine, table, Precedence) else None
  }

  /** A line is a header of type `t` exactly when it is short enough, mentions
      a keyword of `t`, and mentions no keyword of a type tried before `t`. */
  lemma ClassifyIff(line: string, table: SectionTable, t: SectionType)
    ensures Classify(line, table) == Some(t) <==>
      var lowerLine := ToLower(Trim(line));
      && 2 < |lowerLine| < 40
      && MentionsAny(lowerLine, table.Keywords(t))
      && forall u :: Rank(u) < Rank(t) ==> !MentionsAny(lowerLine, table.Keywords(u))
  {
    var lowerLine := ToLower(Trim(line));
    var p := Precedence;
    assert p[1..] == [Experience, Education, Skills];
    assert p[2..] == [Education, Skills];
    assert p[3..] == [Skills];
    assert p[4..] == [];
    FirstMentionedStep(lowerLine, table, p, 0);
    FirstMentionedStep(lowerLine, table, p, 1);
    FirstMentionedStep(lowerLine, table, p, 2);
    FirstMentionedStep(lowerLine, table, p, 3);
    assert t == p[Rank(t)];
    forall u ensures u == p[Rank(u)] {}
  }

  lemma FirstMentionedStep(lowerLine: string, table: SectionTable, types: seq<SectionType>, p: nat)
    requires p < |types|
    ensures FirstMentioned(lowerLine, table, types[p..]) ==
      if MentionsAny(lowerLine, table.Keywords(types[p])) then Some(types[p])
      else FirstMentioned(lowerLine, table, types[p + 1..])
  {
    assert types[p..][1..] == types[p + 1..];
  }

  /** The header type of every line, in line order. */
  function LineKinds(lines: seq<string>, table: SectionTable): (kinds: seq<Option<SectionType>>)
    ensures |kinds| == |lines|
  {
    if lines == [] then [] else LineKinds(lines[..|lines| - 1], table) + [Classify(lines[|lines| - 1], table)]
  }

  lemma {:induction false} LineKindsAt(lines: seq<string>, table: SectionTable, j: nat)
    requires j < |lines|
    ensures LineKinds(lines, table)[j] == Classify(lines[j], table)
  {
    if j < |lines| - 1 {
      LineKindsAt(lines[..|lines| - 1], table, j);
    }
  }

  /** The anchors the header scan pushes for lines [0, n), in scan order. */
  function Scan(lines: seq<string>, kinds: seq<Option<SectionType>>, n: nat): seq<Anchor>
    requires |kinds| == |lines| && n <= |lines|
  {
    if n == 0 then []
    else
      var earlier := Scan(lines, kinds, n - 1);
      match kinds[n - 1]
      case None => earlier
      case Some(t) => earlier + [Anchor(t, n - 1, Trim(lines[n - 1]))]
  }

  /** Inserts `x` into `sorted` before the first anchor whose index is not smaller. */
  function Insert(x: Anchor, sorted: seq<Anchor>): seq<Anchor> {
    if sorted == [] || x.index <= sorted[0].index then [x] + sorted
    else [sorted[0]] + Insert(x, sorted[1..])
  }

  /** `sort((a, b) => a.index - b.index)`, as a stable insertion sort. */
  function SortByIndex(anchors: seq<Anchor>): seq<Anchor> {
    if anchors == [] then [] else Insert(anchors[0], SortByIndex(anchors[1..]))
  }

  predicate StrictlyIncreasing(anchors: seq<Anchor>) {
    forall i, j | 0 <= i < j < |anchors| :: anchors[i].index < anchors[j].index
  }

  /** Sorting a list already in index order leaves it as it is. */
  lemma {:induction false} SortSortedIsIdentity(anchors: seq<Anchor>)
    requires StrictlyIncreasing(anchors)
    ensures SortByIndex(anchors) == anchors
  {
    if anchors != [] {
      SortSortedIsIdentity(anchors[1..]);
      assert anchors == [anchors[0]] + anchors[1..];
    }
  }

  /** `identifySections(text)`. */
  function SectionAnchors(text: string, table: SectionTable): seq<Anchor> {
    var lines := Lines(text);
    SortByIndex(Scan(lines, LineKinds(lines, table), |lines|))
  }

  /** Scan order is line order: indices strictly increase and stay below `n`. */
  lemma {:induction false} ScanIncreasing(lines: seq<string>, kinds: seq<Option<SectionType>>, n: nat)
    requires |kinds| == |lines| && n <= |lines|
    ensures StrictlyIncreasing(Scan(lines, kinds, n))
    ensures forall i | 0 <= i < |Scan(lines, kinds, n)| :: Scan(lines, kinds, n)[i].index < n
  {
    if n > 0 {
      ScanIncreasing(lines, kinds, n - 1);
    }
  }

  /** Every anchor of the scan sits on a header line of its type. */
  lemma {:induction false} ScanSound(lines: seq<string>, kinds: seq<Option<SectionType>>, n: nat)
    requires |kinds| == |lines| && n <= |lines|
    ensures forall i | 0 <= i < |Scan(lines, kinds, n)| ::
      var a := Scan(lines, kinds, n)[i];
      a.index < |lines| && kinds[a.index] == Some(a.kind) && a.header == Trim(lines[a.index])
  {
    if n > 0 {
      ScanSound(lines, kinds, n - 1);
    }
  }

  /** Every header line among lines [0, n) has an anchor. */
  lemma {:induction false} ScanComplete(lines: seq<string>, kinds: seq<Option<SectionType>>, n: nat, j: nat)
    requires |kinds| == |lines| && j < n <= |lines| && kinds[j].Some?
    ensures exists i :: 0 <= i < |Scan(lines, kinds, n)| && Scan(lines, kinds, n)[i].index == j
  {
    var earlier := Scan(lines, kinds, n - 1);
    if j == n - 1 {
      assert Scan(lines, kinds, n)[|earlier|].index == j;
    } else {
      ScanComplete(lines, kinds, n - 1, j);
      var i :| 0 <= i < |earlier| && earlier[i].index == j;
      assert Scan(lines, kinds, n)[i].index == j;
    }
  }

  /** The anchor list `identifySections` returns: strictly increasing line
      indices, all below the line count; each anchor on a header line of its
      type, carrying that line trimmed; and every header line has an anchor. */
  lemma AnchorsFaithful(text: string, table: SectionTable)
    ensures var lines, anchors := Lines(text), SectionAnchors(text, table);
      var kinds := LineKinds(lines, table);
      && StrictlyIncreasing(anchors)
      && (forall i | 0 <= i < |anchors| ::
            && anchors[i].index < |lines|
            && kinds[anchors[i].index] == Some(anchors[i].kind)
            && anchors[i].header == Trim(lines[anchors[i].index]))
      && (forall j | 0 <= j < |lines| && kinds[j].Some? ::
            exists i :: 0 <= i < |anchors| && anchors[i].index == j)
  {
    var lines := Lines(text);
    var kinds := LineKinds(lines, table);
    var anchors := Scan(lines, kinds, |lines|);
    ScanIncreasing(lines, kinds, |lines|);
    ScanSound(lines, kinds, |lines|);
    SortSortedIsIdentity(anchors);
    assert SectionAnchors(text, table) == anchors;
    forall j | 0 <= j < |lines| && kinds[j].Some?
      ensures exists i :: 0 <= i < |anchors| && anchors[i].index == j
    {
      ScanComplete(lines, kinds, |lines|, j);
    }
  }

  /** `identifySections`: the line scan with its inner loop over the section
      types, a push per header line, and the final sort. */
  method IdentifySections(text: string, table: SectionTable) returns (anchors: seq<Anchor>)
    ensures anchors == SectionAnchors(text, table)
  {
    var lines := Lines(text);
    ghost var kinds := LineKinds(lines, table);
    anchors := [];
    var index := 0;
    while index < |lines|
      invariant index <= |lines|
      invariant anchors == Scan(lines, kinds, index)
    {
      var line := lines[index];
      var lowerLine := ToLower(Trim(line));
      LineKindsAt(lines, table, index);
      if |lowerLine| < 40 && |lowerLine| > 2 {
        var p := 0;
        while p < |Precedence|
          invariant p <= |Precedence|
          invariant anchors == Scan(lines, kinds, index)
          invariant kinds[index] == FirstMentioned(lowerLine, table, Precedence[p..])
        {
          var kind := Precedence[p];
          if MentionsAny(lowerLine, table.Keywords(kind)) {
            anchors := anchors + [Anchor(kind, index, Trim(line))];
            break;
          }
          assert Precedence[p..][1..] == Precedence[p + 1..];
          p := p + 1;
        }
      }
      index := index + 1;
    }
    ScanIncreasing(lines, kinds, |lines|);
    SortSortedIsIdentity(anchors);
    anchors := SortByIndex(anchors);
  }

  /** Position in the anchor list of the first anchor of type `kind`. */
  function FirstOfKind(anchors: seq<Anchor>, kind: SectionType, from: nat := 0): (r: Option<nat>)
    requires from <= |anchors|
    ensures r.Some? ==> from <= r.value < |anchors| && anchors[r.value].kind == kind
    ensures r.Some? ==> forall q | from <= q < r.value :: anchors[q].kind != kind
    ensures r.None? ==> forall q | from <= q < |anchors| :: anchors[q].kind != kind
    decreases |anchors| - from
  {
    if from == |anchors| then None
    else if anchors[from].kind == kind then Some(from)
    else FirstOfKind(anchors, kind, from + 1)
  }

  /** The line range [start, end) that `extractSectionText` slices: from the
      line after the first anchor of `kind` to the next anchor in the list, or
      to `lineCount`. */
  function SectionBounds(lineCount: nat, kind: SectionType, anchors: seq<Anchor>): Option<(nat, nat)> {
    match FirstOfKind(anchors, kind)
    case None => None
    case Some(p) => Some((anchors[p].index + 1, if p + 1 < |anchors| then anchors[p + 1].index else lineCount))
  }

  /** `extractSectionText(text, kind, anchors)`. */
  function ExtractSectionText(text: string, kind: SectionType, anchors: seq<Anchor>): (r: string)
    ensures (forall i | 0 <= i < |anchors| :: anchors[i].kind != kind) ==> r == []
  {
    var lines := Lines(text);
    match SectionBounds(|lines|, kind, anchors)
    case None => []
    case Some((start, end)) => Trim(Join(SliceOf(lines, start, end), "\n"))
  }

  /** The anchor `identifySections` puts on a header line. */
  lemma AnchorAt(text: string, table: SectionTable, j: nat) returns (i: nat)
    requires j < |Lines(text)| && LineKinds(Lines(text), table)[j].Some?
    ensures i < |SectionAnchors(text, table)|
    ensures SectionAnchors(text, table)[i].index == j
    ensures Some(SectionAnchors(text, table)[i].kind) == LineKinds(Lines(text), table)[j]
  {
    AnchorsFaithful(text, table);
    var anchors := SectionAnchors(text, table);
    i :| 0 <= i < |anchors| && anchors[i].index == j;
  }

  /** The anchors are in strictly increasing line order. */
  lemma AnchorsIncreasing(text: string, table: SectionTable)
    ensures StrictlyIncreasing(SectionAnchors(text, table))
  {
    AnchorsFaithful(text, table);
  }

  /** Anchor `i` sits on a header line of its own type. */
  lemma AnchorSound(text: string, table: SectionTable, i: nat)
    requires i < |SectionAnchors(text, table)|
    ensures SectionAnchors(text, table)[i].index < |Lines(text)|
    ensures LineKinds(Lines(text), table)[SectionAnchors(text, table)[i].index] == Some(SectionAnchors(text, table)[i].kind)
  {
    AnchorsFaithful(text, table);
  }

  /** In a strictly increasing list, positions and line indices are in the same order. */
  lemma IndexOrder(anchors: seq<Anchor>, i: nat, k: nat)
    requires StrictlyIncreasing(anchors) && i < |anchors| && k < |anchors|
    ensures i < k <==> anchors[i].index < anchors[k].index
  {
  }

  /** With the anchors `identifySections` finds, there is no slice of `kind`
      exactly when no line is a header of that type, and the text is then empty. */
  lemma MissingSection(text: string, table: SectionTable, kind: SectionType)
    ensures var lines, anchors := Lines(text), SectionAnchors(text, table);
      SectionBounds(|lines|, kind, anchors).None? <==>
        forall j | 0 <= j < |lines| :: LineKinds(lines, table)[j] != Some(kind)
    ensures var lines, anchors := Lines(text), SectionAnchors(text, table);
      SectionBounds(|lines|, kind, anchors).None? ==> ExtractSectionText(text, kind, anchors) == []
  {
    var lines, anchors := Lines(text), SectionAnchors(text, table);
    AnchorsFaithful(text, table);
    match FirstOfKind(anchors, kind)
    case None =>
      forall j | 0 <= j < |lines| ensures LineKinds(lines, table)[j] != Some(kind) {
        if LineKinds(lines, table)[j].Some? {
          var i := AnchorAt(text, table, j);
        }
      }
    case Some(p) =>
      assert LineKinds(lines, table)[anchors[p].index] == Some(kind);
  }

  lemma SliceText(text: string, kind: SectionType, anchors: seq<Anchor>, start: nat, end: nat)
    requires SectionBounds(|Lines(text)|, kind, anchors) == Some((start, end))
    requires start <= end <= |Lines(text)|
    ensures ExtractSectionText(text, kind, anchors) == Trim(Join(Lines(text)[start..end], "\n"))
  {
  }

  /** Otherwise the slice starts right after the first header line of `kind`,
      its range is well formed, and the text is the trimmed join of exactly
      those lines. */
  lemma LocatedSlice(text: string, table: SectionTable, kind: SectionType)
    ensures var lines, anchors := Lines(text), SectionAnchors(text, table);
      var kinds := LineKinds(lines, table);
      SectionBounds(|lines|, kind, anchors).Some? ==>
        var (start, end) := SectionBounds(|lines|, kind, anchors).value;
        && 0 < start <= end <= |lines|
        && kinds[start - 1] == Some(kind)
        && (forall j | 0 <= j < start - 1 :: kinds[j] != Some(kind))
        && ExtractSectionText(text, kind, anchors) == Trim(Join(lines[start..end], "\n"))
  {
    var lines, anchors := Lines(text), SectionAnchors(text, table);
    var kinds := LineKinds(lines, table);
    match FirstOfKind(anchors, kind)
    case None =>
    case Some(p) =>
      AnchorSound(text, table, p);
      var start := anchors[p].index + 1;
      var end := if p + 1 < |anchors| then anchors[p + 1].index else |lines|;
      assert SectionBounds(|lines|, kind, anchors) == Some((start, end));
      NextAnchorBelow(text, table, p);
      SliceText(text, kind, anchors, start, end);
      NoEarlierHeader(text, table, kind, p);
  }

  /** The anchor after anchor `p` lies below it and inside the document. */
  lemma NextAnchorBelow(text: string, table: SectionTable, p: nat)
    requires p + 1 <= |SectionAnchors(text, table)|
    ensures p + 1 < |SectionAnchors(text, table)| ==>
      SectionAnchors(text, table)[p].index < SectionAnchors(text, table)[p + 1].index < |Lines(text)|
  {
    if p + 1 < |SectionAnchors(text, table)| {
      AnchorsIncreasing(text, table);
      AnchorSound(text, table, p + 1);
    }
  }

  /** No line above the first anchor of `kind` is a header of that type. */
  lemma NoEarlierHeader(text: string, table: SectionTable, kind: SectionType, p: nat)
    requires FirstOfKind(SectionAnchors(text, table), kind) == Some(p)
    ensures forall j | 0 <= j < SectionAnchors(text, table)[p].index && j < |Lines(text)| ::
      LineKinds(Lines(text), table)[j] != Some(kind)
  {
    var lines, anchors := Lines(text), SectionAnchors(text, table);
    var kinds := LineKinds(lines, table);
    AnchorsIncreasing(text, table);
    forall j | 0 <= j < anchors[p].index && j < |lines| ensures kinds[j] != Some(kind) {
      if kinds[j].Some? {
        var i := AnchorAt(text, table, j);
        IndexOrder(anchors, i, p);
      }
    }
  }

  /** The slice holds no header line of any type, and it stops either at a
      header line or at the end of the document. */
  lemma SliceHasNoHeaders(text: string, table: SectionTable, kind: SectionType)
    ensures var lines, anchors := Lines(text), SectionAnchors(text, table);
      var kinds := LineKinds(lines, table);
      SectionBounds(|lines|, kind, anchors).Some? ==>
        var (start, end) := SectionBounds(|lines|, kind, anchors).value;
        && (forall j | start <= j < end && j < |lines| :: kinds[j].None?)
        && (end == |lines| || (end < |lines| && kinds[end].Some?))
  {
    var lines, anchors := Lines(text), SectionAnchors(text, table);
    var kinds := LineKinds(lines, table);
    match FirstOfKind(anchors, kind)
    case None =>
    case Some(p) =>
      AnchorsIncreasing(text, table);
      var start := anchors[p].index + 1;
      var end := if p + 1 < |anchors| then anchors[p + 1].index else |lines|;
      assert SectionBounds(|lines|, kind, anchors) == Some((start, end));
      if p + 1 < |anchors| {
        AnchorSound(text, table, p + 1);
      }
      forall j | start <= j < end && j < |lines| ensures kinds[j].None? {
        if kinds[j].Some? {
          var i := AnchorAt(text, table, j);
          IndexOrder(anchors, p, i);
        }
      }
  }

  /** For two adjacent anchors a, b, the slice of a's type never reaches the
      line of b, whatever b's type. */
  lemma SliceStopsBeforeNextAnchor(text: string, table: SectionTable, i: nat)
    requires i + 1 < |SectionAnchors(text, table)|
    ensures var lines, anchors := Lines(text), SectionAnchors(text, table);
      && SectionBounds(|lines|, anchors[i].kind, anchors).Some?
      && SectionBounds(|lines|, anchors[i].kind, anchors).value.1 <= anchors[i + 1].index
  {
    var lines, anchors := Lines(text), SectionAnchors(text, table);
    AnchorsFaithful(text, table);
    var p := FirstOfKind(anchors, anchors[i].kind).value;
    assert p <= i;
    if p < i {
      IndexOrder(anchors, p + 1, i + 1);
    }
  }

  /** A document without header lines (the empty one among them) has no
      anchors and every slice of it is empty. */
  lemma NoHeadersNoSlices(text: string, table: SectionTable, kind: SectionType)
    requires forall j | 0 <= j < |Lines(text)| :: LineKinds(Lines(text), table)[j].None?
    ensures SectionAnchors(text, table) == []
    ensures ExtractSectionText(text, kind, SectionAnchors(text, table)) == []
  {
    if SectionAnchors(text, table) != [] {
      FirstAnchorIsHeader(text, table);
    }
  }

  lemma FirstAnchorIsHeader(text: string, table: SectionTable)
    requires SectionAnchors(text, table) != []
    ensures var a := SectionAnchors(text, table)[0];
      a.index < |Lines(text)| && LineKinds(Lines(text), table)[a.index].Some?
  {
    AnchorsFaithful(text, table);
  }
}
