/** The personal-information extractor of `parseResume`: the full name is
    the first non-blank line unless it mentions "resume"; email and phone are
    the first matches of their patterns. */
module Personal {
  import opened Text
  import Sections
  import Patterns

  /** `personalInfo`: each field is present only when the extractor set it. */
  datatype PersonalInfo = PersonalInfo(fullName: Option<string>, email: Option<string>, phone: Option<string>)

  /** `lines.filter(l => l.trim().length > 0)`. */
  function NonBlankLines(lines: seq<string>): (r: seq<string>)
    ensures |r| <= |lines|
    decreases |lines|
  {
    if lines == [] then []
    else
      var rest := NonBlankLines(lines[1..]);
      if |Trim(lines[0])| > 0 then [lines[0]] + rest else rest
  }

  /** The filter keeps the order of the lines: it is the order-keeping
      filter of the lines by "not all whitespace". */
  lemma {:induction false} NonBlankLinesKept(lines: seq<string>)
    ensures NonBlankLines(lines) == Kept(lines, NonBlankFlags(lines))
    decreases |lines|
  {
    if lines != [] {
      assert NonBlankFlags(lines[1..]) == NonBlankFlags(lines)[1..];
      NonBlankLinesKept(lines[1..]);
    }
  }

  /** Line `j` is the first one that is not all whitespace. */
  ghost predicate FirstNonBlankAt(lines: seq<string>, j: nat) {
    j < |lines| && Trim(lines[j]) != [] && forall j' | 0 <= j' < j :: Trim(lines[j']) == []
  }

  /** The filter is empty exactly when every line is blank, and otherwise
      starts with the first non-blank line. */
  lemma {:induction false} NonBlankLinesHead(lines: seq<string>) returns (j: nat)
    ensures NonBlankLines(lines) == [] <==> forall k | 0 <= k < |lines| :: Trim(lines[k]) == []
    ensures NonBlankLines(lines) != [] ==> FirstNonBlankAt(lines, j) && NonBlankLines(lines)[0] == lines[j]
    decreases |lines|
  {
    if lines == [] {
      j := 0;
    } else if |Trim(lines[0])| > 0 {
      j := 0;
    } else {
      var j' := NonBlankLinesHead(lines[1..]);
      j := j' + 1;
      forall k | 1 <= k < |lines| ensures lines[k] == lines[1..][k - 1] {
      }
    }
  }

  /** The name heuristic. */
  function FullName(text: string): Option<string> {
    var nonEmpty := NonBlankLines(Sections.Lines(text));
    if |nonEmpty| > 0 then
      var first := Trim(nonEmpty[0]);
      if !Contains(ToLower(first), "resume") then Some(first) else None
    else None
  }

  /** A full name is set exactly when some line is non-blank and the first
      such line, trimmed and lower-cased, does not contain "resume". */
  lemma FullNameIff(text: string)
    ensures FullName(text).Some? <==>
      exists j: nat :: FirstNonBlankAt(Sections.Lines(text), j) && !Contains(ToLower(Trim(Sections.Lines(text)[j])), "resume")
  {
    var lines := Sections.Lines(text);
    var j := NonBlankLinesHead(lines);
    if NonBlankLines(lines) != [] {
      forall j': nat | FirstNonBlankAt(lines, j') ensures j' == j {
        FirstNonBlankUnique(lines, j, j');
      }
    } else {
      forall j': nat ensures !FirstNonBlankAt(lines, j') {
        if j' < |lines| {
          assert Trim(lines[j']) == [];
        }
      }
    }
  }

  /** The full name is the first non-blank line trimmed, which is non-empty,
      holds no line break and has no whitespace at either end. */
  lemma FullNameShape(text: string)
    ensures forall j: nat | FirstNonBlankAt(Sections.Lines(text), j) && FullName(text).Some? ::
      && FullName(text).value == Trim(Sections.Lines(text)[j])
      && FullName(text).value != []
      && '\n' !in FullName(text).value
      && !IsSpace(FullName(text).value[0])
      && !IsSpace(FullName(text).value[|FullName(text).value| - 1])
  {
    var lines := Sections.Lines(text);
    var j := NonBlankLinesHead(lines);
    if NonBlankLines(lines) != [] {
      forall j': nat | FirstNonBlankAt(lines, j') ensures j' == j {
        FirstNonBlankUnique(lines, j, j');
      }
      assert forall c | 0 <= c < |lines[j]| :: lines[j][c] != '\n';
      TrimmedLineShape(lines[j]);
    }
  }

  lemma FirstNonBlankUnique(lines: seq<string>, j1: nat, j2: nat)
    requires FirstNonBlankAt(lines, j1) && FirstNonBlankAt(lines, j2)
    ensures j1 == j2
  {
  }

  /** The email, phone and name heuristics over the whole text. */
  function ExtractPersonalInfo(text: string): PersonalInfo {
    PersonalInfo(FullName(text), Patterns.Email(text), Patterns.Phone(text))
  }

  /** The three heuristics as the parser runs them, setting each field of
      an initially empty object only when its heuristic finds something. */
  method FillPersonalInfo(text: string) returns (info: PersonalInfo)
    ensures info == ExtractPersonalInfo(text)
  {
    info := PersonalInfo(None, None, None);
    var email := Patterns.Email(text);
    if email.Some? {
      info := info.(email := email);
    }
    var phone := Patterns.Phone(text);
    if phone.Some? {
      info := info.(phone := phone);
    }
    var nonEmptyLines := NonBlankLines(Sections.Lines(text));
    if |nonEmptyLines| > 0 {
      var first := Trim(nonEmptyLines[0]);
      if !Contains(ToLower(first), "resume") {
        info := info.(fullName := Some(first));
      }
    }
  }
}
