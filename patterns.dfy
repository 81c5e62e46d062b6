/** The two regular expressions of the personal-information extractor,
    `text.match(emailRegex)` and `text.match(phoneRegex)`, as hand-written
    first-match scanners: the match starts at the leftmost position where the
    pattern can match, and at that position it is the alternative a
    backtracking matcher tries first. */
module Patterns {
  import opened Text

  predicate IsDigit(c: char) {
    '0' <= c <= '9'
  }

  predicate IsAsciiLetter(c: char) {
    'a' <= c <= 'z' || 'A' <= c <= 'Z'
  }

  /** The character classes the two patterns are written with. */
  datatype CharClass =
    | Digit                // \d
    | Space                // \s
    | Literal(ch: char)    // \+, \(, \)
    | Separator            // [\s.-]
    | EmailChar            // [a-zA-Z0-9._-]
    | TldChar              // [a-zA-Z0-9_-]

  predicate InClass(c: char, k: CharClass) {
    match k
    case Digit => IsDigit(c)
    case Space => IsSpace(c)
    case Literal(x) => c == x
    case Separator => IsSpace(c) || c == '.' || c == '-'
    case EmailChar => IsAsciiLetter(c) || IsDigit(c) || c == '.' || c == '_' || c == '-'
    case TldChar => IsAsciiLetter(c) || IsDigit(c) || c == '_' || c == '-'
  }

  /** End of the longest run of characters of class `k` that starts at `i`. */
  function RunEnd(s: string, i: nat, k: CharClass): (e: nat)
    requires i <= |s|
    ensures i <= e <= |s|
    ensures forall j | i <= j < e :: InClass(s[j], k)
    ensures e < |s| ==> !InClass(s[e], k)
    decreases |s| - i
  {
    if i < |s| && InClass(s[i], k) then RunEnd(s, i + 1, k) else i
  }

  // ---------------------------------------------------------------------
  // /([a-zA-Z0-9._-]+@[a-zA-Z0-9._-]+\.[a-zA-Z0-9_-]+)/

  /** `s[i..t]` is a match of the email pattern, with its '@' at `at` and the
      '.' before the top-level domain at `dot`. */
  ghost predicate EmailSpan(s: string, i: nat, at: nat, dot: nat, t: nat) {
    && i < at && at + 1 < dot && dot + 1 < t <= |s|
    && s[at] == '@' && s[dot] == '.'
    && (forall j | i <= j < at :: InClass(s[j], EmailChar))
    && (forall j | at < j < dot :: InClass(s[j], EmailChar))
    && (forall j | dot < j < t :: InClass(s[j], TldChar))
  }

  predicate DotBeforeTld(s: string, q: nat) {
    q + 1 < |s| && s[q] == '.' && InClass(s[q + 1], TldChar)
  }

  /** The last position in [lo, hi) holding a '.' followed by a top-level-domain character. */
  function LastDot(s: string, lo: nat, hi: nat): (r: Option<nat>)
    requires hi <= |s|
    ensures r.Some? ==> lo <= r.value < hi && DotBeforeTld(s, r.value)
    ensures r.Some? ==> forall q | r.value < q < hi :: !DotBeforeTld(s, q)
    ensures r.None? ==> forall q | lo <= q < hi :: !DotBeforeTld(s, q)
    decreases hi
  {
    if hi <= lo then None
    else if DotBeforeTld(s, hi - 1) then Some(hi - 1)
    else LastDot(s, lo, hi - 1)
  }

  /** End of the email match that starts at `i`, if there is one. The greedy
      local part can only be followed by '@' at its full length, since '@' is
      not in its class; the greedy domain part then gives characters back until
      a '.' followed by a top-level-domain character comes next, so that '.'
      is the last such one; the top-level domain is the longest run after it. */
  function EmailAt(s: string, i: nat): (r: Option<nat>)
    requires i <= |s|
    ensures r.Some? ==> i < r.value <= |s|
    ensures r.Some? ==> exists at, dot :: EmailSpan(s, i, at, dot, r.value)
    ensures r.Some? ==> r.value == |s| || !InClass(s[r.value], TldChar)
  {
    var e := RunEnd(s, i, EmailChar);
    if e == i || e == |s| || s[e] != '@' then None
    else
      var d := RunEnd(s, e + 1, EmailChar);
      match LastDot(s, e + 2, d)
      case None => None
      case Some(q) =>
        var t := RunEnd(s, q + 1, TldChar);
        assert EmailSpan(s, i, e, q, t);
        Some(t)
  }

  /** Wherever the email pattern can match, the scanner finds a match there. */
  lemma EmailAtComplete(s: string, i: nat, at: nat, dot: nat, t: nat)
    requires EmailSpan(s, i, at, dot, t)
    ensures EmailAt(s, i).Some?
  {
    var e := RunEnd(s, i, EmailChar);
    assert e == at;
    var d := RunEnd(s, at + 1, EmailChar);
    assert InClass(s[dot], EmailChar);
    assert dot < d;
    assert DotBeforeTld(s, dot);
  }

  /** The match the scanner finds at `i` is the longest email span starting
      there: a greedy top-level domain cannot be extended, and a span that
      uses an earlier '.' stops before the last one, since '.' is not a
      top-level-domain character. */
  lemma EmailAtLongest(s: string, i: nat, at: nat, dot: nat, t: nat)
    requires EmailSpan(s, i, at, dot, t)
    ensures EmailAt(s, i).Some? && t <= EmailAt(s, i).value
  {
    EmailAtComplete(s, i, at, dot, t);
    var e := RunEnd(s, i, EmailChar);
    assert e == at;
    var d := RunEnd(s, at + 1, EmailChar);
    assert InClass(s[dot], EmailChar);
    assert dot < d && DotBeforeTld(s, dot);
    var q := LastDot(s, at + 2, d).value;
    assert dot <= q;
    var end := RunEnd(s, q + 1, TldChar);
    assert EmailAt(s, i) == Some(end);
    if dot < q {
      assert !InClass(s[q], TldChar);
      assert t <= q;
    }
  }

  /** The first position from `from` on where a scanner succeeded, given the
      scanner's result at every start position: `String.prototype.match`
      reports the leftmost match. */
  function FirstFound(results: seq<Option<nat>>, from: nat): (r: Option<nat>)
    requires from <= |results|
    ensures r.Some? ==> from <= r.value < |results| && results[r.value].Some?
    ensures r.Some? ==> forall i | from <= i < r.value :: results[i].None?
    ensures r.None? ==> forall i | from <= i < |results| :: results[i].None?
    decreases |results| - from
  {
    if from == |results| then None
    else if results[from].Some? then Some(from)
    else FirstFound(results, from + 1)
  }

  /** The email scanner's result at every start position of `s`. */
  function EmailResults(s: string): (r: seq<Option<nat>>)
    ensures |r| == |s| + 1 && forall i | 0 <= i <= |s| :: r[i] == EmailAt(s, i)
  {
    seq(|s| + 1, i requires 0 <= i <= |s| => EmailAt(s, i))
  }

  /** `text.match(emailRegex)[0]`, or nothing. */
  function Email(text: string): Option<string> {
    var results := EmailResults(text);
    match FirstFound(results, 0)
    case None => None
    case Some(i) => Some(text[i..results[i].value])
  }

  /** The email found is a piece of the text shaped local@domain.tld, taken
      from the leftmost position where the pattern matches at all, and the
      longest such piece starting there; no email is found exactly when the
      pattern matches nowhere. */
  lemma EmailSpec(text: string)
    ensures Email(text).Some? ==> Contains(text, Email(text).value)
    ensures Email(text).Some? ==>
      exists i: nat, at: nat, dot: nat, t: nat :: EmailSpan(text, i, at, dot, t) && text[i..t] == Email(text).value
        && (forall i': nat, at': nat, dot': nat, t': nat | i' < i :: !EmailSpan(text, i', at', dot', t'))
        && (forall at': nat, dot': nat, t': nat | EmailSpan(text, i, at', dot', t') :: t' <= t)
    ensures Email(text).None? <==> forall i: nat, at: nat, dot: nat, t: nat :: !EmailSpan(text, i, at, dot, t)
  {
    var results := EmailResults(text);
    match FirstFound(results, 0)
    case None =>
      forall i | 0 <= i <= |text| ensures EmailAt(text, i).None? {
        assert results[i].None?;
      }
      forall i: nat, at: nat, dot: nat, t: nat ensures !EmailSpan(text, i, at, dot, t) {
        if EmailSpan(text, i, at, dot, t) {
          EmailAtComplete(text, i, at, dot, t);
        }
      }
    case Some(i) =>
      var t := results[i].value;
      assert EmailAt(text, i) == Some(t);
      assert OccursAt(text, text[i..t], i);
      ContainsIff(text, text[i..t]);
      var at, dot :| EmailSpan(text, i, at, dot, t);
      forall i' | 0 <= i' < i ensures EmailAt(text, i').None? {
        assert results[i'].None?;
      }
      EmailFirstLongest(text, i, t);
  }

  /** A match found at `i`, when the scanner fails at every earlier position,
      is the leftmost and longest email span. */
  lemma EmailFirstLongest(text: string, i: nat, t: nat)
    requires i <= |text| && EmailAt(text, i) == Some(t)
    requires forall i' | 0 <= i' < i :: EmailAt(text, i').None?
    ensures forall i': nat, at': nat, dot': nat, t': nat | i' < i :: !EmailSpan(text, i', at', dot', t')
    ensures forall at': nat, dot': nat, t': nat | EmailSpan(text, i, at', dot', t') :: t' <= t
  {
    forall i': nat, at': nat, dot': nat, t': nat | i' < i ensures !EmailSpan(text, i', at', dot', t') {
      if EmailSpan(text, i', at', dot', t') {
        EmailAtComplete(text, i', at', dot', t');
      }
    }
    forall at': nat, dot': nat, t': nat | EmailSpan(text, i, at', dot', t') ensures t' <= t {
      EmailAtLongest(text, i, at', dot', t');
    }
  }

  // ---------------------------------------------------------------------
  // /(\+?\d{1,2}\s?)?\(?\d{3}\)?[\s.-]?\d{3}[\s.-]?\d{4}/

  /** One alternative of a pattern without unbounded repetition: a fixed
      sequence of character classes. */
  type Alternative = seq<CharClass>

  /** `k?`, greedy: present before absent. */
  function Optional(k: CharClass): seq<Alternative> {
    [[k], []]
  }

  function Repeat(k: CharClass, n: nat): Alternative {
    if n == 0 then [] else [k] + Repeat(k, n - 1)
  }

  /** Concatenation: every alternative of `a` followed by every alternative of
      `b`, in the order a backtracking matcher tries them. */
  function Then(a: seq<Alternative>, b: seq<Alternative>): seq<Alternative> {
    if a == [] then [] else seq(|b|, j requires 0 <= j < |b| => a[0] + b[j]) + Then(a[1..], b)
  }

  /** `(\+?\d{1,2}\s?)`: `+` before none, two digits before one, a space
      before none. */
  const CountryCode: seq<Alternative> :=
    Then(Then(Optional(Literal('+')), [Repeat(Digit, 2), Repeat(Digit, 1)]), Optional(Space))

  /** `\(?\d{3}\)?[\s.-]?\d{3}[\s.-]?\d{4}`: each optional parenthesis or
      separator present before absent. */
  const Number: seq<Alternative> :=
    Then(Optional(Literal('(')),
    Then([Repeat(Digit, 3)],
    Then(Optional(Literal(')')),
    Then(Optional(Separator),
    Then([Repeat(Digit, 3)],
    Then(Optional(Separator),
         [Repeat(Digit, 4)]))))))

  /** The phone pattern, unfolded into its alternatives in backtracking order:
      the optional country-code group is tried before its absence. */
  const PhoneAlternatives: seq<Alternative> := Then(CountryCodeGroup, Number)

  /** `(\+?\d{1,2}\s?)?` */
  const CountryCodeGroup: seq<Alternative> := CountryCode + [[]]

  predicate MatchesAt(s: string, i: nat, p: Alternative) {
    i + |p| <= |s| && forall j | 0 <= j < |p| :: InClass(s[i + j], p[j])
  }

  /** The first alternative (from `from` on) that matches at position `i`. */
  function FirstAlternativeAt(s: string, i: nat, ps: seq<Alternative>, from: nat := 0): (r: Option<nat>)
    requires from <= |ps|
    ensures r.Some? ==> from <= r.value < |ps| && MatchesAt(s, i, ps[r.value])
    ensures r.Some? ==> forall k | from <= k < r.value :: !MatchesAt(s, i, ps[k])
    ensures r.None? ==> forall k | from <= k < |ps| :: !MatchesAt(s, i, ps[k])
    decreases |ps| - from
  {
    if from == |ps| then None
    else if MatchesAt(s, i, ps[from]) then Some(from)
    else FirstAlternativeAt(s, i, ps, from + 1)
  }

  /** The first alternative of `ps` that matches at every start position of `s`. */
  function AlternativeResults(s: string, ps: seq<Alternative>): (r: seq<Option<nat>>)
    ensures |r| == |s| + 1 && forall i | 0 <= i <= |s| :: r[i] == FirstAlternativeAt(s, i, ps)
  {
    seq(|s| + 1, i requires 0 <= i <= |s| => FirstAlternativeAt(s, i, ps))
  }

  /** The text of the leftmost match of a pattern with alternatives `ps`:
      the first alternative that matches at the leftmost start where any does. */
  function FirstMatch(text: string, ps: seq<Alternative>): Option<string> {
    var results := AlternativeResults(text, ps);
    match FirstFound(results, 0)
    case None => None
    case Some(i) => Some(text[i..i + |ps[results[i].value]|])
  }

  /** `text.match(phoneRegex)[0]`, or nothing. */
  function Phone(text: string): Option<string> {
    FirstMatch(text, PhoneAlternatives)
  }

  /** The match found is a piece of the text that one of the alternatives
      spells, taken from the leftmost position where any alternative matches,
      and that alternative is the first in the list to match there; none is
      found exactly when none matches anywhere. */
  lemma FirstMatchSpec(text: string, ps: seq<Alternative>)
    ensures FirstMatch(text, ps).Some? ==> Contains(text, FirstMatch(text, ps).value)
    ensures FirstMatch(text, ps).Some? ==>
      exists i: nat, k :: 0 <= k < |ps| && MatchesAt(text, i, ps[k])
        && FirstAlternativeAt(text, i, ps) == Some(k)
        && FirstMatch(text, ps).value == text[i..i + |ps[k]|]
        && forall i': nat, k' | i' < i && 0 <= k' < |ps| :: !MatchesAt(text, i', ps[k'])
    ensures FirstMatch(text, ps).None? <==>
      forall i: nat, k | 0 <= k < |ps| :: !MatchesAt(text, i, ps[k])
  {
    var results := AlternativeResults(text, ps);
    match FirstFound(results, 0)
    case None =>
      forall i | 0 <= i <= |text| ensures FirstAlternativeAt(text, i, ps).None? {
        assert results[i].None?;
      }
      forall i: nat, k | 0 <= k < |ps| ensures !MatchesAt(text, i, ps[k]) {
        if i <= |text| {
          assert FirstAlternativeAt(text, i, ps).None?;
        }
      }
    case Some(i) =>
      var k := results[i].value;
      assert FirstAlternativeAt(text, i, ps) == Some(k);
      var m := text[i..i + |ps[k]|];
      assert OccursAt(text, m, i);
      ContainsIff(text, m);
      forall i': nat, k' | i' < i && 0 <= k' < |ps| ensures !MatchesAt(text, i', ps[k']) {
        assert results[i'].None?;
      }
  }

  /** The phone found is a piece of the text that one of the alternatives of
      the pattern matches, taken from the leftmost position where any
      alternative matches, and that alternative is the first in priority
      order to match there; none is found exactly when none matches anywhere. */
  lemma PhoneSpec(text: string)
    ensures Phone(text).Some? ==> Contains(text, Phone(text).value)
    ensures Phone(text).Some? ==>
      exists i: nat, k :: 0 <= k < |PhoneAlternatives| && MatchesAt(text, i, PhoneAlternatives[k])
        && FirstAlternativeAt(text, i, PhoneAlternatives) == Some(k)
        && Phone(text).value == text[i..i + |PhoneAlternatives[k]|]
        && forall i': nat, k' | i' < i && 0 <= k' < |PhoneAlternatives| :: !MatchesAt(text, i', PhoneAlternatives[k'])
    ensures Phone(text).None? <==>
      forall i: nat, k | 0 <= k < |PhoneAlternatives| :: !MatchesAt(text, i, PhoneAlternatives[k])
  {
    FirstMatchSpec(text, PhoneAlternatives);
  }

  // ---------------------------------------------------------------------
  // What every phone alternative looks like.

  function DigitCount(p: Alternative): nat {
    if p == [] then 0 else (if p[0] == Digit then 1 else 0) + DigitCount(p[1..])
  }

  predicate Within(ps: seq<Alternative>, lo: nat, hi: nat, minLen: nat, maxLen: nat) {
    forall k | 0 <= k < |ps| :: lo <= DigitCount(ps[k]) <= hi && minLen <= |ps[k]| <= maxLen
  }

  lemma {:induction false} DigitCountAppend(x: Alternative, y: Alternative)
    ensures DigitCount(x + y) == DigitCount(x) + DigitCount(y)
  {
    if x != [] {
      assert (x + y)[1..] == x[1..] + y;
      DigitCountAppend(x[1..], y);
    } else {
      assert x + y == y;
    }
  }

  lemma {:induction false} RepeatDigits(n: nat)
    ensures DigitCount(Repeat(Digit, n)) == n && |Repeat(Digit, n)| == n
  {
    if n > 0 {
      RepeatDigits(n - 1);
      assert Repeat(Digit, n)[1..] == Repeat(Digit, n - 1);
    }
  }

  /** Concatenation adds the bounds on digits and on length. */
  lemma {:induction false} ThenWithin(a: seq<Alternative>, b: seq<Alternative>,
                                      lo1: nat, hi1: nat, min1: nat, max1: nat,
                                      lo2: nat, hi2: nat, min2: nat, max2: nat)
    requires Within(a, lo1, hi1, min1, max1) && Within(b, lo2, hi2, min2, max2)
    ensures Within(Then(a, b), lo1 + lo2, hi1 + hi2, min1 + min2, max1 + max2)
    ensures |Then(a, b)| == |a| * |b|
  {
    if a != [] {
      ThenWithin(a[1..], b, lo1, hi1, min1, max1, lo2, hi2, min2, max2);
      var front := seq(|b|, j requires 0 <= j < |b| => a[0] + b[j]);
      forall j | 0 <= j < |b| ensures lo1 + lo2 <= DigitCount(front[j]) <= hi1 + hi2 {
        DigitCountAppend(a[0], b[j]);
      }
      assert Then(a, b) == front + Then(a[1..], b);
    }
  }

  lemma OptionalWithin(k: CharClass)
    requires k != Digit
    ensures Within(Optional(k), 0, 0, 0, 1)
  {
    assert DigitCount([k]) == 0 by {
      assert [k][1..] == [];
    }
  }

  lemma CountryCodeShape()
    ensures Within(CountryCodeGroup, 0, 2, 0, 4)
    ensures |CountryCodeGroup| == 9
  {
    RepeatDigits(1);
    RepeatDigits(2);
    OptionalWithin(Literal('+'));
    OptionalWithin(Space);
    var digits: seq<Alternative> := [Repeat(Digit, 2), Repeat(Digit, 1)];
    assert Within(digits, 1, 2, 1, 2);
    ThenWithin(Optional(Literal('+')), digits, 0, 0, 0, 1, 1, 2, 1, 2);
    ThenWithin(Then(Optional(Literal('+')), digits), Optional(Space), 1, 2, 1, 3, 0, 0, 0, 1);
  }

  lemma NumberShape()
    ensures Within(Number, 10, 10, 10, 14)
    ensures |Number| == 16
  {
    RepeatDigits(3);
    RepeatDigits(4);
    OptionalWithin(Literal('('));
    OptionalWithin(Literal(')'));
    OptionalWithin(Separator);
    var sep := Optional(Separator);
    var d3: seq<Alternative> := [Repeat(Digit, 3)];
    var d4: seq<Alternative> := [Repeat(Digit, 4)];
    assert Within(d3, 3, 3, 3, 3);
    assert Within(d4, 4, 4, 4, 4);
    var t6 := Then(sep, d4);
    ThenWithin(sep, d4, 0, 0, 0, 1, 4, 4, 4, 4);
    var t5 := Then(d3, t6);
    ThenWithin(d3, t6, 3, 3, 3, 3, 4, 4, 4, 5);
    var t4 := Then(sep, t5);
    ThenWithin(sep, t5, 0, 0, 0, 1, 7, 7, 7, 8);
    var t3 := Then(Optional(Literal(')')), t4);
    ThenWithin(Optional(Literal(')')), t4, 0, 0, 0, 1, 7, 7, 7, 9);
    var t2 := Then(d3, t3);
    ThenWithin(d3, t3, 3, 3, 3, 3, 7, 7, 7, 10);
    ThenWithin(Optional(Literal('(')), t2, 0, 0, 0, 1, 10, 10, 10, 13);
  }

  /** Every phone alternative spells 10 to 12 digits in 10 to 18 characters,
      so a phone number found holds at least ten digits. */
  lemma PhoneAlternativesShape()
    ensures Within(PhoneAlternatives, 10, 12, 10, 18)
    ensures |PhoneAlternatives| == 144
  {
    CountryCodeShape();
    NumberShape();
    ThenWithin(CountryCodeGroup, Number, 0, 2, 0, 4, 10, 10, 10, 14);
    assert PhoneAlternatives == Then(CountryCodeGroup, Number);
  }

  /** Number of decimal digits in `m`. */
  function DigitChars(m: string): nat {
    if m == [] then 0 else (if IsDigit(m[0]) then 1 else 0) + DigitChars(m[1..])
  }

  lemma {:induction false} MatchedDigits(s: string, i: nat, p: Alternative)
    requires MatchesAt(s, i, p)
    ensures DigitChars(s[i..i + |p|]) >= DigitCount(p)
    decreases |p|
  {
    if p != [] {
      assert MatchesAt(s, i + 1, p[1..]) by {
        forall j | 0 <= j < |p| - 1 ensures InClass(s[i + 1 + j], p[1..][j]) {
          assert InClass(s[i + (j + 1)], p[j + 1]);
        }
      }
      MatchedDigits(s, i + 1, p[1..]);
      assert s[i..i + |p|][1..] == s[i + 1..i + 1 + |p[1..]|];
      assert InClass(s[i + 0], p[0]);
    }
  }

  /** What the leftmost match of alternatives that all spell at least `lo`
      digits in at most `maxLen` characters looks like. */
  lemma FoundWithin(text: string, ps: seq<Alternative>, lo: nat, hi: nat, minLen: nat, maxLen: nat)
    requires Within(ps, lo, hi, minLen, maxLen)
    ensures FirstMatch(text, ps).Some? ==>
      DigitChars(FirstMatch(text, ps).value) >= lo && |FirstMatch(text, ps).value| <= maxLen
  {
    var results := AlternativeResults(text, ps);
    match FirstFound(results, 0)
    case None =>
    case Some(i) =>
      var k := results[i].value;
      MatchedDigits(text, i, ps[k]);
  }

  /** A phone number found holds at least ten digits and at most eighteen characters. */
  lemma PhoneHasTenDigits(text: string)
    ensures Phone(text).Some? ==> DigitChars(Phone(text).value) >= 10 && |Phone(text).value| <= 18
  {
    PhoneAlternativesShape();
    FoundWithin(text, PhoneAlternatives, 10, 12, 10, 18);
  }
}
