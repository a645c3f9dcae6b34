/**
 * Reading a report line below the root back into the entry it was written from. The parser
 * works from the right end, so node names may contain any character.
 */
module LineParse {
  import opened Wrappers
  import opened Decimal
  import opened Text
  import opened Report

  predicate EndsWith(s: string, t: string) {
    |t| <= |s| && s[|s| - |t|..] == t
  }

  /** Splits off the longest run of digits at the end of `s`. */
  function SplitDigits(s: string): (r: (string, string))
    ensures r.0 + r.1 == s && AllDigits(r.1)
    ensures r.0 == [] || !IsDigit(r.0[|r.0| - 1])
  {
    if |s| > 0 && IsDigit(s[|s| - 1]) then
      var (p, d) := SplitDigits(s[..|s| - 1]);
      assert s == s[..|s| - 1] + [s[|s| - 1]];
      (p, d + [s[|s| - 1]])
    else (s, [])
  }

  /** Behind a non-digit, the trailing digit run of a rendered number is that rendering. */
  lemma {:induction false} SplitShow(p: string, n: nat)
    requires p == [] || !IsDigit(p[|p| - 1])
    ensures SplitDigits(p + Show(n)) == (p, Show(n))
    decreases n
  {
    var s := p + Show(n);
    if n < 10 {
      assert s[..|s| - 1] == p;
    } else {
      assert s[..|s| - 1] == p + Show(n / 10);
      SplitShow(p, n / 10);
    }
  }

  /** Appending `t` and then dropping it again gives back `s`. */
  lemma DropAppended(s: string, t: string)
    ensures EndsWith(s + t, t)
    ensures (s + t)[..|s + t| - |t|] == s
  {
    assert (s + t)[|s + t| - |t|..] == t;
  }

  /** The number of blanks `s` starts with. */
  function LeadingSpaces(s: string): (k: nat)
    ensures k <= |s|
    ensures forall i | 0 <= i < k :: s[i] == ' '
    ensures k < |s| ==> s[k] != ' '
  {
    if |s| > 0 && s[0] == ' ' then 1 + LeadingSpaces(s[1..]) else 0
  }

  lemma {:induction false} LeadingSpacesOfPadded(k: nat, rest: string)
    requires |rest| > 0 && rest[0] != ' '
    ensures LeadingSpaces(Spaces(k) + rest) == k
    decreases k
  {
    if k > 0 {
      assert Spaces(k) == [' '] + Spaces(k - 1);
      assert (Spaces(k) + rest)[1..] == Spaces(k - 1) + rest;
      LeadingSpacesOfPadded(k - 1, rest);
    } else {
      assert Spaces(0) + rest == rest;
    }
  }

  /** Splits off the `" (+offset)"` annotation, if the line ends in one. */
  function ParseSuffix(line: string): Option<(string, nat, bool)>
  {
    if |line| > 0 && line[|line| - 1] == ')' then
      var (p, ds) := SplitDigits(line[..|line| - 1]);
      if ds != [] && EndsWith(p, " (+") then Some((p[..|p| - 3], Parse(ds), true)) else None
    else
      Some((line, 0, false))
  }

  /** The entry a line below the root describes, or `None` if the writer cannot have written it. */
  function ParseChildLine(line: string): Option<Entry>
  {
    match ParseSuffix(line)
    case None => None
    case Some(t) => ParseBody(t.0, t.1, t.2)
  }

  /** Parses `<pad>-<name> :\t<duration> ms`, given the offset and whether it was annotated. */
  function ParseBody(body: string, offset: nat, annotated: bool): Option<Entry>
  {
    if !EndsWith(body, " ms") then None
    else
      var split := SplitDigits(body[..|body| - 3]);
      if split.1 == [] || !EndsWith(split.0, " :\t") then None
      else ParseHead(split.0[..|split.0| - 3], Parse(split.1), offset, annotated)
  }

  /** Parses `<pad>-<name>`: the padding must be an even, nonzero number of blanks. */
  function ParseHead(head: string, duration: nat, offset: nat, annotated: bool): Option<Entry>
  {
    var k := LeadingSpaces(head);
    if k == |head| || head[k] != '-' || k == 0 || k % 2 != 0 then None
    else if annotated != (k / 2 != 1 || offset != 0) then None
    else Some(Entry(k / 2, head[k + 1..], duration, offset))
  }

  /** The part of a child line in front of the offset annotation. */
  function LineBody(e: Entry): string {
    Spaces(2 * e.depth) + "-" + e.name + " :\t" + Show(e.duration) + " ms"
  }

  lemma ParseSuffixOfLine(e: Entry)
    ensures ParseSuffix(ChildLine(e)) == Some((LineBody(e), e.offset, e.depth != 1 || e.offset != 0))
  {
    var body := LineBody(e);
    assert ChildLine(e) == body + OffsetSuffix(e.depth, e.offset);
    if e.depth != 1 || e.offset != 0 {
      var line := ChildLine(e);
      var lead := body + " (+";
      assert line == lead + Show(e.offset) + ")";
      DropAppended(lead + Show(e.offset), ")");
      SplitShow(lead, e.offset);
      DropAppended(body, " (+");
      ParseShow(e.offset);
    } else {
      assert ChildLine(e) == body;
    }
  }

  lemma ParseHeadOfLine(e: Entry)
    requires e.depth >= 1
    ensures ParseHead(Spaces(2 * e.depth) + "-" + e.name, e.duration, e.offset, e.depth != 1 || e.offset != 0) == Some(e)
  {
    var head := Spaces(2 * e.depth) + "-" + e.name;
    assert head == Spaces(2 * e.depth) + (['-'] + e.name);
    LeadingSpacesOfPadded(2 * e.depth, ['-'] + e.name);
    assert head[2 * e.depth] == '-';
    assert head[2 * e.depth + 1..] == e.name;
  }

  lemma ParseBodyOfLine(e: Entry)
    requires e.depth >= 1
    ensures ParseBody(LineBody(e), e.offset, e.depth != 1 || e.offset != 0) == Some(e)
  {
    var head := Spaces(2 * e.depth) + "-" + e.name;
    var lead := head + " :\t";
    var digits := lead + Show(e.duration);
    assert LineBody(e) == digits + " ms";
    DropAppended(digits, " ms");
    SplitShow(lead, e.duration);
    ParseShow(e.duration);
    DropAppended(head, " :\t");
    ParseHeadOfLine(e);
  }

  /** Reading a child line back gives the depth, name, duration and offset it was written from. */
  lemma ChildLineRoundTrip(e: Entry)
    requires e.depth >= 1
    ensures ParseChildLine(ChildLine(e)) == Some(e)
  {
    ParseSuffixOfLine(e);
    ParseBodyOfLine(e);
  }

  /** Different entries give different lines, so the report loses nothing about a node. */
  lemma ChildLineInjective(e1: Entry, e2: Entry)
    requires e1.depth >= 1 && e2.depth >= 1
    ensures ChildLine(e1) == ChildLine(e2) <==> e1 == e2
  {
    if ChildLine(e1) == ChildLine(e2) {
      ChildLineRoundTrip(e1);
      ChildLineRoundTrip(e2);
    }
  }

  /**
   * The layout of a child line: `2 * depth` blanks and a dash in front, and a closing
   * parenthesis at the end exactly when the offset is shown, that is, below depth 1 or
   * for a nonzero offset.
   */
  lemma ChildLineShape(e: Entry)
    requires e.depth >= 1
    ensures var line := ChildLine(e);
      && LeadingSpaces(line) == 2 * e.depth
      && line[2 * e.depth] == '-'
      && (line[|line| - 1] == ')' <==> (e.depth > 1 || e.offset != 0))
  {
    var line := ChildLine(e);
    var rest := "-" + e.name + " :\t" + Show(e.duration) + " ms" + OffsetSuffix(e.depth, e.offset);
    assert line == Spaces(2 * e.depth) + rest;
    LeadingSpacesOfPadded(2 * e.depth, rest);
  }
}
