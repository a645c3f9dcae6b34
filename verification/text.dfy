/** String helpers for the report writer: padding, `TextWriter.WriteLine` and `String.TrimEnd`. */
module Text {

  /** `k` blanks, the padding `String.PadLeft` inserts. */
  function Spaces(k: nat): (r: string)
    ensures |r| == k
    ensures forall i | 0 <= i < k :: r[i] == ' '
  {
    if k == 0 then [] else Spaces(k - 1) + [' ']
  }

  /** What a `StringWriter` holds after `WriteLine` of each of `lines`, with `nl` as the newline. */
  function Written(lines: seq<string>, nl: string): string
  {
    if lines == [] then [] else lines[0] + nl + Written(lines[1..], nl)
  }

  /** The lines separated (not terminated) by `nl`. */
  function Join(lines: seq<string>, nl: string): string
  {
    if lines == [] then []
    else if |lines| == 1 then lines[0]
    else lines[0] + nl + Join(lines[1..], nl)
  }

  predicate EndsIn(s: string, cs: set<char>) {
    |s| > 0 && s[|s| - 1] in cs
  }

  /** `String.TrimEnd(cs)`: the longest prefix of `s` that does not end in a character of `cs`. */
  function TrimEnd(s: string, cs: set<char>): (r: string)
    ensures |r| <= |s| && r == s[..|r|]
    ensures !EndsIn(r, cs)
    ensures forall i | |r| <= i < |s| :: s[i] in cs
  {
    if EndsIn(s, cs) then TrimEnd(s[..|s| - 1], cs) else s
  }

  /** The three properties of `TrimEnd` determine its result. */
  lemma TrimEndUnique(s: string, cs: set<char>, r: string)
    requires |r| <= |s| && r == s[..|r|]
    requires !EndsIn(r, cs)
    requires forall i | |r| <= i < |s| :: s[i] in cs
    ensures TrimEnd(s, cs) == r
  {
    var t := TrimEnd(s, cs);
    if |t| != |r| {
      assert false;
    }
  }

  lemma WrittenAppend(lines: seq<string>, line: string, nl: string)
    ensures Written(lines + [line], nl) == Written(lines, nl) + line + nl
  {
    if lines != [] {
      assert (lines + [line])[1..] == lines[1..] + [line];
      WrittenAppend(lines[1..], line, nl);
    } else {
      assert [line][1..] == [];
    }
  }

  lemma {:induction false} WrittenConcat(a: seq<string>, b: seq<string>, nl: string)
    ensures Written(a + b, nl) == Written(a, nl) + Written(b, nl)
    decreases |a|
  {
    if a == [] {
      assert a + b == b;
    } else {
      assert (a + b)[1..] == a[1..] + b;
      WrittenConcat(a[1..], b, nl);
    }
  }

  /** Writing lines one per `WriteLine` is joining them and writing one more newline. */
  lemma {:induction false} WrittenIsJoined(lines: seq<string>, nl: string)
    requires lines != []
    ensures Written(lines, nl) == Join(lines, nl) + nl
    decreases |lines|
  {
    if |lines| == 1 {
      assert lines[1..] == [];
    } else {
      WrittenIsJoined(lines[1..], nl);
    }
  }

  /** The joined text ends where the last line ends. */
  lemma {:induction false} JoinLast(lines: seq<string>, nl: string)
    requires lines != [] && |lines[|lines| - 1]| > 0
    ensures var j := Join(lines, nl); var l := lines[|lines| - 1];
      |j| >= |l| && j[|j| - |l|..] == l
    decreases |lines|
  {
    if |lines| > 1 {
      JoinLast(lines[1..], nl);
    }
  }

  /**
   * Trimming the newline characters off the written text of lines whose last line ends in a kept
   * character leaves exactly the lines joined by the newline.
   */
  lemma TrimWritten(lines: seq<string>, nl: string, cs: set<char>)
    requires lines != []
    requires forall i | 0 <= i < |nl| :: nl[i] in cs
    requires |lines[|lines| - 1]| > 0 && !EndsIn(lines[|lines| - 1], cs)
    ensures TrimEnd(Written(lines, nl), cs) == Join(lines, nl)
  {
    var j := Join(lines, nl);
    var w := Written(lines, nl);
    WrittenIsJoined(lines, nl);
    JoinLast(lines, nl);
    var l := lines[|lines| - 1];
    assert j[|j| - 1] == l[|l| - 1];
    assert w[..|j|] == j;
    forall i | |j| <= i < |w|
      ensures w[i] in cs
    {
      assert w[i] == nl[i - |j|];
    }
    TrimEndUnique(w, cs, j);
  }
}
