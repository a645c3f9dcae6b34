/**
 * The report a root profiler writes when it is disposed: `Profiler.WriteTimes` and the
 * rendering part of `Profiler.Dispose`.
 */
module Report {
  import opened Arena
  import opened Decimal
  import opened Text

  /** `_trimLineBreak`, the characters trimmed off the end of the report. */
  const TrimLineBreak: set<char> := {'\r', '\n', ' '}

  /** The newline the writer uses is made of characters the final trim removes. */
  predicate NewLineOk(nl: string) {
    forall i | 0 <= i < |nl| :: nl[i] in TrimLineBreak
  }

  /** What one report line below the root says about one node. */
  datatype Entry = Entry(depth: nat, name: string, duration: nat, offset: nat)

  function EntryOf(n: Node, depth: nat): Entry {
    Entry(depth, n.name, n.duration, n.offset)
  }

  /** The `" (+offset)"` annotation: left out at depth 1 for a zero offset, always written deeper. */
  function OffsetSuffix(depth: nat, offset: nat): string {
    if depth == 1 then
      (if offset != 0 then " (+" + Show(offset) + ")" else "")
    else
      " (+" + Show(offset) + ")"
  }

  /**
   * A line below the root: the format padded with `2 * depth` blanks, then filled in. It ends in
   * a digit, `s` or `)`, a character the final trim keeps.
   */
  function ChildLine(e: Entry): (r: string)
    ensures |r| > 0 && !EndsIn(r, TrimLineBreak)
  {
    Spaces(2 * e.depth) + "-" + e.name + " :\t" + Show(e.duration) + " ms" + OffsetSuffix(e.depth, e.offset)
  }

  /** The root's line: its name and its duration; it ends in `s`, which the trim keeps. */
  function RootLine(name: string, duration: nat): (r: string)
    ensures |r| > |name| && r[..|name|] == name && !EndsIn(r, TrimLineBreak)
  {
    name + " :\t" + Show(duration) + " ms"
  }

  /** The overhead line: it ends in `s`, which the trim keeps. */
  function OverheadLine(overhead: nat): (r: string)
    ensures |r| > 0 && !EndsIn(r, TrimLineBreak)
  {
    "Measure overhead: " + Show(overhead) + " ms"
  }

  function ChildLines(es: seq<Entry>): (r: seq<string>)
    ensures |r| == |es| && forall i | 0 <= i < |es| :: r[i] == ChildLine(es[i])
  {
    seq(|es|, i requires 0 <= i < |es| => ChildLine(es[i]))
  }

  /**
   * `WriteTimes(writer, depth)` on node `id`: its own line, then each child one level deeper.
   * What it writes is one line per node of the subtree, in pre-order.
   */
  function WriteTimes(nodes: Nodes, next: nat, id: NodeId, depth: nat, nl: string): (r: string)
    requires Ordered(nodes, next) && id in nodes
    ensures r == Written(ChildLines(Preorder(nodes, next, id, depth)), nl)
    decreases next - id + 1, 0
  {
    var n := nodes[id];
    var line := ChildLine(EntryOf(n, depth));
    var below := PreorderList(nodes, next, n.children, id, depth + 1);
    assert ChildLines(Preorder(nodes, next, id, depth)) == [line] + ChildLines(below);
    WrittenConcat([line], ChildLines(below), nl);
    assert Written([line], nl) == line + nl + Written([], nl);
    line + nl + WriteTimesList(nodes, next, n.children, id, depth + 1, nl)
  }

  /**
   * The `foreach (var child in children) child.WriteTimes(writer, depth)` loop: the subtrees'
   * lines one after another.
   */
  function WriteTimesList(nodes: Nodes, next: nat, ids: seq<NodeId>, parent: NodeId, depth: nat, nl: string): (r: string)
    requires Ordered(nodes, next) && parent < next
    requires forall k | k in ids :: parent < k && k in nodes
    ensures r == Written(ChildLines(PreorderList(nodes, next, ids, parent, depth)), nl)
    decreases next - parent, |ids|
  {
    if ids == [] then []
    else
      assert ids[0] in ids && forall j | j in ids[1..] :: j in ids;
      var first := Preorder(nodes, next, ids[0], depth);
      var rest := PreorderList(nodes, next, ids[1..], parent, depth);
      ChildLinesConcat(first, rest);
      WrittenConcat(ChildLines(first), ChildLines(rest), nl);
      WriteTimes(nodes, next, ids[0], depth, nl) + WriteTimesList(nodes, next, ids[1..], parent, depth, nl)
  }

  /** The subtree of `id` in pre-order, children in list order, each node with its depth. */
  function Preorder(nodes: Nodes, next: nat, id: NodeId, depth: nat): (r: seq<Entry>)
    requires Ordered(nodes, next) && id in nodes
    ensures |r| > 0 && r[0] == EntryOf(nodes[id], depth)
    ensures forall i | 0 <= i < |r| :: r[i].depth >= depth
    decreases next - id + 1, 0
  {
    [EntryOf(nodes[id], depth)] + PreorderList(nodes, next, nodes[id].children, id, depth + 1)
  }

  function PreorderList(nodes: Nodes, next: nat, ids: seq<NodeId>, parent: NodeId, depth: nat): (r: seq<Entry>)
    requires Ordered(nodes, next) && parent < next
    requires forall k | k in ids :: parent < k && k in nodes
    ensures |r| >= |ids|
    ensures forall i | 0 <= i < |r| :: r[i].depth >= depth
    decreases next - parent, |ids|
  {
    if ids == [] then []
    else
      assert ids[0] in ids && forall j | j in ids[1..] :: j in ids;
      Preorder(nodes, next, ids[0], depth) + PreorderList(nodes, next, ids[1..], parent, depth)
  }

  /** The entries at exactly depth `d`. */
  function AtDepth(es: seq<Entry>, d: nat): seq<Entry>
  {
    if es == [] then []
    else (if es[0].depth == d then [es[0]] else []) + AtDepth(es[1..], d)
  }

  lemma {:induction false} AtDepthConcat(a: seq<Entry>, b: seq<Entry>, d: nat)
    ensures AtDepth(a + b, d) == AtDepth(a, d) + AtDepth(b, d)
    decreases |a|
  {
    if a == [] {
      assert a + b == b;
    } else {
      assert (a + b)[1..] == a[1..] + b;
      AtDepthConcat(a[1..], b, d);
    }
  }

  lemma {:induction false} AtDepthDeeper(es: seq<Entry>, d: nat)
    requires forall i | 0 <= i < |es| :: es[i].depth > d
    ensures AtDepth(es, d) == []
    decreases |es|
  {
    if es != [] {
      AtDepthDeeper(es[1..], d);
    }
  }

  function EntriesOf(nodes: Nodes, ids: seq<NodeId>, depth: nat): (r: seq<Entry>)
    requires forall k | k in ids :: k in nodes
    ensures |r| == |ids| && forall i | 0 <= i < |ids| :: r[i] == EntryOf(nodes[ids[i]], depth)
  {
    seq(|ids|, i requires 0 <= i < |ids| => EntryOf(nodes[ids[i]], depth))
  }

  /**
   * The entries at the children's own depth are the children themselves, in insertion order:
   * every child is listed once and before its later siblings, whatever its descendants are.
   */
  lemma {:induction false} ChildrenInInsertionOrder(nodes: Nodes, next: nat, ids: seq<NodeId>, parent: NodeId, depth: nat)
    requires Ordered(nodes, next) && parent < next
    requires forall k | k in ids :: parent < k && k in nodes
    ensures AtDepth(PreorderList(nodes, next, ids, parent, depth), depth) == EntriesOf(nodes, ids, depth)
    decreases |ids|
  {
    if ids != [] {
      var k := ids[0];
      assert k in ids;
      assert forall j | j in ids[1..] :: j in ids;
      var below := PreorderList(nodes, next, nodes[k].children, k, depth + 1);
      var rest := PreorderList(nodes, next, ids[1..], parent, depth);
      AtDepthConcat(Preorder(nodes, next, k, depth), rest, depth);
      AtDepthConcat([EntryOf(nodes[k], depth)], below, depth);
      AtDepthDeeper(below, depth);
      assert AtDepth([EntryOf(nodes[k], depth)], depth) == [EntryOf(nodes[k], depth)];
      ChildrenInInsertionOrder(nodes, next, ids[1..], parent, depth);
      assert EntriesOf(nodes, ids, depth) == [EntryOf(nodes[k], depth)] + EntriesOf(nodes, ids[1..], depth);
    }
  }

  lemma ChildLinesConcat(a: seq<Entry>, b: seq<Entry>)
    ensures ChildLines(a + b) == ChildLines(a) + ChildLines(b)
  {
  }

  /** The overhead line, written only when the overhead is not zero. */
  function OverheadLines(overhead: nat): seq<string> {
    if overhead != 0 then [OverheadLine(overhead)] else []
  }

  /**
   * What the `StringWriter` holds before the trim: the root line, every descendant's line from
   * depth 1 on, and the overhead line, each written with `WriteLine`.
   */
  function ReportText(nodes: Nodes, next: nat, root: NodeId, overhead: nat, nl: string): (r: string)
    requires Ordered(nodes, next) && root in nodes
    ensures r == Written(ReportLines(nodes, next, root, overhead), nl)
  {
    var n := nodes[root];
    var es := PreorderList(nodes, next, n.children, root, 1);
    var head := [RootLine(n.name, n.duration)];
    WrittenConcat(head + ChildLines(es), OverheadLines(overhead), nl);
    WrittenConcat(head, ChildLines(es), nl);
    assert Written(head, nl) == RootLine(n.name, n.duration) + nl + Written([], nl);
    assert overhead != 0 ==> Written([OverheadLine(overhead)], nl) == OverheadLine(overhead) + nl + Written([], nl);
    RootLine(n.name, n.duration) + nl
      + WriteTimesList(nodes, next, n.children, root, 1, nl)
      + (if overhead != 0 then OverheadLine(overhead) + nl else [])
  }

  /**
   * The message a root's first `Dispose` hands to `ILogger.Info`: the writer's text with the
   * trailing newlines trimmed. As every line ends in a kept character, that is exactly the
   * report's lines joined by the newline: the trim removes the last newline and nothing else.
   */
  function Report(nodes: Nodes, next: nat, root: NodeId, overhead: nat, nl: string): (r: string)
    requires Ordered(nodes, next) && root in nodes
    ensures NewLineOk(nl) ==> r == Join(ReportLines(nodes, next, root, overhead), nl)
  {
    var text := ReportText(nodes, next, root, overhead, nl);
    if NewLineOk(nl) then
      var ls := ReportLines(nodes, next, root, overhead);
      ReportLinesEnd(nodes, next, root, overhead);
      TrimWritten(ls, nl, TrimLineBreak);
      TrimEnd(text, TrimLineBreak)
    else
      TrimEnd(text, TrimLineBreak)
  }

  /** The lines of the report: root line, the descendants in pre-order, the overhead line. */
  function ReportLines(nodes: Nodes, next: nat, root: NodeId, overhead: nat): (r: seq<string>)
    requires Ordered(nodes, next) && root in nodes
    ensures |r| == 1 + |PreorderList(nodes, next, nodes[root].children, root, 1)| + (if overhead != 0 then 1 else 0)
  {
    [RootLine(nodes[root].name, nodes[root].duration)]
      + ChildLines(PreorderList(nodes, next, nodes[root].children, root, 1))
      + OverheadLines(overhead)
  }

  /** Every line ends in a character the trim keeps (an `s` or a `)`). */
  lemma ReportLinesEnd(nodes: Nodes, next: nat, root: NodeId, overhead: nat)
    requires Ordered(nodes, next) && root in nodes
    ensures var ls := ReportLines(nodes, next, root, overhead);
      forall i | 0 <= i < |ls| :: |ls[i]| > 0 && !EndsIn(ls[i], TrimLineBreak)
  {
    var es := PreorderList(nodes, next, nodes[root].children, root, 1);
    assert forall i | 0 <= i < |es| :: |ChildLine(es[i])| > 0 && !EndsIn(ChildLine(es[i]), TrimLineBreak);
  }

  /**
   * The report's first line is the root's, and its last line is the overhead line exactly when
   * the overhead is not zero.
   */
  lemma ReportLinesEnds(nodes: Nodes, next: nat, root: NodeId, overhead: nat)
    requires Ordered(nodes, next) && root in nodes
    ensures var ls := ReportLines(nodes, next, root, overhead);
      && ls[0] == RootLine(nodes[root].name, nodes[root].duration)
      && (ls[|ls| - 1] == OverheadLine(overhead) <==> overhead != 0)
  {
    var n := nodes[root];
    var es := PreorderList(nodes, next, n.children, root, 1);
    if overhead == 0 {
      LastLineNotOverhead(n.name, n.duration, es);
      assert ReportLines(nodes, next, root, overhead) == [RootLine(n.name, n.duration)] + ChildLines(es);
    }
  }

  /** No root line or child line reads as the overhead line. */
  lemma LastLineNotOverhead(name: string, duration: nat, es: seq<Entry>)
    ensures var lines := [RootLine(name, duration)] + ChildLines(es);
      lines[|lines| - 1] != OverheadLine(0)
  {
    var lines := [RootLine(name, duration)] + ChildLines(es);
    if |es| == 0 {
      RootLineNotOverhead(name, duration);
    } else {
      assert lines[|lines| - 1] == ChildLine(es[|es| - 1]);
      ChildLineNotOverhead(es[|es| - 1]);
    }
  }

  /** The tab after the root's name is a character the overhead line does not have. */
  lemma RootLineNotOverhead(name: string, duration: nat)
    ensures RootLine(name, duration) != OverheadLine(0)
  {
    var a := RootLine(name, duration);
    var b := OverheadLine(0);
    assert a[|name| + 2] == '\t';
    assert forall i | 0 <= i < |b| :: b[i] != '\t';
  }

  /** A line below the root starts with a blank or a dash, the overhead line with `M`. */
  lemma ChildLineNotOverhead(e: Entry)
    ensures ChildLine(e) != OverheadLine(0)
  {
    var a := ChildLine(e);
    var b := OverheadLine(0);
    if 2 * e.depth > 0 {
      assert a[0] == ' ' && b[0] == 'M';
    } else {
      assert a[0] == '-' && b[0] == 'M';
    }
  }
}
