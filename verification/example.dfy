/**
 * One concrete tree: root "Op" with steps "A" and "B", and "B" holding a step "C", every node
 * disposed with its duration fixed. The report it renders is written out character for character.
 */
module Example {
  import opened Wrappers
  import opened Arena
  import Decimal
  import Report
  import Text

  /** Ids 0 to 3: "Op" at offset 0, "A" after 0 ms, "B" after 10 ms, "C" after 12 ms. */
  function Tree(): Nodes {
    map[
      0 := Node("Op", 0, 0, 30, [1, 2], true, Some(7), true),
      1 := Node("A", 0, 0, 10, [], true, None, false),
      2 := Node("B", 0, 10, 20, [3], true, None, false),
      3 := Node("C", 0, 12, 5, [], true, None, false)]
  }

  lemma ShowSmall()
    ensures Decimal.Show(0) == "0" && Decimal.Show(3) == "3" && Decimal.Show(5) == "5"
    ensures Decimal.Show(10) == "10" && Decimal.Show(12) == "12"
    ensures Decimal.Show(20) == "20" && Decimal.Show(30) == "30"
  {
    assert Decimal.Show(1) == "1" && Decimal.Show(2) == "2";
  }

  /** The entries below the root, in pre-order. */
  lemma ExamplePreorder()
    ensures Ordered(Tree(), 4)
    ensures Report.PreorderList(Tree(), 4, [1, 2], 0, 1)
      == [Report.Entry(1, "A", 10, 0), Report.Entry(1, "B", 20, 10), Report.Entry(2, "C", 5, 12)]
  {
    var t := Tree();
    assert Report.PreorderList(t, 4, [], 3, 3) == [];
    assert Report.Preorder(t, 4, 3, 2) == [Report.Entry(2, "C", 5, 12)];
    assert Report.PreorderList(t, 4, [3], 2, 2) == [Report.Entry(2, "C", 5, 12)];
    assert Report.Preorder(t, 4, 2, 1) == [Report.Entry(1, "B", 20, 10), Report.Entry(2, "C", 5, 12)];
    assert Report.PreorderList(t, 4, [], 1, 2) == [];
    assert Report.Preorder(t, 4, 1, 1) == [Report.Entry(1, "A", 10, 0)];
    assert [1, 2][1..] == [2];
    assert Report.PreorderList(t, 4, [2], 0, 1) == Report.Preorder(t, 4, 2, 1);
  }

  lemma ExampleLineA()
    ensures Report.ChildLine(Report.Entry(1, "A", 10, 0)) == "  -A :\t10 ms"
  {
    ShowSmall();
    assert Text.Spaces(2) == "  ";
    assert Report.OffsetSuffix(1, 0) == "";
  }

  lemma ExampleLineB()
    ensures Report.ChildLine(Report.Entry(1, "B", 20, 10)) == "  -B :\t20 ms (+10)"
  {
    ShowSmall();
    assert Text.Spaces(2) == "  ";
    assert Report.OffsetSuffix(1, 10) == " (+10)";
  }

  lemma ExampleLineC()
    ensures Report.ChildLine(Report.Entry(2, "C", 5, 12)) == "    -C :\t5 ms (+12)"
  {
    ShowSmall();
    assert Text.Spaces(4) == "    ";
    assert Report.OffsetSuffix(2, 12) == " (+12)";
  }

  /**
   * The lines: the root, "A" at depth 1 with no offset shown, "B" at depth 1 with its offset,
   * "C" at depth 2 with its offset, and the overhead line for 3 ms of rendering.
   */
  lemma ExampleLines()
    ensures Ordered(Tree(), 4)
    ensures Report.ReportLines(Tree(), 4, 0, 3) == [
      "Op :\t30 ms",
      "  -A :\t10 ms",
      "  -B :\t20 ms (+10)",
      "    -C :\t5 ms (+12)",
      "Measure overhead: 3 ms"]
  {
    ExamplePreorder();
    ExampleLineA();
    ExampleLineB();
    ExampleLineC();
    ShowSmall();
    var t := Tree();
    assert t[0].children == [1, 2] && t[0].name == "Op" && t[0].duration == 30;
    assert Report.RootLine("Op", 30) == "Op :\t30 ms";
    assert Report.OverheadLine(3) == "Measure overhead: 3 ms";
    assert Report.OverheadLines(3) == ["Measure overhead: 3 ms"];
    var es := [Report.Entry(1, "A", 10, 0), Report.Entry(1, "B", 20, 10), Report.Entry(2, "C", 5, 12)];
    assert Report.ChildLines(es) == [Report.ChildLine(es[0]), Report.ChildLine(es[1]), Report.ChildLine(es[2])];
  }

  lemma JoinFive(a: string, b: string, c: string, d: string, e: string, nl: string)
    ensures Text.Join([a, b, c, d, e], nl) == a + nl + b + nl + c + nl + d + nl + e
  {
    assert [d, e][1..] == [e];
    assert Text.Join([d, e], nl) == d + nl + e;
    assert [c, d, e][1..] == [d, e];
    assert Text.Join([c, d, e], nl) == c + nl + (d + nl + e);
    assert [b, c, d, e][1..] == [c, d, e];
    assert Text.Join([b, c, d, e], nl) == b + nl + (c + nl + (d + nl + e));
    assert [a, b, c, d, e][1..] == [b, c, d, e];
    assert Text.Join([a, b, c, d, e], nl) == a + nl + (b + nl + (c + nl + (d + nl + e)));
  }

  /** With `"\r\n"` as the newline, the text the logger receives. */
  lemma ExampleReport()
    ensures Ordered(Tree(), 4)
    ensures Report.Report(Tree(), 4, 0, 3, "\r\n")
      == "Op :\t30 ms" + "\r\n" + "  -A :\t10 ms" + "\r\n" + "  -B :\t20 ms (+10)" + "\r\n"
         + "    -C :\t5 ms (+12)" + "\r\n" + "Measure overhead: 3 ms"
  {
    ExampleLines();
    assert Report.NewLineOk("\r\n");
    JoinFive("Op :\t30 ms", "  -A :\t10 ms", "  -B :\t20 ms (+10)", "    -C :\t5 ms (+12)",
      "Measure overhead: 3 ms", "\r\n");
  }
}
