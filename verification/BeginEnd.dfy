/** The tree of a BEGIN/END text: linked nodes built line by line, and the printed form read back. */
module BeginEnd {
  import opened Bytes
  import opened Ascii
  import opened IcsText
  import opened ContentLine

  const BEGIN: Bytes := [98, 101, 103, 105, 110]
  const END: Bytes := [101, 110, 100]

  /** The two words, as keys are compared: in small letters. */
  lemma WordsSpelled()
    ensures BEGIN == Ascii.Text("begin") && END == Ascii.Text("end")
  {
  }

  // ---- the tree as a value ----

  datatype Node = Node(line: Line, children: seq<Node>)

  const EMPTY_LINE: Line := Line([], [], [])

  /** A node still open: its line and the children completed so far. */
  datatype Frame = Frame(line: Line, done: seq<Node>)

  /** The open nodes from the root to the current one: never empty. */
  type Spine = s: seq<Frame> | |s| > 0 witness [Frame(EMPTY_LINE, [])]

  const START: Spine := [Frame(EMPTY_LINE, [])]

  function WithChild(s: Spine, child: Node): (r: Spine)
    ensures |r| == |s|
  {
    var n := |s| - 1;
    s[n := Frame(s[n].line, s[n].done + [child])]
  }

  function Top(s: Spine): Node {
    Node(s[|s| - 1].line, s[|s| - 1].done)
  }

  /** The current node is complete and its parent is current again. */
  function Pop(s: Spine): (r: Spine)
    requires |s| > 1
    ensures |r| == |s| - 1
  {
    WithChild(s[..|s| - 1], Top(s))
  }

  function Step(s: Spine, line: Line): Spine {
    if line.key == BEGIN then s + [Frame(line, [])]
    else if line.key == END then (if |s| > 1 then Pop(s) else s)
    else WithChild(s, Node(line, []))
  }

  function Run(s: Spine, lines: seq<Line>): Spine
    decreases |lines|
  {
    if lines == [] then s else Step(Run(s, lines[..|lines| - 1]), lines[|lines| - 1])
  }

  /** The tree when nothing more comes. */
  function Close(s: Spine): Node
    decreases |s|
  {
    if |s| == 1 then Top(s) else Close(Pop(s))
  }

  function TreeOf(lines: seq<Line>): Node {
    Close(Run(START, lines))
  }

  // ---- document order ----

  /** The lines of a forest in document order. */
  function Order(forest: seq<Node>): seq<Line> {
    if forest == [] then []
    else
      var last := forest[|forest| - 1];
      Order(forest[..|forest| - 1]) + [last.line] + Order(last.children)
  }

  function SpineOrder(s: seq<Frame>): seq<Line> {
    if s == [] then [] else SpineOrder(s[..|s| - 1]) + [s[|s| - 1].line] + Order(s[|s| - 1].done)
  }

  function WithoutEnds(lines: seq<Line>): seq<Line> {
    if lines == [] then []
    else WithoutEnds(lines[..|lines| - 1]) + (if lines[|lines| - 1].key == END then [] else [lines[|lines| - 1]])
  }

  lemma OrderSnoc(forest: seq<Node>, last: Node)
    ensures Order(forest + [last]) == Order(forest) + [last.line] + Order(last.children)
  {
    assert (forest + [last])[..|forest|] == forest;
  }

  lemma SpineOrderSnoc(s: seq<Frame>, top: Frame)
    ensures SpineOrder(s + [top]) == SpineOrder(s) + [top.line] + Order(top.done)
  {
    assert (s + [top])[..|s|] == s;
  }

  lemma ChildOrder(s: Spine, child: Node)
    ensures SpineOrder(WithChild(s, child)) == SpineOrder(s) + [child.line] + Order(child.children)
  {
    hide Order, SpineOrder;
    var n := |s| - 1;
    var rest, top := s[..n], s[n];
    assert s == rest + [top];
    SpineOrderSnoc(rest, top);
    var top' := Frame(top.line, top.done + [child]);
    assert WithChild(s, child) == rest + [top'];
    SpineOrderSnoc(rest, top');
    OrderSnoc(top.done, child);
  }

  lemma PopOrder(s: Spine)
    requires |s| > 1
    ensures SpineOrder(Pop(s)) == SpineOrder(s)
  {
    hide Order, SpineOrder, WithChild;
    var n := |s| - 1;
    assert s == s[..n] + [s[n]];
    SpineOrderSnoc(s[..n], s[n]);
    ChildOrder(s[..n], Top(s));
  }

  lemma StepOrder(s: Spine, line: Line)
    ensures SpineOrder(Step(s, line)) == SpineOrder(s) + if line.key == END then [] else [line]
  {
    hide Order, SpineOrder, Pop, WithChild;
    assert Order([]) == [] by { NoOrder(); }
    if line.key == BEGIN {
      SpineOrderSnoc(s, Frame(line, []));
    } else if line.key == END {
      if |s| > 1 { PopOrder(s); }
    } else {
      ChildOrder(s, Node(line, []));
    }
  }

  lemma NoOrder()
    ensures Order([]) == []
  {
  }

  lemma {:induction false} RunOrder(lines: seq<Line>)
    ensures SpineOrder(Run(START, lines)) == [EMPTY_LINE] + WithoutEnds(lines)
    decreases |lines|
  {
    hide Step, SpineOrder, Order;
    if lines == [] {
      SpineOrderSnoc([], START[0]);
      assert [] + [START[0]] == START;
      assert SpineOrder([]) == [] by { NoSpineOrder(); }
      NoOrder();
    } else {
      var front, last := lines[..|lines| - 1], lines[|lines| - 1];
      RunOrder(front);
      StepOrder(Run(START, front), last);
    }
  }

  lemma NoSpineOrder()
    ensures SpineOrder([]) == []
  {
  }

  lemma {:induction false} CloseOrder(s: Spine)
    ensures [Close(s).line] + Order(Close(s).children) == SpineOrder(s)
    decreases |s|
  {
    hide Order, SpineOrder, Pop;
    if |s| == 1 {
      assert s == [] + [s[0]];
      SpineOrderSnoc([], s[0]);
      NoSpineOrder();
    } else {
      PopOrder(s);
      CloseOrder(Pop(s));
    }
  }

  /** For every sequence of lines, balanced or not: all lines but the ENDs, each once and in order. */
  lemma DocumentOrder(lines: seq<Line>)
    ensures Order(TreeOf(lines).children) == WithoutEnds(lines)
    ensures TreeOf(lines).line == EMPTY_LINE
  {
    hide Order, SpineOrder, Close, Run, WithoutEnds;
    RunOrder(lines);
    CloseOrder(Run(START, lines));
    var tree := TreeOf(lines);
    assert ([tree.line] + Order(tree.children))[1..] == ([EMPTY_LINE] + WithoutEnds(lines))[1..];
    assert ([tree.line] + Order(tree.children))[0] == ([EMPTY_LINE] + WithoutEnds(lines))[0];
  }

  // ---- printing and reading back ----

  /** Only BEGIN lines have children, and no node is an END line. */
  predicate WellFormed(n: Node)
  {
    n.line.key != END && (n.line.key != BEGIN ==> n.children == []) && forall c :: c in n.children ==> WellFormed(c)
  }

  const END_LINE: Line := Line(END, [], [])

  function PrintNode(n: Node): seq<Line>
    decreases n, 0
  {
    if n.line.key == BEGIN then [n.line] + PrintForest(n.children) + [END_LINE] else [n.line]
  }

  function PrintForest(forest: seq<Node>): seq<Line>
    decreases forest, 1
  {
    if forest == [] then [] else PrintForest(forest[..|forest| - 1]) + PrintNode(forest[|forest| - 1])
  }

  lemma {:induction false} RunAppend(s: Spine, a: seq<Line>, b: seq<Line>)
    ensures Run(s, a + b) == Run(Run(s, a), b)
    decreases |b|
  {
    hide Step;
    if b == [] {
      assert a + b == a;
    } else {
      RunAppend(s, a, b[..|b| - 1]);
      assert (a + b)[..|a + b| - 1] == a + b[..|b| - 1];
    }
  }

  lemma RunOne(s: Spine, line: Line)
    ensures Run(s, [line]) == Step(s, line)
  {
    assert [line][..0] == [];
    assert Run(s, []) == s;
  }

  function WithChildren(s: Spine, children: seq<Node>): (r: Spine) {
    var n := |s| - 1;
    s[n := Frame(s[n].line, s[n].done + children)]
  }

  lemma {:induction false} RunPrintNode(s: Spine, n: Node)
    requires WellFormed(n)
    ensures Run(s, PrintNode(n)) == WithChild(s, n)
    decreases n, 0
  {
    hide Run;
    if n.line.key == BEGIN {
      var open, body := [n.line], PrintForest(n.children);
      RunAppend(s, open + body, [END_LINE]);
      RunAppend(s, open, body);
      RunOne(s, n.line);
      var s1 := s + [Frame(n.line, [])];
      RunPrintForest(s1, n.children);
      var s2 := WithChildren(s1, n.children);
      assert s2[..|s|] == s && Top(s2) == Node(n.line, [] + n.children) == n;
      RunOne(s2, END_LINE);
    } else {
      RunOne(s, n.line);
    }
  }

  lemma {:induction false} RunPrintForest(s: Spine, forest: seq<Node>)
    requires forall n :: n in forest ==> WellFormed(n)
    ensures Run(s, PrintForest(forest)) == WithChildren(s, forest)
    decreases forest, 1
  {
    if forest == [] {
      assert s[|s| - 1].done + forest == s[|s| - 1].done;
    } else {
      hide Run, WellFormed, PrintNode;
      var front, last := forest[..|forest| - 1], forest[|forest| - 1];
      assert last in forest;
      RunPrintForest(s, front);
      RunAppend(s, PrintForest(front), PrintNode(last));
      var s1 := WithChildren(s, front);
      RunPrintNode(s1, last);
      assert s[|s| - 1].done + front + [last] == s[|s| - 1].done + forest;
    }
  }

  /** Reading the printed form of a forest gives that forest back. */
  lemma ParsePrintedForest(forest: seq<Node>)
    requires forall n :: n in forest ==> WellFormed(n)
    ensures TreeOf(PrintForest(forest)) == Node(EMPTY_LINE, forest)
  {
    hide Run, WellFormed;
    RunPrintForest(START, forest);
    assert [] + forest == forest;
  }

  // ---- whole texts ----

  function ParseAll(lines: seq<Bytes>): (r: seq<Line>)
    ensures |r| == |lines|
  {
    if lines == [] then [] else ParseAll(lines[..|lines| - 1]) + [ParseLine(lines[|lines| - 1])]
  }

  /** What the parser makes of a text. */
  function TextTree(text: Bytes): Node {
    TreeOf(ParseAll(DropEmpty(Unfold(text, []))))
  }

  /** The tree handed out: the first top-level node, or the bare root when there is none. */
  function Document(root: Node): Node {
    if root.children == [] then root else root.children[0]
  }

  predicate Unbroken(s: Bytes) {
    LF !in s && CR !in s
  }

  /** A line that can be written as it is: keys in lower case, no line break outside its value. */
  predicate Writable(line: Line) {
    && Printable(line) && Canonical(line) == line
    && Unbroken(line.key) && (line.key == [] || (line.key[0] != SPACE && line.key[0] != TAB))
    && forall p :: p in line.params ==> Unbroken(p.key) && Unbroken(p.value)
  }

  function Text(lines: seq<Line>): Bytes {
    if lines == [] then [] else PrintLine(lines[0]) + CRLF + Text(lines[1..])
  }

  lemma {:induction false} ParamsUnbroken(ps: seq<Param>)
    requires forall p :: p in ps ==> Unbroken(p.key) && Unbroken(p.value)
    ensures Unbroken(PrintParams(ps))
    decreases |ps|
  {
    if ps != [] {
      assert ps[0] in ps;
      ParamsUnbroken(ps[1..]);
    }
  }

  lemma PrintedLine(line: Line)
    requires Writable(line)
    ensures Unbroken(PrintLine(line)) && ParseLine(PrintLine(line)) == line
    ensures PrintLine(line) != [] && PrintLine(line)[0] != SPACE && PrintLine(line)[0] != TAB
  {
    hide ParseLine, Canonical, Escape, PrintParams, Printable;
    ParamsUnbroken(line.params);
    ParsePrinted(line);
    ParamsStart(line.params);
  }

  lemma ParamsStart(ps: seq<Param>)
    ensures ps == [] ==> PrintParams(ps) == []
    ensures ps != [] ==> PrintParams(ps) != [] && PrintParams(ps)[0] == SEMICOLON
  {
  }

  function PrintAll(lines: seq<Line>): seq<Bytes> {
    if lines == [] then [] else [PrintLine(lines[0])] + PrintAll(lines[1..])
  }

  lemma {:induction false} UnfoldText(lines: seq<Line>)
    requires forall l :: l in lines ==> Writable(l)
    ensures Unfold(Text(lines), []) == PrintAll(lines)
    ensures lines != [] ==> Text(lines) != [] && Text(lines)[0] != SPACE && Text(lines)[0] != TAB
    decreases |lines|
  {
    hide Unfold, PrintLine, Writable;
    if lines == [] {
      UnfoldNothing();
    } else {
      assert lines[0] in lines;
      PrintedLine(lines[0]);
      UnfoldText(lines[1..]);
      var line, rest := PrintLine(lines[0]), Text(lines[1..]);
      assert Text(lines) == line + (CRLF + rest);
      UnfoldPlain(line, CRLF + rest, []);
      assert [] + line == line;
      UnfoldEnd(rest, line);
    }
  }

  lemma UnfoldNothing()
    ensures Unfold([], []) == []
  {
  }

  lemma {:induction false} ParseAllPrinted(lines: seq<Line>)
    requires forall l :: l in lines ==> Writable(l)
    ensures ParseAll(PrintAll(lines)) == lines
    decreases |lines|
  {
    hide PrintLine, ParseLine, Writable;
    if lines != [] {
      var front, last := lines[..|lines| - 1], lines[|lines| - 1];
      assert last in lines && lines == front + [last];
      PrintAllSnoc(front, last);
      PrintedLine(last);
      var printed := PrintAll(lines);
      assert printed[..|printed| - 1] == PrintAll(front);
      ParseAllPrinted(front);
    }
  }

  lemma {:induction false} PrintAllSnoc(front: seq<Line>, last: Line)
    ensures PrintAll(front + [last]) == PrintAll(front) + [PrintLine(last)]
    decreases |front|
  {
    hide PrintLine;
    if front == [] {
      assert [last][1..] == [] && front + [last] == [last];
    } else {
      assert (front + [last])[1..] == front[1..] + [last];
      PrintAllSnoc(front[1..], last);
    }
  }

  predicate AllWritable(n: Node) {
    Writable(n.line) && forall c :: c in n.children ==> AllWritable(c)
  }

  lemma {:induction false} NodeWritable(n: Node)
    requires AllWritable(n)
    ensures forall l :: l in PrintNode(n) ==> Writable(l)
    decreases n, 0
  {
    hide Writable;
    EndWritable();
    ForestWritable(n.children);
  }

  lemma {:induction false} ForestWritable(forest: seq<Node>)
    requires forall n :: n in forest ==> AllWritable(n)
    ensures forall l :: l in PrintForest(forest) ==> Writable(l)
    decreases forest, 1
  {
    hide Writable, AllWritable, PrintNode;
    if forest != [] {
      assert forest[|forest| - 1] in forest;
      NodeWritable(forest[|forest| - 1]);
      ForestWritable(forest[..|forest| - 1]);
    }
  }

  lemma EndWritable()
    ensures Writable(END_LINE)
  {
    assert Lower(END) == END;
  }

  lemma DropNothing(lines: seq<Bytes>)
    requires lines == [] || lines[0] != []
    ensures DropEmpty(lines) == lines
  {
  }

  /** Any forest written out as text is what the parser makes of that text. */
  lemma TextRoundTrip(forest: seq<Node>)
    requires forall n :: n in forest ==> WellFormed(n) && AllWritable(n)
    ensures TextTree(Text(PrintForest(forest))) == Node(EMPTY_LINE, forest)
  {
    hide Unfold, DropEmpty, Writable, WellFormed, AllWritable, TreeOf, PrintForest, PrintLine;
    var lines := PrintForest(forest);
    ForestWritable(forest);
    UnfoldText(lines);
    if lines != [] {
      assert lines[0] in lines;
      PrintedLine(lines[0]);
    }
    DropNothing(PrintAll(lines));
    ParseAllPrinted(lines);
    ParsePrintedForest(forest);
  }
}
