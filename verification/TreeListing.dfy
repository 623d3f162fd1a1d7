// Turning a tree(1) listing back into file paths (the mklib command).
//
// A listing line is a sequence of runes. The parser keeps one slice as a stack
// and re-slices it for every entry. In Go a re-slice may reach past the length,
// up to the capacity, where it exposes stale elements; past the capacity it
// panics. The model therefore carries the whole backing buffer.
module TreeListing {
  import opened Collecting
  import opened Options
  import opened Paths

  const TEE := '\U{251C}'
  const ELBOW := '\U{2514}'
  const BAR := '\U{2502}'
  const DASH := '\U{2500}'

  datatype Node = Node(depth: nat, name: string)

  predicate IsConnector(c: char) { c == TEE || c == ELBOW }

  predicate NoConnector(line: string)
  {
    forall i :: 0 <= i < |line| ==> !IsConnector(line[i])
  }

  // ---------------------------------------------------------------- reading

  method ConnectorIndex(line: string) returns (at: int)
    ensures -1 <= at < |line|
    ensures at < 0 <==> NoConnector(line)
    ensures at >= 0 ==> IsConnector(line[at]) && NoConnector(line[..at])
  {
    for i := 0 to |line|
      invariant NoConnector(line[..i])
    {
      if IsConnector(line[i]) { return i; }
    }
    return -1;
  }

  // The first connector, or the length of a line that has none.
  function Connector(line: string): (at: nat)
    ensures at <= |line|
    ensures at == |line| <==> NoConnector(line)
    ensures NoConnector(line[..at])
    ensures at < |line| ==> IsConnector(line[at])
  {
    if line == [] || IsConnector(line[0]) then 0
    else
      var rest := Connector(line[1..]);
      assert forall i :: 0 <= i < |line| && i > 0 ==> line[i] == line[1..][i - 1];
      1 + rest
  }

  lemma ConnectorUnique(line: string, at: nat)
    requires at < |line| && IsConnector(line[at]) && NoConnector(line[..at])
    ensures Connector(line) == at
  {
    var c := Connector(line);
    assert forall i :: 0 <= i < at ==> line[..at][i] == line[i];
    assert forall i :: 0 <= i < c ==> line[..c][i] == line[i];
  }

  datatype Line = Skipped | Entry(node: Node) | OutOfRange

  // A line without a connector is no entry; one that ends inside its connector
  // group slices out of range.
  function ReadLine(line: string): Line
  {
    var at := Connector(line);
    if at == |line| then Skipped
    else if at + 4 > |line| then OutOfRange
    else Entry(Node(at / 4, line[at + 4..]))
  }

  predicate Readable(lines: seq<string>)
  {
    forall i :: 0 <= i < |lines| ==> !ReadLine(lines[i]).OutOfRange?
  }

  function LineNodes(line: string): seq<Node>
  {
    var read := ReadLine(line);
    if read.Entry? then [read.node] else []
  }

  function ReadNodes(lines: seq<string>): seq<Node>
  {
    FlatMap(LineNodes, lines)
  }

  method ReadEntry(line: string) returns (read: Line)
    ensures read == ReadLine(line)
  {
    var at := ConnectorIndex(line);
    if at < 0 { return Skipped; }
    ConnectorUnique(line, at);
    if at + 4 > |line| { return OutOfRange; }
    read := Entry(Node(at / 4, line[at + 4..]));
  }

  method ReadListing(lines: seq<string>) returns (nodes: Option<seq<Node>>)
    ensures nodes == if Readable(lines) then Some(ReadNodes(lines)) else None
  {
    var read: seq<Node> := [];
    for i := 0 to |lines|
      invariant Readable(lines[..i]) && ReadNodes(lines[..i]) == read
    {
      FlatMapStep(LineNodes, lines, i);
      var line := ReadEntry(lines[i]);
      if line.OutOfRange? { return None; }
      if line.Entry? { read := read + [line.node]; }
    }
    assert lines[..|lines|] == lines;
    nodes := Some(read);
  }

  // ---------------------------------------------------------------- walking

  // The capacity that append picks when the buffer is full: any policy that
  // makes room for the new element.
  ghost predicate Grows(grow: nat -> nat)
  {
    forall n: nat :: grow(n) > n
  }

  function Blank(n: nat): (r: seq<string>)
    ensures |r| == n && forall i :: 0 <= i < n ==> r[i] == ""
  {
    if n == 0 then [] else [""] + Blank(n - 1)
  }

  // buf after append(stack[:depth], name): written in place while the buffer has
  // room, otherwise copied to a bigger one whose tail is empty strings.
  function Store(buf: seq<string>, node: Node, grow: nat -> nat): (r: seq<string>)
    requires node.depth <= |buf| && grow(|buf|) > |buf|
    ensures node.depth < |r| && r[..node.depth + 1] == buf[..node.depth] + [node.name]
  {
    if node.depth < |buf| then buf[node.depth := node.name]
    else buf + [node.name] + Blank(grow(|buf|) - |buf| - 1)
  }

  // A node is a directory iff the next entry is nested deeper.
  predicate LeadsDirectory(node: Node, rest: seq<Node>)
  {
    rest != [] && rest[0].depth > node.depth
  }

  // No re-slice goes past the capacity.
  ghost predicate InCapacity(nodes: seq<Node>, buf: seq<string>, grow: nat -> nat)
    requires Grows(grow)
    decreases |nodes|
  {
    nodes != [] ==>
      && nodes[0].depth <= |buf|
      && InCapacity(nodes[1..], Store(buf, nodes[0], grow), grow)
  }

  function Emit(node: Node, rest: seq<Node>, stack: seq<string>): seq<seq<string>>
  {
    if LeadsDirectory(node, rest) then [] else [stack]
  }

  // The stacks at the leaves, in order.
  ghost function Walk(nodes: seq<Node>, buf: seq<string>, grow: nat -> nat): seq<seq<string>>
    requires Grows(grow) && InCapacity(nodes, buf, grow)
    decreases |nodes|
  {
    if nodes == [] then []
    else
      var buf' := Store(buf, nodes[0], grow);
      Emit(nodes[0], nodes[1..], buf'[..nodes[0].depth + 1]) + Walk(nodes[1..], buf', grow)
  }

  lemma WalkUnfold(nodes: seq<Node>, i: nat, buf: seq<string>, grow: nat -> nat)
    requires Grows(grow) && i < |nodes|
    ensures InCapacity(nodes[i..], buf, grow) <==>
            nodes[i].depth <= |buf| && InCapacity(nodes[i + 1..], Store(buf, nodes[i], grow), grow)
    ensures InCapacity(nodes[i..], buf, grow) ==>
              Walk(nodes[i..], buf, grow) ==
              (var buf' := Store(buf, nodes[i], grow);
               Emit(nodes[i], nodes[i + 1..], buf'[..nodes[i].depth + 1]) + Walk(nodes[i + 1..], buf', grow))
  {
    WalkAt(nodes, i, nodes[i..], buf, grow);
  }

  lemma WalkAt(nodes: seq<Node>, i: nat, rest: seq<Node>, buf: seq<string>, grow: nat -> nat)
    requires Grows(grow) && i < |nodes| && rest == nodes[i..]
    ensures rest[1..] == nodes[i + 1..]
    ensures InCapacity(rest, buf, grow) <==>
            rest[0].depth <= |buf| && InCapacity(rest[1..], Store(buf, rest[0], grow), grow)
  {
  }

  function JoinAll(paths: seq<seq<string>>): (r: seq<string>)
    ensures |r| == |paths| && forall i :: 0 <= i < |r| ==> r[i] == Join(paths[i])
  {
    if paths == [] then [] else [Join(paths[0])] + JoinAll(paths[1..])
  }

  lemma JoinAllSplit(a: seq<seq<string>>, b: seq<seq<string>>)
    ensures JoinAll(a + b) == JoinAll(a) + JoinAll(b)
  {
  }

  const INITIAL_CAPACITY := 16

  // What parseBox returns; None is an out-of-range panic.
  ghost function BoxPaths(lines: seq<string>, grow: nat -> nat): Option<seq<string>>
    requires Grows(grow)
  {
    var nodes, buf := ReadNodes(lines), Blank(INITIAL_CAPACITY);
    if Readable(lines) && InCapacity(nodes, buf, grow) then Some(JoinAll(Walk(nodes, buf, grow))) else None
  }

  // append(stack[:depth], name) on the array that holds the stack.
  method Push(stack: array<string>, node: Node, grow: nat -> nat) returns (stack': array<string>)
    requires node.depth <= stack.Length && grow(stack.Length) > stack.Length
    modifies stack
    ensures stack' == stack || fresh(stack')
    ensures stack'[..] == Store(old(stack[..]), node, grow)
  {
    if node.depth < stack.Length {
      stack[node.depth] := node.name;
      return stack;
    }
    var length := stack.Length;
    stack' := new string[grow(length)](_ => "");
    forall j | 0 <= j < length { stack'[j] := stack[j]; }
    stack'[length] := node.name;
  }

  // The first i nodes emitted these leaves and left this buffer behind.
  ghost predicate Walked(nodes: seq<Node>, i: nat, buf: seq<string>, leaves: seq<seq<string>>, grow: nat -> nat)
    requires Grows(grow) && i <= |nodes|
  {
    var start := Blank(INITIAL_CAPACITY);
    && (InCapacity(nodes, start, grow) <==> InCapacity(nodes[i..], buf, grow))
    && (InCapacity(nodes, start, grow) ==> Walk(nodes, start, grow) == leaves + Walk(nodes[i..], buf, grow))
  }

  lemma WalkedStart(nodes: seq<Node>, grow: nat -> nat)
    requires Grows(grow)
    ensures Walked(nodes, 0, Blank(INITIAL_CAPACITY), [], grow)
  {
    assert nodes[0..] == nodes;
  }

  lemma WalkedStep(nodes: seq<Node>, i: nat, buf: seq<string>, leaves: seq<seq<string>>, grow: nat -> nat)
    requires Grows(grow) && i < |nodes| && Walked(nodes, i, buf, leaves, grow)
    ensures nodes[i].depth > |buf| ==> !InCapacity(nodes, Blank(INITIAL_CAPACITY), grow)
    ensures nodes[i].depth <= |buf| ==>
              var buf' := Store(buf, nodes[i], grow);
              Walked(nodes, i + 1, buf', leaves + Emit(nodes[i], nodes[i + 1..], buf'[..nodes[i].depth + 1]), grow)
  {
    WalkUnfold(nodes, i, buf, grow);
  }

  lemma WalkedAll(nodes: seq<Node>, buf: seq<string>, leaves: seq<seq<string>>, grow: nat -> nat)
    requires Grows(grow) && Walked(nodes, |nodes|, buf, leaves, grow)
    ensures InCapacity(nodes, Blank(INITIAL_CAPACITY), grow)
    ensures Walk(nodes, Blank(INITIAL_CAPACITY), grow) == leaves
  {
    assert nodes[|nodes|..] == [];
  }

  // The second loop of parseBox.
  method Replay(nodes: seq<Node>, grow: nat -> nat) returns (paths: Option<seq<string>>)
    requires Grows(grow)
    ensures var start := Blank(INITIAL_CAPACITY);
            paths == if InCapacity(nodes, start, grow) then Some(JoinAll(Walk(nodes, start, grow))) else None
  {
    var stack := new string[INITIAL_CAPACITY](_ => "");
    assert stack[..] == Blank(INITIAL_CAPACITY);
    var out: seq<string> := [];
    ghost var leaves: seq<seq<string>> := [];
    WalkedStart(nodes, grow);
    for i := 0 to |nodes|
      invariant fresh(stack) && out == JoinAll(leaves)
      invariant Walked(nodes, i, stack[..], leaves, grow)
    {
      var n := nodes[i];
      WalkedStep(nodes, i, stack[..], leaves, grow);
      if n.depth > stack.Length { return None; }
      stack := Push(stack, n, grow);
      var isDir := i + 1 < |nodes| && nodes[i + 1].depth > n.depth;
      assert isDir <==> LeadsDirectory(n, nodes[i + 1..]);
      ghost var leaf := Emit(n, nodes[i + 1..], stack[..n.depth + 1]);
      JoinAllSplit(leaves, leaf);
      leaves := leaves + leaf;
      if !isDir {
        out := out + [Join(stack[..n.depth + 1])];
      }
    }
    WalkedAll(nodes, stack[..], leaves, grow);
    paths := Some(out);
  }

  // parseBox: collect the entries, then replay them over one re-sliced stack.
  method ParseBox(lines: seq<string>, grow: nat -> nat) returns (paths: Option<seq<string>>)
    requires Grows(grow)
    ensures paths == BoxPaths(lines, grow)
  {
    var read := ReadListing(lines);
    if read.None? { return None; }
    paths := Replay(read.value, grow);
  }

  // ------------------------------------------------- what the stack stands for

  // Every re-slice stays within the current length of the stack.
  predicate Nested(nodes: seq<Node>, length: nat)
  {
    nodes == [] || (nodes[0].depth <= length && Nested(nodes[1..], nodes[0].depth + 1))
  }

  // The walk with an ideal stack: no buffer, nothing stale to expose.
  function StackWalk(nodes: seq<Node>, stack: seq<string>): seq<seq<string>>
    requires Nested(nodes, |stack|)
    decreases |nodes|
  {
    if nodes == [] then []
    else
      var stack' := stack[..nodes[0].depth] + [nodes[0].name];
      Emit(nodes[0], nodes[1..], stack') + StackWalk(nodes[1..], stack')
  }

  lemma StackWalkUnfold(node: Node, rest: seq<Node>, stack: seq<string>, above: seq<string>)
    requires above <= stack && node.depth == |above| && Nested([node] + rest, |stack|)
    ensures Nested(rest, |above| + 1)
    ensures StackWalk([node] + rest, stack) ==
            Emit(node, rest, above + [node.name]) + StackWalk(rest, above + [node.name])
  {
    assert ([node] + rest)[1..] == rest && stack[..|above|] == above;
  }

  // While entries never skip a level, the shared buffer behaves like an ideal
  // stack: no panic, no stale element, no influence of the growth policy.
  lemma {:induction false} BufferIsStack(nodes: seq<Node>, buf: seq<string>, length: nat, grow: nat -> nat)
    requires Grows(grow) && length <= |buf| && Nested(nodes, length)
    ensures InCapacity(nodes, buf, grow)
    ensures Walk(nodes, buf, grow) == StackWalk(nodes, buf[..length])
    decreases |nodes|
  {
    if nodes != [] {
      var d := nodes[0].depth;
      var buf' := Store(buf, nodes[0], grow);
      BufferIsStack(nodes[1..], buf', d + 1, grow);
      assert buf[..length][..d] == buf[..d];
    }
  }

  lemma WalkInPlace(node: Node, rest: seq<Node>, buf: seq<string>, grow: nat -> nat)
    requires Grows(grow) && node.depth < |buf| && InCapacity(rest, buf[node.depth := node.name], grow)
    ensures InCapacity([node] + rest, buf, grow)
    ensures Walk([node] + rest, buf, grow) ==
            Emit(node, rest, buf[..node.depth] + [node.name]) + Walk(rest, buf[node.depth := node.name], grow)
  {
  }

  function Indent(depth: nat, layout: Layout): string
  {
    if depth == 0 then "" else layout.blank + Indent(depth - 1, layout)
  }

  lemma {:induction false} IndentGroups(depth: nat, layout: Layout)
    requires IsLayout(layout)
    ensures |Indent(depth, layout)| == 4 * depth && NoConnector(Indent(depth, layout))
  {
    if depth > 0 { IndentGroups(depth - 1, layout); }
  }

  // Any entries at all, one line each, whether or not their depths nest.
  function PrintNodes(nodes: seq<Node>, layout: Layout): seq<string>
  {
    if nodes == [] then []
    else [PrintEntry(Indent(nodes[0].depth, layout), true, nodes[0].name)] + PrintNodes(nodes[1..], layout)
  }

  lemma {:induction false} ReadPrintedNodes(nodes: seq<Node>, layout: Layout)
    requires IsLayout(layout)
    ensures Readable(PrintNodes(nodes, layout)) && ReadNodes(PrintNodes(nodes, layout)) == nodes
  {
    if nodes != [] {
      IndentGroups(nodes[0].depth, layout);
      ReadPrintedEntry(Indent(nodes[0].depth, layout), true, nodes[0].name);
      ReadPrintedNodes(nodes[1..], layout);
      assert PrintNodes(nodes, layout)[1..] == PrintNodes(nodes[1..], layout);
    }
  }

  // The last entry skips a level, after a branch that reached it.
  function SkippingNodes(first: string, stale: string, next: string, leaf: string): seq<Node>
  {
    [Node(0, first)] + ([Node(1, stale)] + ([Node(0, next)] + ([Node(2, leaf)] + [])))
  }

  lemma SkippingNotNested(first: string, stale: string, next: string, leaf: string)
    ensures !Nested(SkippingNodes(first, stale, next, leaf), 0)
  {
    var n3 := [Node(2, leaf)] + [];
    var n2 := [Node(0, next)] + n3;
    var n1 := [Node(1, stale)] + n2;
    assert ([Node(0, first)] + n1)[1..] == n1 && n1[1..] == n2 && n2[1..] == n3;
    assert !Nested(n3, 1);
    assert !Nested(n2, 2);
    assert !Nested(n1, 1);
  }

  lemma SkippingWalk(first: string, stale: string, next: string, leaf: string, grow: nat -> nat)
    requires Grows(grow)
    ensures var nodes, buf := SkippingNodes(first, stale, next, leaf), Blank(INITIAL_CAPACITY);
            InCapacity(nodes, buf, grow) && Walk(nodes, buf, grow) == [[first, stale], [next, stale, leaf]]
  {
    var n3 := [Node(2, leaf)] + [];
    var n2 := [Node(0, next)] + n3;
    var n1 := [Node(1, stale)] + n2;
    var b0 := Blank(INITIAL_CAPACITY);
    var b1 := b0[0 := first];
    var b2 := b1[1 := stale];
    var b3 := b2[0 := next];
    WalkInPlace(Node(2, leaf), [], b3, grow);
    assert b3[..2] + [leaf] == [next, stale, leaf];
    assert Walk(n3, b3, grow) == [[next, stale, leaf]];
    WalkInPlace(Node(0, next), n3, b2, grow);
    WalkInPlace(Node(1, stale), n2, b1, grow);
    assert b1[..1] + [stale] == [first, stale];
    WalkInPlace(Node(0, first), n1, b0, grow);
  }

  // A listing that skips a level is not protected: the re-slice exposes a name that
  // an earlier branch left in the buffer, and the leaf is filed under it.
  lemma SkippedLevelExposesBuffer(first: string, stale: string, next: string, leaf: string, layout: Layout, grow: nat -> nat)
    requires Grows(grow) && IsLayout(layout)
    ensures var lines := PrintNodes(SkippingNodes(first, stale, next, leaf), layout);
            && !Nested(ReadNodes(lines), 0)
            && BoxPaths(lines, grow) == Some(JoinAll([[first, stale], [next, stale, leaf]]))
  {
    ReadPrintedNodes(SkippingNodes(first, stale, next, leaf), layout);
    SkippingNotNested(first, stale, next, leaf);
    SkippingWalk(first, stale, next, leaf, grow);
  }

  // Line by line: what stands before the first connector gives the depth, what follows
  // its group the name; a line that ends inside the group is out of range, and one
  // without a connector is no entry.
  lemma ReadLineExactly(prefix: string, c: char, rest: string)
    requires NoConnector(prefix)
    ensures ReadLine(prefix) == Skipped
    ensures IsConnector(c) ==>
              ReadLine(prefix + [c] + rest) == if |rest| < 3 then OutOfRange else Entry(Node(|prefix| / 4, rest[3..]))
  {
    var line := prefix + [c] + rest;
    if IsConnector(c) {
      assert line[|prefix|] == c && line[..|prefix|] == prefix;
      ConnectorUnique(line, |prefix|);
      if |rest| >= 3 { assert line[|prefix| + 4..] == rest[3..]; }
    }
  }

  // One such line fails the whole listing, wherever it stands.
  lemma UnreadableLine(before: seq<string>, line: string, behind: seq<string>, grow: nat -> nat)
    requires Grows(grow) && ReadLine(line).OutOfRange?
    ensures BoxPaths(before + [line] + behind, grow) == None
  {
    assert (before + [line] + behind)[|before|] == line;
  }

  // Alone, an entry up to sixteen levels deep is a leaf below unnamed directories; a
  // deeper one is out of range.
  lemma LoneEntry(depth: nat, name: string, layout: Layout, grow: nat -> nat)
    requires Grows(grow) && IsLayout(layout)
    ensures BoxPaths(PrintNodes([Node(depth, name)], layout), grow) ==
            if depth <= 16 then Some([Join(Blank(depth) + [name])]) else None
  {
    var node, buf := Node(depth, name), Blank(INITIAL_CAPACITY);
    ReadPrintedNodes([node], layout);
    LoneWalk(node, buf, grow);
    if depth <= 16 {
      assert buf[..depth] == Blank(depth);
      var stack := Blank(depth) + [name];
      assert [stack][1..] == [] && JoinAll([stack]) == [Join(stack)] + [] == [Join(stack)];
    }
  }

  lemma LoneWalk(node: Node, buf: seq<string>, grow: nat -> nat)
    requires Grows(grow)
    ensures InCapacity([node], buf, grow) <==> node.depth <= |buf|
    ensures node.depth <= |buf| ==> Walk([node], buf, grow) == [buf[..node.depth] + [node.name]]
  {
    assert [node][1..] == [];
    if node.depth <= |buf| {
      var buf' := Store(buf, node, grow);
      var stack := buf'[..node.depth + 1];
      assert stack == buf[..node.depth] + [node.name];
      assert InCapacity([], buf', grow);
      assert Walk([], buf', grow) == [] && Emit(node, [], stack) == [stack];
    }
  }

  // ------------------------------------------------------- the printer's view

  // A directory's entries in order: the first, what is below it, the rest.
  datatype Forest = Empty | Branch(name: string, below: Forest, rest: Forest)

  // tree(1)'s layout. bar and blank are the two 4-column groups; real listings
  // use either spaces or no-break spaces in bar.
  datatype Layout = Layout(bar: string, blank: string)

  predicate IsLayout(layout: Layout)
  {
    && |layout.bar| == 4 && NoConnector(layout.bar)
    && |layout.blank| == 4 && NoConnector(layout.blank)
  }

  function PrintEntry(prefix: string, last: bool, name: string): string
  {
    prefix + (if last then [ELBOW, DASH, DASH, ' '] else [TEE, DASH, DASH, ' ']) + name
  }

  function PrintTree(forest: Forest, prefix: string, layout: Layout): seq<string>
  {
    match forest
    case Empty => []
    case Branch(name, below, rest) =>
      [PrintEntry(prefix, rest.Empty?, name)]
      + PrintTree(below, prefix + (if rest.Empty? then layout.blank else layout.bar), layout)
      + PrintTree(rest, prefix, layout)
  }

  // The root-to-leaf name lists in preorder.
  function LeafPaths(forest: Forest, above: seq<string>): seq<seq<string>>
  {
    match forest
    case Empty => []
    case Branch(name, below, rest) =>
      (if below.Empty? then [above + [name]] else LeafPaths(below, above + [name]))
      + LeafPaths(rest, above)
  }

  predicate PlainNames(forest: Forest)
  {
    forest.Branch? ==> Plain(forest.name) && PlainNames(forest.below) && PlainNames(forest.rest)
  }

  function ForestNodes(forest: Forest, depth: nat): seq<Node>
  {
    match forest
    case Empty => []
    case Branch(name, below, rest) =>
      [Node(depth, name)] + ForestNodes(below, depth + 1) + ForestNodes(rest, depth)
  }

  lemma ReadPrintedEntry(prefix: string, last: bool, name: string)
    requires NoConnector(prefix) && |prefix| % 4 == 0
    ensures ReadLine(PrintEntry(prefix, last, name)) == Entry(Node(|prefix| / 4, name))
  {
    var line := PrintEntry(prefix, last, name);
    assert line[..|prefix|] == prefix;
    ConnectorUnique(line, |prefix|);
    assert line[|prefix| + 4..] == name;
  }

  lemma ReadableSplit(a: seq<string>, b: seq<string>, c: seq<string>)
    requires Readable(a) && Readable(b) && Readable(c)
    ensures Readable(a + b + c)
  {
  }

  lemma {:induction false} ReadPrinted(forest: Forest, prefix: string, layout: Layout)
    requires IsLayout(layout) && NoConnector(prefix) && |prefix| % 4 == 0
    ensures Readable(PrintTree(forest, prefix, layout))
    ensures ReadNodes(PrintTree(forest, prefix, layout)) == ForestNodes(forest, |prefix| / 4)
  {
    match forest
    case Empty =>
    case Branch(name, below, rest) =>
      var line := PrintEntry(prefix, rest.Empty?, name);
      var deeper := prefix + (if rest.Empty? then layout.blank else layout.bar);
      ReadPrintedEntry(prefix, rest.Empty?, name);
      ReadPrinted(below, deeper, layout);
      ReadPrinted(rest, prefix, layout);
      var lines := [line] + PrintTree(below, deeper, layout);
      assert lines[1..] == PrintTree(below, deeper, layout);
      FlatMapSplit(LineNodes, lines, PrintTree(rest, prefix, layout));
      ReadableSplit([line], PrintTree(below, deeper, layout), PrintTree(rest, prefix, layout));
  }

  // Header, blank and summary lines.
  predicate Noise(lines: seq<string>)
  {
    forall i :: 0 <= i < |lines| ==> NoConnector(lines[i])
  }

  lemma ReadNoise(lines: seq<string>)
    requires Noise(lines)
    ensures Readable(lines) && ReadNodes(lines) == []
  {
    forall i | 0 <= i < |lines| ensures ReadLine(lines[i]) == Skipped {
      assert NoConnector(lines[i]);
    }
    FlatMapNone(LineNodes, lines);
  }

  lemma ForestNodesTail(name: string, below: Forest, rest: Forest, depth: nat, tail: seq<Node>)
    ensures var nodes := ForestNodes(Branch(name, below, rest), depth) + tail;
            && nodes != [] && nodes[0] == Node(depth, name)
            && nodes[1..] == ForestNodes(below, depth + 1) + (ForestNodes(rest, depth) + tail)
  {
    var n, a, b := [Node(depth, name)], ForestNodes(below, depth + 1), ForestNodes(rest, depth);
    assert n + a + b + tail == n + (a + (b + tail));
  }

  // Nodes that follow a forest printed at this depth start no deeper.
  predicate ResumesAt(tail: seq<Node>, depth: nat)
  {
    tail != [] ==> tail[0].depth <= depth
  }

  // Nesting only looks at how deep the first node is.
  lemma NestedLonger(nodes: seq<Node>, shorter: nat, longer: nat)
    requires shorter <= longer && Nested(nodes, shorter)
    ensures Nested(nodes, longer)
  {
  }

  lemma {:induction false} ForestNested(forest: Forest, depth: nat, tail: seq<Node>)
    requires ResumesAt(tail, depth) && Nested(tail, depth)
    ensures Nested(ForestNodes(forest, depth) + tail, depth)
  {
    match forest
    case Empty =>
      assert ForestNodes(forest, depth) + tail == tail;
    case Branch(name, below, rest) =>
      var after := ForestNodes(rest, depth) + tail;
      ForestNested(rest, depth, tail);
      NestedLonger(after, depth, depth + 1);
      ForestNested(below, depth + 1, after);
      ForestNodesTail(name, below, rest, depth, tail);
  }

  // Only an entry with nothing below it is emitted.
  lemma EmitEntry(name: string, below: Forest, rest: Forest, above: seq<string>, tail: seq<Node>)
    requires ResumesAt(tail, |above|)
    ensures Emit(Node(|above|, name), ForestNodes(below, |above| + 1) + (ForestNodes(rest, |above|) + tail), above + [name])
            == if below.Empty? then [above + [name]] else []
  {
  }

  lemma Regroup<T>(a: seq<T>, b: seq<T>, c: seq<T>, d: seq<T>)
    requires a == [] || b == []
    ensures a + (b + (c + d)) == (if a == [] then b else a) + c + d
  {
  }

  // Walking a forest's nodes emits its leaf paths and hands the levels above it
  // on unchanged.
  lemma {:induction false} WalkForest(forest: Forest, stack: seq<string>, above: seq<string>, tail: seq<Node>)
    returns (stack': seq<string>)
    requires above <= stack && ResumesAt(tail, |above|)
    requires Nested(ForestNodes(forest, |above|) + tail, |stack|)
    ensures above <= stack' && Nested(tail, |stack'|)
    ensures StackWalk(ForestNodes(forest, |above|) + tail, stack) ==
            LeafPaths(forest, above) + StackWalk(tail, stack')
  {
    match forest
    case Empty =>
      assert ForestNodes(forest, |above|) + tail == tail;
      stack' := stack;
    case Branch(name, below, rest) =>
      var d, inner := |above|, above + [name];
      var after := ForestNodes(rest, d) + tail;
      ForestNodesTail(name, below, rest, d, tail);
      var node, following := Node(d, name), ForestNodes(below, d + 1) + after;
      assert ForestNodes(forest, d) + tail == [node] + following;
      StackWalkUnfold(node, following, stack, above);
      var s1 := WalkForest(below, inner, inner, after);
      stack' := WalkForest(rest, s1, above, tail);
      EmitEntry(name, below, rest, above, tail);
      Regroup(Emit(node, following, inner), LeafPaths(below, inner), LeafPaths(rest, above), StackWalk(tail, stack'));
  }

  lemma ReadListingOf(forest: Forest, header: seq<string>, footer: seq<string>, layout: Layout)
    requires IsLayout(layout) && Noise(header) && Noise(footer)
    ensures Readable(header + PrintTree(forest, "", layout) + footer)
    ensures ReadNodes(header + PrintTree(forest, "", layout) + footer) == ForestNodes(forest, 0)
  {
    var body := PrintTree(forest, "", layout);
    ReadPrinted(forest, "", layout);
    ReadNoise(header);
    ReadNoise(footer);
    ReadableSplit(header, body, footer);
    FlatMapSplit(LineNodes, header, body);
    FlatMapSplit(LineNodes, header + body, footer);
  }

  // Parsing undoes printing. For every forest and every connector-free header
  // and footer, the parser neither panics nor misplaces an entry: it yields the
  // joined root-to-leaf paths in preorder, and every re-slice it makes stays
  // within the current stack.
  lemma ParseInvertsPrint(forest: Forest, header: seq<string>, footer: seq<string>, layout: Layout, grow: nat -> nat)
    requires Grows(grow) && IsLayout(layout) && Noise(header) && Noise(footer)
    ensures var lines := header + PrintTree(forest, "", layout) + footer;
            && Nested(ReadNodes(lines), 0)
            && BoxPaths(lines, grow) == Some(JoinAll(LeafPaths(forest, [])))
  {
    var nodes := ForestNodes(forest, 0);
    ReadListingOf(forest, header, footer, layout);
    ForestNested(forest, 0, []);
    assert nodes + [] == nodes;
    var buf := Blank(INITIAL_CAPACITY);
    BufferIsStack(nodes, buf, 0, grow);
    assert buf[..0] == [];
    var s := WalkForest(forest, [], [], []);
    assert StackWalk([], s) == [];
    assert StackWalk(nodes, []) == LeafPaths(forest, []);
  }

  lemma {:induction false} LeafPathsPlain(forest: Forest, above: seq<string>)
    requires PlainNames(forest) && AllPlain(above)
    ensures forall i :: 0 <= i < |LeafPaths(forest, above)| ==>
              LeafPaths(forest, above)[i] != [] && AllPlain(LeafPaths(forest, above)[i])
  {
    if forest.Branch? {
      LeafPathsPlain(forest.below, above + [forest.name]);
      LeafPathsPlain(forest.rest, above);
    }
  }

  // When the names are plain the emitted strings are the paths themselves:
  // splitting each one gives back its list of names.
  lemma ParsedPathsSplit(forest: Forest, i: nat)
    requires PlainNames(forest) && i < |LeafPaths(forest, [])|
    ensures Split(JoinAll(LeafPaths(forest, []))[i]) == LeafPaths(forest, [])[i]
  {
    LeafPathsPlain(forest, []);
    JoinPlain(LeafPaths(forest, [])[i]);
  }
}
