/** Operand expressions stored as a flat arena of nodes, and the C++ text printed for them. */
module OperandExpr {
  import opened Wrappers

  const MAX_NODES := 10
  const NAME_SIZE := 32

  datatype Kind = NumberKind | OperandKind | InfinityKind | AddKind | SubKind | BadKind

  datatype Node = Node(kind: Kind, left: nat, right: nat, name: string, number: int)
  {
    predicate HasChildren() { kind == AddKind || kind == SubKind }

    /** A node with its child indices moved by `start`. */
    function Relocated(start: nat): Node
    {
      if HasChildren() then this.(left := left + start, right := right + start) else this
    }
  }

  /** The expression itself. */
  datatype Tree = Number(value: int) | Operand(name: string) | Infinity | Add(l: Tree, r: Tree) | Sub(l: Tree, r: Tree)

  function Size(t: Tree): (n: nat)
    ensures n >= 1
  {
    match t
    case Add(l, r) => 1 + Size(l) + Size(r)
    case Sub(l, r) => 1 + Size(l) + Size(r)
    case _ => 1
  }

  lemma SizeOfBinary(l: Tree, r: Tree)
    ensures Size(Add(l, r)) == Size(Sub(l, r)) == 1 + Size(l) + Size(r)
  {
  }

  // ---------------------------------------------------------------- reading the arena

  /** The characters of a fixed-size name up to the terminating NUL. */
  function CString(buf: string): string
  {
    if buf == [] || buf[0] == '\0' then [] else [buf[0]] + CString(buf[1..])
  }

  /** Child indices are in range and strictly above their parent, so every walk down ends. */
  ghost predicate WellFormed(nodes: seq<Node>, n: nat)
  {
    && n <= |nodes|
    && forall i :: 0 <= i < n ==>
      && nodes[i].kind != BadKind
      && (nodes[i].HasChildren() ==> i < nodes[i].left < n && i < nodes[i].right < n)
  }

  lemma ChildrenInside(nodes: seq<Node>, n: nat, i: nat)
    requires WellFormed(nodes, n) && i < n
    ensures nodes[i].HasChildren() ==> nodes[i].left < n && nodes[i].right < n
  {
  }

  /** The expression below node `i`. */
  ghost function TreeAt(nodes: seq<Node>, n: nat, i: nat): Tree
    requires WellFormed(nodes, n) && i < n
    decreases n - i
  {
    var node := nodes[i];
    match node.kind
    case NumberKind => Number(node.number)
    case OperandKind => Operand(CString(node.name))
    case InfinityKind => Infinity
    case AddKind => Add(TreeAt(nodes, n, node.left), TreeAt(nodes, n, node.right))
    case SubKind => Sub(TreeAt(nodes, n, node.left), TreeAt(nodes, n, node.right))
  }

  // ---------------------------------------------------------------- evaluation

  /** The value, with -1 standing for infinity as in the printed text. */
  function Eval(t: Tree, env: string -> int): int
  {
    match t
    case Number(v) => v
    case Operand(name) => env(name)
    case Infinity => -1
    case Add(l, r) => Eval(l, env) + Eval(r, env)
    case Sub(l, r) => Eval(l, env) - Eval(r, env)
  }

  function EvalAt(nodes: seq<Node>, n: nat, i: nat, env: string -> int): int
    requires WellFormed(nodes, n) && i < n
    decreases n - i
  {
    var node := nodes[i];
    match node.kind
    case NumberKind => node.number
    case OperandKind => env(CString(node.name))
    case InfinityKind => -1
    case AddKind => EvalAt(nodes, n, node.left, env) + EvalAt(nodes, n, node.right, env)
    case SubKind => EvalAt(nodes, n, node.left, env) - EvalAt(nodes, n, node.right, env)
  }

  lemma {:induction false} EvalArena(nodes: seq<Node>, n: nat, i: nat, env: string -> int)
    requires WellFormed(nodes, n) && i < n
    ensures EvalAt(nodes, n, i, env) == Eval(TreeAt(nodes, n, i), env)
    decreases n - i
  {
    if nodes[i].HasChildren() {
      EvalArena(nodes, n, nodes[i].left, env);
      EvalArena(nodes, n, nodes[i].right, env);
    }
  }

  // ---------------------------------------------------------------- relocation

  /** `n` nodes of `from` stand at `start` in `to`, with their links moved along. */
  ghost predicate CopiedAt(from: seq<Node>, n: nat, to: seq<Node>, start: nat)
  {
    n <= |from| && start + n <= |to| && forall i :: 0 <= i < n ==> to[start + i] == from[i].Relocated(start)
  }

  lemma StillCopied(from: seq<Node>, n: nat, before: seq<Node>, after: seq<Node>, start: nat)
    requires CopiedAt(from, n, before, start) && |after| == |before|
    requires forall i :: start <= i < start + n && i < |after| ==> after[i] == before[i]
    ensures CopiedAt(from, n, after, start)
  {
  }

  /** A relocated copy stands for the same expression. */
  lemma {:induction false} RelocatedTree(from: seq<Node>, n: nat, to: seq<Node>, m: nat, start: nat, i: nat)
    requires WellFormed(from, n) && WellFormed(to, m) && CopiedAt(from, n, to, start) && start + n <= m && i < n
    ensures TreeAt(to, m, start + i) == TreeAt(from, n, i)
    decreases n - i
  {
    assert to[start + i] == from[i].Relocated(start);
    if from[i].HasChildren() {
      RelocatedTree(from, n, to, m, start, from[i].left);
      RelocatedTree(from, n, to, m, start, from[i].right);
    }
  }

  /** A root with two relocated arenas below it is the arena of the binary expression. */
  lemma JoinedTree(l: seq<Node>, ln: nat, r: seq<Node>, rn: nat, to: seq<Node>)
    requires WellFormed(l, ln) && WellFormed(r, rn) && ln > 0 && rn > 0 && ln + rn + 1 <= |to|
    requires to[0].HasChildren() && to[0].left == 1 && to[0].right == 1 + ln
    requires CopiedAt(l, ln, to, 1) && CopiedAt(r, rn, to, 1 + ln)
    ensures WellFormed(to, ln + rn + 1)
    ensures
      var a, b := TreeAt(l, ln, 0), TreeAt(r, rn, 0);
      TreeAt(to, ln + rn + 1, 0) == if to[0].kind == AddKind then Add(a, b) else Sub(a, b)
  {
    hide TreeAt;
    JoinedWellFormed(l, ln, r, rn, to);
    RelocatedTree(l, ln, to, ln + rn + 1, 1, 0);
    RelocatedTree(r, rn, to, ln + rn + 1, 1 + ln, 0);
    RootTree(to, ln + rn + 1);
  }

  lemma RootTree(nodes: seq<Node>, n: nat)
    requires WellFormed(nodes, n) && n > 0 && nodes[0].HasChildren()
    ensures
      var a, b := TreeAt(nodes, n, nodes[0].left), TreeAt(nodes, n, nodes[0].right);
      TreeAt(nodes, n, 0) == if nodes[0].kind == AddKind then Add(a, b) else Sub(a, b)
  {
  }

  lemma JoinedWellFormed(l: seq<Node>, ln: nat, r: seq<Node>, rn: nat, to: seq<Node>)
    requires WellFormed(l, ln) && WellFormed(r, rn) && ln > 0 && rn > 0 && ln + rn + 1 <= |to|
    requires to[0].HasChildren() && to[0].left == 1 && to[0].right == 1 + ln
    requires CopiedAt(l, ln, to, 1) && CopiedAt(r, rn, to, 1 + ln)
    ensures WellFormed(to, ln + rn + 1)
  {
    forall i | 0 <= i < ln + rn + 1
      ensures to[i].kind != BadKind
          && (to[i].HasChildren() ==> i < to[i].left < ln + rn + 1 && i < to[i].right < ln + rn + 1)
    {
      if 1 <= i <= ln {
        assert to[1 + (i - 1)] == l[i - 1].Relocated(1);
      } else if i > ln {
        assert to[1 + ln + (i - 1 - ln)] == r[i - 1 - ln].Relocated(1 + ln);
      }
    }
  }

  // ---------------------------------------------------------------- the class

  class Expr {
    const nodes: array<Node>
    var numNodes: nat

    /** The arena holds exactly the nodes of `t`, root first. */
    ghost predicate Represents(t: Tree)
      reads this, nodes
    {
      && nodes.Length == MAX_NODES
      && numNodes == Size(t)
      && WellFormed(nodes[..], numNodes)
      && TreeAt(nodes[..], numNodes, 0) == t
    }

    ghost predicate Empty()
      reads this
    {
      nodes.Length == MAX_NODES && numNodes == 0
    }

    constructor ()
      ensures Empty() && fresh(nodes)
      ensures forall i :: 0 <= i < MAX_NODES ==> nodes[i] == Node(BadKind, 0, 0, seq(NAME_SIZE, _ => '\0'), 0)
    {
      numNodes := 0;
      nodes := new Node[MAX_NODES](_ => Node(BadKind, 0, 0, seq(NAME_SIZE, _ => '\0'), 0));
    }

    /** Copies another arena in, moving its child indices; the range checks on them never fail. */
    method Put(other: Expr, start: nat)
      requires nodes.Length == MAX_NODES && other.nodes.Length == MAX_NODES && other.nodes != nodes
      requires start + other.numNodes <= MAX_NODES && WellFormed(other.nodes[..], other.numNodes)
      modifies nodes
      ensures CopiedAt(other.nodes[..], other.numNodes, nodes[..], start)
      ensures forall i :: 0 <= i < MAX_NODES && !(start <= i < start + other.numNodes) ==> nodes[i] == old(nodes[i])
    {
      hide WellFormed;
      for i := 0 to other.numNodes
        invariant forall j :: 0 <= j < i ==> nodes[start + j] == other.nodes[j].Relocated(start)
        invariant forall j :: 0 <= j < MAX_NODES && !(start <= j < start + i) ==> nodes[j] == old(nodes[j])
      {
        ChildrenInside(other.nodes[..], other.numNodes, i);
        var node := other.nodes[i];
        if node.HasChildren() {
          assert 0 <= node.left < other.numNodes;
          node := node.(left := node.left + start);
        }
        if node.HasChildren() {
          assert 0 <= node.right < other.numNodes;
          node := node.(right := node.right + start);
        }
        nodes[start + i] := node;
      }
    }

    /** True exactly of the infinite length; an infinite root is always alone. */
    method IsInfinity(ghost t: Tree) returns (r: bool)
      requires Represents(t)
      ensures r <==> t == Infinity
    {
      assert nodes[..][0] == nodes[0];
      assert nodes[0].kind == InfinityKind ==> numNodes == 1;
      r := nodes[0].kind == InfinityKind;
    }

    method PrintCppExpression(structName: string, ghost t: Tree) returns (text: Option<string>)
      requires Represents(t)
      ensures text == Printed(t, structName)
    {
      PrintArena(nodes[..], numNodes, 0, structName);
      text := PrintAt(nodes[..], numNodes, 0, structName);
    }
  }

  /** The binary expression, unless an operand is empty or the arena is too small. */
  method ConstructBinaryExpr(kind: Kind, lhs: Expr, rhs: Expr, ghost lt: Tree, ghost rt: Tree)
    returns (res: Option<Expr>)
    requires kind == AddKind || kind == SubKind
    requires lhs.Empty() || lhs.Represents(lt)
    requires rhs.Empty() || rhs.Represents(rt)
    ensures res.Some? <==> lhs.Represents(lt) && rhs.Represents(rt) && Size(lt) + Size(rt) + 1 <= 10
    ensures res.Some? ==> fresh(res.value) && fresh(res.value.nodes)
    ensures res.Some? ==> res.value.Represents(if kind == AddKind then Add(lt, rt) else Sub(lt, rt))
  {
    hide TreeAt, WellFormed, CopiedAt, Size;
    SizeOfBinary(lt, rt);
    if lhs.numNodes == 0 || rhs.numNodes == 0 { return None; }
    var e := new Expr();
    e.numNodes := lhs.numNodes + rhs.numNodes + 1;
    if e.numNodes > MAX_NODES { return None; }
    e.nodes[0] := e.nodes[0].(kind := kind);
    e.nodes[0] := e.nodes[0].(left := 1);
    e.nodes[0] := e.nodes[0].(right := 1 + lhs.numNodes);
    e.Put(lhs, 1);
    ghost var half := e.nodes[..];
    e.Put(rhs, 1 + lhs.numNodes);
    StillCopied(lhs.nodes[..], lhs.numNodes, half, e.nodes[..], 1);
    JoinedTree(lhs.nodes[..], lhs.numNodes, rhs.nodes[..], rhs.numNodes, e.nodes[..]);
    res := Some(e);
  }

  method ConstructNumber(value: int) returns (e: Expr)
    ensures fresh(e) && fresh(e.nodes) && e.Represents(Number(value))
  {
    e := new Expr();
    e.numNodes := 1;
    e.nodes[0] := e.nodes[0].(kind := NumberKind);
    e.nodes[0] := e.nodes[0].(number := value);
    assert e.nodes[..][0] == e.nodes[0];
  }

  method ConstructInfinity() returns (e: Expr)
    ensures fresh(e) && fresh(e.nodes) && e.Represents(Infinity)
  {
    e := new Expr();
    e.numNodes := 1;
    e.nodes[0] := e.nodes[0].(kind := InfinityKind);
    assert e.nodes[..][0] == e.nodes[0];
  }

  /** The name is a C string; it must leave room for its terminator. */
  method ConstructOperandRef(name: string) returns (res: Option<Expr>)
    requires '\0' !in name
    ensures res.Some? <==> |name| < 32
    ensures res.Some? ==> fresh(res.value) && fresh(res.value.nodes) && res.value.Represents(Operand(name))
  {
    var e := new Expr();
    e.numNodes := 1;
    e.nodes[0] := e.nodes[0].(kind := OperandKind);
    if |name| >= NAME_SIZE { return None; }
    var buf := e.nodes[0].name;
    for i := 0 to |name|
      invariant |buf| == NAME_SIZE && buf[..i] == name[..i]
    {
      buf := buf[i := name[i]];
    }
    buf := buf[|name| := '\0'];
    e.nodes[0] := e.nodes[0].(name := buf);
    CStringOf(buf, name);
    assert e.nodes[..][0] == e.nodes[0];
    res := Some(e);
  }

  /** The names fit their fields. */
  predicate ShortNames(t: Tree)
  {
    match t
    case Operand(name) => |name| < 32
    case Add(l, r) => ShortNames(l) && ShortNames(r)
    case Sub(l, r) => ShortNames(l) && ShortNames(r)
    case _ => true
  }

  predicate CNames(t: Tree)
  {
    match t
    case Operand(name) => '\0' !in name
    case Add(l, r) => CNames(l) && CNames(r)
    case Sub(l, r) => CNames(l) && CNames(r)
    case _ => true
  }

  /** Any expression can be built, bottom up, exactly when it has at most ten nodes and short names;
      the arena then stands for it. */
  method Build(t: Tree) returns (res: Option<Expr>)
    requires CNames(t)
    ensures res.Some? <==> Size(t) <= 10 && ShortNames(t)
    ensures res.Some? ==> fresh(res.value) && fresh(res.value.nodes) && res.value.Represents(t)
    decreases Size(t)
  {
    match t
    case Number(v) =>
      var e := ConstructNumber(v);
      res := Some(e);
    case Operand(name) =>
      res := ConstructOperandRef(name);
    case Infinity =>
      var e := ConstructInfinity();
      res := Some(e);
    case Add(l, r) =>
      res := BuildBinary(AddKind, l, r);
    case Sub(l, r) =>
      res := BuildBinary(SubKind, l, r);
  }

  method BuildBinary(kind: Kind, l: Tree, r: Tree) returns (res: Option<Expr>)
    requires CNames(l) && CNames(r) && (kind == AddKind || kind == SubKind)
    ensures res.Some? <==> 1 + Size(l) + Size(r) <= 10 && ShortNames(l) && ShortNames(r)
    ensures res.Some? ==> fresh(res.value) && fresh(res.value.nodes)
    ensures res.Some? ==> res.value.Represents(if kind == AddKind then Add(l, r) else Sub(l, r))
    decreases Size(l) + Size(r)
  {
    hide TreeAt, WellFormed;
    var a := Build(l);
    var b := Build(r);
    if a.None? || b.None? { return None; }
    res := ConstructBinaryExpr(kind, a.value, b.value, l, r);
  }

  lemma {:induction false} CStringOf(buf: string, name: string)
    requires |name| < |buf| && buf[..|name|] == name && buf[|name|] == '\0' && '\0' !in name
    ensures CString(buf) == name
  {
    if name != [] {
      assert buf[..|name|][0] == name[0];
      assert buf[1..][..|name| - 1] == buf[..|name|][1..] == name[1..];
      CStringOf(buf[1..], name[1..]);
    }
  }

  // ---------------------------------------------------------------- printing

  const DIGITS := "0123456789"

  function Decimal(n: nat): (s: string)
    ensures |s| > 0 && forall i :: 0 <= i < |s| ==> s[i] in DIGITS
  {
    if n < 10 then [DIGITS[n]] else Decimal(n / 10) + [DIGITS[n % 10]]
  }

  function IntText(v: int): string { if v < 0 then "-" + Decimal(-v) else Decimal(v) }

  /** What follows the name of an operand. */
  function Closing(): (s: string)
    ensures |s| == 14 && s[0] == '.' && forall k :: 0 < k < |s| ==> s[k] != '.'
  {
    ".AsRawValue())"
  }

  function Joined(l: Option<string>, op: char, r: Option<string>): Option<string>
  {
    if l.Some? && r.Some? then Some("(" + l.value + [op] + r.value + ")") else None
  }

  /** The recursion over node indices; `None` where it aborts. */
  function PrintAt(nodes: seq<Node>, n: nat, i: nat, structName: string): Option<string>
    requires WellFormed(nodes, n) && i < n
    decreases n - i
  {
    var node := nodes[i];
    match node.kind
    case NumberKind => Some("(" + IntText(node.number) + ")")
    case OperandKind => Some("(" + structName + "." + CString(node.name) + Closing())
    case InfinityKind => if i == 0 then Some("(-1)") else None
    case AddKind => Joined(PrintAt(nodes, n, node.left, structName), '+', PrintAt(nodes, n, node.right, structName))
    case SubKind => Joined(PrintAt(nodes, n, node.left, structName), '-', PrintAt(nodes, n, node.right, structName))
  }

  /** Infinity must not be part of a computation. */
  predicate Finite(t: Tree)
  {
    match t
    case Infinity => false
    case Add(l, r) => Finite(l) && Finite(r)
    case Sub(l, r) => Finite(l) && Finite(r)
    case _ => true
  }

  function Text(t: Tree, structName: string): (s: string)
    requires Finite(t)
    ensures |s| > 1 && s[0] == '('
  {
    match t
    case Number(v) => "(" + IntText(v) + ")"
    case Operand(name) => "(" + structName + "." + name + Closing()
    case Add(l, r) => "(" + Text(l, structName) + "+" + Text(r, structName) + ")"
    case Sub(l, r) => "(" + Text(l, structName) + "-" + Text(r, structName) + ")"
  }

  /** What is printed for an expression: its text, `(-1)` for infinity by itself, and an abort for
      infinity inside a computation. */
  function Printed(t: Tree, structName: string): Option<string>
  {
    if t.Infinity? then Some("(-1)") else if Finite(t) then Some(Text(t, structName)) else None
  }

  lemma {:induction false} PrintArena(nodes: seq<Node>, n: nat, i: nat, structName: string)
    requires WellFormed(nodes, n) && i < n
    ensures
      var t := TreeAt(nodes, n, i);
      PrintAt(nodes, n, i, structName) ==
        if i == 0 then Printed(t, structName) else if Finite(t) then Some(Text(t, structName)) else None
    decreases n - i
  {
    if nodes[i].HasChildren() {
      PrintArena(nodes, n, nodes[i].left, structName);
      PrintArena(nodes, n, nodes[i].right, structName);
    }
  }

  // ---------------------------------------------------------------- the text determines the tree

  /** Where a text free of `c` ends is decided by the first `c`. */
  lemma {:induction false} CutAt(a: string, b: string, c: char, u: string, v: string)
    requires c !in a && c !in b && a + [c] + u == b + [c] + v
    ensures a == b && u == v
  {
    assert (a + [c] + u)[0] == (if a == [] then c else a[0])
        && (a + [c] + u)[1..] == if a == [] then u else a[1..] + [c] + u;
    assert (b + [c] + v)[0] == (if b == [] then c else b[0])
        && (b + [c] + v)[1..] == if b == [] then v else b[1..] + [c] + v;
    if a != [] && b != [] {
      CutAt(a[1..], b[1..], c, u, v);
    }
  }

  function DigitValue(c: char): nat
    requires c in DIGITS
  {
    (c as int) - ('0' as int)
  }

  lemma DigitValueOf(d: nat)
    requires d < 10
    ensures DIGITS[d] in DIGITS && DigitValue(DIGITS[d]) == d
  {
  }

  function ValueOf(s: string): nat
    requires forall i :: 0 <= i < |s| ==> s[i] in DIGITS
  {
    if s == [] then 0 else 10 * ValueOf(s[..|s| - 1]) + DigitValue(s[|s| - 1])
  }

  lemma {:induction false} ValueOfDecimal(n: nat)
    ensures ValueOf(Decimal(n)) == n
  {
    DigitValueOf(n % 10);
    if n >= 10 {
      ValueOfDecimal(n / 10);
      var s := Decimal(n);
      assert s[..|s| - 1] == Decimal(n / 10) && s[|s| - 1] == DIGITS[n % 10];
    } else {
      assert Decimal(n)[..0] == [];
    }
  }

  lemma IntTextSign(a: int)
    ensures IntText(a) != [] && (IntText(a)[0] == '-' <==> a < 0)
    ensures IntText(a)[if a < 0 then 1 else 0..] == Decimal(if a < 0 then -a else a)
  {
  }

  lemma IntTextInjective(a: int, b: int)
    requires IntText(a) == IntText(b)
    ensures a == b
  {
    hide IntText;
    IntTextSign(a);
    IntTextSign(b);
    ValueOfDecimal(if a < 0 then -a else a);
    ValueOfDecimal(if b < 0 then -b else b);
  }

  ghost predicate Contains(s: string, part: string)
  {
    exists before, after :: s == before + part + after
  }

  /** The characters that can follow an operand in a text. */
  predicate Follows(c: char) { c == ')' || c == '+' || c == '-' }

  /** What follows a text inside a longer one, or nothing. */
  predicate Continues(u: string) { u == [] || Follows(u[0]) }

  /** The name could be taken to end early: it contains the closing text and what can follow it. */
  ghost predicate EndsEarly(name: string)
  {
    exists c: char :: Follows(c) && Contains(name, Closing() + [c])
  }

  ghost predicate PlainNames(t: Tree)
  {
    match t
    case Operand(name) => !EndsEarly(name)
    case Add(l, r) => PlainNames(l) && PlainNames(r)
    case Sub(l, r) => PlainNames(l) && PlainNames(r)
    case _ => true
  }

  predicate PlainStruct(structName: string) { ')' !in structName && (structName == [] || structName[0] != '(') }

  lemma NumberCharacters(v: int)
    ensures IntText(v) != [] && ')' !in IntText(v) && '.' !in IntText(v) && '(' !in IntText(v)
  {
    var text := IntText(v);
    assert forall i :: 0 <= i < |text| ==> text[i] == '-' || text[i] in DIGITS;
  }

  lemma Overlap(x: string, y: string, end: string, u: string, v: string)
    requires |x| < |y| < |x| + |end| && x + end + u == y + end + v
    ensures end[|y| - |x|] == end[0]
  {
    assert (x + end + u)[|y|] == end[|y| - |x|];
    assert (y + end + v)[|y|] == end[0];
  }

  /** A text whose first character does not come back cannot overlap itself: if it follows a shorter
      name, the longer name contains it, and the character behind it. */
  lemma InsideLonger(x: string, y: string, end: string, u: string, v: string)
    requires |end| > 0 && !Follows(end[0]) && forall k :: 0 < k < |end| ==> end[k] != end[0]
    requires |x| < |y| && x + end + u == y + end + v && Continues(u)
    ensures u != [] && Contains(y, end + [u[0]])
  {
    assert |x + end + u| == |y + end + v|;
    if |y| < |x| + |end| {
      Overlap(x, y, end, u, v);
    } else if |y| == |x| + |end| {
      Adjacent(x, y, end, u, v);
    } else {
      InsideAt(x, y, end, u, v);
    }
  }

  lemma Adjacent(x: string, y: string, end: string, u: string, v: string)
    requires |end| > 0 && |y| == |x| + |end| && x + end + u == y + end + v
    ensures u != [] && u[0] == end[0]
  {
    assert |x + end + u| == |y + end + v|;
    assert (x + end + u)[|y|] == u[0];
    assert (y + end + v)[|y|] == end[0];
  }

  lemma InsideAt(x: string, y: string, end: string, u: string, v: string)
    requires |x| + |end| < |y| && x + end + u == y + end + v && u != []
    ensures Contains(y, end + [u[0]])
  {
    var n := |x| + |end|;
    assert (x + end + u)[|x|..n + 1] == end + [u[0]];
    assert y[|x|..n + 1] == (y + end + v)[|x|..n + 1];
    assert y == y[..|x|] + (end + [u[0]]) + y[n + 1..];
  }

  /** The first occurrence of the closing text that something can follow ends the name. */
  lemma NameUnique(x: string, y: string, u: string, v: string)
    requires !EndsEarly(x) && !EndsEarly(y) && Continues(u) && Continues(v)
    requires x + Closing() + u == y + Closing() + v
    ensures x == y && u == v
  {
    hide Contains, Closing;
    var end := Closing();
    if |x| < |y| {
      InsideLonger(x, y, end, u, v);
    } else if |y| < |x| {
      InsideLonger(y, x, end, v, u);
    } else {
      var s, t := x + end + u, y + end + v;
      assert s[..|x|] == x && t[..|y|] == y;
      assert s[|x| + |end|..] == u && t[|y| + |end|..] == v;
    }
  }

  lemma NumberText(v: int, structName: string, u: string)
    ensures (Text(Number(v), structName) + u)[1..] == IntText(v) + ")" + u
  {
    hide IntText;
    assert ("(" + IntText(v) + ")" + u)[1..] == IntText(v) + ")" + u;
  }

  lemma OperandText(name: string, structName: string, u: string)
    ensures (Text(Operand(name), structName) + u)[1..] == structName + "." + (name + Closing() + u)
  {
    hide Closing;
    var rest := structName + "." + (name + Closing() + u);
    GroupFromRight("(", structName, ".", name, Closing(), u);
    assert ("(" + rest)[1..] == rest;
  }

  lemma GroupFromRight(a: string, b: string, c: string, d: string, e: string, f: string)
    ensures a + b + c + d + e + f == a + (b + c + (d + e + f))
  {
    ConcatAssoc(a, b, c);
    ConcatAssoc(a + (b + c), d, e);
    ConcatAssoc(a + (b + c), d + e, f);
    ConcatAssoc(a, b + c, d + e + f);
  }

  lemma ConcatAssoc(a: string, b: string, c: string)
    ensures a + b + c == a + (b + c)
  {
  }

  /** A number meets its parenthesis before it could meet the dot of an operand. */
  lemma NumberIsNoOperand(digits: string, structName: string, u: string, v: string)
    requires '.' !in digits && ')' !in structName
    ensures digits + ")" + u != structName + "." + v
  {
    var s, t := digits + ")" + u, structName + "." + v;
    if |digits| <= |structName| {
      assert s[|digits|] == ')';
      assert t[|digits|] == if |digits| < |structName| then structName[|digits|] else '.';
    } else {
      assert s[|structName|] == digits[|structName|];
      assert t[|structName|] == '.';
    }
  }

  lemma LeafUnique(s: Tree, t: Tree, structName: string, u: string, v: string)
    requires (s.Number? || s.Operand?) && (t.Number? || t.Operand?)
    requires PlainNames(s) && PlainNames(t) && PlainStruct(structName) && Continues(u) && Continues(v)
    requires Text(s, structName) + u == Text(t, structName) + v
    ensures s == t && u == v
  {
    hide Text, IntText, Closing;
    if s.Number? {
      NumberText(s.value, structName, u);
      NumberCharacters(s.value);
    } else {
      OperandText(s.name, structName, u);
    }
    if t.Number? {
      NumberText(t.value, structName, v);
      NumberCharacters(t.value);
    } else {
      OperandText(t.name, structName, v);
    }
    if s.Number? && t.Number? {
      CutAt(IntText(s.value), IntText(t.value), ')', u, v);
      IntTextInjective(s.value, t.value);
    } else if s.Operand? && t.Operand? {
      var end := Closing();
      SameRest(structName + ".", s.name + end + u, t.name + end + v);
      NameUnique(s.name, t.name, u, v);
    } else if s.Number? {
      NumberIsNoOperand(IntText(s.value), structName, u, t.name + Closing() + v);
    } else {
      NumberIsNoOperand(IntText(t.value), structName, v, s.name + Closing() + u);
    }
  }

  lemma SameRest(before: string, x: string, y: string)
    requires before + x == before + y
    ensures x == y
  {
    assert (before + x)[|before|..] == x && (before + y)[|before|..] == y;
  }

  /** The operator and operands of a computation. */
  predicate IsBinary(t: Tree) { t.Add? || t.Sub? }

  function Operator(t: Tree): char { if t.Add? then '+' else '-' }

  lemma BinaryText(t: Tree, structName: string)
    requires IsBinary(t) && Finite(t)
    ensures Text(t, structName) == "(" + Text(t.l, structName) + ([Operator(t)] + Text(t.r, structName) + ")")
  {
    Regroup(Text(t.l, structName), [Operator(t)], Text(t.r, structName));
  }

  lemma Regroup(a: string, op: string, b: string)
    ensures "(" + a + op + b + ")" == "(" + a + (op + b + ")")
  {
  }

  /** Equal texts come from equal trees, whatever legal text follows them. */
  lemma {:induction false} TextUnique(s: Tree, t: Tree, structName: string, u: string, v: string)
    requires Finite(s) && Finite(t) && PlainNames(s) && PlainNames(t) && PlainStruct(structName)
    requires Continues(u) && Continues(v)
    requires Text(s, structName) + u == Text(t, structName) + v
    ensures s == t && u == v
    decreases s
  {
    hide Text;
    if IsBinary(s) && IsBinary(t) {
      BinaryText(s, structName);
      BinaryText(t, structName);
      var su := [Operator(s)] + Text(s.r, structName) + ")" + u;
      var tv := [Operator(t)] + Text(t.r, structName) + ")" + v;
      assert (Text(s, structName) + u)[1..] == Text(s.l, structName) + su;
      assert (Text(t, structName) + v)[1..] == Text(t.l, structName) + tv;
      TextUnique(s.l, t.l, structName, su, tv);
      assert su[0] == Operator(s) && tv[0] == Operator(t);
      assert su[1..] == Text(s.r, structName) + (")" + u);
      assert tv[1..] == Text(t.r, structName) + (")" + v);
      TextUnique(s.r, t.r, structName, ")" + u, ")" + v);
      assert (")" + u)[1..] == u && (")" + v)[1..] == v;
    } else if !IsBinary(s) && !IsBinary(t) {
      LeafUnique(s, t, structName, u, v);
    } else {
      SecondCharacter(s, structName, u);
      SecondCharacter(t, structName, v);
    }
  }

  lemma SecondCharacter(t: Tree, structName: string, u: string)
    requires Finite(t) && PlainNames(t) && PlainStruct(structName)
    ensures (Text(t, structName) + u)[1] == '(' <==> IsBinary(t)
  {
    if IsBinary(t) {
      BinaryText(t, structName);
      assert Text(t, structName)[1] == Text(t.l, structName)[0];
    } else {
      LeafSecond(t, structName, u);
    }
  }

  lemma LeafSecond(t: Tree, structName: string, u: string)
    requires (t.Number? || t.Operand?) && PlainStruct(structName)
    ensures (Text(t, structName) + u)[1] != '('
  {
    hide Text, IntText, Closing;
    var text := Text(t, structName) + u;
    assert text[1] == text[1..][0];
    if t.Number? {
      NumberText(t.value, structName, u);
      NumberCharacters(t.value);
    } else {
      OperandText(t.name, structName, u);
    }
  }

  /** The printed text determines the expression, except that infinity prints like the number -1. */
  lemma PrintedDeterminesTree(s: Tree, t: Tree, structName: string)
    requires Printed(s, structName).Some? && Printed(t, structName).Some?
    requires PlainNames(s) && PlainNames(t) && PlainStruct(structName)
    ensures Printed(s, structName) == Printed(t, structName) <==>
      s == t || (s == Infinity && t == Number(-1)) || (s == Number(-1) && t == Infinity)
  {
    hide Text, Printed, PlainNames, IntText;
    PrintedIs(s, structName);
    PrintedIs(t, structName);
    if Printed(s, structName) == Printed(t, structName) {
      TextUnique(NoInfinity(s), NoInfinity(t), structName, "", "");
    }
  }

  /** The number that prints like infinity, for infinity. */
  function NoInfinity(t: Tree): Tree { if t.Infinity? then Number(-1) else t }

  lemma PrintedIs(t: Tree, structName: string)
    requires Printed(t, structName).Some? && PlainNames(t)
    ensures Finite(NoInfinity(t)) && PlainNames(NoInfinity(t))
    ensures Printed(t, structName) == Some(Text(NoInfinity(t), structName))
  {
    if t.Infinity? {
      assert Decimal(1) == "1" && Text(Number(-1), structName) == "(-1)";
    }
  }

  /** A name can print like a computation. */
  lemma OddName(x: string, y: string, structName: string)
    ensures Text(Operand(x + (Closing() + "+(" + structName + ".") + y), structName)
         == Text(Operand(x), structName) + "+" + Text(Operand(y), structName)
  {
    hide Closing;
    var a := Closing();
    assert "+(" == "+" + "(";
    assert "(" + structName + "." + (x + (a + "+(" + structName + ".") + y) + a
        == ("(" + structName + "." + x + a) + "+" + ("(" + structName + "." + y + a);
  }

  /** Hence different expressions print alike, for any names and any struct; with the struct name
      `ops` and one-letter names these names fit the arena. */
  lemma OddNamesPrintAlike(x: string, y: string, z: string, structName: string)
    ensures
      var odd := Closing() + "+(" + structName + ".";
      var s, t := Add(Operand(x), Operand(y + odd + z)), Add(Operand(x + odd + y), Operand(z));
      && s != t && Printed(s, structName) == Printed(t, structName)
      && |y + odd + z| == |y| + |z| + |structName| + 17 && |x + odd + y| == |x| + |y| + |structName| + 17
  {
    hide Closing;
    var odd := Closing() + "+(" + structName + ".";
    OddName(x, y, structName);
    OddName(y, z, structName);
    assert |odd| == |structName| + 17;
    var s, t := Add(Operand(x), Operand(y + odd + z)), Add(Operand(x + odd + y), Operand(z));
    assert s.l.name != t.l.name;
    AlikeTexts(s.l, Operand(y), t.r, t.l, s.r, structName);
  }

  lemma AlikeTexts(a: Tree, b: Tree, c: Tree, ab: Tree, bc: Tree, structName: string)
    requires Finite(a) && Finite(b) && Finite(c) && Finite(ab) && Finite(bc)
    requires Text(ab, structName) == Text(a, structName) + "+" + Text(b, structName)
    requires Text(bc, structName) == Text(b, structName) + "+" + Text(c, structName)
    ensures Printed(Add(a, bc), structName) == Printed(Add(ab, c), structName)
  {
    var x, y, z := Text(a, structName), Text(b, structName), Text(c, structName);
    FlatText(x, y, z, "(", "+", ")");
  }

  lemma FlatText(x: string, y: string, z: string, open: string, op: string, close: string)
    ensures open + x + op + (y + op + z) + close == open + (x + op + y) + op + z + close
  {
  }
}
