/** The search for the bytecode locations a function reads through a pointer argument, over a
    def-use graph that may have cycles. */
module ReadLocations {
  import opened Wrappers

  type Value = nat

  datatype Kind = StoreInst | LoadInst | CmpXchgInst | RmwInst | CallInst | OtherUser

  /** A value with the instruction that defines it, if any. */
  datatype Node = Node(kind: Kind, operands: seq<Value>, isVoid: bool)

  datatype Use = Use(user: Value, operandNo: nat)

  datatype Graph = Graph(nodes: map<Value, Node>, uses: map<Value, seq<Use>>)
  {
    ghost predicate Valid()
    {
      && uses.Keys == nodes.Keys
      && (forall v :: v in nodes ==> Shape(nodes[v]))
      && (forall v, i :: v in uses && 0 <= i < |uses[v]| ==> IsUse(v, uses[v][i]))
      && (forall v, i :: v in nodes && 0 <= i < |nodes[v].operands| ==>
           nodes[v].operands[i] in uses && Use(v, i) in uses[nodes[v].operands[i]])
    }

    ghost predicate IsUse(v: Value, u: Use)
    {
      u.user in nodes && u.operandNo < |nodes[u.user].operands| && nodes[u.user].operands[u.operandNo] == v
    }

    ghost predicate Shape(n: Node)
    {
      match n.kind
      case StoreInst => |n.operands| == 2    // value, pointer
      case LoadInst => |n.operands| == 1     // pointer
      case CmpXchgInst => |n.operands| == 3  // pointer, expected, new
      case RmwInst => |n.operands| == 2      // pointer, value
      case CallInst => true
      case OtherUser => true
    }

    // -------------------------------------------------------------- what one use does

    /** The use is the address that is read. */
    predicate Reads(u: Use)
      requires u.user in nodes
    {
      u.operandNo == 0 && nodes[u.user].kind in {LoadInst, CmpXchgInst, RmwInst}
    }

    /** The use is the address that is written by a store. */
    predicate Writes(u: Use)
      requires u.user in nodes
    {
      u.operandNo == 1 && nodes[u.user].kind == StoreInst
    }

    /** The user's result is computed from the used value. */
    predicate FlowsOn(u: Use)
      requires u.user in nodes
    {
      !Reads(u) && !Writes(u) && !nodes[u.user].isVoid
    }

    // -------------------------------------------------------------- what the analysis is about

    /** The value is stored into memory or passed to a call. */
    ghost predicate Escapes(v: Value)
    {
      exists user :: user in nodes && Leaks(v, nodes[user])
    }

    predicate Leaks(v: Value, n: Node)
    {
      || (n.kind == StoreInst && |n.operands| == 2 && n.operands[0] == v)
      || (n.kind == CmpXchgInst && |n.operands| == 3 && n.operands[2] == v)
      || (n.kind == RmwInst && |n.operands| == 2 && n.operands[1] == v)
      || (n.kind == CallInst && v in n.operands)
    }

    /** The value is the address of a load or of an atomic read. */
    ghost predicate ReadThrough(v: Value)
    {
      exists user :: user in nodes && nodes[user].kind in {LoadInst, CmpXchgInst, RmwInst}
                     && |nodes[user].operands| > 0 && nodes[user].operands[0] == v
    }

    /** `b` is computed from `a`: it has `a` as an operand other than an address it accesses. */
    ghost predicate ComputedFrom(b: Value, a: Value)
    {
      && b in nodes && !nodes[b].isVoid
      && exists i :: 0 <= i < |nodes[b].operands| && nodes[b].operands[i] == a && FlowsOn(Use(b, i))
    }

    ghost predicate IsPath(path: seq<Value>)
    {
      |path| > 0 && forall i :: 0 < i < |path| ==> ComputedFrom(path[i], path[i - 1])
    }

    /** `v` depends on `root` through a chain of computations, of any length. */
    ghost predicate Derived(root: Value, v: Value)
    {
      exists path :: IsPath(path) && path[0] == root && path[|path| - 1] == v
    }

    /** Nothing derived from the pointer leaves the function's sight. */
    ghost predicate Confined(root: Value)
    {
      forall v :: v in nodes && Derived(root, v) ==> !Escapes(v)
    }
  }

  // ---------------------------------------------------------------- paths

  lemma DerivedSelf(g: Graph, root: Value)
    ensures g.Derived(root, root)
  {
    assert g.IsPath([root]);
  }

  lemma DerivedStep(g: Graph, root: Value, a: Value, b: Value)
    requires g.Derived(root, a) && g.ComputedFrom(b, a)
    ensures g.Derived(root, b)
  {
    hide Graph.ComputedFrom;
    var path :| g.IsPath(path) && path[0] == root && path[|path| - 1] == a;
    assert g.IsPath(path + [b]);
  }

  /** A set that holds the root and is closed under computation holds everything derived. */
  lemma {:induction false} PathInside(g: Graph, path: seq<Value>, closed: set<Value>)
    requires g.IsPath(path) && path[0] in closed
    requires forall a, b :: a in closed && g.ComputedFrom(b, a) ==> b in closed
    ensures path[|path| - 1] in closed
    decreases |path|
  {
    hide Graph.ComputedFrom;
    if |path| > 1 {
      var n := |path| - 1;
      PathInside(g, path[..n], closed);
    }
  }

  // ---------------------------------------------------------------- running the function

  /** What is known while the function runs: the values that depend on the pointer, whether such a
      value was written to memory or passed to a call, and the addresses depending on the pointer
      that were read. */
  datatype Machine = Machine(dependent: set<Value>, stored: bool, passed: bool, read: set<Value>)
  {
    function Result(n: Value, isVoid: bool, depends: bool): Machine
    {
      if isVoid then this
      else if depends then this.(dependent := dependent + {n})
      else this.(dependent := dependent - {n})
    }

    function ReadAt(address: Value): Machine
    {
      if address in dependent then this.(read := read + {address}) else this
    }

    function Written(v: Value): Machine
    {
      if v in dependent then this.(stored := true) else this
    }

    predicate Clean() { !stored && !passed }
  }

  function Started(root: Value): Machine { Machine({root}, false, false, {}) }

  /** One instruction. Memory gives back something that depends on the pointer only if such a value
      was stored before. */
  function Execute(g: Graph, m: Machine, n: Value): Machine
    requires n in g.nodes && g.Shape(g.nodes[n])
  {
    var node := g.nodes[n];
    var ops := node.operands;
    match node.kind
    case StoreInst => m.Written(ops[0])
    case LoadInst => m.ReadAt(ops[0]).Result(n, node.isVoid, m.stored)
    case CmpXchgInst => m.ReadAt(ops[0]).Written(ops[2]).Result(n, node.isVoid, m.stored || ops[1] in m.dependent)
    case RmwInst => m.ReadAt(ops[0]).Written(ops[1]).Result(n, node.isVoid, m.stored)
    case CallInst =>
      var depends := exists i :: 0 <= i < |ops| && ops[i] in m.dependent;
      m.(passed := m.passed || depends).Result(n, node.isVoid, depends)
    case OtherUser => m.Result(n, node.isVoid, exists i :: 0 <= i < |ops| && ops[i] in m.dependent)
  }

  /** Instructions executed one after the other, in any order and any number of times. */
  function Execution(g: Graph, root: Value, trace: seq<Value>): Machine
    requires g.Valid() && forall i :: 0 <= i < |trace| ==> trace[i] in g.nodes
  {
    if |trace| == 0 then Started(root)
    else Execute(g, Execution(g, root, trace[..|trace| - 1]), trace[|trace| - 1])
  }

  ghost predicate IsTrace(g: Graph, trace: seq<Value>)
  {
    forall i :: 0 <= i < |trace| ==> trace[i] in g.nodes
  }

  /** However the function runs, nothing that depends on the pointer is written to memory or passed
      to a call. */
  ghost predicate AlwaysClean(g: Graph, root: Value)
    requires g.Valid()
  {
    forall trace | IsTrace(g, trace) :: Execution(g, root, trace).Clean()
  }

  /** The address is read in some run. */
  ghost predicate ReadInSomeRun(g: Graph, root: Value, v: Value)
    requires g.Valid()
  {
    exists trace :: IsTrace(g, trace) && v in Execution(g, root, trace).read
  }

  /** What the analysis knows about a run. */
  ghost predicate Explained(g: Graph, root: Value, m: Machine)
  {
    && m.Clean()
    && (forall v :: v in m.dependent ==> v in g.nodes && g.Derived(root, v))
    && (forall v :: v in m.read ==> v in g.nodes && g.Derived(root, v) && g.ReadThrough(v))
  }

  lemma OperandFlows(g: Graph, root: Value, n: Value, i: nat)
    requires g.Valid() && n in g.nodes && i < |g.nodes[n].operands| && g.Derived(root, g.nodes[n].operands[i])
    requires g.FlowsOn(Use(n, i))
    ensures g.Derived(root, n)
  {
    assert g.ComputedFrom(n, g.nodes[n].operands[i]);
    DerivedStep(g, root, g.nodes[n].operands[i], n);
  }

  lemma LeakEscapes(g: Graph, n: Value, v: Value)
    requires n in g.nodes && g.Leaks(v, g.nodes[n])
    ensures g.Escapes(v)
  {
  }

  /** Without escaping values, every step stays explained. */
  lemma ExecuteExplained(g: Graph, root: Value, m: Machine, n: Value)
    requires g.Valid() && g.Confined(root) && Explained(g, root, m) && n in g.nodes
    ensures Explained(g, root, Execute(g, m, n))
  {
    hide Graph.Derived, Graph.Escapes, Graph.ComputedFrom;
    var node := g.nodes[n];
    var ops := node.operands;
    assert g.Shape(node);
    forall i | 0 <= i < |ops| && ops[i] in m.dependent
      ensures !g.Leaks(ops[i], node) && (g.FlowsOn(Use(n, i)) ==> g.Derived(root, n))
      ensures g.Reads(Use(n, i)) ==> g.ReadThrough(ops[i])
    {
      if g.Leaks(ops[i], node) { LeakEscapes(g, n, ops[i]); }
      if g.FlowsOn(Use(n, i)) { OperandFlows(g, root, n, i); }
    }
    match node.kind
    case StoreInst =>
    case LoadInst => assert ops[0] in m.dependent ==> g.Reads(Use(n, 0));
    case CmpXchgInst => assert ops[0] in m.dependent ==> g.Reads(Use(n, 0));
    case RmwInst => assert ops[0] in m.dependent ==> g.Reads(Use(n, 0));
    case CallInst =>
    case OtherUser =>
  }

  lemma {:induction false} ExecutionExplained(g: Graph, root: Value, trace: seq<Value>)
    requires g.Valid() && g.Confined(root) && root in g.nodes && IsTrace(g, trace)
    ensures Explained(g, root, Execution(g, root, trace))
  {
    hide Graph.Valid, Graph.Confined, Graph.Derived, Explained, Execute;
    if |trace| == 0 {
      StartExplained(g, root);
    } else {
      var n := |trace| - 1;
      ExecutionExplained(g, root, trace[..n]);
      ExecuteExplained(g, root, Execution(g, root, trace[..n]), trace[n]);
    }
  }

  lemma StartExplained(g: Graph, root: Value)
    requires root in g.nodes
    ensures Explained(g, root, Started(root))
  {
    hide Graph.Derived;
    DerivedSelf(g, root);
  }

  /** A run that follows a path of computations either carries the dependency along or has already
      leaked it. */
  lemma {:induction false} FollowPath(g: Graph, path: seq<Value>)
    requires g.Valid() && g.IsPath(path)
    ensures IsTrace(g, path[1..])
    ensures
      var m := Execution(g, path[0], path[1..]);
      !m.Clean() || path[|path| - 1] in m.dependent
  {
    hide Execute, Graph.Valid;
    PathTrace(g, path);
    var n := |path| - 1;
    if n == 0 {
      assert path[1..] == [];
    } else {
      var shorter := path[..n];
      FollowPath(g, shorter);
      assert path[1..][..n - 1] == shorter[1..] && path[1..][n - 1] == path[n];
      FollowStep(g, Execution(g, path[0], shorter[1..]), path[n - 1], path[n]);
    }
  }

  lemma PathTrace(g: Graph, path: seq<Value>)
    requires g.IsPath(path)
    ensures IsTrace(g, path[1..])
  {
    forall i | 0 <= i < |path| - 1 ensures path[1..][i] in g.nodes {
      assert g.ComputedFrom(path[i + 1], path[i]);
    }
  }

  lemma FollowStep(g: Graph, m: Machine, a: Value, b: Value)
    requires g.Valid() && g.ComputedFrom(b, a) && (!m.Clean() || a in m.dependent)
    ensures
      var m' := Execute(g, m, b);
      !m'.Clean() || b in m'.dependent
  {
    var i :| 0 <= i < |g.nodes[b].operands| && g.nodes[b].operands[i] == a && g.FlowsOn(Use(b, i));
    assert g.Shape(g.nodes[b]);
  }

  lemma LeakStep(g: Graph, m: Machine, v: Value, n: Value)
    requires g.Valid() && n in g.nodes && g.Leaks(v, g.nodes[n]) && (!m.Clean() || v in m.dependent)
    ensures !Execute(g, m, n).Clean()
  {
    assert g.Shape(g.nodes[n]);
    if g.nodes[n].kind == CallInst && v in g.nodes[n].operands {
      var i :| 0 <= i < |g.nodes[n].operands| && g.nodes[n].operands[i] == v;
    }
  }

  /** Run along the path to `v`, and then one more instruction. */
  lemma RunTo(g: Graph, root: Value, v: Value, n: Value) returns (trace: seq<Value>, m: Machine)
    requires g.Valid() && g.Derived(root, v) && n in g.nodes
    ensures IsTrace(g, trace) && Execution(g, root, trace) == Execute(g, m, n)
    ensures !m.Clean() || v in m.dependent
  {
    hide Execute, Graph.Valid, Graph.ComputedFrom;
    var path :| g.IsPath(path) && path[0] == root && path[|path| - 1] == v;
    FollowPath(g, path);
    trace := path[1..] + [n];
    m := Execution(g, root, path[1..]);
    assert trace[..|trace| - 1] == path[1..];
  }

  /** Nothing escapes exactly when every run keeps the dependency to itself. */
  lemma ConfinedIsClean(g: Graph, root: Value)
    requires g.Valid() && root in g.nodes
    ensures g.Confined(root) <==> AlwaysClean(g, root)
  {
    hide Graph.Valid, Graph.Derived, Graph.Leaks, Execute, Execution;
    if g.Confined(root) {
      forall trace | IsTrace(g, trace) ensures Execution(g, root, trace).Clean() {
        ExecutionExplained(g, root, trace);
      }
    } else {
      var v :| v in g.nodes && g.Derived(root, v) && g.Escapes(v);
      var user :| user in g.nodes && g.Leaks(v, g.nodes[user]);
      var trace, m := RunTo(g, root, v, user);
      LeakStep(g, m, v, user);
      assert !Execution(g, root, trace).Clean();
    }
  }

  /** Then the addresses that runs read are exactly the derived ones that are read through. */
  lemma ReadIsReadThrough(g: Graph, root: Value, v: Value)
    requires g.Valid() && root in g.nodes && g.Confined(root)
    ensures ReadInSomeRun(g, root, v) <==> v in g.nodes && g.Derived(root, v) && g.ReadThrough(v)
  {
    hide Graph.Valid, Graph.Derived, Graph.Confined, Graph.Leaks, Execute, Execution;
    if ReadInSomeRun(g, root, v) {
      var trace :| IsTrace(g, trace) && v in Execution(g, root, trace).read;
      ExecutionExplained(g, root, trace);
    }
    if v in g.nodes && g.Derived(root, v) && g.ReadThrough(v) {
      var user :| user in g.nodes && g.nodes[user].kind in {LoadInst, CmpXchgInst, RmwInst}
                  && |g.nodes[user].operands| > 0 && g.nodes[user].operands[0] == v;
      var trace, m := RunTo(g, root, v, user);
      if !m.Clean() { CleanBefore(g, m, user); }
      ExecutionExplained(g, root, trace);
      ReadStep(g, m, v, user);
    }
  }

  lemma CleanBefore(g: Graph, m: Machine, n: Value)
    requires g.Valid() && n in g.nodes && !m.Clean()
    ensures !Execute(g, m, n).Clean()
  {
    assert g.Shape(g.nodes[n]);
  }

  lemma ReadStep(g: Graph, m: Machine, v: Value, n: Value)
    requires g.Valid() && n in g.nodes && g.nodes[n].kind in {LoadInst, CmpXchgInst, RmwInst}
    requires |g.nodes[n].operands| > 0 && g.nodes[n].operands[0] == v && v in m.dependent
    ensures v in Execute(g, m, n).read
  {
    assert g.Shape(g.nodes[n]);
  }

  // ---------------------------------------------------------------- the search

  /** Everything about a value that its uses can say is recorded. */
  ghost predicate Done(g: Graph, v: Value, basedOn: set<Value>, loadedFrom: set<Value>)
  {
    && !g.Escapes(v)
    && (g.ReadThrough(v) ==> v in loadedFrom)
    && (forall b :: g.ComputedFrom(b, v) ==> b in basedOn)
  }

  /** The search so far has found only what it may. */
  ghost predicate Sound(g: Graph, root: Value, basedOn: set<Value>, loadedFrom: set<Value>)
  {
    && basedOn <= g.nodes.Keys
    && loadedFrom <= basedOn
    && root in basedOn
    && (forall v :: v in basedOn ==> g.Derived(root, v))
    && (forall v :: v in loadedFrom ==> g.ReadThrough(v))
  }

  /** The first `n` uses of `val` are recorded. */
  ghost predicate Seen(g: Graph, val: Value, n: nat, basedOn: set<Value>, loadedFrom: set<Value>)
    requires g.Valid() && val in g.nodes && n <= |g.uses[val]|
  {
    forall i :: 0 <= i < n ==>
      var u := g.uses[val][i];
      && u.user in g.nodes
      && !g.Leaks(val, g.nodes[u.user])
      && (g.Reads(u) ==> val in loadedFrom)
      && (g.FlowsOn(u) ==> u.user in basedOn)
  }

  /** An operand occurrence is among the uses of the operand. */
  lemma UseOf(g: Graph, val: Value, user: Value, i: nat) returns (k: nat)
    requires g.Valid() && val in g.nodes && user in g.nodes
    requires i < |g.nodes[user].operands| && g.nodes[user].operands[i] == val
    ensures val in g.uses && k < |g.uses[val]| && g.uses[val][k] == Use(user, i)
  {
    assert Use(user, i) in g.uses[val];
    k :| 0 <= k < |g.uses[val]| && g.uses[val][k] == Use(user, i);
  }

  lemma SeenNotLeaked(g: Graph, val: Value, user: Value, basedOn: set<Value>, loadedFrom: set<Value>)
    requires g.Valid() && val in g.nodes && Seen(g, val, |g.uses[val]|, basedOn, loadedFrom)
    requires user in g.nodes && val in g.nodes[user].operands
    ensures !g.Leaks(val, g.nodes[user])
  {
    hide Graph.Valid, Graph.Leaks;
    var i :| 0 <= i < |g.nodes[user].operands| && g.nodes[user].operands[i] == val;
    var k := UseOf(g, val, user, i);
  }

  lemma SeenRead(g: Graph, val: Value, basedOn: set<Value>, loadedFrom: set<Value>)
    requires g.Valid() && val in g.nodes && Seen(g, val, |g.uses[val]|, basedOn, loadedFrom)
    requires g.ReadThrough(val)
    ensures val in loadedFrom
  {
    hide Graph.Valid, Graph.Leaks;
    var user :| user in g.nodes && g.nodes[user].kind in {LoadInst, CmpXchgInst, RmwInst}
                && |g.nodes[user].operands| > 0 && g.nodes[user].operands[0] == val;
    var k := UseOf(g, val, user, 0);
    assert g.Reads(g.uses[val][k]);
  }

  lemma SeenFlow(g: Graph, val: Value, b: Value, basedOn: set<Value>, loadedFrom: set<Value>)
    requires g.Valid() && val in g.nodes && Seen(g, val, |g.uses[val]|, basedOn, loadedFrom)
    requires g.ComputedFrom(b, val)
    ensures b in basedOn
  {
    hide Graph.Valid, Graph.Leaks;
    var i :| 0 <= i < |g.nodes[b].operands| && g.nodes[b].operands[i] == val && g.FlowsOn(Use(b, i));
    var k := UseOf(g, val, b, i);
    assert g.FlowsOn(g.uses[val][k]);
  }

  lemma AllSeen(g: Graph, val: Value, basedOn: set<Value>, loadedFrom: set<Value>)
    requires g.Valid() && val in g.nodes && Seen(g, val, |g.uses[val]|, basedOn, loadedFrom)
    ensures Done(g, val, basedOn, loadedFrom)
  {
    hide Graph.Valid, Graph.ComputedFrom, Graph.ReadThrough, Seen;
    forall user | user in g.nodes && val in g.nodes[user].operands ensures !g.Leaks(val, g.nodes[user]) {
      SeenNotLeaked(g, val, user, basedOn, loadedFrom);
    }
    if g.ReadThrough(val) { SeenRead(g, val, basedOn, loadedFrom); }
    forall b | g.ComputedFrom(b, val) ensures b in basedOn {
      SeenFlow(g, val, b, basedOn, loadedFrom);
    }
  }

  /** One value taken from the queue: look at all its uses. */
  method VisitUses(g: Graph, ghost root: Value, val: Value, basedOn0: set<Value>, loadedFrom0: set<Value>,
                   q0: seq<Value>)
    returns (confined: bool, basedOn: set<Value>, loadedFrom: set<Value>, q: seq<Value>)
    requires g.Valid() && val in basedOn0 && Sound(g, root, basedOn0, loadedFrom0)
    requires forall v :: v in q0 ==> v in basedOn0
    ensures !confined ==> g.Escapes(val)
    ensures confined ==> Sound(g, root, basedOn, loadedFrom) && Done(g, val, basedOn, loadedFrom)
    ensures confined ==> Grown(basedOn0, loadedFrom0, q0, basedOn, loadedFrom, q)
  {
    hide Graph.Derived, Graph.ReadThrough, Graph.ComputedFrom, Graph.Escapes, Graph.Valid, Done;
    basedOn, loadedFrom, q := basedOn0, loadedFrom0, q0;
    KnownUses(g, val);
    for i := 0 to |g.uses[val]|
      invariant Sound(g, root, basedOn, loadedFrom) && Seen(g, val, i, basedOn, loadedFrom)
      invariant Grown(basedOn0, loadedFrom0, q0, basedOn, loadedFrom, q)
    {
      var u := g.uses[val][i];
      var usr := g.nodes[u.user];
      if usr.kind == StoreInst && val == usr.operands[0] { return false, basedOn, loadedFrom, q; }
      if usr.kind == CmpXchgInst && val == usr.operands[2] { return false, basedOn, loadedFrom, q; }
      if usr.kind == RmwInst && val == usr.operands[1] { return false, basedOn, loadedFrom, q; }
      if usr.kind == CallInst { return false, basedOn, loadedFrom, q; }

      if usr.kind == StoreInst && u.operandNo == 1 { continue; }
      if usr.kind in {LoadInst, CmpXchgInst, RmwInst} && u.operandNo == 0 {
        loadedFrom := loadedFrom + {val};
        continue;
      }
      if !usr.isVoid && u.user !in basedOn {
        FlowHere(g, root, val, u);
        basedOn := basedOn + {u.user};
        q := q + [u.user];
      }
    }
    AllSeen(g, val, basedOn, loadedFrom);
    confined := true;
  }

  /** The sets and the queue only grow, and what is new to the set is on the queue. */
  ghost predicate Grown(basedOn0: set<Value>, loadedFrom0: set<Value>, q0: seq<Value>,
                        basedOn: set<Value>, loadedFrom: set<Value>, q: seq<Value>)
  {
    && basedOn0 <= basedOn && loadedFrom0 <= loadedFrom
    && (forall v :: v in q ==> v in basedOn)
    && (forall v :: v in q0 ==> v in q)
    && (forall v :: v in basedOn && v !in basedOn0 ==> v in q)
    && (basedOn == basedOn0 ==> q == q0)
  }

  /** What the uses of a value say about it. */
  lemma KnownUses(g: Graph, val: Value)
    requires g.Valid() && val in g.nodes
    ensures val in g.uses && forall i :: 0 <= i < |g.uses[val]| ==>
      var u := g.uses[val][i];
      && g.IsUse(val, u) && g.Shape(g.nodes[u.user])
      && (g.Leaks(val, g.nodes[u.user]) ==> g.Escapes(val))
      && (g.Reads(u) ==> g.ReadThrough(val))
  {
    forall i | 0 <= i < |g.uses[val]|
      ensures g.IsUse(val, g.uses[val][i]) && g.Shape(g.nodes[g.uses[val][i].user])
      ensures g.Leaks(val, g.nodes[g.uses[val][i].user]) ==> g.Escapes(val)
      ensures g.Reads(g.uses[val][i]) ==> g.ReadThrough(val)
    {
      assert g.IsUse(val, g.uses[val][i]);
    }
  }

  lemma FlowHere(g: Graph, root: Value, val: Value, u: Use)
    requires g.Valid() && g.IsUse(val, u) && g.FlowsOn(u) && g.Derived(root, val)
    ensures g.Derived(root, u.user)
  {
    assert Use(u.user, u.operandNo) == u;
    DerivedStep(g, root, val, u.user);
  }

  /** The worklist: finds exactly the derived values, or one that escapes. */
  method FindDerived(g: Graph, ptr: Value) returns (confined: bool, basedOn: set<Value>, loadedFrom: set<Value>)
    requires g.Valid() && ptr in g.nodes
    ensures confined <==> g.Confined(ptr)
    ensures confined ==> forall v :: v in basedOn <==> v in g.nodes && g.Derived(ptr, v)
    ensures confined ==> forall v :: v in loadedFrom <==> v in basedOn && g.ReadThrough(v)
  {
    hide Graph.Derived, Graph.ReadThrough, Graph.ComputedFrom, Graph.Escapes, Done;
    DerivedSelf(g, ptr);
    basedOn, loadedFrom := {ptr}, {};
    var q := [ptr];
    while q != []
      invariant Sound(g, ptr, basedOn, loadedFrom)
      invariant forall v :: v in q ==> v in basedOn
      invariant forall v :: v in basedOn ==> v in q || Done(g, v, basedOn, loadedFrom)
      decreases |g.nodes.Keys - basedOn|, |q|
    {
      var val := q[0];
      ghost var before := basedOn;
      ghost var loadedBefore := loadedFrom;
      confined, basedOn, loadedFrom, q := VisitUses(g, ptr, val, basedOn, loadedFrom, q[1..]);
      if !confined { return; }
      DoneStays(g, before, loadedBefore, basedOn, loadedFrom);
      Fewer(g.nodes.Keys, before, basedOn);
    }
    confined := true;
    Complete(g, ptr, basedOn, loadedFrom);
  }

  /** Growing the sets does not undo what is recorded. */
  lemma DoneStays(g: Graph, basedOn0: set<Value>, loadedFrom0: set<Value>, basedOn: set<Value>, loadedFrom: set<Value>)
    requires basedOn0 <= basedOn && loadedFrom0 <= loadedFrom
    ensures forall v :: Done(g, v, basedOn0, loadedFrom0) ==> Done(g, v, basedOn, loadedFrom)
  {
    hide Graph.ComputedFrom, Graph.Escapes, Graph.ReadThrough;
  }

  /** With nothing left to visit, everything derived is found and none of it escapes. */
  lemma Complete(g: Graph, ptr: Value, basedOn: set<Value>, loadedFrom: set<Value>)
    requires Sound(g, ptr, basedOn, loadedFrom)
    requires forall v :: v in basedOn ==> Done(g, v, basedOn, loadedFrom)
    ensures g.Confined(ptr)
    ensures forall v :: v in basedOn <==> v in g.nodes && g.Derived(ptr, v)
    ensures forall v :: v in loadedFrom <==> v in basedOn && g.ReadThrough(v)
  {
    hide Graph.Derived, Graph.ReadThrough, Graph.ComputedFrom, Graph.Escapes;
    forall v | v in g.nodes && g.Derived(ptr, v) ensures v in basedOn {
      DerivedInside(g, ptr, v, basedOn);
    }
  }

  lemma Fewer(all: set<Value>, before: set<Value>, after: set<Value>)
    requires before <= after <= all
    ensures before == after || |all - after| < |all - before|
  {
    if before != after {
      var v :| v in after && v !in before;
      assert all - after <= all - before - {v};
      Smaller(all - after, all - before - {v});
    }
  }

  lemma {:induction false} Smaller(a: set<Value>, b: set<Value>)
    requires a <= b
    ensures |a| <= |b|
  {
    assert b == a + (b - a);
  }

  lemma DerivedInside(g: Graph, root: Value, v: Value, closed: set<Value>)
    requires g.Derived(root, v) && root in closed
    requires forall a, b :: a in closed && g.ComputedFrom(b, a) ==> b in closed
    ensures v in closed
  {
    hide Graph.ComputedFrom;
    var path :| g.IsPath(path) && path[0] == root && path[|path| - 1] == v;
    PathInside(g, path, closed);
  }

  // ---------------------------------------------------------------- the result

  /** `mapper` is what the operand-expression mapper found, nothing if its analysis failed. The
      analysis succeeds exactly when no run of the function writes a value that depends on the pointer
      to memory or passes one to a call, the mapper succeeded, and every such address that some run
      reads is expressible; the result lists, without repetition, exactly the expressions of the
      addresses that some run reads. */
  method AnalyzeReadLocations<Expr(==)>(g: Graph, ptr: Value, mapper: Option<map<Value, seq<Expr>>>)
    returns (result: Option<seq<Expr>>)
    requires g.Valid() && ptr in g.nodes
    requires mapper.Some? ==> forall v :: v in mapper.value ==> |mapper.value[v]| > 0
    ensures result.Some? <==>
      && AlwaysClean(g, ptr)
      && mapper.Some?
      && (forall v | ReadInSomeRun(g, ptr, v) :: v in mapper.value)
    ensures result.Some? ==>
      && (forall i, j :: 0 <= i < j < |result.value| ==> result.value[i] != result.value[j])
      && (forall e :: e in result.value <==>
           exists v :: ReadInSomeRun(g, ptr, v) && v in mapper.value && e in mapper.value[v])
  {
    hide Graph.Derived, Graph.ReadThrough, Graph.Confined, Graph.Valid, AlwaysClean, ReadInSomeRun;
    var confined, basedOn, loadedFrom := FindDerived(g, ptr);
    ConfinedIsClean(g, ptr);
    if confined {
      forall v ensures v in loadedFrom <==> ReadInSomeRun(g, ptr, v) {
        ReadIsReadThrough(g, ptr, v);
      }
    }
    if !confined { return None; }
    if mapper.None? { return None; }
    var m := mapper.value;
    var todo := loadedFrom;
    var r: set<Expr> := {};
    while todo != {}
      invariant todo <= loadedFrom
      invariant forall v :: v in loadedFrom && v !in todo ==> v in m
      invariant forall e :: e in r <==> exists v :: v in loadedFrom && v !in todo && v in m && e in m[v]
      decreases |todo|
    {
      var v :| v in todo;
      if v !in m { return None; }
      assert |m[v]| > 0;
      var added := set e | e in m[v];
      todo := todo - {v};
      r := r + added;
    }
    var list := Listed(r);
    result := Some(list);
  }

  method Listed<Expr(==)>(r: set<Expr>) returns (list: seq<Expr>)
    ensures forall e :: e in list <==> e in r
    ensures forall i, j :: 0 <= i < j < |list| ==> list[i] != list[j]
  {
    list := [];
    var todo := r;
    while todo != {}
      invariant todo <= r && forall e :: e in r <==> e in list || e in todo
      invariant forall e :: e in list ==> e !in todo
      invariant forall i, j :: 0 <= i < j < |list| ==> list[i] != list[j]
      decreases |todo|
    {
      var e :| e in todo;
      todo := todo - {e};
      list := list + [e];
    }
  }
}
