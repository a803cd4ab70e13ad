// The tree of cancellable contexts of context/context.go, at the granularity of its
// locks: calls of cancel run side by side, each holding the locks of the nodes on its
// way down, and new nodes register with their parent meanwhile.

module Contexts {
  import opened Wrappers

  type Error = nat

  // How far propagateCancel has come for a new node. Only a Ready node is known to
  // anyone but its maker.
  datatype Stage = Checking | Inheriting | Registering | Ready

  // A nil map of children is the empty set. todo holds the children that the running
  // cancel has yet to leave behind; holder is the call that holds the lock.
  datatype Node = Node(
    parent: Option<nat>,
    stage: Stage,
    err: Option<Error>,
    cause: Option<Error>,
    children: set<nat>,
    holder: Option<nat>,
    todo: set<nat>)
  {
    // Cancelled, and the call that did it has let go of the lock.
    predicate Settled() { err.Some? && holder.None? }
  }

  // A call of cancel(true, err, cause) on node c. The path is the locks it holds, top down.
  datatype Call =
    | Waiting(c: nat, err: Error, cause: Error)
    | Cancelling(c: nat, err: Error, cause: Error, path: seq<nat>)
    | Detaching(c: nat)
    | Returned(c: nat)

  // Nodes are numbered in order of creation. The last field is history: who was asked
  // to cancel what.
  datatype State = State(nodes: seq<Node>, calls: map<nat, Call>, asked: set<(nat, Error, Error)>)

  const INITIAL := State([], map[], {})

  // ----- The steps -----

  datatype Step =
    | New(parent: Option<nat>)
    | Check(c: nat)
    | Inherit(c: nat)
    | Register(c: nat)
    | Ask(t: nat, c: nat, err: Error, cause: Option<Error>)
    | Lock(t: nat)
    | Descend(t: nat, x: nat)
    | Finish(t: nat)
    | Detach(t: nat)

  predicate At(s: State, c: nat, stage: Stage) {
    c < |s.nodes| && s.nodes[c].stage == stage
  }

  predicate Free(s: State, c: nat) {
    c < |s.nodes| && s.nodes[c].holder.None?
  }

  // A node with a parent stands at this stage and its parent is not locked.
  predicate Meets(s: State, c: nat, stage: Stage) {
    At(s, c, stage) && s.nodes[c].parent.Some? && Free(s, s.nodes[c].parent.value)
  }

  predicate Runs(s: State, t: nat) {
    && t in s.calls && s.calls[t].Cancelling? && s.calls[t].path != []
    && s.calls[t].path[|s.calls[t].path| - 1] < |s.nodes|
    && (|s.calls[t].path| > 1 ==> s.calls[t].path[|s.calls[t].path| - 2] < |s.nodes|)
  }

  function Top(s: State, t: nat): (c: nat)
    requires Runs(s, t)
    ensures c < |s.nodes|
  {
    s.calls[t].path[|s.calls[t].path| - 1]
  }

  predicate Can(s: State, step: Step) {
    match step
    case New(parent) => parent.Some? ==> At(s, parent.value, Ready)
    case Check(c) => At(s, c, Checking) && s.nodes[c].parent.Some? && s.nodes[c].parent.value < |s.nodes|
    case Inherit(c) => Meets(s, c, Inheriting)
    case Register(c) => Meets(s, c, Registering)
    case Ask(t, c, err, cause) => t !in s.calls && At(s, c, Ready)
    case Lock(t) => t in s.calls && s.calls[t].Waiting? && Free(s, s.calls[t].c)
    case Descend(t, x) => Runs(s, t) && x in s.nodes[Top(s, t)].todo && Free(s, x)
    case Finish(t) => Runs(s, t) && s.nodes[Top(s, t)].todo == {}
    case Detach(t) =>
      && t in s.calls && s.calls[t].Detaching? && s.calls[t].c < |s.nodes|
      && (s.nodes[s.calls[t].c].parent.Some? ==> Free(s, s.nodes[s.calls[t].c].parent.value))
  }

  function SetNode(s: State, c: nat, x: Node): State
    requires c < |s.nodes|
  {
    s.(nodes := s.nodes[c := x])
  }

  function SetCall(s: State, t: nat, call: Call): State {
    s.(calls := s.calls[t := call])
  }

  // What the first part of cancel does under the lock.
  function Marked(x: Node, t: nat, err: Error, cause: Error): Node {
    x.(err := Some(err), cause := Some(cause), holder := Some(t), todo := x.children)
  }

  function Unlocked(x: Node): Node {
    x.(children := {}, holder := None, todo := {})
  }

  // A new node whose parent is already cancelled takes over its error and cause.
  function Inherited(x: Node, p: Node): Node {
    x.(stage := Ready, err := p.err, cause := p.cause)
  }

  function Do(s: State, step: Step): State
    requires Can(s, step)
  {
    match step
    case New(parent) =>
      s.(nodes := s.nodes + [Node(parent, if parent.None? then Ready else Checking, None, None, {}, None, {})])
    case Check(c) =>
      var x := s.nodes[c];
      SetNode(s, c, x.(stage := if s.nodes[x.parent.value].err.Some? then Inheriting else Registering))
    case Inherit(c) =>
      var x := s.nodes[c];
      SetNode(s, c, Inherited(x, s.nodes[x.parent.value]))
    case Register(c) =>
      var x := s.nodes[c];
      var p := x.parent.value;
      if s.nodes[p].err.Some? then SetNode(s, c, Inherited(x, s.nodes[p]))
      else
        var t := SetNode(s, c, x.(stage := Ready));
        SetNode(t, p, t.nodes[p].(children := t.nodes[p].children + {c}))
    case Ask(t, c, err, cause) =>
      var because := if cause.None? then err else cause.value;
      SetCall(s, t, Waiting(c, err, because)).(asked := s.asked + {(c, err, because)})
    case Lock(t) =>
      var Waiting(c, err, cause) := s.calls[t];
      if s.nodes[c].err.Some? then SetCall(s, t, Returned(c))
      else SetCall(SetNode(s, c, Marked(s.nodes[c], t, err, cause)), t, Cancelling(c, err, cause, [c]))
    case Descend(t, x) =>
      var Cancelling(c, err, cause, path) := s.calls[t];
      var n := Top(s, t);
      if s.nodes[x].err.Some? then SetNode(s, n, s.nodes[n].(todo := s.nodes[n].todo - {x}))
      else SetCall(SetNode(s, x, Marked(s.nodes[x], t, err, cause)), t, Cancelling(c, err, cause, path + [x]))
    case Finish(t) =>
      var Cancelling(c, err, cause, path) := s.calls[t];
      var x := Top(s, t);
      var u := SetNode(s, x, Unlocked(s.nodes[x]));
      if |path| == 1 then SetCall(u, t, Detaching(c))
      else
        var n := path[|path| - 2];
        var v := SetCall(u, t, Cancelling(c, err, cause, path[..|path| - 1]));
        SetNode(v, n, v.nodes[n].(todo := v.nodes[n].todo - {x}))
    case Detach(t) =>
      var c := s.calls[t].c;
      var u := SetCall(s, t, Returned(c));
      if s.nodes[c].parent.None? then u
      else
        var p := s.nodes[c].parent.value;
        SetNode(u, p, s.nodes[p].(children := s.nodes[p].children - {c}))
  }

  // ----- The invariant -----

  // A node comes after its parent, and its parent is ready; a node about to inherit has
  // a cancelled parent.
  ghost predicate Tree(s: State) {
    forall c :: 0 <= c < |s.nodes| ==> Below(s, c)
  }

  ghost predicate Below(s: State, c: nat)
    requires c < |s.nodes|
  {
    var x := s.nodes[c];
    && (x.parent.Some? ==> x.parent.value < c && s.nodes[x.parent.value].stage.Ready?)
    && (x.parent.None? ==> x.stage.Ready?)
    && (x.stage.Inheriting? && x.parent.Some? ==> s.nodes[x.parent.value].err.Some?)
  }

  // What the fields of one node say about each other.
  ghost predicate Local(x: Node) {
    && (x.err.Some? <==> x.cause.Some?)
    && (!x.stage.Ready? ==> x.err.None? && x.children == {})
    && (x.holder.Some? ==> x.err.Some?)
    && (x.holder.None? ==> x.todo == {})
    && (x.Settled() ==> x.children == {})
    && x.todo <= x.children
  }

  ghost predicate Fields(s: State) {
    forall c :: 0 <= c < |s.nodes| ==> Local(s.nodes[c])
  }

  ghost predicate IsChild(s: State, n: nat, c: nat) {
    c < |s.nodes| && s.nodes[c].parent == Some(n) && s.nodes[c].stage.Ready?
  }

  ghost predicate Families(s: State) {
    forall n, c: nat :: 0 <= n < |s.nodes| && c in s.nodes[n].children ==> IsChild(s, n, c)
  }

  // A node still live or locked is in its parent's set of children, and when that parent
  // is cancelled, among those still to be visited.
  ghost predicate Kept(s: State, c: nat)
    requires c < |s.nodes|
  {
    var x := s.nodes[c];
    x.stage.Ready? && !x.Settled() && x.parent.Some? && x.parent.value < |s.nodes| ==>
      var p := s.nodes[x.parent.value];
      c in p.children && (p.err.Some? ==> c in p.todo)
  }

  ghost predicate Covered(s: State) {
    forall c :: 0 <= c < |s.nodes| ==> Kept(s, c)
  }

  // The path of a call goes down the tree and holds exactly the locks of the call.
  ghost predicate Path(s: State, t: nat, call: Call) {
    call.Cancelling? ==>
      && call.path != [] && call.path[0] == call.c
      && (forall i :: 0 <= i < |call.path| ==> OnPath(s, t, call, i))
  }

  ghost predicate OnPath(s: State, t: nat, call: Call, i: nat)
    requires call.Cancelling? && i < |call.path|
  {
    var c := call.path[i];
    && c < |s.nodes|
    && s.nodes[c].holder == Some(t) && s.nodes[c].err == Some(call.err) && s.nodes[c].cause == Some(call.cause)
    && (i > 0 ==> s.nodes[c].parent == Some(call.path[i - 1]) && call.path[i - 1] < |s.nodes|
                  && c in s.nodes[call.path[i - 1]].todo)
  }

  ghost predicate Paths(s: State) {
    forall t :: t in s.calls ==> Path(s, t, s.calls[t])
  }

  ghost predicate Held(s: State, c: nat)
    requires c < |s.nodes|
  {
    s.nodes[c].holder.Some? ==>
      var t := s.nodes[c].holder.value;
      t in s.calls && s.calls[t].Cancelling? && c in s.calls[t].path
  }

  ghost predicate Locks(s: State) {
    forall c :: 0 <= c < |s.nodes| ==> Held(s, c)
  }

  // A cancelled node was asked for with this error and cause, or has them from its parent.
  ghost predicate Sourced(s: State, c: nat)
    requires c < |s.nodes|
  {
    var x := s.nodes[c];
    x.err.Some? && x.cause.Some? ==>
      || (c, x.err.value, x.cause.value) in s.asked
      || (x.parent.Some? && x.parent.value < |s.nodes|
          && s.nodes[x.parent.value].err == x.err && s.nodes[x.parent.value].cause == x.cause)
  }

  ghost predicate Origins(s: State) {
    && (forall c :: 0 <= c < |s.nodes| ==> Sourced(s, c))
    && (forall t :: t in s.calls ==> CallValid(s, s.calls[t]))
  }

  ghost predicate CallValid(s: State, call: Call) {
    && At(s, call.c, Ready)
    && (call.Waiting? || call.Cancelling? ==> (call.c, call.err, call.cause) in s.asked)
    && (call.Detaching? || call.Returned? ==> s.nodes[call.c].Settled())
  }

  // A settled child stays in a live parent's set only until its call has detached it.
  ghost predicate Linked(s: State) {
    forall n: nat, c: nat :: Lingers(s, n, c) ==> BeingDetached(s, c)
  }

  ghost predicate Lingers(s: State, n: nat, c: nat) {
    && n < |s.nodes| && c < |s.nodes| && c in s.nodes[n].children
    && s.nodes[n].err.None? && s.nodes[c].Settled()
  }

  ghost predicate BeingDetached(s: State, c: nat) {
    exists t :: t in s.calls && s.calls[t] == Detaching(c)
  }

  ghost predicate Inv(s: State) {
    Linked(s) && Tree(s) && Fields(s) && Families(s) && Covered(s) && Paths(s) && Locks(s) && Origins(s)
  }

  lemma InitInv()
    ensures Inv(INITIAL)
  {
  }

  // ----- Every step keeps it -----

  lemma TopOnPath(s: State, t: nat)
    requires Paths(s) && Runs(s, t)
    ensures OnPath(s, t, s.calls[t], |s.calls[t].path| - 1)
  {
    assert Path(s, t, s.calls[t]);
  }

  // A node to be visited is a ready child of the node it hangs from.
  lemma NextIsChild(s: State, t: nat, x: nat)
    requires Fields(s) && Families(s) && Runs(s, t) && x in s.nodes[Top(s, t)].todo
    ensures IsChild(s, Top(s, t), x) && x in s.nodes[Top(s, t)].children
  {
    assert Local(s.nodes[Top(s, t)]);
  }

  // Nodes stay, keep their parent, stay ready, and keep the error and cause they were given.
  lemma Grows(s: State, step: Step)
    requires Fields(s) && Paths(s) && Can(s, step)
    ensures |s.nodes| <= |Do(s, step).nodes| && s.asked <= Do(s, step).asked
    ensures forall c :: 0 <= c < |s.nodes| ==> Later(s.nodes[c], Do(s, step).nodes[c])
  {
    if step.Descend? || step.Finish? {
      TopOnPath(s, step.t);
    }
  }

  ghost predicate Later(x: Node, y: Node) {
    && y.parent == x.parent
    && (x.stage.Ready? ==> y.stage.Ready?)
    && (x.parent.None? ==> y.stage == x.stage)
    && (x.err.Some? ==> y.err == x.err && y.cause == x.cause)
    && (x.Settled() ==> y.Settled())
  }

  lemma TreeStep(s: State, step: Step)
    requires Tree(s) && Fields(s) && Paths(s) && Can(s, step)
    ensures Tree(Do(s, step))
  {
    var t := Do(s, step);
    Grows(s, step);
    assert step.New? || |t.nodes| == |s.nodes|;
    forall c | 0 <= c < |t.nodes|
      ensures Below(t, c)
    {
      if c < |s.nodes| {
        assert Below(s, c);
        assert Later(s.nodes[c], t.nodes[c]);
      }
    }
  }

  lemma FieldsStep(s: State, step: Step)
    requires Fields(s) && Tree(s) && Families(s) && Paths(s) && Origins(s) && Can(s, step)
    ensures Fields(Do(s, step))
  {
    var t := Do(s, step);
    if step.Descend? || step.Finish? {
      TopOnPath(s, step.t);
    }
    if step.Descend? {
      NextIsChild(s, step.t, step.x);
    }
    if step.Lock? {
      assert CallValid(s, s.calls[step.t]);
    }
    if step.Inherit? || step.Register? {
      assert Below(s, step.c) && Local(s.nodes[s.nodes[step.c].parent.value]);
    }
    hide Paths, Origins, Families;
    forall c | 0 <= c < |t.nodes|
      ensures Local(t.nodes[c])
    {
      if c < |s.nodes| {
        assert Local(s.nodes[c]) && Below(s, c);
      }
    }
  }

  // Only registering adds a child, and then one that is ready.
  lemma ChildBefore(s: State, step: Step, n: nat, c: nat)
    requires Can(s, step) && n < |Do(s, step).nodes| && c in Do(s, step).nodes[n].children
    ensures (n < |s.nodes| && c in s.nodes[n].children) || (step.Register? && IsChild(Do(s, step), n, c))
  {
  }

  lemma FamiliesStep(s: State, step: Step)
    requires Families(s) && Tree(s) && Fields(s) && Paths(s) && Can(s, step)
    ensures Families(Do(s, step))
  {
    Grows(s, step);
    var t := Do(s, step);
    hide Tree, Fields, Paths, Do, Can;
    forall n, c: nat | 0 <= n < |t.nodes| && c in t.nodes[n].children
      ensures IsChild(t, n, c)
    {
      ChildBefore(s, step, n, c);
      if n < |s.nodes| && c in s.nodes[n].children {
        assert IsChild(s, n, c);
        assert Later(s.nodes[c], t.nodes[c]);
      }
    }
  }

  lemma NewCovered(s: State, step: Step)
    requires Inv(s) && Can(s, step)
    requires step.New? || step.Check? || step.Inherit? || step.Register?
    ensures Covered(Do(s, step))
  {
    var t := Do(s, step);
    if !step.New? {
      assert Below(s, step.c);
    }
    hide Paths, Origins, Families, Locks, Fields;
    forall c | 0 <= c < |t.nodes|
      ensures Kept(t, c)
    {
      if c < |s.nodes| {
        assert Below(s, c) && Kept(s, c);
      }
    }
  }

  lemma LockCovered(s: State, step: Step)
    requires Inv(s) && Can(s, step) && (step.Ask? || step.Lock?)
    ensures Covered(Do(s, step))
  {
    var t := Do(s, step);
    if step.Lock? {
      assert CallValid(s, s.calls[step.t]);
    }
    hide Paths, Origins, Families, Locks, Fields;
    forall c | 0 <= c < |t.nodes|
      ensures Kept(t, c)
    {
      assert Below(s, c) && Kept(s, c);
    }
  }

  lemma DescendCovered(s: State, step: Step)
    requires Inv(s) && Can(s, step) && step.Descend?
    ensures Covered(Do(s, step))
  {
    var t := Do(s, step);
    TopOnPath(s, step.t);
    hide Paths, Origins, Families, Locks, Fields;
    forall c | 0 <= c < |t.nodes|
      ensures Kept(t, c)
    {
      assert Below(s, c) && Kept(s, c);
    }
  }

  lemma FinishCovered(s: State, step: Step)
    requires Inv(s) && Can(s, step) && step.Finish?
    ensures Covered(Do(s, step))
  {
    var t := Do(s, step);
    TopOnPath(s, step.t);
    hide Paths, Origins, Families, Locks, Fields;
    forall c | 0 <= c < |t.nodes|
      ensures Kept(t, c)
    {
      assert Below(s, c) && Kept(s, c);
    }
  }

  lemma DetachCovered(s: State, step: Step)
    requires Inv(s) && Can(s, step) && step.Detach?
    ensures Covered(Do(s, step))
  {
    var t := Do(s, step);
    assert CallValid(s, s.calls[step.t]);
    hide Paths, Origins, Families, Locks, Fields;
    forall c | 0 <= c < |t.nodes|
      ensures Kept(t, c)
    {
      assert Below(s, c) && Kept(s, c);
    }
  }

  lemma CoveredStep(s: State, step: Step)
    requires Inv(s) && Can(s, step)
    ensures Covered(Do(s, step))
  {
    hide *;
    match step
    case Ask(_, _, _, _) => LockCovered(s, step);
    case Lock(_) => LockCovered(s, step);
    case Descend(_, _) => DescendCovered(s, step);
    case Finish(_) => FinishCovered(s, step);
    case Detach(_) => DetachCovered(s, step);
    case _ => NewCovered(s, step);
  }

  lemma OriginsStep(s: State, step: Step)
    requires Inv(s) && Can(s, step)
    ensures Origins(Do(s, step))
  {
    NodesSourced(s, step);
    CallsValid(s, step);
  }

  lemma SourcedStays(s: State, t: State, c: nat)
    requires c < |s.nodes| <= |t.nodes| && Sourced(s, c) && s.nodes[c].err.Some? && Local(s.nodes[c])
    requires s.asked <= t.asked
    requires forall d :: 0 <= d < |s.nodes| ==> Later(s.nodes[d], t.nodes[d])
    ensures Sourced(t, c)
  {
    assert Later(s.nodes[c], t.nodes[c]);
  }

  // Whoever cancels a live node does it with a request, or with what the parent holds.
  lemma NewlySourced(s: State, step: Step, c: nat)
    requires Inv(s) && Can(s, step) && c < |s.nodes| <= |Do(s, step).nodes| && s.nodes[c].err.None?
    ensures Sourced(Do(s, step), c)
  {
    if step.Descend? || step.Finish? {
      TopOnPath(s, step.t);
    }
    if step.Descend? {
      NextIsChild(s, step.t, step.x);
    }
    if step.Lock? {
      assert CallValid(s, s.calls[step.t]);
    }
    assert Below(s, c) && Local(s.nodes[c]);
    hide Paths, Families, Locks, Covered, CallValid, Linked, Tree, Fields, Origins;
  }

  lemma NodesSourced(s: State, step: Step)
    requires Inv(s) && Can(s, step)
    ensures forall c :: 0 <= c < |Do(s, step).nodes| ==> Sourced(Do(s, step), c)
  {
    var t := Do(s, step);
    Grows(s, step);
    assert step.New? || |t.nodes| == |s.nodes|;
    assert step.New? ==> t.nodes[|t.nodes| - 1].err.None? && |t.nodes| == |s.nodes| + 1;
    forall c | 0 <= c < |t.nodes|
      ensures Sourced(t, c)
    {
      if c < |s.nodes| {
        if s.nodes[c].err.Some? {
          assert Sourced(s, c) && Local(s.nodes[c]);
          hide Do, Sourced, Later, Local, Inv;
          SourcedStays(s, t, c);
        } else {
          NewlySourced(s, step, c);
        }
      }
    }
  }

  // The call that moves still names a ready node and a request.
  lemma MovedValid(s: State, step: Step)
    requires Inv(s) && Can(s, step) && (step.Lock? || step.Descend? || step.Finish? || step.Detach?)
    ensures step.t in Do(s, step).calls && CallValid(Do(s, step), Do(s, step).calls[step.t])
  {
    assert CallValid(s, s.calls[step.t]);
    if step.Descend? || step.Finish? {
      TopOnPath(s, step.t);
      assert Path(s, step.t, s.calls[step.t]);
    }
    hide Paths, Families, Locks, Covered, Fields, Tree, Origins;
  }

  lemma CallStays(s: State, t: State, call: Call)
    requires CallValid(s, call) && |s.nodes| <= |t.nodes| && s.asked <= t.asked
    requires Later(s.nodes[call.c], t.nodes[call.c])
    ensures CallValid(t, call)
  {
  }

  // A step leaves all calls alone but the one that is asked for or moves.
  lemma OtherCalls(s: State, step: Step, u: nat)
    requires Can(s, step) && u in Do(s, step).calls
    ensures || (u in s.calls && Do(s, step).calls[u] == s.calls[u])
            || ((step.Lock? || step.Descend? || step.Finish? || step.Detach?) && step.t == u)
            || (step.Ask? && CallValid(Do(s, step), Do(s, step).calls[u]))
  {
  }

  lemma CallsValid(s: State, step: Step)
    requires Inv(s) && Can(s, step)
    ensures forall u :: u in Do(s, step).calls ==> CallValid(Do(s, step), Do(s, step).calls[u])
  {
    var t := Do(s, step);
    Grows(s, step);
    if step.Lock? || step.Descend? || step.Finish? || step.Detach? {
      MovedValid(s, step);
    }
    hide Paths, Families, Locks, Covered, Sourced, Fields, Tree, Linked, Later, Do, Can, CallValid;
    forall u | u in t.calls
      ensures CallValid(t, t.calls[u])
    {
      OtherCalls(s, step, u);
      if u in s.calls && t.calls[u] == s.calls[u] {
        assert CallValid(s, s.calls[u]);
        CallStays(s, t, s.calls[u]);
      }
    }
  }

  // Going down a path the nodes get younger.
  lemma {:induction false} Descending(s: State, t: nat, i: nat, j: nat)
    requires Tree(s) && Paths(s) && t in s.calls && s.calls[t].Cancelling? && i < j < |s.calls[t].path|
    ensures s.calls[t].path[i] < s.calls[t].path[j]
  {
    assert Path(s, t, s.calls[t]);
    assert OnPath(s, t, s.calls[t], j);
    assert Below(s, s.calls[t].path[j]);
    if i < j - 1 {
      Descending(s, t, i, j - 1);
    }
  }

  // What a path needs of a node on it.
  ghost predicate SameHold(x: Node, y: Node) {
    y.parent == x.parent && y.holder == x.holder && y.err == x.err && y.cause == x.cause && y.todo == x.todo
  }

  ghost predicate KeepsHeld(s: State, t: State, u: nat) {
    && |s.nodes| <= |t.nodes|
    && forall c :: 0 <= c < |s.nodes| && s.nodes[c].holder == Some(u) ==> SameHold(s.nodes[c], t.nodes[c])
  }

  predicate Moves(step: Step, u: nat) {
    (step.Lock? || step.Descend? || step.Finish?) && step.t == u
  }

  // A step touches only free nodes and nodes its own call holds.
  lemma OthersKeep(s: State, step: Step, u: nat)
    requires Fields(s) && Tree(s) && Paths(s) && Can(s, step) && !Moves(step, u)
    ensures KeepsHeld(s, Do(s, step), u)
  {
    if step.Descend? || step.Finish? {
      TopOnPath(s, step.t);
    }
    if step.Finish? && |s.calls[step.t].path| > 1 {
      assert OnPath(s, step.t, s.calls[step.t], |s.calls[step.t].path| - 2);
    }
    if !step.New? && !step.Lock? && !step.Ask? && !step.Descend? && !step.Finish? && !step.Detach? {
      assert Local(s.nodes[step.c]);
    }
    hide Paths, Tree;
  }

  lemma SamePath(s: State, t: State, u: nat, call: Call)
    requires Path(s, u, call) && KeepsHeld(s, t, u)
    ensures Path(t, u, call)
  {
    if call.Cancelling? {
      forall i | 0 <= i < |call.path|
        ensures OnPath(t, u, call, i)
      {
        assert OnPath(s, u, call, i);
        assert i > 0 ==> OnPath(s, u, call, i - 1);
      }
    }
  }

  lemma LockPath(s: State, step: Step)
    requires Can(s, step) && step.Lock?
    ensures Path(Do(s, step), step.t, Do(s, step).calls[step.t])
  {
  }

  // All but the last two nodes of a path are as before.
  lemma DescendPath(s: State, step: Step)
    requires Inv(s) && Can(s, step) && step.Descend?
    ensures Path(Do(s, step), step.t, Do(s, step).calls[step.t])
  {
    var t, u := Do(s, step), step.t;
    var path := s.calls[u].path;
    TopOnPath(s, u);
    NextIsChild(s, u, step.x);
    assert Path(s, u, s.calls[u]);
    hide Families, Covered, Origins, Locks, Fields, Paths;
    forall i | 0 <= i < |t.calls[u].path|
      ensures OnPath(t, u, t.calls[u], i)
    {
      if i < |path| {
        assert OnPath(s, u, s.calls[u], i);
        if i > 0 {
          assert OnPath(s, u, s.calls[u], i - 1);
          Higher(s, u, i - 1);
        }
      }
    }
  }

  // A node above the top is not the top.
  lemma Higher(s: State, t: nat, i: nat)
    requires Tree(s) && Paths(s) && Runs(s, t) && i < |s.calls[t].path| - 1
    ensures s.calls[t].path[i] < Top(s, t)
  {
    Descending(s, t, i, |s.calls[t].path| - 1);
  }

  lemma FinishPath(s: State, step: Step)
    requires Inv(s) && Can(s, step) && step.Finish?
    ensures Path(Do(s, step), step.t, Do(s, step).calls[step.t])
  {
    var t, u := Do(s, step), step.t;
    var path := s.calls[u].path;
    TopOnPath(s, u);
    assert Path(s, u, s.calls[u]);
    hide Families, Covered, Origins, Locks, Fields, Paths;
    if |path| > 1 {
      forall i | 0 <= i < |path| - 1
        ensures OnPath(t, u, t.calls[u], i)
      {
        assert OnPath(s, u, s.calls[u], i);
        Higher(s, u, i);
        if i > 0 {
          assert OnPath(s, u, s.calls[u], i - 1);
          Higher(s, u, i - 1);
          Descending(s, u, i - 1, i);
          if i < |path| - 2 {
            Descending(s, u, i, |path| - 2);
          }
        }
      }
    }
  }

  lemma PathsStep(s: State, step: Step)
    requires Inv(s) && Can(s, step)
    ensures Paths(Do(s, step))
  {
    var t := Do(s, step);
    forall u | u in t.calls
      ensures Path(t, u, t.calls[u])
    {
      if Moves(step, u) {
        hide Path, Do;
        match step
        case Lock(_) => LockPath(s, step);
        case Descend(_, _) => DescendPath(s, step);
        case Finish(_) => FinishPath(s, step);
      } else {
        OthersKeep(s, step, u);
        if u in s.calls {
          assert Path(s, u, s.calls[u]);
          hide KeepsHeld;
          SamePath(s, t, u, s.calls[u]);
        }
      }
    }
  }

  lemma LocksStay(s: State, step: Step)
    requires Locks(s) && Can(s, step) && !step.Lock? && !step.Descend? && !step.Finish?
    ensures Locks(Do(s, step))
  {
    var t := Do(s, step);
    forall c | 0 <= c < |t.nodes|
      ensures Held(t, c)
    {
      assert c < |s.nodes| ==> Held(s, c);
    }
  }

  lemma LocksMove(s: State, step: Step)
    requires Fields(s) && Paths(s) && Locks(s) && Can(s, step) && (step.Lock? || step.Descend? || step.Finish?)
    ensures Locks(Do(s, step))
  {
    var t := Do(s, step);
    if !step.Lock? {
      TopOnPath(s, step.t);
    }
    hide Fields, Paths;
    forall c | 0 <= c < |t.nodes|
      ensures Held(t, c)
    {
      assert Held(s, c);
    }
  }

  lemma LocksStep(s: State, step: Step)
    requires Inv(s) && Can(s, step)
    ensures Locks(Do(s, step))
  {
    hide Do, Can, Locks;
    if step.Lock? || step.Descend? || step.Finish? {
      LocksMove(s, step);
    } else {
      LocksStay(s, step);
    }
  }

  lemma StillDetached(s: State, step: Step, c: nat)
    requires Can(s, step) && BeingDetached(s, c)
    ensures BeingDetached(Do(s, step), c) || (step.Detach? && s.calls[step.t].c == c)
  {
    var u :| u in s.calls && s.calls[u] == Detaching(c);
    assert u in Do(s, step).calls;
  }

  // The only way a child settles while its parent is live.
  lemma SettlesAlone(s: State, step: Step, n: nat, c: nat)
    requires Inv(s) && Can(s, step) && n < |s.nodes| && c in s.nodes[n].children && IsChild(s, n, c)
    requires !s.nodes[c].Settled() && Do(s, step).nodes[c].Settled() && Do(s, step).nodes[n].err.None?
    ensures BeingDetached(Do(s, step), c)
  {
    hide Covered, Origins, Locks, Linked, Families;
    assert step.Finish?;
    var call := s.calls[step.t];
    TopOnPath(s, step.t);
    assert Path(s, step.t, call);
    if |call.path| > 1 {
      assert OnPath(s, step.t, call, |call.path| - 2);
    }
    Grows(s, step);
    hide Fields, Tree, Paths;
    assert Do(s, step).calls[step.t] == Detaching(c);
  }

  // A child that lingers after a step was a child before it.
  lemma WasChild(s: State, step: Step, n: nat, c: nat)
    requires Fields(s) && Tree(s) && Can(s, step) && Lingers(Do(s, step), n, c)
    requires forall d :: 0 <= d < |s.nodes| ==> Later(s.nodes[d], Do(s, step).nodes[d])
    ensures n < |s.nodes| && c in s.nodes[n].children && s.nodes[n].err.None?
  {
    if step.Register? {
      assert Local(s.nodes[step.c]) && Below(s, step.c);
    }
    hide Fields, Tree;
  }

  lemma LinkedStep(s: State, step: Step)
    requires Inv(s) && Can(s, step)
    ensures Linked(Do(s, step))
  {
    var t := Do(s, step);
    Grows(s, step);
    if step.Detach? {
      assert CallValid(s, s.calls[step.t]);
    }
    forall n: nat, c: nat | Lingers(t, n, c)
      ensures BeingDetached(t, c)
    {
      WasChild(s, step, n, c);
      assert IsChild(s, n, c);
      if s.nodes[c].Settled() {
        assert Lingers(s, n, c);
        StillDetached(s, step, c);
        if step.Detach? && s.calls[step.t].c == c {
          NotAnyMore(s, step.t, n, c);
        }
      } else {
        hide Do, Can, Linked, Paths, Covered, Origins, Locks, Fields, Families, Tree;
        SettlesAlone(s, step, n, c);
      }
    }
  }

  lemma NotAnyMore(s: State, t: nat, n: nat, c: nat)
    requires Can(s, Detach(t)) && s.calls[t].c == c && IsChild(s, n, c) && n < |s.nodes|
    ensures c !in Do(s, Detach(t)).nodes[n].children
  {
  }

  lemma StepInv(s: State, step: Step)
    requires Inv(s) && Can(s, step)
    ensures Inv(Do(s, step))
  {
    TreeStep(s, step);
    FieldsStep(s, step);
    FamiliesStep(s, step);
    CoveredStep(s, step);
    PathsStep(s, step);
    LocksStep(s, step);
    OriginsStep(s, step);
    LinkedStep(s, step);
  }

  // ----- Runs -----

  ghost predicate IsRun(states: seq<State>, steps: seq<Step>) {
    && |states| == |steps| + 1
    && states[0] == INITIAL
    && forall i :: 0 <= i < |steps| ==> Can(states[i], steps[i]) && states[i + 1] == Do(states[i], steps[i])
  }

  lemma {:induction false} RunInv(states: seq<State>, steps: seq<Step>, k: nat)
    requires IsRun(states, steps) && k < |states|
    ensures Inv(states[k])
  {
    if k == 0 {
      InitInv();
    } else {
      RunInv(states, steps, k - 1);
      StepInv(states[k - 1], steps[k - 1]);
    }
  }

  lemma NodeLater(states: seq<State>, steps: seq<Step>, k: nat, c: nat)
    requires IsRun(states, steps) && k < |steps| && c < |states[k].nodes|
    ensures c < |states[k + 1].nodes| && Later(states[k].nodes[c], states[k + 1].nodes[c])
  {
    RunInv(states, steps, k);
    hide Do, Can, Tree, Families, Covered, Locks, Origins, Linked, Fields, Paths, Later;
    Grows(states[k], steps[k]);
  }

  // Error and cause of a node are written at most once.
  lemma {:induction false} WrittenOnce(states: seq<State>, steps: seq<Step>, i: nat, k: nat, c: nat)
    requires IsRun(states, steps) && i <= k < |states| && c < |states[i].nodes|
    ensures c < |states[k].nodes| && states[k].nodes[c].parent == states[i].nodes[c].parent
    ensures states[i].nodes[c].err.Some? ==>
              states[k].nodes[c].err == states[i].nodes[c].err && states[k].nodes[c].cause == states[i].nodes[c].cause
    ensures Later(states[i].nodes[c], states[k].nodes[c])
    decreases k
  {
    hide Do, Can, Later;
    if i < k {
      WrittenOnce(states, steps, i, k - 1, c);
      NodeLater(states, steps, k - 1, c);
      LaterStill(states[i].nodes[c], states[k - 1].nodes[c], states[k].nodes[c]);
    } else {
      LaterSame(states[i].nodes[c]);
    }
  }

  lemma LaterSame(x: Node)
    ensures Later(x, x)
  {
  }

  lemma LaterStill(x: Node, y: Node, z: Node)
    requires Later(x, y) && Later(y, z)
    ensures Later(x, z)
    ensures z.parent == x.parent && (x.err.Some? ==> z.err == x.err && z.cause == x.cause)
  {
  }

  // a is d or above it.
  predicate Above(s: State, a: nat, d: nat)
    decreases d
  {
    && d < |s.nodes|
    && (|| a == d
        || (s.nodes[d].parent.Some? && s.nodes[d].parent.value < d && Above(s, a, s.nodes[d].parent.value)))
  }

  lemma {:induction false} SettledBelow(s: State, a: nat, d: nat)
    requires Inv(s) && Above(s, a, d) && a < |s.nodes| && s.nodes[a].Settled() && s.nodes[d].stage.Ready?
    ensures s.nodes[d].Settled()
    decreases d
  {
    if a != d {
      var p := s.nodes[d].parent.value;
      assert Below(s, d);
      SettledBelow(s, a, p);
      assert Local(s.nodes[p]) && Kept(s, d);
    }
  }

  // Once a cancel of a node has returned, the node and everything registered below it
  // is cancelled, whatever other calls are under way.
  lemma CancelReachesAll(states: seq<State>, steps: seq<Step>, k: nat, t: nat, d: nat)
    requires IsRun(states, steps) && k < |states| && t in states[k].calls && states[k].calls[t].Returned?
    requires Above(states[k], states[k].calls[t].c, d) && states[k].nodes[d].stage.Ready?
    ensures states[k].nodes[d].err.Some? && states[k].nodes[d].cause.Some?
  {
    RunInv(states, steps, k);
    var s := states[k];
    assert CallValid(s, s.calls[t]);
    SettledBelow(s, s.calls[t].c, d);
    assert Local(s.nodes[d]);
  }

  // A live node whose parent is not locked has a live parent, and sits in its set.
  lemma LiveIsLinked(states: seq<State>, steps: seq<Step>, k: nat, c: nat)
    requires IsRun(states, steps) && k < |states| && c < |states[k].nodes|
    requires var x := states[k].nodes[c]; x.stage.Ready? && x.err.None? && x.parent.Some?
    ensures var p := states[k].nodes[c].parent.value;
            && p < c && c in states[k].nodes[p].children
            && (states[k].nodes[p].holder.None? ==> states[k].nodes[p].err.None?)
  {
    RunInv(states, steps, k);
    var s := states[k];
    assert Below(s, c) && Kept(s, c) && Local(s.nodes[s.nodes[c].parent.value]);
  }

  // No registration and no call under way.
  ghost predicate Quiet(s: State) {
    && (forall c :: 0 <= c < |s.nodes| ==> s.nodes[c].stage.Ready?)
    && (forall t :: t in s.calls ==> s.calls[t].Returned?)
  }

  lemma QuietIsFree(s: State, c: nat)
    requires Inv(s) && Quiet(s) && c < |s.nodes|
    ensures s.nodes[c].holder.None?
  {
    assert Held(s, c);
  }

  // At rest, a live node's set is exactly its live children and a cancelled node's set
  // is empty; and no live node has a cancelled parent.
  lemma QuietTree(states: seq<State>, steps: seq<Step>, k: nat, n: nat)
    requires IsRun(states, steps) && k < |states| && Quiet(states[k]) && n < |states[k].nodes|
    ensures var s := states[k];
            s.nodes[n].children ==
              set c | 0 <= c < |s.nodes| && s.nodes[c].parent == Some(n) && s.nodes[c].err.None? :: c
    ensures states[k].nodes[n].err.Some? ==> states[k].nodes[n].children == {}
  {
    RunInv(states, steps, k);
    var s := states[k];
    QuietIsFree(s, n);
    assert Local(s.nodes[n]);
    forall c: nat | c < |s.nodes| && s.nodes[c].parent == Some(n)
      ensures c in s.nodes[n].children <==> s.nodes[c].err.None?
    {
      QuietIsFree(s, c);
      assert Kept(s, c) && Below(s, c);
      assert !BeingDetached(s, c) && !Lingers(s, n, c);
    }
    assert forall c: nat :: c in s.nodes[n].children ==> IsChild(s, n, c);
  }

  // ----- Where the causes come from, told by the steps of the run alone -----

  // Step i asks to cancel node a with this error and this optional cause.
  predicate AsksFor(step: Step, a: nat, err: Error, cause: Error) {
    step.Ask? && step.c == a && step.err == err && (if step.cause.Some? then step.cause.value else step.err) == cause
  }

  // Up to step k some call of cancel on a carried this error and cause, the cause given to
  // cancel or, for want of one, the error.
  ghost predicate AskedBefore(steps: seq<Step>, k: nat, a: nat, err: Error, cause: Error) {
    exists i :: 0 <= i < k && i < |steps| && AsksFor(steps[i], a, err, cause)
  }

  // Only a request adds to the history, and then its node, error and cause.
  lemma AskedStep(s: State, step: Step, a: nat, err: Error, cause: Error)
    requires Can(s, step)
    ensures (a, err, cause) in Do(s, step).asked <==> (a, err, cause) in s.asked || AsksFor(step, a, err, cause)
  {
  }

  // The history of requests says what the steps say.
  lemma {:induction false} AskedByStep(states: seq<State>, steps: seq<Step>, k: nat, a: nat, err: Error, cause: Error)
    requires IsRun(states, steps) && k < |states|
    ensures (a, err, cause) in states[k].asked <==> AskedBefore(steps, k, a, err, cause)
  {
    if k > 0 {
      AskedByStep(states, steps, k - 1, a, err, cause);
      AskedStep(states[k - 1], steps[k - 1], a, err, cause);
      if AskedBefore(steps, k, a, err, cause) && !AsksFor(steps[k - 1], a, err, cause) {
        var i :| 0 <= i < k && i < |steps| && AsksFor(steps[i], a, err, cause);
        assert i < k - 1;
      }
    }
  }

  // Until its first lock a call keeps the node, error and cause it was made with.
  lemma WaitsOn(s: State, step: Step, t: nat)
    requires Can(s, step) && t in s.calls && s.calls[t].Waiting? && step != Lock(t)
    ensures t in Do(s, step).calls && Do(s, step).calls[t] == s.calls[t]
  {
  }

  lemma {:induction false} Waits(states: seq<State>, steps: seq<Step>, i: nat, j: nat)
    requires IsRun(states, steps) && i < j < |states| && steps[i].Ask?
    requires forall m :: i < m < j ==> steps[m] != Lock(steps[i].t)
    ensures steps[i].t in states[j].calls
    ensures states[j].calls[steps[i].t]
         == Waiting(steps[i].c, steps[i].err, if steps[i].cause.Some? then steps[i].cause.value else steps[i].err)
    decreases j
  {
    assert states[i + 1] == Do(states[i], steps[i]);
    if i + 1 < j {
      Waits(states, steps, i, j - 1);
      WaitsOn(states[j - 1], steps[j - 1], steps[i].t);
    }
  }

  // Once a call has passed its first lock it never waits again.
  lemma NeverAgain(s: State, step: Step, t: nat)
    requires Can(s, step) && t in s.calls && !s.calls[t].Waiting?
    ensures t in Do(s, step).calls && !Do(s, step).calls[t].Waiting?
  {
  }

  lemma {:induction false} LocksOnce(states: seq<State>, steps: seq<Step>, m: nat, j: nat, t: nat)
    requires IsRun(states, steps) && m < j < |states| && steps[m] == Lock(t)
    ensures t in states[j].calls && !states[j].calls[t].Waiting?
    decreases j
  {
    assert states[m + 1] == Do(states[m], steps[m]) && Can(states[m], steps[m]);
    if m + 1 < j {
      LocksOnce(states, steps, m, j - 1, t);
      NeverAgain(states[j - 1], steps[j - 1], t);
    }
  }

  // The first call to lock a live node gives it its own error and cause: the cause handed
  // to cancel, or the error when there is none.
  lemma CancelStoresItsCause(states: seq<State>, steps: seq<Step>, i: nat, j: nat)
    requires IsRun(states, steps) && i < j < |steps| && steps[i].Ask? && steps[j] == Lock(steps[i].t)
    requires steps[i].c < |states[j].nodes| && states[j].nodes[steps[i].c].err.None?
    ensures steps[i].c < |states[j + 1].nodes|
    ensures states[j + 1].nodes[steps[i].c].err == Some(steps[i].err)
    ensures states[j + 1].nodes[steps[i].c].cause
         == Some(if steps[i].cause.Some? then steps[i].cause.value else steps[i].err)
  {
    var t := steps[i].t;
    assert Can(states[j], steps[j]) && states[j + 1] == Do(states[j], steps[j]);
    forall m | i < m < j
      ensures steps[m] != Lock(t)
    {
      if steps[m] == Lock(t) {
        LocksOnce(states, steps, m, j, t);
      }
    }
    Waits(states, steps, i, j);
  }

  // Every cancelled node has its error and cause from an earlier call of cancel on it or
  // on a node above it.
  lemma {:induction false} CauseHasOrigin(states: seq<State>, steps: seq<Step>, k: nat, c: nat)
    requires IsRun(states, steps) && k < |states| && c < |states[k].nodes| && states[k].nodes[c].err.Some?
    ensures states[k].nodes[c].cause.Some?
    ensures exists a: nat :: Above(states[k], a, c)
                        && AskedBefore(steps, k, a, states[k].nodes[c].err.value, states[k].nodes[c].cause.value)
    decreases c
  {
    RunInv(states, steps, k);
    var s := states[k];
    assert Local(s.nodes[c]) && Sourced(s, c) && Below(s, c);
    var err, cause := s.nodes[c].err.value, s.nodes[c].cause.value;
    if (c, err, cause) in s.asked {
      AskedByStep(states, steps, k, c, err, cause);
      assert Above(s, c, c);
    } else {
      var p := s.nodes[c].parent.value;
      CauseHasOrigin(states, steps, k, p);
      var a: nat :| Above(s, a, p) && AskedBefore(steps, k, a, err, cause);
      assert Above(s, a, c);
    }
  }

  // A node cancelled before any call of cancel on it keeps its parent's cause ever after.
  lemma InheritedForGood(states: seq<State>, steps: seq<Step>, i: nat, k: nat, c: nat)
    requires IsRun(states, steps) && i <= k < |states| && c < |states[i].nodes| && states[i].nodes[c].err.Some?
    requires forall j :: 0 <= j < i && steps[j].Ask? ==> steps[j].c != c
    ensures c < |states[k].nodes| && states[k].nodes[c].parent.Some?
    ensures var p := states[k].nodes[c].parent.value;
            && p < c
            && states[k].nodes[c].err == states[k].nodes[p].err
            && states[k].nodes[c].cause == states[k].nodes[p].cause
  {
    RunInv(states, steps, i);
    var s := states[i];
    assert Local(s.nodes[c]) && Sourced(s, c) && Below(s, c);
    AskedByStep(states, steps, i, c, s.nodes[c].err.value, s.nodes[c].cause.value);
    WrittenOnce(states, steps, i, k, c);
    WrittenOnce(states, steps, i, k, s.nodes[c].parent.value);
  }

  // ----- No deadlock -----

  predicate Internal(step: Step) {
    !step.New? && !step.Ask?
  }

  ghost predicate CanMove(s: State) {
    exists step :: Internal(step) && Can(s, step)
  }

  ghost predicate NoneLockedAfter(s: State, m: nat) {
    forall c :: m < c < |s.nodes| ==> s.nodes[c].holder.None?
  }

  lemma {:induction false} LastLocked(s: State, c: nat) returns (m: nat)
    requires c < |s.nodes| && s.nodes[c].holder.Some?
    ensures m < |s.nodes| && s.nodes[m].holder.Some? && NoneLockedAfter(s, m)
    decreases |s.nodes| - c
  {
    if NoneLockedAfter(s, c) {
      m := c;
    } else {
      var d :| c < d < |s.nodes| && s.nodes[d].holder.Some?;
      m := LastLocked(s, d);
    }
  }

  // The call that holds the youngest lock can go on.
  lemma HolderMoves(s: State, c: nat)
    requires Inv(s) && c < |s.nodes| && s.nodes[c].holder.Some?
    ensures CanMove(s)
  {
    var m := LastLocked(s, c);
    assert Held(s, m);
    var t := s.nodes[m].holder.value;
    var call := s.calls[t];
    assert Path(s, t, call);
    var i :| 0 <= i < |call.path| && call.path[i] == m;
    assert OnPath(s, t, call, |call.path| - 1);
    if i < |call.path| - 1 {
      Descending(s, t, i, |call.path| - 1);
    }
    if |call.path| > 1 {
      assert OnPath(s, t, call, |call.path| - 2);
    }
    assert Runs(s, t) && Top(s, t) == m;
    if s.nodes[m].todo == {} {
      assert Can(s, Finish(t));
    } else {
      var x :| x in s.nodes[m].todo;
      NextIsChild(s, t, x);
      assert Below(s, x);
      assert Can(s, Descend(t, x));
    }
  }

  lemma MakerMoves(s: State, c: nat)
    requires Tree(s) && c < |s.nodes| && !s.nodes[c].stage.Ready?
    requires forall d :: 0 <= d < |s.nodes| ==> s.nodes[d].holder.None?
    ensures CanMove(s)
  {
    assert Below(s, c);
    assert Can(s, Check(c)) || Can(s, Inherit(c)) || Can(s, Register(c));
  }

  lemma CallMoves(s: State, t: nat)
    requires Tree(s) && Paths(s) && Origins(s) && t in s.calls && !s.calls[t].Returned?
    requires forall d :: 0 <= d < |s.nodes| ==> s.nodes[d].holder.None?
    ensures CanMove(s)
  {
    CancellingHolds(s, t);
    assert CallValid(s, s.calls[t]) && Below(s, s.calls[t].c);
    hide Paths, Origins, Tree;
    assert Can(s, Lock(t)) || Can(s, Detach(t));
  }

  // As long as a call or a registration is under way, one of them can go on.
  lemma NeverStuck(states: seq<State>, steps: seq<Step>, k: nat)
    requires IsRun(states, steps) && k < |states| && !Quiet(states[k])
    ensures CanMove(states[k])
  {
    RunInv(states, steps, k);
    var s := states[k];
    hide CanMove, Can, Do, Tree, Fields, Families, Covered, Paths, Locks, Origins, Linked;
    if c :| 0 <= c < |s.nodes| && s.nodes[c].holder.Some? {
      HolderMoves(s, c);
    } else if c :| 0 <= c < |s.nodes| && !s.nodes[c].stage.Ready? {
      MakerMoves(s, c);
    } else {
      var t :| t in s.calls && !s.calls[t].Returned?;
      CallMoves(s, t);
    }
  }

  lemma CancellingHolds(s: State, t: nat)
    requires Paths(s) && t in s.calls
    ensures s.calls[t].Cancelling? ==>
              s.calls[t].path != [] && s.calls[t].path[0] < |s.nodes| && s.nodes[s.calls[t].path[0]].holder.Some?
  {
    assert Path(s, t, s.calls[t]);
    assert s.calls[t].Cancelling? ==> OnPath(s, t, s.calls[t], 0);
  }
}
