/** Network burn-in pairing: any number of nodes run the same code against one shared group
    and one shared lock.  The nodes are numbered; every remote call on the group or the lock
    is one step, and a schedule interleaves the steps of all nodes in any order. */
module Pairing {
  import opened Wrappers

  type Node = nat

  datatype Role = Writer | Reader

  datatype Outcome =
    | Pending
    | Returned(partner: Node, role: Role)
    | TimedOut
    | NoPartnerError
    | AssertionError

  // The next remote call (or decision) of a node.
  datatype Pc =
    | Outside         // wants the lock
    | Entered         // reads the initial members
    | Joining         // joins the group
    | Deciding        // becomes first (and releases) or second
    | Testing         // tests the clock at the top of the loop
    | Querying        // first: reads the members
    | Branching       // looks for a partner
    | Waiting         // second: polls until the first has left
    | LeavingPaired
    | Releasing       // second: explicit release
    | LeavingExpired
    | Exiting         // leaves the 'with' block, which releases again
    | Finished

  datatype Local = Local(
    pc: Pc, first: bool, init: set<Node>, members: set<Node>, partner: Option<Node>, outcome: Outcome)

  datatype State = State(group: set<Node>, lock: Option<Node>, nodes: seq<Local>)

  /** A step of node `node`.  `Expire` is the clock test failing; `Pick` names the member
      that the iteration over the members assigned last. */
  datatype Action = Go | Expire | Pick(other: Node)
  datatype Event = Event(node: Node, action: Action)

  const FRESH := Local(Outside, false, {}, {}, None, Pending)

  function Init(n: nat): State {
    State({}, None, seq(n, i => FRESH))
  }

  function Release(lock: Option<Node>, i: Node): Option<Node> {
    if lock == Some(i) then None else lock
  }

  function RoleOf(l: Local): Role {
    if l.first then Writer else Reader
  }

  /** Whether the branch `members_cnt == 2 or not first` is taken. */
  predicate Pairs(l: Local) {
    |l.members| == 2 || !l.first
  }

  function StepGroup(i: Node, l: Local, group: set<Node>): set<Node> {
    if l.pc == Joining then group + {i}
    else if l.pc in {LeavingPaired, LeavingExpired} then group - {i}
    else group
  }

  function StepLock(i: Node, l: Local, lock: Option<Node>): Option<Node> {
    if l.pc == Outside then Some(i)
    else if (l.pc == Deciding && l.init == {}) || l.pc in {Releasing, Exiting} then Release(lock, i)
    else lock
  }

  predicate CanStep(i: Node, l: Local, lock: Option<Node>, a: Action) {
    match a
    case Go =>
      l.pc != Finished &&
      (l.pc == Outside ==> lock == None) &&
      (l.pc == Branching && |l.members| < 3 && Pairs(l) ==> l.members - {i} == {})
    case Expire => l.pc == Testing
    case Pick(other) =>
      l.pc == Branching && |l.members| < 3 && Pairs(l) && other in l.members - {i}
  }

  /** What a step of a node does to its own variables, given the group it may read. */
  function StepLocal(i: Node, l: Local, group: set<Node>, a: Action): Local {
    match l.pc
    case Outside => l.(pc := Entered)
    case Entered => l.(pc := Joining, init := group)
    case Joining => l.(pc := Deciding)
    case Deciding => l.(pc := Testing, first := l.init == {})
    case Testing =>
      if a == Expire then l.(pc := LeavingExpired)
      else if l.first then l.(pc := Querying)
      else l.(pc := Branching, members := l.init)
    case Querying => l.(pc := Branching, members := group)
    case Branching =>
      if a.Pick? then l.(pc := if l.first then LeavingPaired else Waiting, partner := Some(a.other))
      else if |l.members| >= 3 then l.(pc := Exiting, outcome := AssertionError)
      else if Pairs(l) then l.(pc := Exiting, outcome := NoPartnerError)
      else l.(pc := Testing)
    case Waiting => if |group| == 2 then l else l.(pc := LeavingPaired)
    case LeavingPaired =>
      l.(pc := if l.first then Exiting else Releasing,
         outcome := match l.partner case Some(p) => Returned(p, RoleOf(l)) case None => NoPartnerError)
    case Releasing => l.(pc := Exiting)
    case LeavingExpired => l.(pc := Exiting, outcome := TimedOut)
    case Exiting => l.(pc := Finished)
    case Finished => l
  }

  predicate Enabled(s: State, e: Event) {
    e.node < |s.nodes| && CanStep(e.node, s.nodes[e.node], s.lock, e.action)
  }

  function Next(s: State, e: Event): State
    requires Enabled(s, e)
  {
    var i, l := e.node, s.nodes[e.node];
    State(StepGroup(i, l, s.group), StepLock(i, l, s.lock), s.nodes[i := StepLocal(i, l, s.group, e.action)])
  }

  /** The state after a schedule, or None when it asks for a step that cannot be taken. */
  function After(n: nat, schedule: seq<Event>): Option<State> {
    if schedule == [] then Some(Init(n)) else
      match After(n, schedule[..|schedule| - 1])
      case None => None
      case Some(s) =>
        var e := schedule[|schedule| - 1];
        if Enabled(s, e) then Some(Next(s, e)) else None
  }

  // ----- The inductive invariant -----

  predicate InGroup(l: Local) {
    l.pc in {Deciding, Testing, Querying, Branching, Waiting, LeavingPaired, LeavingExpired}
  }

  predicate Holds(l: Local) {
    || l.pc in {Entered, Joining, Deciding}
    || (!l.first && l.pc in {Testing, Branching, Waiting, LeavingPaired, LeavingExpired, Releasing})
    || (!l.first && l.pc == Exiting && l.outcome == TimedOut)
  }

  /** The first node, between releasing the lock and leaving the group. */
  predicate FirstInGroup(l: Local) {
    l.first && InGroup(l)
  }

  predicate Left(l: Local) {
    l.first && l.pc in {Exiting, Finished}
  }

  predicate Committed(l: Local) {
    l.pc in {LeavingPaired, Releasing} || l.outcome.Returned?
  }

  /** What a node's own variables satisfy, whatever the others do. */
  predicate LocalOk(i: Node, l: Local) {
    && (l.pc in {Outside, Entered} ==> l == FRESH.(pc := l.pc))
    && (l.pc in {Joining, Deciding} ==> l == FRESH.(pc := l.pc, init := l.init))
    && i !in l.init
    && (l.pc !in {Outside, Entered, Joining, Deciding} ==> (l.first <==> l.init == {}))
    && (l.pc == Querying ==> l.first)
    && (l.pc in {Waiting, Releasing} ==> !l.first)
    && (l.pc == Branching && !l.first ==> l.members == l.init)
    && (l.pc == Branching && l.first ==> i in l.members)
    && (l.pc in {Waiting, LeavingPaired, Releasing} ==> l.partner.Some?)
    && (l.pc == Releasing ==> l.outcome == Returned(l.partner.value, Reader))
    && (l.pc !in {Releasing, Exiting, Finished} ==> l.outcome == Pending)
    && (l.pc in {Exiting, Finished} ==>
          l.outcome == TimedOut || (l.partner.Some? && l.outcome == Returned(l.partner.value, RoleOf(l))))
  }

  ghost predicate GroupOk(s: State) {
    forall i: Node :: i in s.group <==> i < |s.nodes| && InGroup(s.nodes[i])
  }

  ghost predicate LockOk(s: State) {
    && (s.lock.Some? ==> s.lock.value < |s.nodes|)
    && forall i: Node :: i < |s.nodes| ==> (s.lock == Some(i) <==> Holds(s.nodes[i]))
  }

  ghost predicate OneFirst(s: State) {
    forall i: Node, j: Node ::
      i < |s.nodes| && j < |s.nodes| && FirstInGroup(s.nodes[i]) && FirstInGroup(s.nodes[j]) ==> i == j
  }

  /** What node i has read about the others is still right. */
  ghost predicate ViewOk(s: State, i: Node)
    requires i < |s.nodes|
  {
    var l := s.nodes[i];
    && |l.init| <= 1
    && (forall a :: a in l.init ==> a < |s.nodes| && s.nodes[a].first)
    && (Holds(l) && l.pc != Entered ==> s.group - {i} <= l.init)
    && (l.first && l.pc == Branching ==>
          |l.members| <= 2 && forall b :: b in l.members && b != i ==> b < |s.nodes| && s.nodes[b].init == {i})
    && (l.first && l.partner.Some? ==> l.partner.value < |s.nodes| && s.nodes[l.partner.value].init == {i})
    && (!l.first && l.partner.Some? ==> l.init == {l.partner.value})
    && (!l.first && Committed(l) ==> forall a :: a in l.init ==> a < |s.nodes| && Left(s.nodes[a]))
  }

  /** Two nodes that found the same first node: one of them has timed out. */
  ghost predicate OneReader(s: State) {
    forall b: Node, c: Node ::
      b < |s.nodes| && c < |s.nodes| && b != c && s.nodes[b].init != {} && s.nodes[b].init == s.nodes[c].init ==>
      s.nodes[b].outcome == TimedOut || s.nodes[c].outcome == TimedOut
  }

  ghost predicate Inv(s: State) {
    && (forall i: Node :: i < |s.nodes| ==> LocalOk(i, s.nodes[i]))
    && GroupOk(s)
    && LockOk(s)
    && OneFirst(s)
    && (forall i: Node :: i < |s.nodes| ==> ViewOk(s, i))
    && OneReader(s)
  }

  lemma {:induction false} UpToTwo(t: set<Node>, a: Node, b: Node)
    requires t <= {a, b}
    ensures |t| <= 2
    ensures |t| == 2 && a != b ==> t == {a, b}
  {
    assert t == {} || t == {a} || t == {b} || t == {a, b};
    if a != b { assert |{a, b}| == 2; }
  }

  lemma {:induction false} UpToOne(t: set<Node>)
    requires forall a, b :: a in t && b in t ==> a == b
    ensures |t| <= 1
  {
    if t != {} {
      var a :| a in t;
      assert t == {a};
    }
  }

  lemma {:induction false} OneElement(t: set<Node>, a: Node)
    requires |t| <= 1 && a in t
    ensures t == {a}
  {
    assert |t - {a}| == 0;
    assert t - {a} == {};
  }

  /** The group never has more than two members: the waiting first node and the lock holder. */
  lemma {:induction false} GroupSize(s: State)
    requires Inv(s)
    ensures |s.group| <= 2
    ensures forall i :: i in s.group ==> FirstInGroup(s.nodes[i]) || s.lock == Some(i)
  {
    var firsts := set i | i in s.group && FirstInGroup(s.nodes[i]);
    UpToOne(firsts);
    var f := if firsts == {} then 0 else var f :| f in firsts; f;
    var h := if s.lock == None then f else s.lock.value;
    assert s.group <= {f, h};
    UpToTwo(s.group, f, h);
  }

  /** A node that pairs always sees somebody else. */
  lemma {:induction false} SeesAnother(i: Node, l: Local)
    requires LocalOk(i, l) && l.pc == Branching && Pairs(l)
    ensures l.members - {i} != {}
  {
    if l.first {
      assert |l.members - {i}| == 1;
    } else {
      assert l.members - {i} == l.init;
    }
  }

  lemma {:induction false} LocalStep(i: Node, l: Local, group: set<Node>, lock: Option<Node>, a: Action)
    requires LocalOk(i, l) && CanStep(i, l, lock, a)
    requires l.pc == Entered ==> i !in group
    requires l.pc == Querying ==> i in group
    requires l.pc == Branching ==> |l.members| <= 2
    ensures LocalOk(i, StepLocal(i, l, group, a))
  {
    if l.pc == Branching && Pairs(l) {
      SeesAnother(i, l);
    }
  }

  lemma {:induction false} BranchingSize(s: State, i: Node)
    requires Inv(s) && i < |s.nodes| && s.nodes[i].pc == Branching
    ensures |s.nodes[i].members| <= 2
  {
    assert LocalOk(i, s.nodes[i]) && ViewOk(s, i);
  }

  lemma {:induction false} NextLocal(s: State, e: Event)
    requires Inv(s) && Enabled(s, e)
    ensures forall j: Node :: j < |s.nodes| ==> LocalOk(j, Next(s, e).nodes[j])
  {
    var i, l := e.node, s.nodes[e.node];
    if l.pc == Branching { BranchingSize(s, i); }
    LocalStep(i, l, s.group, s.lock, e.action);
  }

  lemma {:induction false} GroupStep(i: Node, l: Local, group: set<Node>, lock: Option<Node>, a: Action)
    requires LocalOk(i, l) && CanStep(i, l, lock, a)
    requires i in group <==> InGroup(l)
    requires l.pc == Branching && Pairs(l) ==> a.Pick? || |l.members| >= 3
    requires l.pc == Branching ==> |l.members| <= 2
    ensures i in StepGroup(i, l, group) <==> InGroup(StepLocal(i, l, group, a))
    ensures StepGroup(i, l, group) - {i} == group - {i}
  {
  }

  lemma {:induction false} LockStep(i: Node, l: Local, group: set<Node>, lock: Option<Node>, a: Action)
    requires LocalOk(i, l) && CanStep(i, l, lock, a)
    requires lock == Some(i) <==> Holds(l)
    requires l.pc == Branching && Pairs(l) ==> a.Pick?
    requires l.pc == Branching ==> |l.members| <= 2
    ensures StepLock(i, l, lock) == Some(i) <==> Holds(StepLocal(i, l, group, a))
    ensures StepLock(i, l, lock) == lock || (StepLock(i, l, lock) in {None, Some(i)} && lock in {None, Some(i)})
  {
  }

  /** What the step lemmas need to know about the stepping node. */
  lemma {:induction false} Stepping(s: State, e: Event)
    requires Inv(s) && Enabled(s, e)
    ensures var i, l := e.node, s.nodes[e.node];
            && LocalOk(i, l) && ViewOk(s, i)
            && (i in s.group <==> InGroup(l))
            && (s.lock == Some(i) <==> Holds(l))
            && (l.pc == Branching ==> |l.members| <= 2 && (Pairs(l) ==> e.action.Pick?))
  {
    var i, l := e.node, s.nodes[e.node];
    if l.pc == Branching {
      BranchingSize(s, i);
      if Pairs(l) { SeesAnother(i, l); }
    }
  }

  lemma {:induction false} NextGroup(s: State, e: Event)
    requires Inv(s) && Enabled(s, e)
    ensures GroupOk(Next(s, e))
  {
    Stepping(s, e);
    var i, l := e.node, s.nodes[e.node];
    GroupStep(i, l, s.group, s.lock, e.action);
    var t := Next(s, e);
    forall j: Node ensures j in t.group <==> j < |t.nodes| && InGroup(t.nodes[j]) {
      assert j != i ==> (j in t.group - {i} <==> j in s.group - {i});
    }
  }

  lemma {:induction false} NextLock(s: State, e: Event)
    requires Inv(s) && Enabled(s, e)
    ensures LockOk(Next(s, e))
  {
    Stepping(s, e);
    LockStep(e.node, s.nodes[e.node], s.group, s.lock, e.action);
  }

  lemma {:induction false} NextOneFirst(s: State, e: Event)
    requires Inv(s) && Enabled(s, e)
    ensures OneFirst(Next(s, e))
  {
    Stepping(s, e);
    var i, l := e.node, s.nodes[e.node];
    var l' := StepLocal(i, l, s.group, e.action);
    assert FirstInGroup(l') ==> FirstInGroup(l) || (l.pc == Deciding && l.init == {});
  }

  // ----- ViewOk, for the stepping node and for the others -----

  /** The values that a step leaves alone. */
  lemma {:induction false} Frame(i: Node, l: Local, group: set<Node>, lock: Option<Node>, a: Action)
    requires LocalOk(i, l) && CanStep(i, l, lock, a)
    requires l.pc == Branching ==> |l.members| <= 2 && (Pairs(l) ==> a.Pick?)
    ensures var l' := StepLocal(i, l, group, a);
            && (l.pc != Entered ==> l'.init == l.init)
            && (l.first ==> l'.first)
            && (Left(l) ==> Left(l'))
            && (l.outcome == TimedOut ==> l'.outcome == TimedOut)
            && (l'.partner == l.partner || (l.pc == Branching && l'.partner == Some(a.other)))
  {
  }

  lemma {:induction false} NextViewOther(s: State, e: Event, j: Node)
    requires Inv(s) && Enabled(s, e) && j < |s.nodes| && j != e.node
    ensures ViewOk(Next(s, e), j)
  {
    Stepping(s, e);
    var i, l, m, t := e.node, s.nodes[e.node], s.nodes[j], Next(s, e);
    Frame(i, l, s.group, s.lock, e.action);
    assert LocalOk(j, m) && ViewOk(s, j);
    assert l.pc == Entered ==> l.init == {};
    assert l.pc == Joining ==> !Holds(m);
    assert t.group - {j} <= s.group - {j} || l.pc == Joining;
  }

  lemma {:induction false} EnteredView(s: State, i: Node)
    requires Inv(s) && i < |s.nodes| && s.nodes[i].pc == Entered
    ensures i !in s.group && |s.group| <= 1 && forall a :: a in s.group ==> s.nodes[a].first
  {
    assert LocalOk(i, s.nodes[i]) && Holds(s.nodes[i]);
    GroupSize(s);
    UpToOne(s.group);
  }

  lemma {:induction false} QueryingView(s: State, i: Node)
    requires Inv(s) && i < |s.nodes| && s.nodes[i].pc == Querying
    ensures |s.group| <= 2 && i in s.group
    ensures forall b :: b in s.group && b != i ==> s.nodes[b].init == {i}
  {
    assert LocalOk(i, s.nodes[i]) && FirstInGroup(s.nodes[i]);
    GroupSize(s);
    forall b | b in s.group && b != i ensures s.nodes[b].init == {i} {
      assert !FirstInGroup(s.nodes[b]);
      assert Holds(s.nodes[b]) && ViewOk(s, b);
      OneElement(s.nodes[b].init, i);
    }
  }

  /** When the second node stops waiting, the first one has left. */
  lemma {:induction false} WaitingView(s: State, i: Node, a: Node)
    requires Inv(s) && i < |s.nodes| && s.nodes[i].pc == Waiting && |s.group| != 2 && a in s.nodes[i].init
    ensures a < |s.nodes| && Left(s.nodes[a])
  {
    assert LocalOk(i, s.nodes[i]) && ViewOk(s, i) && LocalOk(a, s.nodes[a]);
    OneElement(s.nodes[i].init, a);
    assert |{i, a}| == 2;
    assert a in s.group ==> s.group == {i, a};
  }

  lemma {:induction false} NextViewSelf(s: State, e: Event)
    requires Inv(s) && Enabled(s, e)
    ensures ViewOk(Next(s, e), e.node)
  {
    Stepping(s, e);
    var i, l, t := e.node, s.nodes[e.node], Next(s, e);
    LocalStep(i, l, s.group, s.lock, e.action);
    if l.pc == Entered { EnteredView(s, i); }
    else if l.pc == Querying { QueryingView(s, i); }
    else if l.pc == Branching { BranchingStepView(s, e); }
    else if l.pc == Waiting { WaitingStepView(s, e); }
    else { QuietStepView(s, e); }
  }

  lemma {:induction false} BranchingStepView(s: State, e: Event)
    requires Inv(s) && Enabled(s, e) && s.nodes[e.node].pc == Branching
    ensures ViewOk(Next(s, e), e.node)
  {
    Stepping(s, e);
    var l := s.nodes[e.node];
    if e.action.Pick? && !l.first { OneElement(l.init, e.action.other); }
  }

  lemma {:induction false} WaitingStepView(s: State, e: Event)
    requires Inv(s) && Enabled(s, e) && s.nodes[e.node].pc == Waiting
    ensures ViewOk(Next(s, e), e.node)
  {
    Stepping(s, e);
    var i, l := e.node, s.nodes[e.node];
    forall a | a in l.init && |s.group| != 2 ensures a < |s.nodes| && Left(s.nodes[a]) { WaitingView(s, i, a); }
  }

  lemma {:induction false} QuietStep(i: Node, l: Local, group: set<Node>, lock: Option<Node>, a: Action)
    requires LocalOk(i, l) && CanStep(i, l, lock, a) && l.pc !in {Entered, Querying, Branching, Waiting}
    ensures var l' := StepLocal(i, l, group, a);
            && l'.init == l.init && l'.partner == l.partner
            && (l'.first ==> l'.pc != Branching && (l.first || l.partner == None))
            && (!l'.first && Committed(l') ==> !l.first && Committed(l))
            && (!l'.first ==> !l.first)
            && (Holds(l') ==> l.pc == Outside || Holds(l))
  {
  }

  lemma {:induction false} QuietStepView(s: State, e: Event)
    requires Inv(s) && Enabled(s, e) && s.nodes[e.node].pc !in {Entered, Querying, Branching, Waiting}
    ensures ViewOk(Next(s, e), e.node)
  {
    Stepping(s, e);
    QuietStep(e.node, s.nodes[e.node], s.group, s.lock, e.action);
  }

  lemma {:induction false} ReturnedMeansLeft(s: State, b: Node, a: Node)
    requires Inv(s) && b < |s.nodes| && s.nodes[b].outcome.Returned? && !s.nodes[b].first && a in s.nodes[b].init
    ensures a !in s.group
  {
    assert LocalOk(b, s.nodes[b]) && ViewOk(s, b);
    assert Committed(s.nodes[b]) && Left(s.nodes[a]);
  }

  /** When a node reads {a} as the initial group, every earlier reader of a has timed out. */
  lemma {:induction false} EarlierTimedOut(s: State, i: Node, b: Node)
    requires Inv(s) && i < |s.nodes| && b < |s.nodes| && s.nodes[i].pc == Entered
    requires s.nodes[b].init == s.group != {}
    ensures s.nodes[b].outcome == TimedOut
  {
    var m := s.nodes[b];
    assert LocalOk(i, s.nodes[i]) && LocalOk(b, m) && ViewOk(s, b) && Holds(s.nodes[i]);
    var a :| a in s.group;
    assert !Holds(m) && !m.first;
    if m.outcome.Returned? {
      ReturnedMeansLeft(s, b, a);
      assert false;
    }
  }

  lemma {:induction false} NextOneReader(s: State, e: Event)
    requires Inv(s) && Enabled(s, e)
    ensures OneReader(Next(s, e))
  {
    Stepping(s, e);
    var i, l, t := e.node, s.nodes[e.node], Next(s, e);
    Frame(i, l, s.group, s.lock, e.action);
    forall b: Node, c: Node | b < |t.nodes| && c < |t.nodes| && b != c && t.nodes[b].init != {} &&
      t.nodes[b].init == t.nodes[c].init
      ensures t.nodes[b].outcome == TimedOut || t.nodes[c].outcome == TimedOut
    {
      if l.pc == Entered && b == i { EarlierTimedOut(s, i, c); }
      else if l.pc == Entered && c == i { EarlierTimedOut(s, i, b); }
      else { assert s.nodes[b].init == t.nodes[b].init && s.nodes[c].init == t.nodes[c].init; }
    }
  }

  lemma {:induction false} NextInv(s: State, e: Event)
    requires Inv(s) && Enabled(s, e)
    ensures Inv(Next(s, e))
  {
    NextLocal(s, e);
    NextGroup(s, e);
    NextLock(s, e);
    NextOneFirst(s, e);
    NextOneReader(s, e);
    NextViewSelf(s, e);
    forall j: Node | j < |s.nodes| && j != e.node ensures ViewOk(Next(s, e), j) {
      NextViewOther(s, e, j);
    }
  }

  lemma {:induction false} InvAlways(n: nat, schedule: seq<Event>)
    requires After(n, schedule).Some?
    ensures Inv(After(n, schedule).value) && |After(n, schedule).value.nodes| == n
  {
    if schedule == [] {
    } else {
      var before := schedule[..|schedule| - 1];
      InvAlways(n, before);
      NextInv(After(n, before).value, schedule[|schedule| - 1]);
    }
  }

  // ----- What every interleaving guarantees -----

  /** The assertion and the "no partner" error are unreachable, the group holds at most the
      waiting first node and the lock holder, and a node that is done has let go of both. */
  lemma {:induction false} Safety(n: nat, schedule: seq<Event>)
    requires After(n, schedule).Some?
    ensures var s := After(n, schedule).value;
            && |s.nodes| == n
            && |s.group| <= 2
            && (forall i :: i in s.group ==> i < n && ((s.nodes[i].first && s.lock != Some(i)) || s.lock == Some(i)))
            && (forall i: Node, j: Node :: i in s.group && j in s.group && s.nodes[i].first && s.nodes[j].first ==>
              i == j)
            && (forall i: Node :: i < n ==> s.nodes[i].outcome !in {NoPartnerError, AssertionError})
            && (forall i: Node :: i < n && s.nodes[i].pc == Finished ==> i !in s.group && s.lock != Some(i))
  {
    InvAlways(n, schedule);
    var s := After(n, schedule).value;
    GroupSize(s);
    forall i: Node | i < n ensures s.nodes[i].outcome !in {NoPartnerError, AssertionError} {
      assert LocalOk(i, s.nodes[i]);
    }
    forall i | i in s.group && s.nodes[i].first ensures s.lock != Some(i) {
      assert LocalOk(i, s.nodes[i]) && !Holds(s.nodes[i]);
    }
  }

  lemma {:induction false} WriterPartner(s: State, i: Node, b: Node)
    requires Inv(s) && i < |s.nodes| && s.nodes[i].outcome == Returned(b, Writer)
    ensures b < |s.nodes| && b != i && s.nodes[b].init == {i}
    ensures s.nodes[b].outcome in {Pending, Returned(i, Reader), TimedOut}
  {
    assert LocalOk(i, s.nodes[i]) && ViewOk(s, i);
    assert s.nodes[i].first && s.nodes[b].init == {i};
    assert LocalOk(b, s.nodes[b]) && ViewOk(s, b);
    assert i in s.nodes[b].init;
    if s.nodes[b].outcome.Returned? {
      var p := s.nodes[b].outcome.partner;
      assert !s.nodes[b].first && s.nodes[b].init == {p};
      assert p in s.nodes[b].init;
    }
  }

  lemma {:induction false} ReaderPartner(s: State, i: Node, a: Node)
    requires Inv(s) && i < |s.nodes| && s.nodes[i].outcome == Returned(a, Reader)
    ensures a < |s.nodes| && a != i && s.nodes[i].init == {a} && Left(s.nodes[a])
    ensures s.nodes[a].outcome != TimedOut ==>
      s.nodes[a].outcome.Returned? && s.nodes[a].outcome.role == Writer
  {
    assert LocalOk(i, s.nodes[i]) && ViewOk(s, i);
    assert !s.nodes[i].first && s.nodes[i].init == {a} && a in s.nodes[i].init;
    assert Left(s.nodes[a]) && LocalOk(a, s.nodes[a]);
  }

  /** A writer's partner is a second node that can only ever return that writer: the group it
      found held nobody else, and it is still pairing, has returned the writer, or timed out. */
  lemma {:induction false} WriterAgreement(n: nat, schedule: seq<Event>, i: Node, b: Node)
    requires After(n, schedule).Some? && i < n
    requires var nodes := After(n, schedule).value.nodes; |nodes| == n && nodes[i].outcome == Returned(b, Writer)
    ensures var nodes := After(n, schedule).value.nodes;
            b < n && b != i && nodes[b].init == {i} && nodes[b].outcome in {Pending, Returned(i, Reader), TimedOut}
  {
    InvAlways(n, schedule);
    WriterPartner(After(n, schedule).value, i, b);
  }

  /** A reader's partner has already left the group: as a writer whose partner is this reader
      or a second node that timed out before pairing, or because it timed out itself. */
  lemma {:induction false} ReaderAgreement(n: nat, schedule: seq<Event>, i: Node, a: Node)
    requires After(n, schedule).Some? && i < n
    requires var nodes := After(n, schedule).value.nodes; |nodes| == n && nodes[i].outcome == Returned(a, Reader)
    ensures a < n && a != i
    ensures var nodes := After(n, schedule).value.nodes;
            && a !in After(n, schedule).value.group
            && (nodes[a].outcome == TimedOut <==> Event(a, Expire) in schedule)
            && (nodes[a].outcome == TimedOut ||
                exists b: Node :: b < n && nodes[a].outcome == Returned(b, Writer) &&
                  (b == i || nodes[b].outcome == TimedOut))
  {
    InvAlways(n, schedule);
    var s := After(n, schedule).value;
    ReaderPartner(s, i, a);
    ExpiredInSchedule(n, schedule, a);
    if s.nodes[a].outcome != TimedOut {
      var b := s.nodes[a].outcome.partner;
      WriterPartner(s, a, b);
      assert b == i || s.nodes[b].outcome == TimedOut;
    }
  }

  /** No two readers and no two writers have the same partner. */
  lemma {:induction false} DistinctPartners(n: nat, schedule: seq<Event>, i: Node, j: Node)
    requires After(n, schedule).Some? && i < n && j < n && i != j && |After(n, schedule).value.nodes| == n
    requires var nodes := After(n, schedule).value.nodes;
             nodes[i].outcome.Returned? && nodes[j].outcome.Returned? && nodes[i].outcome.role == nodes[j].outcome.role
    ensures var nodes := After(n, schedule).value.nodes; nodes[i].outcome.partner != nodes[j].outcome.partner
  {
    InvAlways(n, schedule);
    var s := After(n, schedule).value;
    var a, b := s.nodes[i].outcome.partner, s.nodes[j].outcome.partner;
    if s.nodes[i].outcome.role == Writer {
      WriterPartner(s, i, a);
      WriterPartner(s, j, b);
      assert i in s.nodes[a].init && j in s.nodes[b].init;
    } else {
      ReaderPartner(s, i, a);
      ReaderPartner(s, j, b);
      assert s.nodes[i].init == {a} && s.nodes[j].init == {b};
    }
  }

  /** Whether a node runs fio as the writer in the first direction, and after the swap. */
  function WritesIn(role: Role, swapped: bool): bool {
    if swapped then role != Writer else role == Writer
  }

  /** Without timeouts, once both ends are done, the pairs are mutual with opposite roles, so
      in each direction of the burn-in exactly one end of the pair writes. */
  lemma {:induction false} MutualPairs(n: nat, schedule: seq<Event>, i: Node)
    requires After(n, schedule).Some? && i < n && |After(n, schedule).value.nodes| == n
    requires var nodes := After(n, schedule).value.nodes;
             && (forall k: Node :: k < n ==> nodes[k].pc == Finished && nodes[k].outcome != TimedOut)
    ensures var nodes := After(n, schedule).value.nodes;
            && nodes[i].outcome.Returned?
            && var r := nodes[i].outcome;
            && r.partner < n && r.partner != i
            && nodes[r.partner].outcome == Returned(i, if r.role == Writer then Reader else Writer)
            && (forall swapped :: WritesIn(r.role, swapped) != WritesIn(nodes[r.partner].outcome.role, swapped))
            && (WritesIn(r.role, false) <==> nodes[i].first)
  {
    InvAlways(n, schedule);
    var s := After(n, schedule).value;
    assert LocalOk(i, s.nodes[i]);
    var r := s.nodes[i].outcome;
    if r.role == Writer {
      WriterPartner(s, i, r.partner);
      assert LocalOk(r.partner, s.nodes[r.partner]);
    } else {
      ReaderPartner(s, i, r.partner);
      WriterPartner(s, r.partner, s.nodes[r.partner].outcome.partner);
    }
  }

  // ----- Runs in which second nodes do not expire -----

  predicate AllFinished(s: State) {
    forall i: Node :: i < |s.nodes| ==> s.nodes[i].pc == Finished
  }

  /** A second node tests the clock only once, right after it has read the start time, so a positive
      timeout has not passed yet: in a timely run only first nodes find their time over. */
  predicate Timely(n: nat, schedule: seq<Event>) {
    schedule != [] ==>
      var before, e := schedule[..|schedule| - 1], schedule[|schedule| - 1];
      && Timely(n, before)
      && (After(n, before).Some? && e.node < |After(n, before).value.nodes| && e.action == Expire ==>
            After(n, before).value.nodes[e.node].first)
  }

  ghost predicate SecondsPatient(s: State) {
    forall i: Node :: i < |s.nodes| && !s.nodes[i].first ==>
      s.nodes[i].pc != LeavingExpired && s.nodes[i].outcome != TimedOut
  }

  lemma {:induction false} PatientStep(s: State, e: Event)
    requires Inv(s) && Enabled(s, e) && SecondsPatient(s) && (e.action == Expire ==> s.nodes[e.node].first)
    ensures SecondsPatient(Next(s, e))
  {
    assert LocalOk(e.node, s.nodes[e.node]);
  }

  lemma {:induction false} StaysPatient(n: nat, schedule: seq<Event>)
    requires After(n, schedule).Some? && Timely(n, schedule)
    ensures SecondsPatient(After(n, schedule).value)
  {
    if schedule != [] {
      var before := schedule[..|schedule| - 1];
      StaysPatient(n, before);
      InvAlways(n, before);
      PatientStep(After(n, before).value, schedule[|schedule| - 1]);
    }
  }

  /** In a timely run a writer's partner is the only node that found this writer, and it is still pairing
      or has returned the writer. */
  lemma {:induction false} WriterAgreementInTime(n: nat, schedule: seq<Event>, i: Node, b: Node)
    requires After(n, schedule).Some? && Timely(n, schedule) && i < n
    requires var nodes := After(n, schedule).value.nodes; |nodes| == n && nodes[i].outcome == Returned(b, Writer)
    ensures var nodes := After(n, schedule).value.nodes;
            && b < n && b != i && nodes[b].init == {i}
            && nodes[b].outcome in {Pending, Returned(i, Reader)}
            && forall c: Node :: c < n && nodes[c].init == {i} ==> c == b
  {
    InvAlways(n, schedule);
    StaysPatient(n, schedule);
    var s := After(n, schedule).value;
    WriterPartner(s, i, b);
    forall c: Node | c < n && s.nodes[c].init == {i} ensures !s.nodes[c].first || s.nodes[c].outcome == Pending {
      assert LocalOk(c, s.nodes[c]) && i in s.nodes[c].init;
    }
  }

  /** A node that has found its time over is leaving or has timed out. */
  predicate Expired(l: Local) {
    l.pc == LeavingExpired || l.outcome == TimedOut
  }

  lemma {:induction false} ExpiredStep(i: Node, l: Local, group: set<Node>, lock: Option<Node>, a: Action)
    requires LocalOk(i, l) && CanStep(i, l, lock, a)
    ensures Expired(StepLocal(i, l, group, a)) <==> Expired(l) || a == Expire
  {
  }

  /** It has done so exactly when the schedule says it did. */
  lemma {:induction false} ExpiredInSchedule(n: nat, schedule: seq<Event>, a: Node)
    requires After(n, schedule).Some? && a < n && |After(n, schedule).value.nodes| == n
    ensures Expired(After(n, schedule).value.nodes[a]) <==> Event(a, Expire) in schedule
  {
    if schedule != [] {
      var before, e := schedule[..|schedule| - 1], schedule[|schedule| - 1];
      InvAlways(n, before);
      ExpiredInSchedule(n, before, a);
      assert schedule == before + [e];
      var s := After(n, before).value;
      ExpiredStep(e.node, s.nodes[e.node], s.group, s.lock, e.action);
    }
  }

  /** In a timely run a reader's partner has timed out, or returned exactly this reader: the latter exactly
      if the partner never found its time over. */
  lemma {:induction false} ReaderAgreementInTime(n: nat, schedule: seq<Event>, i: Node, a: Node)
    requires After(n, schedule).Some? && Timely(n, schedule) && i < n
    requires var nodes := After(n, schedule).value.nodes; |nodes| == n && nodes[i].outcome == Returned(a, Reader)
    ensures a < n && a != i && After(n, schedule).value.nodes[a].outcome in {TimedOut, Returned(i, Writer)}
    ensures After(n, schedule).value.nodes[a].outcome == Returned(i, Writer) <==> Event(a, Expire) !in schedule
  {
    InvAlways(n, schedule);
    var s := After(n, schedule).value;
    ReaderPartner(s, i, a);
    ExpiredInSchedule(n, schedule, a);
    if s.nodes[a].outcome != TimedOut { WriterAgreementInTime(n, schedule, a, s.nodes[a].outcome.partner); }
  }

  // ----- A reader alone -----

  lemma {:induction false} AfterOneMore(n: nat, schedule: seq<Event>, e: Event)
    requires After(n, schedule).Some? && Enabled(After(n, schedule).value, e)
    ensures After(n, schedule + [e]) == Some(Next(After(n, schedule).value, e))
    ensures Timely(n, schedule + [e]) <==>
      Timely(n, schedule) && (e.action == Expire ==> After(n, schedule).value.nodes[e.node].first)
  {
    assert (schedule + [e])[..|schedule|] == schedule;
  }

  /** A schedule of two nodes that leads to a state, only first nodes having found their time over. */
  ghost predicate Leads(schedule: seq<Event>, s: State) {
    After(2, schedule) == Some(s) && Timely(2, schedule)
  }

  lemma {:induction false} LeadsOn(before: seq<Event>, s: State, e: Event)
    requires Leads(before, s) && Enabled(s, e) && (e.action == Expire ==> s.nodes[e.node].first)
    ensures Leads(before + [e], Next(s, e))
  {
    AfterOneMore(2, before, e);
  }

  lemma {:induction false} UpdateTwo<T>(x: T, y: T, z: T)
    ensures [x, y][0 := z] == [z, y] && [x, y][1 := z] == [x, z]
  {
  }

  /** One step of the first node. */
  lemma {:induction false} MoveFirst(before: seq<Event>, group: set<Node>, lock: Option<Node>, x: Local, y: Local,
      a: Action) returns (schedule: seq<Event>)
    requires Leads(before, State(group, lock, [x, y])) && CanStep(0, x, lock, a) && (a == Expire ==> x.first)
    ensures Leads(schedule,
      State(StepGroup(0, x, group), StepLock(0, x, lock), [StepLocal(0, x, group, a), y]))
  {
    schedule := before + [Event(0, a)];
    LeadsOn(before, State(group, lock, [x, y]), Event(0, a));
    UpdateTwo(x, y, StepLocal(0, x, group, a));
  }

  /** One step of the second node. */
  lemma {:induction false} MoveSecond(before: seq<Event>, group: set<Node>, lock: Option<Node>, x: Local, y: Local,
      a: Action) returns (schedule: seq<Event>)
    requires Leads(before, State(group, lock, [x, y])) && CanStep(1, y, lock, a) && a != Expire
    ensures Leads(schedule,
      State(StepGroup(1, y, group), StepLock(1, y, lock), [x, StepLocal(1, y, group, a)]))
  {
    schedule := before + [Event(1, a)];
    LeadsOn(before, State(group, lock, [x, y]), Event(1, a));
    UpdateTwo(x, y, StepLocal(1, y, group, a));
  }

  /** Node 0 comes first, and waits for another one. */
  const WAITS := FRESH.(pc := Testing, first := true)

  lemma {:induction false} FirstJoins() returns (s: seq<Event>)
    ensures Leads(s, State({0}, Some(0), [FRESH.(pc := Deciding), FRESH]))
  {
    assert Init(2).nodes == [FRESH, FRESH];
    s := MoveFirst([], {}, None, FRESH, FRESH, Go);
    s := MoveFirst(s, {}, Some(0), FRESH.(pc := Entered), FRESH, Go);
    s := MoveFirst(s, {}, Some(0), FRESH.(pc := Joining), FRESH, Go);
    assert {} + {0} == {0};
  }

  lemma {:induction false} FirstWaits() returns (s: seq<Event>)
    ensures Leads(s, State({0}, None, [WAITS, FRESH]))
  {
    s := FirstJoins();
    s := MoveFirst(s, {0}, Some(0), FRESH.(pc := Deciding), FRESH, Go);
  }

  /** Node 1 finds it and joins. */
  const FINDS := FRESH.(pc := Deciding, init := {0})

  lemma {:induction false} SecondJoins() returns (s: seq<Event>)
    ensures Leads(s, State({0, 1}, Some(1), [WAITS, FINDS]))
  {
    s := FirstWaits();
    s := MoveSecond(s, {0}, None, WAITS, FRESH, Go);
    s := MoveSecond(s, {0}, Some(1), WAITS, FRESH.(pc := Entered), Go);
    s := MoveSecond(s, {0}, Some(1), WAITS, FRESH.(pc := Joining, init := {0}), Go);
    assert {0} + {1} == {0, 1};
  }

  /** It looks at the clock once and goes on with node 0, the one member it had found. */
  const LOOKS := FINDS.(pc := Branching, members := {0})

  lemma {:induction false} SecondLooks() returns (s: seq<Event>)
    ensures Leads(s, State({0, 1}, Some(1), [WAITS, LOOKS]))
  {
    s := SecondJoins();
    s := MoveSecond(s, {0, 1}, Some(1), WAITS, FINDS, Go);
    s := MoveSecond(s, {0, 1}, Some(1), WAITS, FINDS.(pc := Testing), Go);
  }

  /** It picks node 0, and waits for it to leave. */
  const PICKED := LOOKS.(pc := Waiting, partner := Some(0))

  lemma {:induction false} SecondPicks() returns (s: seq<Event>)
    ensures Leads(s, State({0, 1}, Some(1), [WAITS, PICKED]))
  {
    s := SecondLooks();
    assert {0} - {1} == {0};
    s := MoveSecond(s, {0, 1}, Some(1), WAITS, LOOKS, Pick(0));
  }

  /** Node 0 finds its time over and leaves. */
  const GONE := WAITS.(pc := Exiting, outcome := TimedOut)

  lemma {:induction false} FirstExpires() returns (s: seq<Event>)
    ensures Leads(s, State({1}, Some(1), [GONE, PICKED]))
  {
    s := SecondPicks();
    s := MoveFirst(s, {0, 1}, Some(1), WAITS, PICKED, Expire);
    s := MoveFirst(s, {0, 1}, Some(1), WAITS.(pc := LeavingExpired), PICKED, Go);
    assert {0, 1} - {0} == {1};
  }

  /** A timely run of two nodes in which a reader returns a writer that has timed out. */
  lemma {:induction false} ReaderAlone() returns (schedule: seq<Event>)
    ensures After(2, schedule).Some? && Timely(2, schedule)
    ensures var nodes := After(2, schedule).value.nodes;
            |nodes| == 2 && nodes[0].outcome == TimedOut && nodes[1].outcome == Returned(0, Reader)
  {
    schedule := FirstExpires();
    assert |{1 as Node}| == 1;
    schedule := MoveSecond(schedule, {1}, Some(1), GONE, PICKED, Go);
    schedule := MoveSecond(schedule, {1}, Some(1), GONE, PICKED.(pc := LeavingPaired), Go);
  }

  // ----- A pair -----

  /** Instead node 0 looks again, and sees both. */
  const SEES := WAITS.(pc := Branching, members := {0, 1})

  lemma {:induction false} FirstSees() returns (s: seq<Event>)
    ensures Leads(s, State({0, 1}, Some(1), [SEES, PICKED]))
  {
    s := SecondPicks();
    s := MoveFirst(s, {0, 1}, Some(1), WAITS, PICKED, Go);
    s := MoveFirst(s, {0, 1}, Some(1), WAITS.(pc := Querying), PICKED, Go);
  }

  /** It picks node 1 and leaves. */
  const WRITER := SEES.(pc := Exiting, partner := Some(1), outcome := Returned(1, Writer))

  lemma {:induction false} FirstPicks() returns (s: seq<Event>)
    ensures Leads(s, State({1}, Some(1), [WRITER, PICKED]))
  {
    s := FirstSees();
    assert {0, 1} - {0} == {1};
    s := MoveFirst(s, {0, 1}, Some(1), SEES, PICKED, Pick(1));
    s := MoveFirst(s, {0, 1}, Some(1), SEES.(pc := LeavingPaired, partner := Some(1)), PICKED, Go);
  }

  /** A timely run of two nodes in which they return each other, the first one as the writer. */
  lemma {:induction false} FirstIsWriter() returns (schedule: seq<Event>)
    ensures After(2, schedule).Some? && Timely(2, schedule)
    ensures var nodes := After(2, schedule).value.nodes;
            |nodes| == 2 && nodes[0].outcome == Returned(1, Writer) && nodes[1].outcome == Returned(0, Reader)
  {
    schedule := FirstPicks();
    assert |{1 as Node}| == 1;
    schedule := MoveSecond(schedule, {1}, Some(1), WRITER, PICKED, Go);
    schedule := MoveSecond(schedule, {1}, Some(1), WRITER, PICKED.(pc := LeavingPaired), Go);
  }

  /** In a timely run in which all nodes are done, first nodes may have timed out; every node that returns,
      other than a reader whose writer timed out, is in a mutual pair with opposite roles. */
  lemma {:induction false} MutualPairsInTime(n: nat, schedule: seq<Event>, i: Node)
    requires After(n, schedule).Some? && Timely(n, schedule) && i < n && |After(n, schedule).value.nodes| == n
    requires AllFinished(After(n, schedule).value)
    ensures var nodes := After(n, schedule).value.nodes;
            var r := nodes[i].outcome;
            && (r == TimedOut ==> nodes[i].first)
            && (r != TimedOut ==> r.Returned? && r.partner < n && r.partner != i)
            && (r != TimedOut && nodes[r.partner].outcome != TimedOut ==>
                  && nodes[r.partner].outcome == Returned(i, if r.role == Writer then Reader else Writer)
                  && forall swapped :: WritesIn(r.role, swapped) != WritesIn(nodes[r.partner].outcome.role, swapped))
            && (r != TimedOut && nodes[r.partner].outcome == TimedOut ==> r.role == Reader)
  {
    InvAlways(n, schedule);
    StaysPatient(n, schedule);
    var s := After(n, schedule).value;
    assert LocalOk(i, s.nodes[i]);
    var r := s.nodes[i].outcome;
    if r.Returned? && r.role == Writer {
      WriterAgreementInTime(n, schedule, i, r.partner);
      assert LocalOk(r.partner, s.nodes[r.partner]);
    } else if r.Returned? {
      ReaderAgreementInTime(n, schedule, i, r.partner);
    }
  }

  // ----- No stuck state -----

  /** How far a node is from being done: if it is patient, a first node polls on until it sees somebody, and
      otherwise it gives up. */
  function Distance(l: Local, patient: bool): nat {
    match l.pc
    case Outside => 18
    case Entered => 17
    case Joining => 16
    case Deciding => 15
    case Testing => if l.first && !patient then 7 else 10
    case Querying => 9
    case Branching => if l.first && patient && |l.members| < 2 then 12 else 8
    case Waiting => 6
    case LeavingPaired => 5
    case Releasing => 4
    case LeavingExpired => 3
    case Exiting => 2
    case Finished => 0
  }

  function Distances(nodes: seq<Local>, patient: bool): nat {
    if nodes == [] then 0 else Distance(nodes[0], patient) + Distances(nodes[1..], patient)
  }

  lemma {:induction false} DistancesUpdate(nodes: seq<Local>, i: nat, l: Local, patient: bool)
    requires i < |nodes| && Distance(l, patient) < Distance(nodes[i], patient)
    ensures Distances(nodes[i := l], patient) < Distances(nodes, patient)
  {
    if i == 0 {
      assert nodes[i := l][1..] == nodes[1..];
    } else {
      assert nodes[i := l][1..] == nodes[1..][i - 1 := l];
      DistancesUpdate(nodes[1..], i - 1, l, patient);
    }
  }

  /** An action that brings a node closer to the end, unless it waits for the lock, for the first node to
      leave, or patiently for a second one to come. */
  ghost function Forward(i: Node, l: Local, patient: bool): Action {
    if l.pc == Testing && l.first && !patient then Expire
    else if l.pc == Branching && Pairs(l) && l.members - {i} != {} then
      var other :| other in l.members - {i}; Pick(other)
    else Go
  }

  lemma {:induction false} ForwardLocal(i: Node, l: Local, group: set<Node>, lock: Option<Node>, patient: bool)
    requires LocalOk(i, l) && l.pc != Finished
    requires l.pc == Outside ==> lock == None
    requires l.pc == Waiting ==> |group| != 2
    requires patient && l.pc == Querying ==> |group| == 2
    requires l.pc == Branching ==> |l.members| <= 2
    ensures CanStep(i, l, lock, Forward(i, l, patient)) && (patient ==> Forward(i, l, patient) != Expire)
    ensures Distance(StepLocal(i, l, group, Forward(i, l, patient)), patient) < Distance(l, patient)
  {
    if l.pc == Branching && Pairs(l) { SeesAnother(i, l); }
    if l.pc == Branching && l.first && !Pairs(l) { assert l.members != {}; }
  }

  predicate Movable(s: State, i: Node, patient: bool)
    requires i < |s.nodes|
  {
    var l := s.nodes[i];
    && l.pc != Finished
    && (l.pc == Outside ==> s.lock == None)
    && (l.pc == Waiting ==> |s.group| != 2)
    && !(patient && Alone(s, i))
  }

  /** A first node that is about to look for a second one, while there is none. */
  predicate Alone(s: State, i: Node)
    requires i < |s.nodes|
  {
    s.nodes[i].pc == Querying && |s.group| != 2
  }

  lemma {:induction false} ForwardStep(s: State, i: Node, patient: bool)
    requires Inv(s) && i < |s.nodes| && Movable(s, i, patient)
    ensures var e := Event(i, Forward(i, s.nodes[i], patient));
            Enabled(s, e) && Distances(Next(s, e).nodes, patient) < Distances(s.nodes, patient) &&
              (patient ==> e.action != Expire)
  {
    var l := s.nodes[i];
    if l.pc == Branching { BranchingSize(s, i); }
    assert LocalOk(i, l);
    ForwardLocal(i, l, s.group, s.lock, patient);
    DistancesUpdate(s.nodes, i, StepLocal(i, l, s.group, Forward(i, l, patient)), patient);
  }

  /** A second node waits only for a first node that is still in the group and can move, and
      the lock is only ever held by a node that can move or that waits in this way. */
  lemma {:induction false} Unblocked(s: State, i: Node, patient: bool) returns (j: Node)
    requires Inv(s) && i < |s.nodes| && s.nodes[i].pc != Finished && !(patient && Alone(s, i))
    ensures j < |s.nodes| && Movable(s, j, patient)
    ensures s.nodes[i].pc == Waiting && |s.group| == 2 ==> s.nodes[i].init == {j} && j in s.group && s.nodes[j].first
  {
    if Movable(s, i, patient) { return i; }
    var h := if s.nodes[i].pc == Outside then s.lock.value else i;
    assert LocalOk(h, s.nodes[h]);
    if Movable(s, h, patient) { return h; }
    j := AwaitedFirst(s, h, patient);
  }

  lemma {:induction false} AwaitedFirst(s: State, h: Node, patient: bool) returns (j: Node)
    requires Inv(s) && h < |s.nodes| && s.nodes[h].pc == Waiting && |s.group| == 2
    ensures j < |s.nodes| && Movable(s, j, patient) && s.nodes[h].init == {j} && j in s.group && s.nodes[j].first
  {
    assert LocalOk(h, s.nodes[h]) && ViewOk(s, h) && Holds(s.nodes[h]);
    assert |s.group - {h}| >= 1;
    j :| j in s.group - {h};
    OneElement(s.nodes[h].init, j);
    assert LocalOk(j, s.nodes[j]);
  }

  /** All nodes are done, except patient ones that wait alone. */
  predicate Settled(s: State, patient: bool) {
    forall i: Node :: i < |s.nodes| ==> s.nodes[i].pc == Finished || (patient && Alone(s, i))
  }

  function Remaining(n: nat, schedule: seq<Event>, patient: bool): nat {
    match After(n, schedule) case Some(s) => Distances(s.nodes, patient) case None => 0
  }

  lemma {:induction false} Towards(n: nat, schedule: seq<Event>, patient: bool) returns (e: Event)
    requires After(n, schedule).Some? && !Settled(After(n, schedule).value, patient)
    ensures After(n, schedule + [e]).Some? && (Timely(n, schedule) ==> Timely(n, schedule + [e]))
    ensures Remaining(n, schedule + [e], patient) < Remaining(n, schedule, patient)
    ensures patient ==> e.action != Expire
  {
    InvAlways(n, schedule);
    var s := After(n, schedule).value;
    var i: Node :| i < |s.nodes| && s.nodes[i].pc != Finished && !(patient && Alone(s, i));
    var j := Unblocked(s, i, patient);
    ForwardStep(s, j, patient);
    e := Event(j, Forward(j, s.nodes[j], patient));
    AfterOneMore(n, schedule, e);
  }

  ghost predicate NobodyExpires(schedule: seq<Event>) {
    forall k :: 0 <= k < |schedule| ==> schedule[k].action != Expire
  }

  ghost predicate Settles(n: nat, schedule: seq<Event>, rest: seq<Event>, patient: bool) {
    && After(n, schedule + rest).Some? && Settled(After(n, schedule + rest).value, patient)
    && (Timely(n, schedule) ==> Timely(n, schedule + rest))
    && (patient ==> NobodyExpires(rest))
  }

  lemma {:induction false} SettlesMore(n: nat, schedule: seq<Event>, e: Event, more: seq<Event>, patient: bool)
    requires Settles(n, schedule + [e], more, patient) && (Timely(n, schedule) ==> Timely(n, schedule + [e]))
    requires patient ==> e.action != Expire
    ensures Settles(n, schedule, [e] + more, patient)
  {
    assert schedule + [e] + more == schedule + ([e] + more);
  }

  lemma {:induction false} Settling(n: nat, schedule: seq<Event>, d: nat, patient: bool) returns (rest: seq<Event>)
    requires After(n, schedule).Some? && Remaining(n, schedule, patient) <= d
    ensures Settles(n, schedule, rest, patient)
    decreases d
  {
    if Settled(After(n, schedule).value, patient) {
      rest := [];
      assert schedule + rest == schedule;
    } else {
      var e := Towards(n, schedule, patient);
      var more := Settling(n, schedule + [e], d - 1, patient);
      rest := [e] + more;
      SettlesMore(n, schedule, e, more, patient);
    }
  }

  ghost predicate Finishes(n: nat, schedule: seq<Event>, rest: seq<Event>) {
    && After(n, schedule + rest).Some? && AllFinished(After(n, schedule + rest).value)
    && (Timely(n, schedule) ==> Timely(n, schedule + rest))
  }

  /** No stuck state: every run of any number of nodes can go on until all of them are done, a timely one
      without becoming untimely. */
  lemma {:induction false} NeverStuck(n: nat, schedule: seq<Event>)
    requires After(n, schedule).Some?
    ensures exists rest :: Finishes(n, schedule, rest)
  {
    var rest := Settling(n, schedule, Remaining(n, schedule, false), false);
    assert Finishes(n, schedule, rest);
  }

  // ----- Nodes that come together do pair -----

  /** Two nodes that have returned each other, with opposite roles. */
  predicate Paired(nodes: seq<Local>, i: Node)
    requires i < |nodes|
  {
    var r := nodes[i].outcome;
    && r.Returned? && r.partner < |nodes| && r.partner != i
    && nodes[r.partner].outcome == Returned(i, if r.role == Writer then Reader else Writer)
  }

  lemma {:induction false} NodeCount(n: nat, schedule: seq<Event>)
    requires After(n, schedule).Some?
    ensures |After(n, schedule).value.nodes| == n
  {
    if schedule != [] { NodeCount(n, schedule[..|schedule| - 1]); }
  }

  /** If nobody expires, whoever is done is in a pair with somebody who is done. */
  lemma {:induction false} DoneMeansPaired(s: State, i: Node)
    requires Inv(s) && Settled(s, true) && i < |s.nodes| && s.nodes[i].pc == Finished
    requires forall k: Node :: k < |s.nodes| ==> s.nodes[k].outcome != TimedOut
    ensures Paired(s.nodes, i) && s.nodes[s.nodes[i].outcome.partner].pc == Finished
  {
    assert LocalOk(i, s.nodes[i]);
    var b := s.nodes[i].outcome.partner;
    if s.nodes[i].outcome.role == Writer {
      WriterPartner(s, i, b);
      assert LocalOk(b, s.nodes[b]) && i in s.nodes[b].init;
    } else {
      ReaderPartner(s, i, b);
      assert LocalOk(b, s.nodes[b]);
      WriterPartner(s, b, s.nodes[b].outcome.partner);
    }
  }

  lemma {:induction false} PairsAreEven(t: set<Node>, nodes: seq<Local>)
    requires forall i :: i in t ==> i < |nodes| && Paired(nodes, i) && nodes[i].outcome.partner in t
    ensures |t| % 2 == 0
    decreases |t|
  {
    if t != {} {
      var i :| i in t;
      var b := nodes[i].outcome.partner;
      var rest := t - {i} - {b};
      assert |t| == |rest| + 2;
      forall j | j in rest ensures nodes[j].outcome.partner in rest { assert Paired(nodes, j); }
      PairsAreEven(rest, nodes);
    }
  }

  lemma {:induction false} UpTo(n: nat) returns (t: set<Node>)
    ensures |t| == n && forall i: Node :: i in t <==> i < n
  {
    if n == 0 {
      t := {};
    } else {
      t := UpTo(n - 1);
      t := t + {n - 1};
    }
  }

  ghost predicate Unfinished(s: State, i: Node) {
    i < |s.nodes| && s.nodes[i].pc != Finished
  }

  /** Two nodes do not both wait alone. */
  lemma {:induction false} OneAlone(s: State, i: Node, j: Node)
    requires Inv(s) && i < |s.nodes| && j < |s.nodes| && Alone(s, i) && Alone(s, j)
    ensures i == j
  {
    assert LocalOk(i, s.nodes[i]) && LocalOk(j, s.nodes[j]);
    assert FirstInGroup(s.nodes[i]) && FirstInGroup(s.nodes[j]);
  }

  /** All nodes are in pairs, but one if their number is odd. */
  ghost predicate AllPaired(s: State, n: nat) {
    && |s.nodes| == n
    && (forall i: Node :: i < n && s.nodes[i].pc == Finished ==> Paired(s.nodes, i))
    && (forall i: Node, j: Node :: Unfinished(s, i) && Unfinished(s, j) ==> i == j)
    && (n % 2 == 0 <==> forall i: Node :: !Unfinished(s, i))
  }

  lemma {:induction false} DoneAreEven(s: State) returns (done: set<Node>)
    requires Inv(s) && Settled(s, true)
    requires forall k: Node :: k < |s.nodes| ==> s.nodes[k].outcome != TimedOut
    ensures |done| % 2 == 0 && forall i: Node :: i in done <==> i < |s.nodes| && s.nodes[i].pc == Finished
    ensures forall i: Node :: i in done ==> Paired(s.nodes, i)
  {
    done := UpTo(|s.nodes|);
    done := set i | i in done && s.nodes[i].pc == Finished;
    forall i | i in done ensures Paired(s.nodes, i) && s.nodes[i].outcome.partner in done { DoneMeansPaired(s, i); }
    PairsAreEven(done, s.nodes);
  }

  lemma {:induction false} AllBut(all: set<Node>, done: set<Node>, i: Node)
    requires done <= all && i in all && i !in done && forall j :: j in all && j !in done ==> j == i
    ensures |all| == |done| + 1
  {
    assert done == all - {i};
  }

  lemma {:induction false} OneUnfinished(s: State)
    requires Inv(s) && Settled(s, true)
    ensures forall i: Node, j: Node :: Unfinished(s, i) && Unfinished(s, j) ==> i == j
  {
    forall i: Node, j: Node | Unfinished(s, i) && Unfinished(s, j) ensures i == j { OneAlone(s, i, j); }
  }

  lemma {:induction false} SettledIsPaired(s: State, n: nat)
    requires Inv(s) && Settled(s, true) && |s.nodes| == n
    requires forall k: Node :: k < n ==> s.nodes[k].outcome != TimedOut
    ensures AllPaired(s, n)
  {
    var all := UpTo(n);
    var done := DoneAreEven(s);
    OneUnfinished(s);
    if i: Node :| Unfinished(s, i) {
      forall j | j in all && j !in done ensures j == i { assert Unfinished(s, j); }
      AllBut(all, done, i);
    } else {
      forall j | j in all ensures j in done { assert !Unfinished(s, j); }
      assert done == all;
    }
  }

  ghost predicate PairsUp(n: nat, schedule: seq<Event>, rest: seq<Event>) {
    && NobodyExpires(rest)
    && After(n, schedule + rest).Some? && AllPaired(After(n, schedule + rest).value, n)
  }

  /** A run in which nobody expires can go on in this way until all nodes are done and in mutual pairs with
      opposite roles, all but one if their number is odd. */
  lemma {:induction false} NobodyIsLeftOver(n: nat, schedule: seq<Event>)
    requires After(n, schedule).Some? && NobodyExpires(schedule)
    ensures exists rest :: PairsUp(n, schedule, rest)
  {
    var rest := Settling(n, schedule, Remaining(n, schedule, true), true);
    var all := schedule + rest;
    InvAlways(n, all);
    NodeCount(n, all);
    var s := After(n, all).value;
    forall k: Node | k < n ensures s.nodes[k].outcome != TimedOut {
      ExpiredInSchedule(n, all, k);
      assert Event(k, Expire) !in all;
    }
    SettledIsPaired(s, n);
    assert PairsUp(n, schedule, rest);
  }
}
