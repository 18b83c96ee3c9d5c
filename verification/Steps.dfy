/** Ordering hardware managers, dispatching to them, and choosing among the steps they offer. */
module Steps {
  import opened Wrappers

  datatype Manager = Manager(name: string, support: int)

  /** A clean, deploy or service step; `details` stands for the fields the choice does not look at. */
  datatype Step = Step(name: string, priority: int, details: string)

  /** A step together with the manager it came from. */
  datatype Entry = Entry(manager: Manager, step: Step)

  /** What a manager does when a method is dispatched to it. */
  datatype Answer<+T> = NoMethod | Incompatible | Failure | Value(value: T)

  datatype DispatchError = MethodNotFound | Raised(manager: nat)

  /** A dictionary that remembers in which order its keys were first set. */
  datatype Dict<V> = Dict(keys: seq<string>, values: map<string, V>) {

    ghost predicate Valid() {
      && (forall k :: k in keys <==> k in values)
      && (forall i, j :: 0 <= i < j < |keys| ==> keys[i] != keys[j])
    }

    function Put(key: string, value: V): (d: Dict<V>)
      ensures Valid() ==> d.Valid()
    {
      Dict(if key in values then keys else keys + [key], values[key := value])
    }
  }

  /** Appending to the list under a key of a dictionary whose default value is the empty list. */
  function Append<T>(d: Dict<seq<T>>, key: string, x: T): (r: Dict<seq<T>>)
    ensures d.Valid() ==> r.Valid()
  {
    d.Put(key, Under(d, key) + [x])
  }

  function Under<T>(d: Dict<seq<T>>, key: string): seq<T> {
    if key in d.values then d.values[key] else []
  }

  // ----- Stable sorting -----

  /** The sorted list; elements that compare equal stay in order. */
  function Sorted<T>(s: seq<T>, leq: (T, T) -> bool): (r: seq<T>)
    ensures |r| == |s|
  {
    if s == [] then [] else Insert(s[0], Sorted(s[1..], leq), leq)
  }

  function Insert<T>(x: T, s: seq<T>, leq: (T, T) -> bool): (r: seq<T>)
    ensures |r| == |s| + 1
  {
    if s == [] || leq(x, s[0]) then [x] + s else [s[0]] + Insert(x, s[1..], leq)
  }

  ghost predicate TotalOrder<T(!new)>(leq: (T, T) -> bool) {
    && (forall a, b :: leq(a, b) || leq(b, a))
    && (forall a, b, c :: leq(a, b) && leq(b, c) ==> leq(a, c))
  }

  ghost predicate Ordered<T>(s: seq<T>, leq: (T, T) -> bool) {
    forall i, j :: 0 <= i < j < |s| ==> leq(s[i], s[j])
  }

  lemma {:induction false} InsertKeepsAll<T>(x: T, s: seq<T>, leq: (T, T) -> bool)
    ensures multiset(Insert(x, s, leq)) == multiset(s) + multiset{x}
  {
    if s != [] && !leq(x, s[0]) {
      InsertKeepsAll(x, s[1..], leq);
      assert s == [s[0]] + s[1..];
    }
  }

  lemma {:induction false} InsertKeepsOrder<T(!new)>(x: T, s: seq<T>, leq: (T, T) -> bool)
    requires TotalOrder(leq) && Ordered(s, leq)
    ensures Ordered(Insert(x, s, leq), leq)
  {
    if s != [] && !leq(x, s[0]) {
      var rest := Insert(x, s[1..], leq);
      InsertKeepsOrder(x, s[1..], leq);
      InsertKeepsAll(x, s[1..], leq);
      forall j | 0 <= j < |rest| ensures leq(s[0], rest[j]) {
        assert rest[j] in multiset(rest);
        assert rest[j] == x || rest[j] in s[1..];
      }
    }
  }

  lemma {:induction false} SortedIsSorted<T(!new)>(s: seq<T>, leq: (T, T) -> bool)
    requires TotalOrder(leq)
    ensures Ordered(Sorted(s, leq), leq) && multiset(Sorted(s, leq)) == multiset(s)
  {
    if s == [] {
    } else {
      SortedIsSorted(s[1..], leq);
      InsertKeepsOrder(s[0], Sorted(s[1..], leq), leq);
      InsertKeepsAll(s[0], Sorted(s[1..], leq), leq);
      assert s == [s[0]] + s[1..];
    }
  }

  predicate Ties<T>(a: T, b: T, leq: (T, T) -> bool) {
    leq(a, b) && leq(b, a)
  }

  /** The elements that compare equal to x, in order. */
  function Alike<T>(s: seq<T>, x: T, leq: (T, T) -> bool): seq<T> {
    if s == [] then [] else (if Ties(s[0], x, leq) then [s[0]] else []) + Alike(s[1..], x, leq)
  }

  lemma {:induction false} InsertIsStable<T(!new)>(y: T, s: seq<T>, x: T, leq: (T, T) -> bool)
    requires TotalOrder(leq)
    ensures Alike(Insert(y, s, leq), x, leq) == (if Ties(y, x, leq) then [y] else []) + Alike(s, x, leq)
  {
    if s == [] || leq(y, s[0]) {
      AlikeCons(y, s, x, leq);
    } else {
      AlikeCons(s[0], Insert(y, s[1..], leq), x, leq);
      InsertIsStable(y, s[1..], x, leq);
      if Ties(y, x, leq) { NoTie(y, s[0], x, leq); }
    }
  }

  lemma {:induction false} AlikeCons<T>(h: T, t: seq<T>, x: T, leq: (T, T) -> bool)
    ensures Alike([h] + t, x, leq) == (if Ties(h, x, leq) then [h] else []) + Alike(t, x, leq)
  {
    assert ([h] + t)[1..] == t;
  }

  lemma {:induction false} NoTie<T(!new)>(y: T, z: T, x: T, leq: (T, T) -> bool)
    requires TotalOrder(leq) && !leq(y, z) && Ties(y, x, leq)
    ensures !Ties(z, x, leq)
  {
    assert leq(x, z) ==> leq(y, z);
  }

  /** Elements that compare equal keep their order. */
  lemma {:induction false} SortedIsStable<T(!new)>(s: seq<T>, x: T, leq: (T, T) -> bool)
    requires TotalOrder(leq)
    ensures Alike(Sorted(s, leq), x, leq) == Alike(s, x, leq)
  {
    if s != [] {
      SortedIsStable(s[1..], x, leq);
      InsertIsStable(s[0], Sorted(s[1..], leq), x, leq);
    }
  }

  /** The head of a sorted list prefers the left half of a tie. */
  lemma {:induction false} HeadOfSum<T(!new)>(a: seq<T>, b: seq<T>, leq: (T, T) -> bool)
    requires TotalOrder(leq) && a != [] && b != []
    ensures Sorted(a + b, leq)[0] == if leq(Sorted(a, leq)[0], Sorted(b, leq)[0])
      then Sorted(a, leq)[0] else Sorted(b, leq)[0]
  {
    assert (a + b)[1..] == a[1..] + b;
    if |a| == 1 {
      assert a[1..] + b == b;
    } else {
      HeadOfSum(a[1..], b, leq);
    }
  }

  // ----- The sort key -----

  /** The order of strings: by the first character that differs, a prefix first. */
  predicate NameLeq(a: string, b: string) {
    a == [] || (b != [] && (a[0] < b[0] || (a[0] == b[0] && NameLeq(a[1..], b[1..]))))
  }

  lemma {:induction false} NameTotal(a: string, b: string)
    ensures NameLeq(a, b) || NameLeq(b, a)
    ensures NameLeq(a, b) && NameLeq(b, a) ==> a == b
  {
    if a != [] && b != [] {
      NameTotal(a[1..], b[1..]);
      assert a == [a[0]] + a[1..] && b == [b[0]] + b[1..];
    }
  }

  lemma {:induction false} NameTransitive(a: string, b: string, c: string)
    requires NameLeq(a, b) && NameLeq(b, c)
    ensures NameLeq(a, c)
  {
    if a != [] && a[0] == b[0] == c[0] { NameTransitive(a[1..], b[1..], c[1..]); }
  }

  function SortKey(e: Entry): (int, int, string) {
    (-e.manager.support, -e.step.priority, e.manager.name)
  }

  predicate KeyLeq(k: (int, int, string), l: (int, int, string)) {
    k.0 < l.0 || (k.0 == l.0 && (k.1 < l.1 || (k.1 == l.1 && NameLeq(k.2, l.2))))
  }

  predicate EntryLeq(a: Entry, b: Entry) {
    KeyLeq(SortKey(a), SortKey(b))
  }

  lemma {:induction false} EntryOrder()
    ensures TotalOrder(EntryLeq)
  {
    forall a: Entry, b: Entry ensures EntryLeq(a, b) || EntryLeq(b, a) {
      NameTotal(a.manager.name, b.manager.name);
    }
    forall a: Entry, b: Entry, c: Entry | EntryLeq(a, b) && EntryLeq(b, c) ensures EntryLeq(a, c) {
      if NameLeq(a.manager.name, b.manager.name) && NameLeq(b.manager.name, c.manager.name) {
        NameTransitive(a.manager.name, b.manager.name, c.manager.name);
      }
    }
  }

  // ----- Managers and dispatch -----

  predicate ManagerLeq(a: Manager, b: Manager) {
    b.support - a.support <= 0
  }

  function Eligible(found: seq<Manager>): seq<Manager> {
    if found == [] then [] else
      Eligible(found[..|found| - 1]) + if found[|found| - 1].support > 0 then [found[|found| - 1]] else []
  }

  ghost predicate DescendingSupport(managers: seq<Manager>) {
    forall i, j :: 0 <= i < j < |managers| ==> managers[i].support >= managers[j].support
  }

  /** The managers with a given support, in order. */
  function WithSupport(managers: seq<Manager>, support: int): seq<Manager> {
    if managers == [] then [] else
      (if managers[0].support == support then [managers[0]] else []) + WithSupport(managers[1..], support)
  }

  lemma {:induction false} WithSupportIsAlike(managers: seq<Manager>, m: Manager)
    ensures WithSupport(managers, m.support) == Alike(managers, m, ManagerLeq)
  {
    if managers != [] { WithSupportIsAlike(managers[1..], m); }
  }

  lemma {:induction false} WithSupportSnoc(managers: seq<Manager>, m: Manager, support: int)
    ensures WithSupport(managers + [m], support) ==
      WithSupport(managers, support) + if m.support == support then [m] else []
  {
    if managers != [] {
      WithSupportSnoc(managers[1..], m, support);
      assert (managers + [m])[1..] == managers[1..] + [m];
    }
  }

  lemma {:induction false} EligibleKeeps(found: seq<Manager>, support: int)
    requires support > 0
    ensures WithSupport(Eligible(found), support) == WithSupport(found, support)
  {
    if found != [] {
      var before, last := found[..|found| - 1], found[|found| - 1];
      EligibleKeeps(before, support);
      assert found == before + [last];
      WithSupportSnoc(before, last, support);
      WithSupportSnoc(Eligible(before), last, support);
      var kept := WithSupport(before, support);
      assert Eligible(before) + [] == Eligible(before) && kept + [] == kept;
    }
  }

  /** Managers with the same support stay in the order found. */
  lemma {:induction false} FoundOrder(found: seq<Manager>, support: int)
    requires support > 0
    ensures WithSupport(Sorted(Eligible(found), ManagerLeq), support) == WithSupport(found, support)
  {
    var m := Manager("", support);
    SortedIsStable(Eligible(found), m, ManagerLeq);
    WithSupportIsAlike(Sorted(Eligible(found), ManagerLeq), m);
    WithSupportIsAlike(Eligible(found), m);
    EligibleKeeps(found, support);
  }

  /** None when no manager supports the hardware. */
  method GetManagersDetail(found: seq<Manager>) returns (managers: Option<seq<Manager>>)
    ensures managers.None? <==> forall m :: m in found ==> m.support <= 0
    ensures managers.Some? ==> managers.value == Sorted(Eligible(found), ManagerLeq)
    ensures managers.Some? ==>
      DescendingSupport(managers.value) && multiset(managers.value) == multiset(Eligible(found))
    ensures managers.Some? ==> forall m :: m in managers.value <==> m in found && m.support > 0
    ensures managers.Some? ==>
      forall support :: support > 0 ==> WithSupport(managers.value, support) == WithSupport(found, support)
  {
    var preferred := [];
    for i := 0 to |found|
      invariant preferred == Eligible(found[..i])
      invariant forall m :: m in preferred <==> m in found[..i] && m.support > 0
    {
      assert found[..i + 1][..i] == found[..i];
      if found[i].support > 0 { preferred := preferred + [found[i]]; }
    }
    assert found[..|found|] == found;
    assert preferred != [] ==> preferred[0] in preferred;
    if preferred == [] { return None; }
    assert TotalOrder(ManagerLeq);
    SortedIsSorted(preferred, ManagerLeq);
    managers := Some(Sorted(preferred, ManagerLeq));
    SameElements(managers.value, preferred);
    SupportDescends(managers.value);
    forall support: int | support > 0 ensures WithSupport(managers.value, support) == WithSupport(found, support) {
      FoundOrder(found, support);
    }
  }

  lemma {:induction false} SameElements<T>(a: seq<T>, b: seq<T>)
    requires multiset(a) == multiset(b)
    ensures forall x :: x in a <==> x in b
  {
    forall x ensures x in a <==> x in b {
      assert x in a <==> x in multiset(a);
      assert x in b <==> x in multiset(b);
    }
  }

  lemma {:induction false} SupportDescends(managers: seq<Manager>)
    requires Ordered(managers, ManagerLeq)
    ensures DescendingSupport(managers)
  {
    forall i, j | 0 <= i < j < |managers| ensures managers[i].support >= managers[j].support {
      assert ManagerLeq(managers[i], managers[j]);
    }
  }

  /** Asks the managers in order until one answers.  With managers in descending order of support the
      answer comes from one with the highest support among those that answer. */
  method DispatchToManagers<T>(managers: seq<Manager>, answers: seq<Answer<T>>)
      returns (r: Result<T, DispatchError>, index: nat)
    requires |answers| == |managers|
    ensures index <= |managers| && (index < |managers| ==> answers[index].Value? || answers[index].Failure?)
    ensures forall i :: 0 <= i < index ==> answers[i].NoMethod? || answers[i].Incompatible?
    ensures r ==
      if index == |managers| then Err(MethodNotFound)
      else if answers[index].Failure? then Err(Raised(index))
      else Ok(answers[index].value)
    ensures r.Ok? && DescendingSupport(managers) ==>
      forall i :: 0 <= i < |managers| && answers[i].Value? ==> managers[i].support <= managers[index].support
  {
    index := 0;
    while index < |managers|
      invariant index <= |managers|
      invariant forall i :: 0 <= i < index ==> answers[i].NoMethod? || answers[i].Incompatible?
    {
      match answers[index] {
        case Value(v) => return Ok(v), index;
        case Failure => return Err(Raised(index)), index;
        case NoMethod =>
        case Incompatible =>
      }
      index := index + 1;
    }
    r := Err(MethodNotFound);
  }

  /** The responses of the first n managers, by manager name. */
  function Responses<T>(managers: seq<Manager>, answers: seq<Answer<T>>, n: nat): (d: Dict<T>)
    requires n <= |managers| == |answers|
    ensures d.Valid()
  {
    if n == 0 then Dict([], map[]) else
      var before := Responses(managers, answers, n - 1);
      if answers[n - 1].Value? then before.Put(managers[n - 1].name, answers[n - 1].value) else before
  }

  method DispatchToAllManagers<T>(managers: seq<Manager>, answers: seq<Answer<T>>)
      returns (r: Result<Dict<T>, DispatchError>)
    requires |answers| == |managers|
    ensures r.Ok? ==>
      && (forall a :: a in answers ==> !a.Failure?) && (exists a :: a in answers && a.Value?)
      && r.value == Responses(managers, answers, |managers|)
    ensures r == Err(MethodNotFound) ==> forall a :: a in answers ==> a.NoMethod? || a.Incompatible?
    ensures r.Err? && r.error.Raised? ==>
      var i := r.error.manager;
      i < |answers| && answers[i].Failure? && forall j :: 0 <= j < i ==> !answers[j].Failure?
  {
    var responses := Dict([], map[]);
    for i := 0 to |managers|
      invariant responses == Responses(managers, answers, i)
      invariant forall j :: 0 <= j < i ==> !answers[j].Failure?
      invariant responses.keys == [] <==> forall j :: 0 <= j < i ==> !answers[j].Value?
    {
      match answers[i]
      case Value(v) => responses := responses.Put(managers[i].name, v);
      case Failure => return Err(Raised(i));
      case NoMethod =>
      case Incompatible =>
    }
    if responses.keys == [] { return Err(MethodNotFound); }
    return Ok(responses);
  }

  // ----- Deduplication -----

  function SupportOf(support: map<string, int>, name: string): Manager {
    Manager(name, if name in support then support[name] else 0)
  }

  function Tag(manager: Manager, steps: seq<Step>): seq<Entry> {
    if steps == [] then [] else Tag(manager, steps[..|steps| - 1]) + [Entry(manager, steps[|steps| - 1])]
  }

  /** All candidates, in the order in which they are looked at. */
  function Entries(keys: seq<string>, values: map<string, seq<Step>>, support: map<string, int>): seq<Entry>
    requires forall k :: k in keys ==> k in values
  {
    if keys == [] then [] else
      var m := keys[|keys| - 1];
      Entries(keys[..|keys| - 1], values, support) + Tag(SupportOf(support, m), values[m])
  }

  /** The candidates by step name. */
  function Grouped(entries: seq<Entry>): (d: Dict<seq<Entry>>)
    ensures d.Valid()
  {
    if entries == [] then Dict([], map[]) else
      var e := entries[|entries| - 1];
      Append(Grouped(entries[..|entries| - 1]), e.step.name, e)
  }

  function Named(entries: seq<Entry>, name: string): seq<Entry> {
    if entries == [] then [] else
      Named(entries[..|entries| - 1], name) +
      if entries[|entries| - 1].step.name == name then [entries[|entries| - 1]] else []
  }

  function Winner(group: seq<Entry>): Entry
    requires group != []
  {
    Sorted(group, EntryLeq)[0]
  }

  predicate NoEmptyGroup(groups: Dict<seq<Entry>>) {
    forall k :: k in groups.keys ==> k in groups.values && groups.values[k] != []
  }

  /** The winners of the first n groups, by manager. */
  function Winners(groups: Dict<seq<Entry>>, n: nat): Dict<seq<Step>>
    requires n <= |groups.keys| && NoEmptyGroup(groups)
  {
    if n == 0 then Dict([], map[]) else
      var w := Winner(groups.values[groups.keys[n - 1]]);
      Append(Winners(groups, n - 1), w.manager.name, w.step)
  }

  lemma {:induction false} GroupedMeaning(entries: seq<Entry>, name: string)
    ensures Under(Grouped(entries), name) == Named(entries, name)
    ensures name in Grouped(entries).values <==> Named(entries, name) != []
  {
    if entries != [] { GroupedMeaning(entries[..|entries| - 1], name); }
  }

  lemma {:induction false} GroupsNotEmpty(entries: seq<Entry>)
    ensures NoEmptyGroup(Grouped(entries))
  {
    forall k | k in Grouped(entries).keys ensures Grouped(entries).values[k] != [] {
      GroupedMeaning(entries, k);
    }
  }

  function Deduplicated(entries: seq<Entry>): Dict<seq<Step>> {
    GroupsNotEmpty(entries);
    Winners(Grouped(entries), |Grouped(entries).keys|)
  }

  /** A manager that offers steps and whose support is not known. */
  predicate Unsupported(values: map<string, seq<Step>>, support: map<string, int>, manager: string)
    requires manager in values
  {
    values[manager] != [] && manager !in support
  }

  method DeduplicateSteps(candidates: Dict<seq<Step>>, support: map<string, int>)
      returns (deduped: Option<Dict<seq<Step>>>)
    requires candidates.Valid()
    ensures deduped.None? <==> exists m :: m in candidates.keys && Unsupported(candidates.values, support, m)
    ensures deduped.Some? ==> deduped.value == Deduplicated(Entries(candidates.keys, candidates.values, support))
  {
    var steps := GroupCandidates(candidates, support);
    if steps.None? { return None; }
    GroupsNotEmpty(Entries(candidates.keys, candidates.values, support));
    var kept := KeepWinners(steps.value);
    return Some(kept);
  }

  lemma {:induction false} EntriesSnoc(keys: seq<string>, m: string, values: map<string, seq<Step>>,
      support: map<string, int>)
    requires m in values && forall k :: k in keys ==> k in values
    ensures Entries(keys + [m], values, support) ==
      Entries(keys, values, support) + Tag(SupportOf(support, m), values[m])
  {
    assert (keys + [m])[..|keys|] == keys;
  }

  /** The first loop: the steps by name; None when the support of a manager is not known. */
  method GroupCandidates(candidates: Dict<seq<Step>>, support: map<string, int>)
      returns (grouped: Option<Dict<seq<Entry>>>)
    requires candidates.Valid()
    ensures grouped.None? <==> exists m :: m in candidates.keys && Unsupported(candidates.values, support, m)
    ensures grouped.Some? ==> grouped.value == Grouped(Entries(candidates.keys, candidates.values, support))
  {
    var steps: Dict<seq<Entry>> := Dict([], map[]);
    var keys := candidates.keys;
    ghost var entries: seq<Entry> := [];
    for i := 0 to |keys|
      invariant entries == Entries(keys[..i], candidates.values, support)
      invariant steps == Grouped(entries)
      invariant forall m :: m in keys[..i] ==> !Unsupported(candidates.values, support, m)
    {
      assert keys[..i + 1] == keys[..i] + [keys[i]];
      EntriesSnoc(keys[..i], keys[i], candidates.values, support);
      var complete;
      complete, steps := GroupSteps(steps, keys[i], candidates.values[keys[i]], support, entries);
      if !complete { return None; }
      entries := entries + Tag(SupportOf(support, keys[i]), candidates.values[keys[i]]);
    }
    assert keys[..|keys|] == keys;
    return Some(steps);
  }

  /** The second loop: one step of each name. */
  method KeepWinners(steps: Dict<seq<Entry>>) returns (kept: Dict<seq<Step>>)
    requires NoEmptyGroup(steps)
    ensures kept == Winners(steps, |steps.keys|)
  {
    kept := Dict([], map[]);
    for i := 0 to |steps.keys|
      invariant kept == Winners(steps, i)
    {
      var winningStep := Sorted(steps.values[steps.keys[i]], EntryLeq)[0];
      kept := Append(kept, winningStep.manager.name, winningStep.step);
    }
  }

  /** The inner loop: the steps of one manager. */
  method GroupSteps(before: Dict<seq<Entry>>, manager: string, managerSteps: seq<Step>, support: map<string, int>,
      ghost entries: seq<Entry>)
    returns (complete: bool, steps: Dict<seq<Entry>>)
    requires before == Grouped(entries)
    ensures complete <==> managerSteps == [] || manager in support
    ensures complete ==> steps == Grouped(entries + Tag(SupportOf(support, manager), managerSteps))
  {
    steps := before;
    assert entries + [] == entries;
    for j := 0 to |managerSteps|
      invariant j > 0 ==> manager in support
      invariant steps == Grouped(entries + Tag(SupportOf(support, manager), managerSteps[..j]))
    {
      if manager !in support { return false, steps; }
      var e := Entry(Manager(manager, support[manager]), managerSteps[j]);
      ghost var tagged := Tag(SupportOf(support, manager), managerSteps[..j]);
      assert managerSteps[..j + 1][..j] == managerSteps[..j];
      assert entries + (tagged + [e]) == (entries + tagged) + [e];
      assert ((entries + tagged) + [e])[..|entries + tagged|] == entries + tagged;
      steps := Append(steps, e.step.name, e);
    }
    assert managerSteps[..|managerSteps|] == managerSteps;
    complete := true;
  }

  // ----- What survives -----

  ghost predicate Kept(d: Dict<seq<Step>>, manager: string, s: Step) {
    manager in d.values && s in d.values[manager]
  }

  predicate Slot(d: Dict<seq<Step>>, manager: string, i: int) {
    manager in d.values && 0 <= i < |d.values[manager]|
  }

  /** No two places of the result hold steps of the same name. */
  ghost predicate NamesOnce(d: Dict<seq<Step>>) {
    forall m, i, n, j :: Slot(d, m, i) && Slot(d, n, j) && d.values[m][i].name == d.values[n][j].name ==>
      m == n && i == j
  }

  ghost predicate GroupsNamed(groups: Dict<seq<Entry>>) {
    NoEmptyGroup(groups) && forall k :: k in groups.keys ==> Winner(groups.values[k]).step.name == k
  }

  ghost predicate HoldsWinner(d: Dict<seq<Step>>, groups: Dict<seq<Entry>>, n: nat, m: string, i: int)
    requires NoEmptyGroup(groups) && n <= |groups.keys| && Slot(d, m, i)
  {
    var name := d.values[m][i].name;
    name in groups.keys[..n] && Winner(groups.values[name]).manager.name == m &&
      Winner(groups.values[name]).step == d.values[m][i]
  }

  /** Every place of the result holds the winner of one of the first n groups. */
  ghost predicate OnlyWinners(d: Dict<seq<Step>>, groups: Dict<seq<Entry>>, n: nat)
    requires NoEmptyGroup(groups) && n <= |groups.keys|
  {
    forall m, i :: Slot(d, m, i) ==> HoldsWinner(d, groups, n, m, i)
  }

  ghost predicate AllWinners(d: Dict<seq<Step>>, groups: Dict<seq<Entry>>, n: nat)
    requires NoEmptyGroup(groups) && n <= |groups.keys|
  {
    forall j :: 0 <= j < n ==> var w := Winner(groups.values[groups.keys[j]]); Kept(d, w.manager.name, w.step)
  }

  lemma {:induction false} AppendSlots(d: Dict<seq<Step>>, key: string, s: Step, m: string, i: int)
    ensures Slot(Append(d, key, s), m, i) <==> Slot(d, m, i) || (m == key && i == |Under(d, key)|)
    ensures Slot(d, m, i) ==> Append(d, key, s).values[m][i] == d.values[m][i]
    ensures Append(d, key, s).values[key][|Under(d, key)|] == s
  {
  }

  lemma {:induction false} AppendKeeps(d: Dict<seq<Step>>, key: string, s: Step, m: string, t: Step)
    ensures Kept(Append(d, key, s), m, t) <==> Kept(d, m, t) || (m == key && t == s)
  {
  }

  ghost predicate Correct(d: Dict<seq<Step>>, groups: Dict<seq<Entry>>, n: nat)
    requires NoEmptyGroup(groups) && n <= |groups.keys|
  {
    AllWinners(d, groups, n) && OnlyWinners(d, groups, n) && NamesOnce(d)
  }

  lemma {:induction false} WinnersMeaning(groups: Dict<seq<Entry>>, n: nat)
    requires n <= |groups.keys| && groups.Valid() && GroupsNamed(groups)
    ensures Correct(Winners(groups, n), groups, n)
  {
    if n == 0 {
      NoWinners(groups);
    } else {
      WinnersMeaning(groups, n - 1);
      OneMoreWinner(groups, n, Winners(groups, n - 1));
    }
  }

  lemma {:induction false} NoWinners(groups: Dict<seq<Entry>>)
    requires NoEmptyGroup(groups)
    ensures Correct(Dict([], map[]), groups, 0)
  {
    assert forall m, i :: !Slot(Dict([], map[]), m, i);
  }

  lemma {:induction false} OneMoreWinner(groups: Dict<seq<Entry>>, n: nat, before: Dict<seq<Step>>)
    requires 0 < n <= |groups.keys| && groups.Valid() && GroupsNamed(groups) && Correct(before, groups, n - 1)
    ensures var w := Winner(groups.values[groups.keys[n - 1]]);
            Correct(Append(before, w.manager.name, w.step), groups, n)
  {
    var w := Winner(groups.values[groups.keys[n - 1]]);
    var d := Append(before, w.manager.name, w.step);
    AllOneMore(before, d, groups, n);
    OnlyMore(before, d, groups, n);
    OnceOnly(before, d, groups, n, w);
  }

  lemma {:induction false} OnlyMore(before: Dict<seq<Step>>, d: Dict<seq<Step>>, groups: Dict<seq<Entry>>, n: nat)
    requires 0 < n <= |groups.keys| && GroupsNamed(groups) && OnlyWinners(before, groups, n - 1)
    requires var w := Winner(groups.values[groups.keys[n - 1]]); d == Append(before, w.manager.name, w.step)
    ensures OnlyWinners(d, groups, n)
  {
    forall m, i | Slot(d, m, i) ensures HoldsWinner(d, groups, n, m, i) {
      OnlyOneMore(before, groups, n, m, i);
    }
  }

  lemma {:induction false} OnceOnly(before: Dict<seq<Step>>, d: Dict<seq<Step>>, groups: Dict<seq<Entry>>, n: nat,
      w: Entry)
    requires 0 < n <= |groups.keys| && groups.Valid() && NoEmptyGroup(groups)
    requires OnlyWinners(before, groups, n - 1) && NamesOnce(before) && w.step.name == groups.keys[n - 1]
    requires d == Append(before, w.manager.name, w.step)
    ensures NamesOnce(d)
  {
    forall m, i, m', j | Slot(d, m, i) && Slot(d, m', j) && d.values[m][i].name == d.values[m'][j].name
      ensures m == m' && i == j
    {
      OnceMore(before, groups, n, w, m, i, m', j);
    }
  }

  lemma {:induction false} AllOneMore(before: Dict<seq<Step>>, d: Dict<seq<Step>>, groups: Dict<seq<Entry>>, n: nat)
    requires 0 < n <= |groups.keys| && NoEmptyGroup(groups) && AllWinners(before, groups, n - 1)
    requires var w := Winner(groups.values[groups.keys[n - 1]]); d == Append(before, w.manager.name, w.step)
    ensures AllWinners(d, groups, n)
  {
    var w := Winner(groups.values[groups.keys[n - 1]]);
    forall j | 0 <= j < n ensures var v := Winner(groups.values[groups.keys[j]]); Kept(d, v.manager.name, v.step) {
      var v := Winner(groups.values[groups.keys[j]]);
      AppendKeeps(before, w.manager.name, w.step, v.manager.name, v.step);
    }
  }

  lemma {:induction false} OnlyOneMore(before: Dict<seq<Step>>, groups: Dict<seq<Entry>>, n: nat, m: string, i: int)
    requires 0 < n <= |groups.keys| && GroupsNamed(groups) && OnlyWinners(before, groups, n - 1)
    requires var w := Winner(groups.values[groups.keys[n - 1]]); Slot(Append(before, w.manager.name, w.step), m, i)
    ensures var w := Winner(groups.values[groups.keys[n - 1]]);
            HoldsWinner(Append(before, w.manager.name, w.step), groups, n, m, i)
  {
    var key := groups.keys[n - 1];
    var w := Winner(groups.values[key]);
    AppendSlots(before, w.manager.name, w.step, m, i);
    assert groups.keys[..n] == groups.keys[..n - 1] + [key];
    if Slot(before, m, i) { assert HoldsWinner(before, groups, n - 1, m, i); }
  }

  lemma {:induction false} OnceMore(before: Dict<seq<Step>>, groups: Dict<seq<Entry>>, n: nat, w: Entry, m: string,
      i: int, m': string, j: int)
    requires 0 < n <= |groups.keys| && groups.Valid() && NoEmptyGroup(groups)
    requires OnlyWinners(before, groups, n - 1) && NamesOnce(before) && w.step.name == groups.keys[n - 1]
    requires var d := Append(before, w.manager.name, w.step);
             Slot(d, m, i) && Slot(d, m', j) && d.values[m][i].name == d.values[m'][j].name
    ensures m == m' && i == j
  {
    assert groups.keys[n - 1] !in groups.keys[..n - 1];
    AppendSlots(before, w.manager.name, w.step, m, i);
    AppendSlots(before, w.manager.name, w.step, m', j);
    if Slot(before, m, i) { assert HoldsWinner(before, groups, n - 1, m, i); }
    if Slot(before, m', j) { assert HoldsWinner(before, groups, n - 1, m', j); }
  }

  lemma {:induction false} NamedMeaning(entries: seq<Entry>, name: string, e: Entry)
    ensures e in Named(entries, name) <==> e in entries && e.step.name == name
  {
    if entries != [] { NamedMeaning(entries[..|entries| - 1], name, e); }
  }

  /** The winner is one of the candidates: none has more support, with the same support none has a higher priority,
      and with both the same none has a name earlier in the alphabet. */
  lemma {:induction false} WinnerIsBest(entries: seq<Entry>, name: string)
    requires Named(entries, name) != []
    ensures var w := Winner(Named(entries, name));
            && w in entries && w.step.name == name
            && forall e :: e in entries && e.step.name == name ==>
              && e.manager.support <= w.manager.support
              && (e.manager.support == w.manager.support ==> e.step.priority <= w.step.priority)
              && (e.manager.support == w.manager.support && e.step.priority == w.step.priority ==>
                NameLeq(w.manager.name, e.manager.name))
  {
    var group := Named(entries, name);
    var w := Winner(group);
    EntryOrder();
    SortedIsSorted(group, EntryLeq);
    SameElements(Sorted(group, EntryLeq), group);
    assert w in Sorted(group, EntryLeq);
    NamedMeaning(entries, name, w);
    forall e | e in entries && e.step.name == name ensures EntryLeq(w, e) {
      NamedMeaning(entries, name, e);
      assert e in Sorted(group, EntryLeq);
      NameTotal(w.manager.name, w.manager.name);
    }
  }

  /** Of candidates that tie in all this the winner is the one that was listed first. */
  lemma {:induction false} WinnerIsFirst(entries: seq<Entry>, name: string)
    requires Named(entries, name) != []
    ensures var w := Winner(Named(entries, name));
            && w in Alike(Named(entries, name), w, EntryLeq)
            && Alike(Named(entries, name), w, EntryLeq)[0] == w
  {
    var group := Named(entries, name);
    var w := Winner(group);
    EntryOrder();
    SortedIsStable(group, w, EntryLeq);
    assert Ties(w, w, EntryLeq);
  }

  lemma {:induction false} GroupsAreNamed(entries: seq<Entry>)
    ensures GroupsNamed(Grouped(entries))
  {
    var groups := Grouped(entries);
    GroupsNotEmpty(entries);
    forall k | k in groups.keys ensures Winner(groups.values[k]).step.name == k {
      GroupedMeaning(entries, k);
      WinnerIsBest(entries, k);
    }
  }

  /** A step survives exactly when it is the winner among the candidates of its name. */
  lemma {:induction false} KeptIsWinner(entries: seq<Entry>, manager: string, s: Step)
    ensures Kept(Deduplicated(entries), manager, s) <==>
              var group := Named(entries, s.name);
              group != [] && Winner(group).manager.name == manager && Winner(group).step == s
  {
    var groups, d := Grouped(entries), Deduplicated(entries);
    GroupsAreNamed(entries);
    WinnersMeaning(groups, |groups.keys|);
    GroupedMeaning(entries, s.name);
    if Kept(d, manager, s) {
      var i: nat :| i < |d.values[manager]| && d.values[manager][i] == s;
      assert HoldsWinner(d, groups, |groups.keys|, manager, i);
    }
    if s.name in groups.keys {
      var j :| 0 <= j < |groups.keys| && groups.keys[j] == s.name;
      assert var w := Winner(groups.values[groups.keys[j]]); Kept(d, w.manager.name, w.step);
    }
  }

  /** Every step name that is offered survives, and survives once. */
  lemma {:induction false} SurvivesOnce(entries: seq<Entry>)
    ensures NamesOnce(Deduplicated(entries))
    ensures forall e :: e in entries ==>
      Named(entries, e.step.name) != [] &&
      var w := Winner(Named(entries, e.step.name));
      w.step.name == e.step.name && Kept(Deduplicated(entries), w.manager.name, w.step)
  {
    GroupsAreNamed(entries);
    WinnersMeaning(Grouped(entries), |Grouped(entries).keys|);
    forall e | e in entries
      ensures Named(entries, e.step.name) != []
      ensures var w := Winner(Named(entries, e.step.name));
              w.step.name == e.step.name && Kept(Deduplicated(entries), w.manager.name, w.step)
    {
      NamedMeaning(entries, e.step.name, e);
      WinnerIsBest(entries, e.step.name);
      var w := Winner(Named(entries, e.step.name));
      KeptIsWinner(entries, w.manager.name, w.step);
    }
  }

  // ----- The order of the managers does not matter -----

  lemma {:induction false} NamedAppend(a: seq<Entry>, b: seq<Entry>, name: string)
    ensures Named(a + b, name) == Named(a, name) + Named(b, name)
  {
    if b == [] {
      assert a + b == a;
    } else {
      assert (a + b)[..|a + b| - 1] == a + b[..|b| - 1];
      NamedAppend(a, b[..|b| - 1], name);
    }
  }

  lemma {:induction false} TagMeaning(manager: Manager, steps: seq<Step>, e: Entry)
    ensures e in Tag(manager, steps) <==> e.manager == manager && e.step in steps
  {
    if steps != [] {
      TagMeaning(manager, steps[..|steps| - 1], e);
      assert steps == steps[..|steps| - 1] + [steps[|steps| - 1]];
    }
  }

  /** The candidates of one manager for one step name. */
  function Offers(values: map<string, seq<Step>>, support: map<string, int>, manager: string, name: string): seq<Entry>
    requires manager in values
  {
    Named(Tag(SupportOf(support, manager), values[manager]), name)
  }

  function BestOf(values: map<string, seq<Step>>, support: map<string, int>, manager: string, name: string): Entry
    requires manager in values && Offers(values, support, manager, name) != []
  {
    Winner(Offers(values, support, manager, name))
  }

  lemma {:induction false} OfferIsOwn(values: map<string, seq<Step>>, support: map<string, int>, manager: string,
      name: string)
    requires manager in values && Offers(values, support, manager, name) != []
    ensures Winner(Offers(values, support, manager, name)).manager == SupportOf(support, manager)
  {
    var tagged := Tag(SupportOf(support, manager), values[manager]);
    WinnerIsBest(tagged, name);
    TagMeaning(SupportOf(support, manager), values[manager], Winner(Named(tagged, name)));
  }

  /** The best of the managers' own best offers.  This does not mention the order of the managers. */
  ghost predicate BestOffer(managers: set<string>, values: map<string, seq<Step>>, support: map<string, int>,
      name: string, e: Entry)
    requires managers <= values.Keys
  {
    && (exists m :: m in managers && Offers(values, support, m, name) != [] && e == BestOf(values, support, m, name))
    && (forall m :: m in managers && Offers(values, support, m, name) != [] ==>
          EntryLeq(e, BestOf(values, support, m, name)))
  }

  function KeySet(keys: seq<string>): set<string> {
    set k | k in keys
  }

  lemma {:induction false} WinnerIsBestOffer(keys: seq<string>, values: map<string, seq<Step>>,
      support: map<string, int>, name: string)
    requires forall k :: k in keys ==> k in values
    ensures Named(Entries(keys, values, support), name) == [] <==>
      forall m :: m in keys ==> Offers(values, support, m, name) == []
    ensures Named(Entries(keys, values, support), name) != [] ==>
              BestOffer(KeySet(keys), values, support, name, Winner(Named(Entries(keys, values, support), name)))
  {
    if keys != [] {
      var before, m := keys[..|keys| - 1], keys[|keys| - 1];
      assert keys == before + [m];
      WinnerIsBestOffer(before, values, support, name);
      var a, b := Named(Entries(before, values, support), name), Offers(values, support, m, name);
      NamedAppend(Entries(before, values, support), Tag(SupportOf(support, m), values[m]), name);
      assert a == [] ==> a + b == b;
      assert b == [] ==> a + b == a;
      EntryOrder();
      if a != [] && b != [] { HeadOfSum(a, b, EntryLeq); }
    }
  }

  lemma {:induction false} BestOfferIsUnique(managers: set<string>, values: map<string, seq<Step>>,
      support: map<string, int>, name: string, e: Entry, f: Entry)
    requires managers <= values.Keys
    requires BestOffer(managers, values, support, name, e) && BestOffer(managers, values, support, name, f)
    ensures e == f
  {
    var m :| m in managers && Offers(values, support, m, name) != [] && e == BestOf(values, support, m, name);
    var n :| n in managers && Offers(values, support, n, name) != [] && f == BestOf(values, support, n, name);
    OfferIsOwn(values, support, m, name);
    OfferIsOwn(values, support, n, name);
    assert EntryLeq(e, f) && EntryLeq(f, e);
    NameTotal(m, n);
  }

  /** The managers' answers may come in any order: the same steps survive under the same managers. */
  lemma {:induction false} OrderIrrelevant(a: Dict<seq<Step>>, b: Dict<seq<Step>>, support: map<string, int>,
      manager: string, s: Step)
    requires a.Valid() && b.Valid() && a.values == b.values
    ensures Kept(Deduplicated(Entries(a.keys, a.values, support)), manager, s) <==>
            Kept(Deduplicated(Entries(b.keys, b.values, support)), manager, s)
  {
    assert KeySet(a.keys) == KeySet(b.keys);
    var ea, eb := Entries(a.keys, a.values, support), Entries(b.keys, b.values, support);
    KeptIsWinner(ea, manager, s);
    KeptIsWinner(eb, manager, s);
    WinnerIsBestOffer(a.keys, a.values, support, s.name);
    WinnerIsBestOffer(b.keys, b.values, support, s.name);
    if Named(ea, s.name) != [] {
      BestOfferIsUnique(KeySet(a.keys), a.values, support, s.name, Winner(Named(ea, s.name)),
        Winner(Named(eb, s.name)));
    }
  }

  // ----- The winner and the dispatch order -----

  predicate Lists(a: Answer<seq<Step>>, name: string) {
    a.Value? && exists s :: s in a.value && s.name == name
  }

  ghost predicate DistinctNames(managers: seq<Manager>) {
    forall i, j :: 0 <= i < j < |managers| ==> managers[i].name != managers[j].name
  }

  ghost predicate SupportRecorded(managers: seq<Manager>, support: map<string, int>) {
    forall i :: 0 <= i < |managers| ==> managers[i].name in support && support[managers[i].name] == managers[i].support
  }

  lemma {:induction false} ResponsesMeaning<T>(managers: seq<Manager>, answers: seq<Answer<T>>, n: nat, i: nat)
    requires i < |managers| == |answers| && n <= |managers| && DistinctNames(managers)
    ensures var d := Responses(managers, answers, n);
            && (managers[i].name in d.values <==> i < n && answers[i].Value?)
            && (i < n && answers[i].Value? ==> d.values[managers[i].name] == answers[i].value)
  {
    if n > 0 { ResponsesMeaning(managers, answers, n - 1, i); }
  }

  lemma {:induction false} ResponseKeys<T>(managers: seq<Manager>, answers: seq<Answer<T>>, n: nat, k: string)
    requires |managers| == |answers| && n <= |managers|
    requires k in Responses(managers, answers, n).values
    ensures exists i :: 0 <= i < n && managers[i].name == k
  {
    if n > 0 && k != managers[n - 1].name { ResponseKeys(managers, answers, n - 1, k); }
  }

  lemma {:induction false} EntriesMeaning(keys: seq<string>, values: map<string, seq<Step>>,
      support: map<string, int>, e: Entry)
    requires forall k :: k in keys ==> k in values
    ensures e in Entries(keys, values, support) <==>
              e.manager.name in keys && e.manager == SupportOf(support, e.manager.name) &&
                e.step in values[e.manager.name]
  {
    if keys != [] {
      var before, m := keys[..|keys| - 1], keys[|keys| - 1];
      assert keys == before + [m];
      EntriesMeaning(before, values, support, e);
      TagMeaning(SupportOf(support, m), values[m], e);
    }
  }

  /** With the managers in dispatch order, the winner has the support of the first manager that lists the step. */
  lemma {:induction false} FirstListed(managers: seq<Manager>, answers: seq<Answer<seq<Step>>>,
      support: map<string, int>, name: string, first: nat)
    requires first < |managers| == |answers| && DescendingSupport(managers) && DistinctNames(managers) &&
      SupportRecorded(managers, support)
    requires Lists(answers[first], name) && forall i :: 0 <= i < first ==> !Lists(answers[i], name)
    ensures var d := Responses(managers, answers, |managers|);
            var group := Named(Entries(d.keys, d.values, support), name);
            group != [] && Winner(group).manager.support == managers[first].support
  {
    var d := Responses(managers, answers, |managers|);
    var entries := Entries(d.keys, d.values, support);
    var s :| s in answers[first].value && s.name == name;
    var e := Entry(managers[first], s);
    ResponsesMeaning(managers, answers, |managers|, first);
    EntriesMeaning(d.keys, d.values, support, e);
    NamedMeaning(entries, name, e);
    WinnerIsBest(entries, name);
    var w := Winner(Named(entries, name));
    EntriesMeaning(d.keys, d.values, support, w);
    ResponseKeys(managers, answers, |managers|, w.manager.name);
    var j :| 0 <= j < |managers| && managers[j].name == w.manager.name;
    ResponsesMeaning(managers, answers, |managers|, j);
    assert w.step in answers[j].value;
    assert Lists(answers[j], name);
  }
}
