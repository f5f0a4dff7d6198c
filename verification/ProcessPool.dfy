/**
  The worker pool of inc/http_task.h: a singly linked list of processors, the
  least-loaded dispatcher, and the replacement of dead workers. fork is a parameter:
  the pid that it returns to the parent.
 */
module ProcessPool {
  import opened Seqs

  const NPROC_MAX_NUM := 10
  const MAX_FD_NUM := 200
  const UNASSIGNED := -1

  // ----- the pool as a value -----

  datatype Proc = Proc(pid: int, nleft: int, status: int)

  /** The list from its head, and the counter n_proc. */
  datatype State = State(procs: seq<Proc>, nProc: int)

  function Allocated(): Proc {
    Proc(UNASSIGNED, MAX_FD_NUM, 0)
  }

  /** The first processor with a pid, or the length. */
  function IndexOf(s: seq<Proc>, pid: int): (i: nat)
    ensures i <= |s| && (i < |s| ==> s[i].pid == pid)
    ensures forall j :: 0 <= j < i ==> s[j].pid != pid
  {
    if s == [] || s[0].pid == pid then 0 else 1 + IndexOf(s[1..], pid)
  }

  /** create_proc_pool */
  function Create(n: nat): seq<Proc> {
    seq(n, _ => Allocated())
  }

  lemma CreateNext(n: nat, s: seq<Proc>)
    ensures Create(n + 1) + s == [Allocated()] + (Create(n) + s)
  {
  }

  /** insert_pool_obj */
  function Assign(s: State, pid: int): State {
    var i := IndexOf(s.procs, UNASSIGNED);
    if i < |s.procs| then State(s.procs[i := s.procs[i].(pid := pid)], s.nProc + 1) else s
  }

  /** delete_pool_obj: the counter goes down whether or not the pid is found. */
  function Delete(s: State, pid: int): State {
    var i := IndexOf(s.procs, pid);
    State(if i < |s.procs| then Removed(s.procs, i) else s.procs, s.nProc - 1)
  }

  /** insert_pool: the counter does not go up. */
  function Add(s: State, pid: int): State {
    if s.nProc < NPROC_MAX_NUM then State([Allocated().(pid := pid)] + s.procs, s.nProc) else s
  }

  /** handler_dead_processor, in the parent. */
  function Replace(s: State, pid: int, newPid: int): State {
    Add(Delete(s, pid), newPid)
  }

  // ----- notice_child -----

  /** The last processor among those with the largest nleft. */
  function Best(s: seq<Proc>): (i: nat)
    requires s != []
    ensures i < |s|
    ensures forall j :: 0 <= j < |s| ==> s[j].nleft <= s[i].nleft
    ensures forall j :: i < j < |s| ==> s[j].nleft < s[i].nleft
  {
    if |s| == 1 then 0
    else
      var n := |s| - 1;
      var i := Best(s[..n]);
      if s[n].nleft >= s[i].nleft then n else i
  }

  function Notice(s: seq<Proc>): seq<Proc>
    requires s != []
  {
    var i := Best(s);
    s[i := s[i].(nleft := s[i].nleft - 1)]
  }

  /** The last position among those with the largest nleft. */
  predicate LastLargest(s: seq<Proc>, i: nat) {
    && i < |s| && (forall j :: 0 <= j < |s| ==> s[j].nleft <= s[i].nleft)
    && (forall j :: i < j < |s| ==> s[j].nleft < s[i].nleft)
  }

  /** In any pool a call charges that processor, by one, and no other. */
  lemma NoticeExact(s: seq<Proc>, i: nat)
    requires LastLargest(s, i)
    ensures |Notice(s)| == |s| && Notice(s)[i] == s[i].(nleft := s[i].nleft - 1)
    ensures forall j :: 0 <= j < |s| && j != i ==> Notice(s)[j] == s[j]
  {
    var b := Best(s);
    assert s[b].nleft <= s[i].nleft && s[i].nleft <= s[b].nleft;
  }

  function NoticeMany(s: seq<Proc>, k: nat): (r: seq<Proc>)
    requires s != []
    ensures |r| == |s|
  {
    if k == 0 then s else Notice(NoticeMany(s, k - 1))
  }

  /** After `q` full rounds and `r` more calls: the load goes round robin, starting at
      the tail of the list. */
  predicate RoundRobin(s: seq<Proc>, q: nat, r: nat) {
    r < |s| && forall i :: 0 <= i < |s| ==> s[i].nleft == MAX_FD_NUM - q - if i + r < |s| then 0 else 1
  }

  /** The next call charges the processor that is due and starts a new round in time. */
  lemma NoticeRoundRobin(s: seq<Proc>, q: nat, r: nat)
    requires RoundRobin(s, q, r)
    ensures Best(s) == |s| - 1 - r
    ensures if r + 1 < |s| then RoundRobin(Notice(s), q, r + 1) else RoundRobin(Notice(s), q + 1, 0)
  {
    assert s[|s| - 1 - r].nleft == MAX_FD_NUM - q;
  }

  lemma NextRound(q0: nat, r0: nat, n: nat) returns (q: nat, r: nat)
    requires r0 < n
    ensures q * n + r == q0 * n + r0 + 1
    ensures if r0 + 1 < n then q == q0 && r == r0 + 1 else q == q0 + 1 && r == 0
  {
    if r0 + 1 < n {
      q, r := q0, r0 + 1;
    } else {
      q, r := q0 + 1, 0;
      assert (q0 + 1) * n == q0 * n + n;
    }
  }

  /** From a fresh pool of any size n, k = q * n + r calls give q rounds and r more. */
  lemma {:induction false} NoticeManyRoundRobin(s: seq<Proc>, k: nat) returns (q: nat, r: nat)
    requires s != [] && forall i :: 0 <= i < |s| ==> s[i].nleft == MAX_FD_NUM
    ensures k == q * |s| + r && RoundRobin(NoticeMany(s, k), q, r)
  {
    if k == 0 {
      q, r := 0, 0;
    } else {
      var q0, r0 := NoticeManyRoundRobin(s, k - 1);
      NoticeRoundRobin(NoticeMany(s, k - 1), q0, r0);
      q, r := NextRound(q0, r0, |s|);
    }
  }

  function Sum(s: seq<Proc>): int {
    if s == [] then 0 else Sum(s[..|s| - 1]) + s[|s| - 1].nleft
  }

  lemma {:induction false} SumUpdate(s: seq<Proc>, i: nat, p: Proc)
    requires i < |s|
    ensures Sum(s[i := p]) == Sum(s) - s[i].nleft + p.nleft
  {
    var n := |s| - 1;
    if i < n {
      SumUpdate(s[..n], i, p);
      assert s[i := p][..n] == s[..n][i := p];
    } else {
      assert s[i := p][..n] == s[..n];
    }
  }

  /** A call takes one unit away and keeps the workers. */
  lemma NoticeOne(s: seq<Proc>)
    requires s != []
    ensures Sum(Notice(s)) == Sum(s) - 1 && SameWorkers(Notice(s), s)
  {
    var i := Best(s);
    SumUpdate(s, i, s[i].(nleft := s[i].nleft - 1));
  }

  predicate SameWorkers(s: seq<Proc>, t: seq<Proc>) {
    |s| == |t| && forall i :: 0 <= i < |s| ==> s[i].pid == t[i].pid && s[i].status == t[i].status
  }

  lemma {:induction false} NoticeConserves(s: seq<Proc>, k: nat)
    requires s != []
    ensures Sum(NoticeMany(s, k)) == Sum(s) - k && SameWorkers(NoticeMany(s, k), s)
  {
    if k > 0 {
      NoticeConserves(s, k - 1);
      NoticeOne(NoticeMany(s, k - 1));
    }
  }

  lemma {:induction false} SumFresh(s: seq<Proc>)
    requires forall i :: 0 <= i < |s| ==> s[i].nleft == MAX_FD_NUM
    ensures Sum(s) == |s| * MAX_FD_NUM
  {
    if s != [] { SumFresh(s[..|s| - 1]); }
  }

  /** After any k calls on a fresh pool the loads sum to n * MAX_FD_NUM - k and differ by
      at most one. */
  lemma NoticeBalanced(s: seq<Proc>, k: nat)
    requires s != [] && forall i :: 0 <= i < |s| ==> s[i].nleft == MAX_FD_NUM
    ensures var t := NoticeMany(s, k);
            && Sum(t) == |s| * MAX_FD_NUM - k && SameWorkers(t, s)
            && forall i, j :: 0 <= i < |s| && 0 <= j < |s| ==> t[i].nleft - t[j].nleft <= 1
  {
    NoticeConserves(s, k);
    SumFresh(s);
    var q, r := NoticeManyRoundRobin(s, k);
  }

  // ----- replacing dead workers -----

  predicate Distinct(s: seq<Proc>) {
    forall i, j :: 0 <= i < j < |s| ==> s[i].pid != s[j].pid
  }

  predicate Present(s: seq<Proc>, pid: int) {
    exists i :: 0 <= i < |s| && s[i].pid == pid
  }

  /** A full pool of assigned workers after `deaths` replacements. */
  predicate Healthy(s: State, deaths: nat) {
    && |s.procs| == NPROC_MAX_NUM && s.nProc == NPROC_MAX_NUM - deaths
    && Distinct(s.procs) && !Present(s.procs, UNASSIGNED)
  }

  /** While the counter is not above its maximum, a replacement keeps the number of
      workers exactly when the dead pid was in the pool; otherwise the pool grows. */
  lemma ReplaceSize(s: State, pid: int, newPid: int)
    ensures |Replace(s, pid, newPid).procs|
            == |s.procs| - (if Present(s.procs, pid) then 1 else 0) + (if s.nProc <= NPROC_MAX_NUM then 1 else 0)
    ensures Replace(s, pid, newPid).nProc == s.nProc - 1
  {
  }

  /** The first position with a pid. */
  predicate FirstWith(s: seq<Proc>, pid: int, i: nat) {
    i < |s| && s[i].pid == pid && forall j :: 0 <= j < i ==> s[j].pid != pid
  }

  lemma IndexOfFirst(s: seq<Proc>, pid: int)
    ensures forall i: nat :: FirstWith(s, pid, i) ==> IndexOf(s, pid) == i
    ensures !Present(s, pid) ==> IndexOf(s, pid) == |s|
  {
  }

  lemma FirstExists(s: seq<Proc>, pid: int)
    ensures Present(s, pid) <==> exists i: nat :: FirstWith(s, pid, i)
  {
    if Present(s, pid) {
      assert FirstWith(s, pid, IndexOf(s, pid));
    }
  }

  /** insert_pool_obj on any pool: one pid changes, or nothing. */
  lemma AssignExact(s: State, pid: int, i: nat)
    ensures FirstWith(s.procs, UNASSIGNED, i) ==>
              && |Assign(s, pid).procs| == |s.procs| && Assign(s, pid).nProc == s.nProc + 1
              && Assign(s, pid).procs[i] == Proc(pid, s.procs[i].nleft, s.procs[i].status)
              && forall j :: 0 <= j < |s.procs| && j != i ==> Assign(s, pid).procs[j] == s.procs[j]
    ensures !Present(s.procs, UNASSIGNED) ==> Assign(s, pid) == s
  {
    IndexOfFirst(s.procs, UNASSIGNED);
  }

  /** delete_pool_obj on any pool: the survivors stay as they are, in their order. */
  lemma DeleteExact(s: State, pid: int, i: nat)
    ensures FirstWith(s.procs, pid, i) ==> Delete(s, pid) == State(s.procs[..i] + s.procs[i + 1..], s.nProc - 1)
    ensures !Present(s.procs, pid) ==> Delete(s, pid) == State(s.procs, s.nProc - 1)
  {
    IndexOfFirst(s.procs, pid);
  }

  /** handler_dead_processor on any pool: a fresh worker in front of the survivors, unless
      the counter was above its maximum. */
  lemma ReplaceExact(s: State, pid: int, newPid: int, i: nat)
    ensures var added := if s.nProc <= NPROC_MAX_NUM then [Proc(newPid, MAX_FD_NUM, 0)] else [];
            && (FirstWith(s.procs, pid, i) ==>
                Replace(s, pid, newPid) == State(added + (s.procs[..i] + s.procs[i + 1..]), s.nProc - 1))
            && (!Present(s.procs, pid) ==> Replace(s, pid, newPid) == State(added + s.procs, s.nProc - 1))
  {
    DeleteExact(s, pid, i);
  }

  lemma DeleteDistinct(s: seq<Proc>, i: nat)
    requires Distinct(s) && i < |s|
    ensures Distinct(Removed(s, i)) && !Present(Removed(s, i), s[i].pid)
    ensures forall pid :: Present(Removed(s, i), pid) ==> Present(s, pid)
  {
    var t := Removed(s, i);
    forall j | 0 <= j < |t| ensures t[j] == s[if j < i then j else j + 1] {
    }
  }

  lemma ReplaceHealthy(s: State, deaths: nat, pid: int, newPid: int)
    requires Healthy(s, deaths) && Present(s.procs, pid)
    requires newPid != UNASSIGNED && (Present(s.procs, newPid) ==> newPid == pid)
    ensures Healthy(Replace(s, pid, newPid), deaths + 1)
  {
    var i := IndexOf(s.procs, pid);
    DeleteDistinct(s.procs, i);
    var rest := Delete(s, pid).procs;
    assert !Present(rest, newPid) && !Present(rest, UNASSIGNED) && Distinct(rest);
    AddDistinct(rest, Allocated().(pid := newPid));
  }

  lemma AddDistinct(s: seq<Proc>, p: Proc)
    requires Distinct(s) && !Present(s, p.pid)
    ensures Distinct([p] + s)
    ensures forall pid :: Present([p] + s, pid) ==> pid == p.pid || Present(s, pid)
  {
    forall pid | Present([p] + s, pid) ensures pid == p.pid || Present(s, pid) {
      var j :| 0 <= j < |[p] + s| && ([p] + s)[j].pid == pid;
      assert j > 0 ==> s[j - 1].pid == pid;
    }
  }

  // ----- whole runs -----

  /** The parent side of init_manager_proc: one insert_pool_obj per forked pid. */
  function AssignAll(s: State, pids: seq<int>): State {
    if pids == [] then s else Assign(AssignAll(s, pids[..|pids| - 1]), pids[|pids| - 1])
  }

  predicate GoodPids(pids: seq<int>) {
    && (forall i :: 0 <= i < |pids| ==> pids[i] != UNASSIGNED)
    && (forall i, j :: 0 <= i < j < |pids| ==> pids[i] != pids[j])
  }

  /** The pids land in the list in the order in which they were forked. */
  lemma {:induction false} AssignAllInOrder(n: nat, pids: seq<int>)
    requires |pids| <= n && GoodPids(pids)
    ensures var s := AssignAll(State(Create(n), 0), pids);
            && |s.procs| == n && s.nProc == |pids|
            && forall i :: 0 <= i < n ==>
                 s.procs[i] == Allocated().(pid := if i < |pids| then pids[i] else UNASSIGNED)
  {
    if pids != [] {
      var front := pids[..|pids| - 1];
      AssignAllInOrder(n, front);
      var t := AssignAll(State(Create(n), 0), front).procs;
      assert t[|front|].pid == UNASSIGNED;
      assert IndexOf(t, UNASSIGNED) == |front|;
    }
  }

  /** The state after initialisation. */
  function Initial(pids: seq<int>): State {
    AssignAll(State(Create(NPROC_MAX_NUM), 0), pids)
  }

  lemma InitialHealthy(pids: seq<int>)
    requires |pids| == NPROC_MAX_NUM && GoodPids(pids)
    ensures Healthy(Initial(pids), 0)
  {
    AssignAllInOrder(NPROC_MAX_NUM, pids);
  }

  datatype Event = Dispatch | Death(pid: int, newPid: int)

  function Handle(s: State, e: Event): State {
    match e
    case Dispatch => if s.procs == [] then s else s.(procs := Notice(s.procs))
    case Death(pid, newPid) => Replace(s, pid, newPid)
  }

  function Run(s: State, events: seq<Event>): State {
    if events == [] then s else Handle(Run(s, events[..|events| - 1]), events[|events| - 1])
  }

  lemma RunNext(s: State, events: seq<Event>, i: nat)
    requires i < |events|
    ensures Run(s, events[..i + 1]) == Handle(Run(s, events[..i]), events[i])
  {
    assert events[..i + 1][..i] == events[..i];
  }

  function Deaths(events: seq<Event>): (n: nat)
    ensures n <= |events|
  {
    if events == [] then 0 else Deaths(events[..|events| - 1]) + if events[|events| - 1].Death? then 1 else 0
  }

  /** Workers die only once, and fork never returns the pid of a live worker. */
  predicate Possible(s: State, events: seq<Event>) {
    events != [] ==>
      var before, e := events[..|events| - 1], events[|events| - 1];
      && Possible(s, before)
      && (e.Death? ==>
          var t := Run(s, before).procs;
          Present(t, e.pid) && e.newPid != UNASSIGNED && (Present(t, e.newPid) ==> e.newPid == e.pid))
  }

  /** Dispatching and replacing in any order keep a full pool of distinct workers, while
      the counter falls by one with every death. */
  lemma {:induction false} RunHealthy(pids: seq<int>, events: seq<Event>)
    requires |pids| == NPROC_MAX_NUM && GoodPids(pids) && Possible(Initial(pids), events)
    ensures Healthy(Run(Initial(pids), events), Deaths(events))
  {
    InitialHealthy(pids);
    if events != [] {
      var before, e := events[..|events| - 1], events[|events| - 1];
      RunHealthy(pids, before);
      if e.Death? {
        ReplaceHealthy(Run(Initial(pids), before), Deaths(before), e.pid, e.newPid);
      }
    }
  }

  lemma {:induction false} SumPrepend(p: Proc, s: seq<Proc>)
    ensures Sum([p] + s) == p.nleft + Sum(s)
  {
    var n := |s| - 1;
    if s == [] {
      assert ([p] + s)[..0] == [];
    } else {
      assert ([p] + s)[..|s|] == [p] + s[..n];
      SumPrepend(p, s[..n]);
    }
  }

  lemma {:induction false} SumRemoved(s: seq<Proc>, i: nat)
    requires i < |s|
    ensures Sum(Removed(s, i)) == Sum(s) - s[i].nleft
  {
    var n := |s| - 1;
    RemovedIndex(s, i);
    if i == n {
      assert Removed(s, i) == s[..n];
    } else {
      RemovedIndex(s[..n], i);
      assert Removed(s, i)[..n - 1] == Removed(s[..n], i);
      SumRemoved(s[..n], i);
    }
  }

  lemma SumReplaced(s: State, pid: int, newPid: int)
    requires Present(s.procs, pid) && s.nProc <= NPROC_MAX_NUM
    ensures Sum(Replace(s, pid, newPid).procs) == Sum(s.procs) + Charged(s.procs, pid)
  {
    SumRemoved(s.procs, IndexOf(s.procs, pid));
    SumPrepend(Allocated().(pid := newPid), Delete(s, pid).procs);
  }

  /** The connections charged to a worker. */
  function Charged(s: seq<Proc>, pid: int): int {
    var i := IndexOf(s, pid);
    if i < |s| then MAX_FD_NUM - s[i].nleft else 0
  }

  function Dispatches(events: seq<Event>): nat {
    |events| - Deaths(events)
  }

  /** The connections that were charged to workers when they died. */
  function Lost(s: State, events: seq<Event>): int {
    if events == [] then 0
    else
      var before, e := events[..|events| - 1], events[|events| - 1];
      Lost(s, before) + if e.Death? then Charged(Run(s, before).procs, e.pid) else 0
  }

  /** Over any run every dispatched connection is charged to a live worker or was lost
      with a dead one. */
  lemma {:induction false} RunConserves(pids: seq<int>, events: seq<Event>)
    requires |pids| == NPROC_MAX_NUM && GoodPids(pids) && Possible(Initial(pids), events)
    ensures Sum(Run(Initial(pids), events).procs)
            == NPROC_MAX_NUM * MAX_FD_NUM - Dispatches(events) + Lost(Initial(pids), events)
  {
    if events == [] {
      AssignAllInOrder(NPROC_MAX_NUM, pids);
      SumFresh(Initial(pids).procs);
    } else {
      var before, e := events[..|events| - 1], events[|events| - 1];
      var s := Run(Initial(pids), before);
      RunConserves(pids, before);
      RunHealthy(pids, before);
      match e
      case Dispatch => NoticeOne(s.procs);
      case Death(pid, newPid) => SumReplaced(s, pid, newPid);
    }
  }

  // ----- the linked list -----

  /** processor_t with its SLIST_ENTRY */
  class Node {
    var pid: int
    var nleft: int
    var status: int
    var next: Node?

    /** proc_alloc */
    constructor ()
      ensures pid == UNASSIGNED && nleft == MAX_FD_NUM && status == 0
    {
      pid := UNASSIGNED;
      nleft := MAX_FD_NUM;
      status := 0;
      next := null;
    }
  }

  /** The global proc_pool. */
  class Pool {
    var first: Node?
    var nProc: int
    ghost var nodes: seq<Node>
    ghost var procs: seq<Proc>

    ghost function Nth(i: int): Node?
      reads this
    {
      if 0 <= i < |nodes| then nodes[i] else null
    }

    ghost predicate Valid()
      reads this, nodes
    {
      && (forall i, j :: 0 <= i < j < |nodes| ==> nodes[i] != nodes[j])
      && first == Nth(0) && |procs| == |nodes|
      && (forall i {:trigger nodes[i].next} :: 0 <= i < |nodes| ==> nodes[i].next == Nth(i + 1))
      && (forall i {:trigger procs[i]} :: 0 <= i < |nodes| ==>
            procs[i] == Proc(nodes[i].pid, nodes[i].nleft, nodes[i].status))
    }

    ghost function View(): State
      reads this
    {
      State(procs, nProc)
    }

    constructor ()
      ensures Valid() && View() == State([], 0)
    {
      first, nProc := null, 0;
      nodes, procs := [], [];
    }

    /** Links that show a removal from a valid list show a valid list. */
    lemma Unlinked(ns: seq<Node>, ps: seq<Proc>, i: nat)
      requires i < |ns| == |ps| && nodes == Removed(ns, i) && procs == Removed(ps, i)
      requires forall j, k :: 0 <= j < k < |ns| ==> ns[j] != ns[k]
      requires first == Nth(0)
      requires i > 0 ==> ns[i - 1].next == if i + 1 < |ns| then ns[i + 1] else null
      requires forall j {:trigger ns[j].next} :: 0 <= j < |ns| && j != i - 1 ==>
                 ns[j].next == if j + 1 < |ns| then ns[j + 1] else null
      requires forall j {:trigger ps[j]} :: 0 <= j < |ns| ==> ps[j] == Proc(ns[j].pid, ns[j].nleft, ns[j].status)
      ensures Valid()
    {
      RemovedIndex(ns, i);
      RemovedIndex(ps, i);
    }

    /** SLIST_INSERT_HEAD */
    method InsertHead(item: Node)
      requires Valid() && item !in nodes
      modifies this`first, this`nodes, this`procs, item`next
      ensures Valid() && nodes == [item] + old(nodes)
      ensures procs == [Proc(item.pid, item.nleft, item.status)] + old(procs)
    {
      item.next := first;
      first := item;
      nodes := [item] + nodes;
      procs := [Proc(item.pid, item.nleft, item.status)] + procs;
    }

    /** create_proc_pool */
    method CreatePool()
      requires Valid()
      modifies this`first, this`nodes, this`procs
      ensures Valid() && procs == Create(NPROC_MAX_NUM) + old(procs) && nProc == old(nProc)
      ensures |nodes| == NPROC_MAX_NUM + |old(nodes)| && nodes[NPROC_MAX_NUM..] == old(nodes)
      ensures forall j :: 0 <= j < NPROC_MAX_NUM ==> fresh(nodes[j])
    {
      for i := 0 to NPROC_MAX_NUM
        invariant Valid() && procs == Create(i) + old(procs)
        invariant |nodes| == i + |old(nodes)| && nodes[i..] == old(nodes)
        invariant forall j :: 0 <= j < i ==> fresh(nodes[j])
      {
        var item := new Node();
        InsertHead(item);
        CreateNext(i, old(procs));
      }
    }

    /** The first node with a pid, as SLIST_FOREACH meets it, and the one before it. */
    method Search(pid: int) returns (item: Node?, pre: Node?, ghost i: nat)
      requires Valid()
      ensures i == IndexOf(procs, pid)
      ensures item == Nth(IndexOf(procs, pid))
      ensures pre == if IndexOf(procs, pid) == 0 then first else Nth(IndexOf(procs, pid) - 1)
    {
      item, pre, i := first, first, 0;
      while item != null && item.pid != pid
        invariant i <= |nodes| && item == Nth(i) && pre == if i == 0 then first else Nth(i - 1)
        invariant forall j :: 0 <= j < i ==> procs[j].pid != pid
        decreases |nodes| - i
      {
        assert procs[i].pid == nodes[i].pid;
        pre := item;
        item := item.next;
        i := i + 1;
      }
      assert item != null ==> procs[i].pid == pid;
    }

    /** insert_pool_obj */
    method InsertPoolObj(pid: int)
      requires Valid()
      modifies this`nProc, this`procs, nodes`pid
      ensures Valid() && nodes == old(nodes) && View() == Assign(old(View()), pid)
    {
      var item, pre; ghost var i;
      item, pre, i := Search(UNASSIGNED);
      if item != null {
        item.pid := pid;
        nProc := nProc + 1;
        procs := procs[i := procs[i].(pid := pid)];
      }
    }

    /** delete_pool_obj */
    method DeletePoolObj(pid: int)
      requires Valid()
      modifies this, nodes`next
      ensures Valid() && View() == Delete(old(View()), pid)
      ensures forall i: nat :: FirstWith(old(procs), pid, i) ==> nodes == Removed(old(nodes), i)
      ensures !Present(old(procs), pid) ==> nodes == old(nodes)
    {
      IndexOfFirst(procs, pid);
      var item, pre; ghost var i;
      item, pre, i := Search(pid);
      if item != null {
        if item == first {
          first := item.next;
        } else {
          pre.next := item.next;
        }
        ghost var ns, ps := nodes, procs;
        nodes, procs := Removed(ns, i), Removed(ps, i);
        Unlinked(ns, ps, i);
      }
      nProc := nProc - 1;
    }

    /** insert_pool */
    method InsertPool(pid: int)
      requires Valid()
      modifies this`first, this`nodes, this`procs
      ensures Valid() && View() == Add(old(View()), pid)
      ensures if nProc < NPROC_MAX_NUM then |nodes| > 0 && fresh(nodes[0]) && nodes[1..] == old(nodes)
              else nodes == old(nodes)
    {
      if nProc < NPROC_MAX_NUM {
        var item := new Node();
        item.pid := pid;
        InsertHead(item);
      }
    }

    /** handler_dead_processor in the parent; `newPid` is what fork returns. The survivors
        keep their nodes and their fields. */
    method HandleDead(pid: int, newPid: int)
      requires Valid()
      modifies this, nodes`next
      ensures Valid() && View() == Replace(old(View()), pid, newPid)
      ensures forall i: nat :: FirstWith(old(procs), pid, i) && old(nProc) <= NPROC_MAX_NUM ==>
                && procs == [Proc(newPid, MAX_FD_NUM, 0)] + (old(procs)[..i] + old(procs)[i + 1..])
                && fresh(nodes[0]) && nodes[1..] == Removed(old(nodes), i)
      ensures forall j :: 0 <= j < |nodes| ==> nodes[j] in old(nodes) || fresh(nodes[j])
    {
      ghost var s, ns := View(), nodes;
      forall i: nat | FirstWith(procs, pid, i)
        ensures s.nProc <= NPROC_MAX_NUM ==>
                  Replace(s, pid, newPid).procs == [Proc(newPid, MAX_FD_NUM, 0)] + (s.procs[..i] + s.procs[i + 1..])
      {
        ReplaceExact(s, pid, newPid, i);
      }
      FirstExists(procs, pid);
      DeletePoolObj(pid);
      assert forall x :: x in nodes ==> x in ns;
      InsertPool(newPid);
    }

    /** The loop of notice_child. */
    method Choose() returns (pre: Node, pid: int)
      requires Valid() && procs != []
      ensures pre == nodes[Best(procs)] && pid == procs[Best(procs)].pid
    {
      var max := first.nleft;
      var item := first;
      pre := first;
      pid := first.pid;
      ghost var i, b := 0, 0;
      while item != null
        invariant i <= |nodes| && item == Nth(i)
        invariant i == 0 ==> max == procs[0].nleft
        invariant i > 0 ==> b == Best(procs[..i]) && pre == nodes[b] && max == procs[b].nleft && pid == procs[b].pid
        decreases |nodes| - i
      {
        assert procs[i] == Proc(item.pid, item.nleft, item.status);
        if i > 0 { assert procs[..i + 1][..i] == procs[..i]; }
        if item.nleft >= max {
          max := item.nleft;
          pid := item.pid;
          pre := item;
          b := i;
        }
        item := item.next;
        i := i + 1;
      }
      assert procs[..i] == procs;
    }

    /** notice_child; the list must not be empty. */
    method NoticeChild() returns (pid: int)
      requires Valid() && procs != []
      modifies this`procs, nodes`nleft
      ensures Valid() && nodes == old(nodes) && nProc == old(nProc)
      ensures procs == Notice(old(procs))
      ensures forall i: nat :: LastLargest(old(procs), i) ==>
                && pid == nodes[i].pid && nodes[i].nleft == old(nodes[i].nleft) - 1
                && forall j :: 0 <= j < |nodes| && j != i ==> nodes[j].nleft == old(nodes[j].nleft)
    {
      forall i: nat | LastLargest(procs, i) ensures i == Best(procs) {
        assert procs[i].nleft == procs[Best(procs)].nleft;
      }
      var pre;
      pre, pid := Choose();
      pre.nleft := pre.nleft - 1;
      procs := Notice(procs);
    }

    /** init_manager_proc in the parent; `pids` are what fork returns. */
    method InitManager(pids: seq<int>)
      requires Valid() && View() == State([], 0) && |pids| == NPROC_MAX_NUM
      modifies this, nodes
      ensures Valid() && View() == Initial(pids)
      ensures forall j :: 0 <= j < |nodes| ==> fresh(nodes[j])
    {
      assert |nodes| == 0;
      CreatePool();
      assert procs == Create(NPROC_MAX_NUM);
      for i := 0 to NPROC_MAX_NUM
        invariant Valid()
        invariant forall j :: 0 <= j < |nodes| ==> fresh(nodes[j])
        invariant View() == AssignAll(State(Create(NPROC_MAX_NUM), 0), pids[..i])
      {
        InsertPoolObj(pids[i]);
        assert pids[..i + 1][..i] == pids[..i];
      }
      assert pids[..NPROC_MAX_NUM] == pids;
    }

    /** Any number of dispatches and deaths, one after the other, on the linked list. A
        dispatch from an empty list would dereference NULL and is skipped. */
    method RunEvents(events: seq<Event>)
      requires Valid()
      modifies this, nodes`next, nodes`nleft
      ensures Valid() && View() == Run(old(View()), events)
      ensures forall j :: 0 <= j < |nodes| ==> nodes[j] in old(nodes) || fresh(nodes[j])
    {
      for i := 0 to |events|
        invariant Valid() && View() == Run(old(View()), events[..i])
        invariant forall j :: 0 <= j < |nodes| ==> nodes[j] in old(nodes) || fresh(nodes[j])
      {
        RunNext(old(View()), events, i);
        match events[i]
        case Dispatch =>
          if first != null {
            var pid := NoticeChild();
          }
        case Death(pid, newPid) => HandleDead(pid, newPid);
      }
      assert events[..|events|] == events;
    }

    /** The server from its start: initialisation and any run of dispatches and deaths
        leave an acyclic list that is a full pool of distinct assigned workers and
        accounts for every connection. */
    method Serve(pids: seq<int>, events: seq<Event>)
      requires Valid() && View() == State([], 0)
      requires |pids| == NPROC_MAX_NUM && GoodPids(pids) && Possible(Initial(pids), events)
      modifies this, nodes
      ensures Valid() && |nodes| == NPROC_MAX_NUM && Healthy(View(), Deaths(events))
      ensures Sum(procs) == NPROC_MAX_NUM * MAX_FD_NUM - Dispatches(events) + Lost(Initial(pids), events)
    {
      InitManager(pids);
      RunEvents(events);
      RunHealthy(pids, events);
      RunConserves(pids, events);
    }
  }
}
