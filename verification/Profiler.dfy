/** The profiler as the module holds it: the hash table, the tree and the counters, changed
    in place by each return of the probed function. */
module Profiler {
  import opened Basics
  import opened Ordered
  import opened ProfilerModel
  import opened ProfilerTheorems
  import ST = SearchTree
  import IntervalTable

  // A task as the handler sees it: which task_struct, and its pid.
  datatype Task = Task(address: nat, pid: int)

  const TOP := 10

  /** Scans the walk for the pid. */
  method LookupTotal(tree: ST.Tree, pid: int) returns (total: int)
    requires tree.Valid()
    ensures total == Total(tree.walk, pid)
  {
    var walk := tree.Entries();
    var i := 0;
    while i < |walk|
      invariant 0 <= i <= |walk|
      invariant Total(walk, pid) == Total(walk[i..], pid)
    {
      if walk[i].pid == pid {
        return walk[i].key;
      }
      i := i + 1;
    }
    return 0;
  }

  // The walk when its first i entries have been looked at, and how many of those are left.
  function Scanned(walk: seq<Entry>, i: nat, pid: int): seq<Entry>
    requires i <= |walk|
  {
    if i == 0 then walk
    else if walk[0].pid == pid then Scanned(walk[1..], i - 1, pid)
    else [walk[0]] + Scanned(walk[1..], i - 1, pid)
  }

  function KeptCount(walk: seq<Entry>, i: nat, pid: int): nat
    requires i <= |walk|
  {
    if i == 0 then 0 else KeptCount(walk[1..], i - 1, pid) + if walk[0].pid == pid then 0 else 1
  }

  lemma {:induction false} ScanNext(walk: seq<Entry>, i: nat, pid: int)
    requires i < |walk|
    ensures
      var now, k := Scanned(walk, i, pid), KeptCount(walk, i, pid);
      && k < |now|
      && Scanned(walk, i + 1, pid) == (if walk[i].pid == pid then EraseAt(now, k) else now)
      && KeptCount(walk, i + 1, pid) == if walk[i].pid == pid then k else k + 1
  {
    if i > 0 {
      ScanNext(walk[1..], i - 1, pid);
    } else {
      assert Scanned(walk[1..], 0, pid) == walk[1..];
      assert walk == [walk[0]] + walk[1..];
    }
  }

  lemma {:induction false} ScannedAll(walk: seq<Entry>, pid: int)
    ensures Scanned(walk, |walk|, pid) == WithoutPid(walk, pid)
  {
    if walk != [] {
      ScannedAll(walk[1..], pid);
      WithoutPidFront(walk, pid);
    }
  }

  /** Scans the walk and erases the pid's nodes, stepping on before each erasure. */
  method RemoveTotal(tree: ST.Tree, pid: int)
    requires tree.Valid()
    modifies tree
    ensures tree.Valid() && fresh(tree.nodes - old(tree.nodes))
    ensures tree.walk == WithoutPid(old(tree.walk), pid)
  {
    var walk := tree.Entries();
    var i, k := 0, 0;
    assert k == KeptCount(walk, i, pid) && tree.walk == Scanned(walk, i, pid);
    hide Scanned, KeptCount, WithoutPid;
    while i < |walk|
      invariant 0 <= i <= |walk| && tree.Valid() && fresh(tree.nodes - old(tree.nodes))
      invariant k == KeptCount(walk, i, pid) && tree.walk == Scanned(walk, i, pid)
    {
      ScanNext(walk, i, pid);
      if walk[i].pid == pid {
        tree.Erase(k);
      } else {
        k := k + 1;
      }
      i := i + 1;
    }
    ScannedAll(walk, pid);
  }

  /** Re-keys the pid's node: out with the old total, in with the new one. */
  method AddToTotal(tree: ST.Tree, pid: int, now: nat, since: nat)
    requires tree.Valid()
    modifies tree, tree.nodes
    ensures tree.Valid() && fresh(tree.nodes - old(tree.nodes))
    ensures
      var total := AddInterval(Total(old(tree.walk), pid), now, since);
      tree.walk == InsertInOrder(WithoutPid(old(tree.walk), pid), Entry(total, pid))
  {
    var sum := LookupTotal(tree, pid);
    sum := AddInterval(sum, now, since);
    RemoveTotal(tree, pid);
    var node := new ST.Node(Entry(sum, pid));
    var _ := tree.Insert(node);
  }

  class Perftop {
    const table: IntervalTable.Table
    const tree: ST.Tree
    var postCount: nat
    var switchCount: nat

    ghost predicate Valid()
      reads this, table, table.buckets, tree, tree.nodes
    {
      table.Valid() && tree.Valid()
    }

    ghost function View(): Profile
      reads this, table, tree
    {
      Profile(table.contents, tree.walk, postCount, switchCount)
    }

    constructor (size: nat, hash: int -> nat)
      requires forall pid :: hash(pid) < size
      ensures Valid() && View() == EMPTY
      ensures fresh(table) && fresh(table.buckets) && fresh(tree) && fresh(tree.nodes)
    {
      table := new IntervalTable.Table(size, hash);
      tree := new ST.Tree();
      postCount, switchCount := 0, 0;
    }

    // The part of the handler under `if (old != 0)`, with the lookup before it.
    method CloseInterval(pid: int, now: nat)
      requires Valid()
      modifies table, table.buckets, tree, tree.nodes
      ensures Valid() && fresh(tree.nodes - old(tree.nodes))
      ensures View() == Close(old(View()), pid, now)
    {
      var since := table.Lookup(pid);
      if since != 0 {
        table.Remove(pid);
        AddToTotal(tree, pid, now, since);
      }
    }

    /** The event a return of the probed function stands for. */
    static function Observed(prev: Option<Task>, next: Option<Task>, now: nat): Event {
      if prev.Some? && next.Some? && prev.value.address != next.value.address
      then Switch(prev.value.pid, next.value.pid, now) else Ignored
    }

    /** ret_pick_next_fair: closes the outgoing task's interval, re-keys its total, and opens
        an interval for the incoming task. */
    method ReturnHandler(prev: Option<Task>, next: Option<Task>, now: nat)
      requires Valid()
      modifies this, table, table.buckets, tree, tree.nodes
      ensures Valid() && fresh(tree.nodes - old(tree.nodes))
      ensures View() == Step(old(View()), Observed(prev, next, now))
      ensures
        if prev.Some? && next.Some? && prev.value.address != next.value.address then
          Switched(old(View()), View(), prev.value.pid, next.value.pid, now)
        else View() == old(View()).(posts := old(postCount) + 1)
    {
      hide Switched;
      ghost var before := View();
      postCount := postCount + 1;
      if prev.Some? && next.Some? && prev.value.address != next.value.address {
        CloseInterval(prev.value.pid, now);
        table.Insert(next.value.pid, now);
        switchCount := switchCount + 1;
        StepSwitches(before, prev.value.pid, next.value.pid, now);
      }
    }

    /** The report: from the largest total down, stopping after ten. */
    method PrintTree() returns (report: seq<Entry>)
      requires Valid()
      ensures report == Report(tree.walk)
    {
      var walk := tree.Entries();
      report := [];
      var count := 0;
      var left := |walk|;
      while left > 0
        invariant 0 <= left <= |walk| && count == |report| == |walk| - left <= TOP - 1
        invariant report == FromLast(walk, count)
      {
        left := left - 1;
        report := report + [walk[left]];
        var stop := count > 8;
        count := count + 1;
        if stop {
          break;
        }
      }
    }
  }

  // The last `count` entries, last first.
  function FromLast(walk: seq<Entry>, count: nat): (r: seq<Entry>)
    requires count <= |walk|
    ensures |r| == count
  {
    seq(count, i requires 0 <= i < count => walk[|walk| - 1 - i])
  }

  function Report(walk: seq<Entry>): seq<Entry> {
    FromLast(walk, if |walk| < TOP then |walk| else TOP)
  }

  lemma Listed(walk: seq<Entry>, i: nat)
    requires |walk| - |Report(walk)| <= i < |walk|
    ensures walk[i] in Report(walk)
  {
    assert Report(walk)[|walk| - 1 - i] == walk[i];
  }

  /** The report lists ten entries, or all if there are fewer, by strictly falling total, and
      every entry it leaves out is below every one it lists. */
  lemma ReportIsTopTen(walk: seq<Entry>)
    requires Ascending(walk)
    ensures |Report(walk)| == if |walk| < 10 then |walk| else 10
    ensures forall r <- Report(walk) :: r in walk
    ensures forall i, j | 0 <= i < j < |Report(walk)| :: Report(walk)[i].key > Report(walk)[j].key
    ensures forall e, r | e in walk && e !in Report(walk) && r in Report(walk) :: e.key < r.key
  {
    var report := Report(walk);
    forall e, r | e in walk && e !in report && r in report
      ensures e.key < r.key
    {
      var i :| 0 <= i < |walk| && walk[i] == e;
      var j :| 0 <= j < |report| && report[j] == r;
      if i >= |walk| - |report| {
        Listed(walk, i);
        assert false;
      }
    }
  }

  /** What the module is for, on every timed run without a tie: the report is of the pids with
      the most time, their true times, falling, and every pid it leaves out has none, or less
      than each of the ten it lists. */
  lemma {:induction false} ReportIsBusiest(events: seq<Event>)
    requires Timed(events) && TieFree(events)
    ensures
      var report := Report(Run(events).tree);
      && |report| <= 10
      && (forall r <- report :: r.key == CpuTime(events, r.pid))
      && (forall i, j | 0 <= i < j < |report| :: report[i].key > report[j].key)
      && forall pid | CpuTime(events, pid) > 0 && (forall r <- report :: r.pid != pid) ::
           |report| == 10 && forall r <- report :: CpuTime(events, pid) < r.key
  {
    hide Run, Report, Total, CpuTime, Timed, TieFree;
    var tree := Run(events).tree;
    var report := Report(tree);
    ExactUnlessTied(events);
    TreeStaysOk(events);
    ReportIsTopTen(tree);
    forall r | r in report
      ensures r.key == CpuTime(events, r.pid)
    {
      var k :| 0 <= k < |tree| && tree[k] == r;
      TotalOf(tree, k);
    }
    forall pid | CpuTime(events, pid) > 0 && (forall r <- report :: r.pid != pid)
      ensures |report| == 10 && forall r <- report :: CpuTime(events, pid) < r.key
    {
      TotalWithin(tree, pid);
      var e := Entry(CpuTime(events, pid), pid);
      assert e in tree && e !in report;
      var i :| 0 <= i < |tree| && tree[i] == e;
      if |tree| < 10 {
        Listed(tree, i);
        assert false;
      }
    }
  }

  // ---------- the calls of the handler, and the CPU time they tell of ----------

  datatype Call = Call(prev: Option<Task>, next: Option<Task>, now: nat) {
    predicate Switches() {
      prev.Some? && next.Some? && prev.value.address != next.value.address
    }
  }

  function Events(calls: seq<Call>): (events: seq<Event>)
    ensures |events| == |calls|
  {
    seq(|calls|, i requires 0 <= i < |calls| => Perftop.Observed(calls[i].prev, calls[i].next, calls[i].now))
  }

  /** When the pid was last the next task, if it has not been the previous one since. */
  function RunningSince(calls: seq<Call>, pid: int): Option<nat> {
    if calls == [] then None
    else
      var before, c := calls[..|calls| - 1], calls[|calls| - 1];
      if c.Switches() && c.next.value.pid == pid then Some(c.now)
      else if c.Switches() && c.prev.value.pid == pid then None
      else RunningSince(before, pid)
  }

  /** The time between being the next task and then the previous one, added up. */
  function CallTime(calls: seq<Call>, pid: int): nat {
    if calls == [] then 0
    else
      var before, c := calls[..|calls| - 1], calls[|calls| - 1];
      var since := RunningSince(before, pid);
      CallTime(before, pid) +
      if c.Switches() && c.prev.value.pid == pid && since.Some? && since.value <= c.now then c.now - since.value else 0
  }

  /** The calls that switch have positive 64-bit times that never go back. */
  ghost predicate CallsTimed(calls: seq<Call>) {
    && (forall i | 0 <= i < |calls| && calls[i].Switches() :: 0 < calls[i].now < 0x1_0000_0000_0000_0000)
    && forall i, j | 0 <= i < j < |calls| && calls[i].Switches() && calls[j].Switches() :: calls[i].now <= calls[j].now
  }

  /** No call, as it ends a run of its previous task, brings that pid's time to another's. */
  ghost predicate CallsTieFree(calls: seq<Call>) {
    calls != [] ==>
      var before, c := calls[..|calls| - 1], calls[|calls| - 1];
      && CallsTieFree(before)
      && (c.Switches() && RunningSince(before, c.prev.value.pid).Some? ==>
            var time := CallTime(calls, c.prev.value.pid);
            time == 0 || forall pid | pid != c.prev.value.pid :: CallTime(before, pid) != time)
  }

  lemma EventsSnoc(calls: seq<Call>)
    requires calls != []
    ensures
      var c := calls[|calls| - 1];
      && Events(calls)[..|calls| - 1] == Events(calls[..|calls| - 1])
      && Events(calls)[|calls| - 1] == Perftop.Observed(c.prev, c.next, c.now)
  {
  }

  lemma {:induction false} CallTimeIsCpuTime(calls: seq<Call>, pid: int)
    ensures RunningSince(calls, pid) == SwitchedIn(Events(calls), pid)
    ensures CallTime(calls, pid) == CpuTime(Events(calls), pid)
  {
    if calls != [] {
      EventsSnoc(calls);
      CallTimeIsCpuTime(calls[..|calls| - 1], pid);
    }
  }

  // The conditions on the calls are those on the events they stand for.
  lemma {:induction false} TimedIff(calls: seq<Call>)
    ensures CallsTimed(calls) <==> Timed(Events(calls))
    ensures Timed(Events(calls)) ==> LastSwitch(calls, Last(Events(calls)))
  {
    hide Events;
    if calls != [] {
      var before, c := calls[..|calls| - 1], calls[|calls| - 1];
      assert forall i | 0 <= i < |before| :: before[i] == calls[i];
      TimedIff(before);
      EventsSnoc(calls);
    }
  }

  // No switch is later than that, and one is then unless there is none.
  ghost predicate LastSwitch(calls: seq<Call>, last: nat) {
    && (forall i | 0 <= i < |calls| && calls[i].Switches() :: calls[i].now <= last)
    && (last == 0 || exists i | 0 <= i < |calls| && calls[i].Switches() :: calls[i].now == last)
  }

  lemma {:induction false} TieFreeIff(calls: seq<Call>)
    ensures CallsTieFree(calls) <==> TieFree(Events(calls))
  {
    if calls != [] {
      var before, c := calls[..|calls| - 1], calls[|calls| - 1];
      TieFreeIff(before);
      EventsSnoc(calls);
      if c.Switches() {
        var pid := c.prev.value.pid;
        CallTimeIsCpuTime(before, pid);
        CallTimeIsCpuTime(calls, pid);
        forall q
          ensures CallTime(before, q) == CpuTime(Events(before), q)
        {
          CallTimeIsCpuTime(before, q);
        }
      }
    }
  }

  /** The module loaded, handling any sequence of returns, then read: the report is that of
      the events' profile, whatever the hash function and however the tree is balanced; and if
      they are timed and none ties, it is of the pids with the most CPU time. */
  method WatchAndReport(size: nat, hash: int -> nat, calls: seq<Call>) returns (report: seq<Entry>)
    requires forall pid :: hash(pid) < size
    ensures report == Report(Run(Events(calls)).tree)
    ensures
      CallsTimed(calls) && CallsTieFree(calls) ==>
        && |report| <= 10
        && (forall r <- report :: r.key == CallTime(calls, r.pid))
        && (forall i, j | 0 <= i < j < |report| :: report[i].key > report[j].key)
        && forall pid | CallTime(calls, pid) > 0 && (forall r <- report :: r.pid != pid) ::
             |report| == 10 && forall r <- report :: CallTime(calls, pid) < r.key
  {
    var p := new Perftop(size, hash);
    var i := 0;
    while i < |calls|
      invariant 0 <= i <= |calls|
      invariant p.Valid() && fresh(p) && fresh(p.table) && fresh(p.table.buckets)
      invariant fresh(p.tree) && fresh(p.tree.nodes)
      invariant p.View() == Run(Events(calls[..i]))
    {
      assert calls[..i + 1][..i] == calls[..i];
      assert Events(calls[..i + 1])[..i] == Events(calls[..i]);
      p.ReturnHandler(calls[i].prev, calls[i].next, calls[i].now);
      i := i + 1;
    }
    assert calls[..i] == calls;
    report := p.PrintTree();
    if CallsTimed(calls) && CallsTieFree(calls) {
      TimedIff(calls);
      TieFreeIff(calls);
      ReportIsBusiest(Events(calls));
      forall pid
        ensures CallTime(calls, pid) == CpuTime(Events(calls), pid)
      {
        CallTimeIsCpuTime(calls, pid);
      }
    }
  }
}
