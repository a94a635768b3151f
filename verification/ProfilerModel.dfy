/** What one scheduling event does to the profiler's table and tree, and an account of the
    same events that uses neither. */
module ProfilerModel {
  import opened Basics
  import opened Ordered

  // A return of the probed function: a switch from one task to another, or nothing to do.
  datatype Event = Ignored | Switch(prev: int, next: int, now: nat)

  // `open`: switch-in times by pid; `tree`: the in-order walk, totals as keys.
  datatype Profile = Profile(open: map<int, nat>, tree: seq<Entry>, posts: nat, switches: nat)

  /** The scan of lookup_rb_tree: the first entry of the pid, 0 if there is none. */
  function Total(tree: seq<Entry>, pid: int): int {
    if tree == [] then 0 else if tree[0].pid == pid then tree[0].key else Total(tree[1..], pid)
  }

  /** What remove_rb_tree leaves. */
  function WithoutPid(tree: seq<Entry>, pid: int): seq<Entry> {
    if tree == [] then []
    else
      var last := tree[|tree| - 1];
      WithoutPid(tree[..|tree| - 1], pid) + if last.pid == pid then [] else [last]
  }

  // sum + curr - old on unsigned long longs.
  function AddInterval(sum: int, now: int, since: int): (r: int)
    ensures 0 <= r < WORD
  {
    ((sum + now) % WORD - since) % WORD
  }

  // Is the pid's interval open? A stored time of 0 would read as absent.
  predicate IsOpen(p: Profile, pid: int) {
    pid in p.open && p.open[pid] != 0
  }

  function NewTotal(p: Profile, pid: int, now: nat): Entry
    requires IsOpen(p, pid)
  {
    Entry(AddInterval(Total(p.tree, pid), now, p.open[pid]), pid)
  }

  function Close(p: Profile, pid: int, now: nat): Profile {
    if !IsOpen(p, pid) then p
    else p.(open := p.open - {pid}, tree := InsertInOrder(WithoutPid(p.tree, pid), NewTotal(p, pid, now)))
  }

  function Step(p: Profile, e: Event): Profile {
    match e
    case Ignored => p.(posts := p.posts + 1)
    case Switch(prev, next, now) =>
      var q := Close(p, prev, now);
      q.(open := q.open[next := now], posts := q.posts + 1, switches := q.switches + 1)
  }

  // The total thrown away by this event: its key was taken by another pid.
  function Dropped(p: Profile, e: Event): seq<Entry> {
    if e.Switch? && IsOpen(p, e.prev) && HasKey(WithoutPid(p.tree, e.prev), NewTotal(p, e.prev, e.now).key)
    then [NewTotal(p, e.prev, e.now)] else []
  }

  const EMPTY := Profile(map[], [], 0, 0)

  function Run(events: seq<Event>): Profile {
    if events == [] then EMPTY else Step(Run(events[..|events| - 1]), events[|events| - 1])
  }

  function Drops(events: seq<Event>): seq<Entry> {
    if events == [] then []
    else
      var before := events[..|events| - 1];
      Drops(before) + Dropped(Run(before), events[|events| - 1])
  }

  // ---------- the same events, without table or tree ----------

  /** When the pid was last switched in, if it has not been switched out since. */
  function SwitchedIn(events: seq<Event>, pid: int): Option<nat> {
    if events == [] then None
    else
      var e := events[|events| - 1];
      if e.Switch? && e.next == pid then Some(e.now)
      else if e.Switch? && e.prev == pid then None
      else SwitchedIn(events[..|events| - 1], pid)
  }

  // The length of the interval the event closes, 0 if it closes none.
  function Closed(before: seq<Event>, e: Event): nat {
    if !e.Switch? then 0
    else
      match SwitchedIn(before, e.prev)
      case None => 0
      case Some(since) => if since <= e.now then e.now - since else 0
  }

  /** The time of all closed intervals of a pid. */
  function CpuTime(events: seq<Event>, pid: int): nat {
    if events == [] then 0
    else
      var before, e := events[..|events| - 1], events[|events| - 1];
      CpuTime(before, pid) + if e.Switch? && e.prev == pid then Closed(before, e) else 0
  }

  /** The time of all closed intervals. */
  function AllTime(events: seq<Event>): nat {
    if events == [] then 0 else AllTime(events[..|events| - 1]) + Closed(events[..|events| - 1], events[|events| - 1])
  }

  function Closings(events: seq<Event>): nat {
    if events == [] then 0
    else
      var before, e := events[..|events| - 1], events[|events| - 1];
      Closings(before) + if e.Switch? && SwitchedIn(before, e.prev).Some? then 1 else 0
  }

  // Switch-ins of a pid that was still switched in.
  function Overwrites(events: seq<Event>): nat {
    if events == [] then 0
    else
      var before, e := events[..|events| - 1], events[|events| - 1];
      Overwrites(before) + if e.Switch? && e.next != e.prev && SwitchedIn(before, e.next).Some? then 1 else 0
  }

  function Switches(events: seq<Event>): nat {
    if events == [] then 0 else Switches(events[..|events| - 1]) + if events[|events| - 1].Switch? then 1 else 0
  }

  // The last timestamp, and the first; 0 before any switch.
  function Last(events: seq<Event>): nat {
    if events == [] then 0
    else if events[|events| - 1].Switch? then events[|events| - 1].now
    else Last(events[..|events| - 1])
  }

  function First(events: seq<Event>): nat {
    if events == [] then 0
    else
      var before, e := events[..|events| - 1], events[|events| - 1];
      if First(before) == 0 && e.Switch? then e.now else First(before)
  }

  /** Timestamps are positive, fit a word and never go back. */
  predicate Timed(events: seq<Event>) {
    events != [] ==>
      var before, e := events[..|events| - 1], events[|events| - 1];
      Timed(before) && (e.Switch? ==> 0 < e.now < WORD && Last(before) <= e.now)
  }

  /** The event closes an interval that brings its pid's time, not 0, to that of another pid. */
  ghost predicate Tie(before: seq<Event>, e: Event) {
    && e.Switch? && SwitchedIn(before, e.prev).Some?
    && var time := CpuTime(before, e.prev) + Closed(before, e);
       time > 0 && exists q :: q != e.prev && CpuTime(before, q) == time
  }

  ghost predicate TieFree(events: seq<Event>) {
    events != [] ==>
      TieFree(events[..|events| - 1]) && !Tie(events[..|events| - 1], events[|events| - 1])
  }

  function SumKeys(s: seq<Entry>): int {
    if s == [] then 0 else SumKeys(s[..|s| - 1]) + s[|s| - 1].key
  }

  // Everything a list of dropped entries held for one pid.
  function SumFor(s: seq<Entry>, pid: int): int {
    if s == [] then 0 else SumFor(s[..|s| - 1], pid) + if s[|s| - 1].pid == pid then s[|s| - 1].key else 0
  }

  // ---------- lists with one entry a pid ----------

  predicate OnePerPid(tree: seq<Entry>) {
    forall i, j | 0 <= i < j < |tree| :: tree[i].pid != tree[j].pid
  }

  lemma {:induction false} SumKeysAppend(a: seq<Entry>, b: seq<Entry>)
    ensures SumKeys(a + b) == SumKeys(a) + SumKeys(b)
    ensures forall pid :: SumFor(a + b, pid) == SumFor(a, pid) + SumFor(b, pid)
  {
    if b == [] {
      assert a + b == a;
    } else {
      assert (a + b)[..|a + b| - 1] == a + b[..|b| - 1];
      SumKeysAppend(a, b[..|b| - 1]);
    }
  }

  lemma SumOfOne(x: Entry, pid: int)
    ensures SumKeys([x]) == x.key && SumFor([x], pid) == if x.pid == pid then x.key else 0
  {
    assert [x][..0] == [];
  }

  lemma NoneFor(tree: seq<Entry>, pid: int)
    requires forall i | 0 <= i < |tree| :: tree[i].pid != pid
    ensures SumFor(tree, pid) == 0
  {
  }

  /** The scan finds the pid's only entry, so the total is what the whole list holds for it. */
  lemma {:induction false} TotalIsSum(tree: seq<Entry>, pid: int)
    requires OnePerPid(tree)
    ensures Total(tree, pid) == SumFor(tree, pid)
  {
    if tree != [] {
      assert tree == [tree[0]] + tree[1..];
      SumKeysAppend([tree[0]], tree[1..]);
      SumOfOne(tree[0], pid);
      TotalIsSum(tree[1..], pid);
      if tree[0].pid == pid {
        NoneFor(tree[1..], pid);
      }
    }
  }

  lemma {:induction false} TotalOf(tree: seq<Entry>, i: nat)
    requires OnePerPid(tree) && i < |tree|
    ensures Total(tree, tree[i].pid) == tree[i].key
  {
    if i > 0 {
      assert tree[1..][i - 1] == tree[i];
      TotalOf(tree[1..], i - 1);
    }
  }

  lemma {:induction false} TotalWithin(tree: seq<Entry>, pid: int)
    ensures Total(tree, pid) == 0 || Entry(Total(tree, pid), pid) in tree
  {
    if tree != [] && tree[0].pid != pid {
      TotalWithin(tree[1..], pid);
    }
  }

  /** Removal loses exactly the pid's entries ... */
  lemma {:induction false} WithoutPidMembers(tree: seq<Entry>, pid: int)
    ensures forall e :: e in WithoutPid(tree, pid) <==> e in tree && e.pid != pid
  {
    if tree != [] {
      var front := tree[..|tree| - 1];
      WithoutPidMembers(front, pid);
      assert tree == front + [tree[|tree| - 1]];
    }
  }

  lemma {:induction false} WithoutPidFront(tree: seq<Entry>, pid: int)
    requires tree != []
    ensures WithoutPid(tree, pid) == (if tree[0].pid == pid then [] else [tree[0]]) + WithoutPid(tree[1..], pid)
  {
    if |tree| > 1 {
      WithoutPidFront(tree[..|tree| - 1], pid);
      assert tree[1..][..|tree| - 2] == tree[..|tree| - 1][1..];
    }
  }

  lemma OnePastAll(t: seq<Entry>, last: Entry)
    requires Ascending(t) && OnePerPid(t) && forall y <- t :: y.key < last.key && y.pid != last.pid
    ensures Ascending(t + [last]) && OnePerPid(t + [last])
  {
  }

  // ... leaves the totals of the others ...
  lemma {:induction false} OtherTotals(tree: seq<Entry>, pid: int, q: int)
    ensures Total(WithoutPid(tree, pid), q) == if q == pid then 0 else Total(tree, q)
  {
    if tree != [] {
      WithoutPidFront(tree, pid);
      OtherTotals(tree[1..], pid, q);
      var rest := WithoutPid(tree[1..], pid);
      if tree[0].pid == pid {
        assert [] + rest == rest;
      } else {
        assert ([tree[0]] + rest)[1..] == rest;
      }
    }
  }

  lemma {:induction false} TotalsAfterInsert(tree: seq<Entry>, x: Entry, q: int)
    requires Ascending(tree)
    ensures q != x.pid ==> Total(InsertInOrder(tree, x), q) == Total(tree, q)
    ensures
      Total(tree, x.pid) == 0 && (forall e <- tree :: e.pid != x.pid) ==>
        Total(InsertInOrder(tree, x), x.pid) == if HasKey(tree, x.key) then 0 else x.key
  {
    if HasKey(tree, x.key) {
      InsertPresent(tree, x);
    } else {
      var k := InsertAbsent(tree, x);
      TotalSplit(tree[..k], x, tree[k..], q);
      TotalSplit(tree[..k], x, tree[k..], x.pid);
      assert tree[..k] + tree[k..] == tree;
    }
  }

  lemma {:induction false} TotalSplit(a: seq<Entry>, x: Entry, b: seq<Entry>, q: int)
    ensures q != x.pid ==> Total(a + [x] + b, q) == Total(a + b, q)
    ensures (forall e <- a :: e.pid != x.pid) ==> Total(a + [x] + b, x.pid) == x.key
  {
    if a == [] {
      assert a + [x] + b == [x] + b && a + b == b;
    } else {
      assert (a + [x] + b)[1..] == a[1..] + [x] + b && (a + b)[1..] == a[1..] + b;
      TotalSplit(a[1..], x, b, q);
    }
  }

  lemma {:induction false} WithoutPidAscends(tree: seq<Entry>, pid: int)
    requires Ascending(tree)
    ensures Ascending(WithoutPid(tree, pid))
  {
    if tree != [] {
      var front, last := tree[..|tree| - 1], tree[|tree| - 1];
      WithoutPidAscends(front, pid);
      WithoutPidMembers(front, pid);
      assert forall y <- front :: y.key < last.key;
      assert forall i | 0 <= i < |WithoutPid(front, pid)| :: WithoutPid(front, pid)[i] in front;
    }
  }

  // ... keeps what is left in order, one entry a pid ...
  lemma {:induction false} WithoutPidKeeps(tree: seq<Entry>, pid: int)
    requires Ascending(tree) && OnePerPid(tree)
    ensures Ascending(WithoutPid(tree, pid)) && OnePerPid(WithoutPid(tree, pid))
  {
    if tree != [] {
      var front, last := tree[..|tree| - 1], tree[|tree| - 1];
      WithoutPidKeeps(front, pid);
      WithoutPidMembers(front, pid);
      OnePastAll(WithoutPid(front, pid), last);
    }
  }

  // ... and takes away exactly what the pid held.
  lemma {:induction false} WithoutPidSums(tree: seq<Entry>, pid: int, q: int)
    ensures SumKeys(WithoutPid(tree, pid)) == SumKeys(tree) - SumFor(tree, pid)
    ensures SumFor(WithoutPid(tree, pid), q) == if q == pid then 0 else SumFor(tree, q)
  {
    if tree != [] {
      var front, last := tree[..|tree| - 1], tree[|tree| - 1];
      WithoutPidSums(front, pid, q);
      if last.pid != pid {
        SumKeysAppend(WithoutPid(front, pid), [last]);
        SumOfOne(last, q);
      } else {
        assert WithoutPid(front, pid) + [] == WithoutPid(front, pid);
      }
    }
  }

  // What an insertion adds to the sums: the entry, unless its key is taken.
  function Kept(tree: seq<Entry>, x: Entry): int {
    if HasKey(tree, x.key) then 0 else x.key
  }

  lemma InsertSums(tree: seq<Entry>, x: Entry, q: int)
    requires Ascending(tree)
    ensures SumKeys(InsertInOrder(tree, x)) == SumKeys(tree) + Kept(tree, x)
    ensures SumFor(InsertInOrder(tree, x), q) == SumFor(tree, q) + if q == x.pid then Kept(tree, x) else 0
  {
    if HasKey(tree, x.key) {
      InsertPresent(tree, x);
    } else {
      var k := InsertAbsent(tree, x);
      assert tree == tree[..k] + tree[k..];
      SumKeysAppend(tree[..k], tree[k..]);
      SumKeysAppend(tree[..k], [x]);
      SumKeysAppend(tree[..k] + [x], tree[k..]);
      SumOfOne(x, q);
    }
  }

  lemma InsertedUnique(a: seq<Entry>, x: Entry, b: seq<Entry>)
    requires OnePerPid(a + b) && forall e <- a + b :: e.pid != x.pid
    ensures OnePerPid(a + [x] + b)
  {
    var s, t := a + b, a + [x] + b;
    forall i, j | 0 <= i < j < |t|
      ensures t[i].pid != t[j].pid
    {
      var i', j' := if i < |a| then i else i - 1, if j < |a| then j else j - 1;
      assert i != |a| ==> t[i] == s[i'] && s[i'] in s;
      assert j != |a| ==> t[j] == s[j'] && s[j'] in s;
    }
  }

  lemma InsertKeeps(tree: seq<Entry>, x: Entry)
    requires Ascending(tree) && OnePerPid(tree) && forall e <- tree :: e.pid != x.pid
    ensures Ascending(InsertInOrder(tree, x)) && OnePerPid(InsertInOrder(tree, x))
  {
    InsertAscends(tree, x);
    if HasKey(tree, x.key) {
      InsertPresent(tree, x);
    } else {
      var k := InsertAbsent(tree, x);
      assert tree == tree[..k] + tree[k..];
      InsertedUnique(tree[..k], x, tree[k..]);
    }
  }

  lemma InsertMembers(tree: seq<Entry>, x: Entry)
    requires Ascending(tree)
    ensures forall e :: e in InsertInOrder(tree, x) <==> e in tree || (e == x && !HasKey(tree, x.key))
  {
    if HasKey(tree, x.key) {
      InsertPresent(tree, x);
    } else {
      var k := InsertAbsent(tree, x);
      assert tree == tree[..k] + tree[k..];
    }
  }
}
