/** What holds of the profiler after every sequence of events with sensible timestamps. */
module ProfilerTheorems {
  import opened Basics
  import opened Ordered
  import opened ProfilerModel

  // The table agrees with the direct account of who is switched in.
  ghost predicate TableOk(events: seq<Event>) {
    var open := Run(events).open;
    forall pid :: if pid in open then SwitchedIn(events, pid) == Some(open[pid]) else SwitchedIn(events, pid) == None
  }

  ghost predicate TimesOk(events: seq<Event>) {
    var open := Run(events).open;
    forall pid <- open :: 0 < First(events) <= open[pid] <= Last(events) < WORD
  }

  // The latest moment up to which a pid's total can have been counted.
  function CountedUntil(events: seq<Event>, pid: int): nat {
    var open := Run(events).open;
    if pid in open then open[pid] else Last(events)
  }

  ghost predicate TreeOk(events: seq<Event>) {
    var tree := Run(events).tree;
    && Ascending(tree) && OnePerPid(tree)
    && forall e <- tree :: 0 <= e.key <= CountedUntil(events, e.pid) - First(events)
  }

  lemma {:induction false} FirstLast(events: seq<Event>)
    requires Timed(events)
    ensures First(events) <= Last(events) < WORD && (First(events) == 0 <==> Last(events) == 0)
  {
    if events != [] {
      FirstLast(events[..|events| - 1]);
    }
  }

  lemma {:induction false} TableAgrees(events: seq<Event>)
    requires Timed(events)
    ensures TableOk(events) && TimesOk(events)
  {
    if events != [] {
      var before := events[..|events| - 1];
      TableAgrees(before);
      FirstLast(before);
      FirstLast(events);
    }
  }

  /** Within the bounds the word arithmetic gives the true total, even when sum + curr wraps. */
  lemma NoLostWrap(sum: int, now: int, since: int)
    requires 0 <= sum <= since <= now < WORD
    ensures AddInterval(sum, now, since) == sum + now - since
  {
    if sum + now >= WORD {
      assert (sum + now) % WORD == sum + now - WORD;
      assert (sum + now - WORD - since) % WORD == sum + now - since;
    }
  }

  lemma ClosedTotal(before: seq<Event>, pid: int, now: nat)
    requires TableOk(before) && TimesOk(before) && TreeOk(before)
    requires Last(before) <= now < WORD && pid in Run(before).open
    ensures
      var p := Run(before);
      && IsOpen(p, pid)
      && 0 <= Total(p.tree, pid) <= p.open[pid] - First(before)
      && NewTotal(p, pid, now) == Entry(Total(p.tree, pid) + now - p.open[pid], pid)
  {
    var p := Run(before);
    TotalWithin(p.tree, pid);
    NoLostWrap(Total(p.tree, pid), now, p.open[pid]);
  }

  lemma {:induction false} TreeStaysOk(events: seq<Event>)
    requires Timed(events)
    ensures TreeOk(events)
  {
    if events != [] {
      var before, e := events[..|events| - 1], events[|events| - 1];
      TreeStaysOk(before);
      TableAgrees(before);
      FirstLast(before);
      if e.Switch? {
        TreeStep(before, e, events);
      } else {
        assert forall pid :: CountedUntil(events, pid) == CountedUntil(before, pid);
      }
    }
  }

  lemma CountedGrows(before: seq<Event>, e: Event, events: seq<Event>, pid: int)
    requires Timed(events) && events != [] && before == events[..|events| - 1] && e == events[|events| - 1] && e.Switch?
    requires TimesOk(before)
    ensures CountedUntil(before, pid) - First(before) <= CountedUntil(events, pid) - First(events)
  {
    FirstLast(before);
    var open, open' := Run(before).open, Run(events).open;
    if pid != e.prev && pid != e.next {
      assert pid in open' <==> pid in open;
      assert pid in open ==> open'[pid] == open[pid];
    }
  }

  lemma {:induction false} ClosedUntil(before: seq<Event>, e: Event, events: seq<Event>)
    requires events != [] && before == events[..|events| - 1] && e == events[|events| - 1] && e.Switch?
    requires TimesOk(before) && e.prev in Run(before).open
    ensures CountedUntil(events, e.prev) == e.now && First(events) == First(before)
  {
  }

  lemma {:induction false} TreeStep(before: seq<Event>, e: Event, events: seq<Event>)
    requires Timed(events) && events != [] && before == events[..|events| - 1] && e == events[|events| - 1] && e.Switch?
    requires TableOk(before) && TimesOk(before) && TreeOk(before)
    ensures TreeOk(events)
  {
    hide Total, WithoutPid, InsertInOrder, Ascending, OnePerPid, HasKey, CountedUntil, First, AddInterval;
    var p, tree := Run(before), Run(events).tree;
    forall y | y in p.tree
      ensures 0 <= y.key <= CountedUntil(events, y.pid) - First(events)
    {
      CountedGrows(before, e, events, y.pid);
    }
    if IsOpen(p, e.prev) {
      ClosedTotal(before, e.prev, e.now);
      ClosedUntil(before, e, events);
      var rest, x := WithoutPid(p.tree, e.prev), NewTotal(p, e.prev, e.now);
      WithoutPidMembers(p.tree, e.prev);
      WithoutPidKeeps(p.tree, e.prev);
      InsertKeeps(rest, x);
      InsertMembers(rest, x);
      assert 0 <= x.key <= e.now - First(before);
    }
  }

  // ---------- one switch ----------

  lemma AddIntervalIs(sum: int, now: nat, since: nat)
    ensures AddInterval(sum, now, since) == (sum + now - since) % 0x1_0000_0000_0000_0000
  {
    var q := (sum + now) / WORD;
    var r := (sum + now) % WORD;
    assert sum + now - since == q * WORD + (r - since);
    ShiftMod(r - since, q);
  }

  lemma {:induction false} ShiftMod(x: int, q: int)
    ensures (q * WORD + x) % WORD == x % WORD
    decreases if q < 0 then -q else q
  {
    if q > 0 {
      assert (q - 1) * WORD + x + WORD == q * WORD + x;
      ShiftMod(x, q - 1);
    } else if q < 0 {
      assert (q + 1) * WORD + x - WORD == q * WORD + x;
      ShiftMod(x, q + 1);
    }
  }

  /** What a switch from `prev` to `next` does to the entry of any pid: it opens `next` now
      and closes `prev` if it was open. */
  lemma {:induction false} SwitchEntries(p: Profile, prev: int, next: int, now: nat, pid: int)
    ensures
      var open', closes := Step(p, Switch(prev, next, now)).open, prev in p.open && p.open[prev] != 0;
      && (pid in open' <==> pid == next || (pid in p.open && !(pid == prev && closes)))
      && (pid in open' ==> open'[pid] == if pid == next then now else p.open[pid])
  {
  }

  // The key is that of another pid's entry.
  predicate KeyOfOther(tree: seq<Entry>, pid: int, key: int) {
    exists e <- tree :: e.pid != pid && e.key == key
  }

  lemma {:induction false} KeyTakenIff(tree: seq<Entry>, pid: int, key: int)
    ensures HasKey(WithoutPid(tree, pid), key) <==> KeyOfOther(tree, pid, key)
  {
    var rest := WithoutPid(tree, pid);
    WithoutPidMembers(tree, pid);
    if HasKey(rest, key) {
      var i :| 0 <= i < |rest| && rest[i].key == key;
      assert rest[i] in rest;
    }
    if e :| e in tree && e.pid != pid && e.key == key {
      assert e in rest;
      var i :| 0 <= i < |rest| && rest[i] == e;
    }
  }

  /** And to the total of any pid: it adds the interval closed to the total of `prev`, which is
      lost if another pid has exactly that total. */
  lemma {:induction false} SwitchTotals(p: Profile, prev: int, next: int, now: nat, pid: int)
    requires Ascending(p.tree)
    ensures
      var tree', closes := Step(p, Switch(prev, next, now)).tree, prev in p.open && p.open[prev] != 0;
      if pid == prev && closes then
        var total := (Total(p.tree, prev) + now - p.open[prev]) % 0x1_0000_0000_0000_0000;
        Total(tree', prev) == if KeyOfOther(p.tree, prev, total) then 0 else total
      else Total(tree', pid) == Total(p.tree, pid)
  {
    hide Total, InsertInOrder, WithoutPid, Ascending, HasKey, KeyOfOther, AddInterval;
    if IsOpen(p, prev) {
      var rest, x := WithoutPid(p.tree, prev), NewTotal(p, prev, now);
      AddIntervalIs(Total(p.tree, prev), now, p.open[prev]);
      WithoutPidMembers(p.tree, prev);
      WithoutPidAscends(p.tree, prev);
      OtherTotals(p.tree, prev, pid);
      TotalsAfterInsert(rest, x, pid);
      KeyTakenIff(p.tree, prev, x.key);
    }
  }

  /** All that a switch from the pid `out` to the pid `into` changes. */
  ghost predicate Switched(p: Profile, p': Profile, out: int, into: int, now: nat) {
    var closes := out in p.open && p.open[out] != 0;
    && p'.posts == p.posts + 1 && p'.switches == p.switches + 1
    && into in p'.open && p'.open[into] == now
    && (closes && out != into ==> out !in p'.open)
    && (forall pid | pid != into && !(pid == out && closes) ::
          (pid in p'.open <==> pid in p.open) && (pid in p.open ==> p'.open[pid] == p.open[pid]))
    && (forall pid | pid != out || !closes :: Total(p'.tree, pid) == Total(p.tree, pid))
    && (closes ==>
          var total := (Total(p.tree, out) + now - p.open[out]) % 0x1_0000_0000_0000_0000;
          Total(p'.tree, out) == if KeyOfOther(p.tree, out, total) then 0 else total)
  }

  lemma {:induction false} StepSwitches(p: Profile, out: int, into: int, now: nat)
    requires Ascending(p.tree)
    ensures Switched(p, Step(p, Switch(out, into, now)), out, into, now)
  {
    var p' := Step(p, Switch(out, into, now));
    assert p'.posts == p.posts + 1 && p'.switches == p.switches + 1;
    hide Step, Total, KeyOfOther;
    var closes := out in p.open && p.open[out] != 0;
    SwitchEntries(p, out, into, now, into);
    SwitchEntries(p, out, into, now, out);
    SwitchTotals(p, out, into, now, out);
    forall pid | pid != into && !(pid == out && closes)
      ensures (pid in p'.open <==> pid in p.open) && (pid in p.open ==> p'.open[pid] == p.open[pid])
    {
      SwitchEntries(p, out, into, now, pid);
    }
    forall pid | pid != out || !closes
      ensures Total(p'.tree, pid) == Total(p.tree, pid)
    {
      SwitchTotals(p, out, into, now, pid);
    }
  }

  // ---------- the theorems ----------

  /** Per-pid bound: an open pid's total is at most its switch-in time less the first
      timestamp, a closed pid's at most the last less the first; so the next closing of an
      open pid computes its true total in word arithmetic. */
  lemma TotalsAreBounded(events: seq<Event>, pid: int, now: nat)
    requires Timed(events) && Last(events) <= now < WORD
    ensures
      var p := Run(events);
      var total := Total(p.tree, pid);
      && 0 <= total <= (if pid in p.open then p.open[pid] else Last(events)) - First(events)
      && (pid in p.open ==> AddInterval(total, now, p.open[pid]) == total + (now - p.open[pid]) < WORD)
  {
    TableAgrees(events);
    TreeStaysOk(events);
    FirstLast(events);
    TotalWithin(Run(events).tree, pid);
    if pid in Run(events).open {
      NoLostWrap(Total(Run(events).tree, pid), now, Run(events).open[pid]);
    }
  }

  /** Two-way index: the walk is strictly ascending in time, holds a pid at most once, and
      so the scan by pid gives the key of the pid's entry, or 0 for a pid with none. */
  lemma TwoWayIndex(events: seq<Event>, pid: int)
    requires Timed(events)
    ensures
      var tree := Run(events).tree;
      && Ascending(tree) && OnePerPid(tree)
      && (forall i | 0 <= i < |tree| && tree[i].pid == pid :: Total(tree, pid) == tree[i].key)
      && ((forall i | 0 <= i < |tree| :: tree[i].pid != pid) ==> Total(tree, pid) == 0)
  {
    TreeStaysOk(events);
    var tree := Run(events).tree;
    forall i | 0 <= i < |tree| && tree[i].pid == pid
      ensures Total(tree, pid) == tree[i].key
    {
      TotalOf(tree, i);
    }
    TotalIsSum(tree, pid);
    if forall i | 0 <= i < |tree| :: tree[i].pid != pid {
      NoneFor(tree, pid);
    }
  }

  lemma StepSums(before: seq<Event>, e: Event, q: int)
    requires TableOk(before) && TimesOk(before) && TreeOk(before)
    requires e.Switch? && Last(before) <= e.now < WORD
    ensures
      var p, dropped := Run(before), Dropped(Run(before), e);
      var p' := Step(p, e);
      && SumKeys(p'.tree) + SumKeys(dropped) == SumKeys(p.tree) + Closed(before, e)
      && SumFor(p'.tree, q) + SumFor(dropped, q) == SumFor(p.tree, q) + if q == e.prev then Closed(before, e) else 0
  {
    var p := Run(before);
    assert SwitchedIn(before, e.prev).None? <==> e.prev !in p.open;
    if e.prev in p.open {
      ClosedTotal(before, e.prev, e.now);
      var rest, x := WithoutPid(p.tree, e.prev), NewTotal(p, e.prev, e.now);
      WithoutPidKeeps(p.tree, e.prev);
      WithoutPidSums(p.tree, e.prev, q);
      TotalIsSum(p.tree, e.prev);
      InsertSums(rest, x, q);
      SumOfOne(x, q);
    }
  }

  /** Time conservation. The totals in the tree and the totals dropped for a taken key add
      up to the time of all closed intervals, for each pid and overall. */
  lemma {:induction false} TimeIsConserved(events: seq<Event>, pid: int)
    requires Timed(events)
    ensures SumKeys(Run(events).tree) + SumKeys(Drops(events)) == AllTime(events)
    ensures Total(Run(events).tree, pid) + SumFor(Drops(events), pid) == CpuTime(events, pid)
  {
    TreeStaysOk(events);
    TotalIsSum(Run(events).tree, pid);
    if events != [] {
      var before, e := events[..|events| - 1], events[|events| - 1];
      TimeIsConserved(before, pid);
      TableAgrees(before);
      TreeStaysOk(before);
      TotalIsSum(Run(before).tree, pid);
      SumKeysAppend(Drops(before), Dropped(Run(before), e));
      if e.Switch? {
        StepSums(before, e, pid);
      }
    }
  }

  /** Every pid's total is the sum of its own closed intervals. */
  ghost predicate Exact(events: seq<Event>) {
    forall pid :: Total(Run(events).tree, pid) == CpuTime(events, pid)
  }

  lemma {:induction false} DropsNotNegative(events: seq<Event>)
    requires Timed(events)
    ensures forall x <- Drops(events) :: x.key >= 0
  {
    if events != [] {
      DropsNotNegative(events[..|events| - 1]);
    }
  }

  // A total other than 0 of another pid is a key that is taken, and a key that is taken is
  // the total of another pid.
  lemma TotalIsTaken(tree: seq<Entry>, pid: int, q: int)
    requires q != pid && Total(tree, q) != 0
    ensures HasKey(WithoutPid(tree, pid), Total(tree, q))
  {
    var x, rest := Entry(Total(tree, q), q), WithoutPid(tree, pid);
    TotalWithin(tree, q);
    WithoutPidMembers(tree, pid);
    assert x in rest;
    var i :| 0 <= i < |rest| && rest[i] == x;
  }

  lemma TakenIsTotal(tree: seq<Entry>, pid: int, key: int) returns (q: int)
    requires OnePerPid(tree) && HasKey(WithoutPid(tree, pid), key)
    ensures q != pid && Total(tree, q) == key
  {
    var rest := WithoutPid(tree, pid);
    var i :| 0 <= i < |rest| && rest[i].key == key;
    WithoutPidMembers(tree, pid);
    assert rest[i] in rest;
    var k :| 0 <= k < |tree| && tree[k] == rest[i];
    TotalOf(tree, k);
    q := tree[k].pid;
  }

  // While totals are exact, an event ties exactly when it drops a total other than 0.
  lemma {:induction false} TieIffDropped(before: seq<Event>, e: Event)
    requires Timed(before) && Exact(before) && (e.Switch? ==> Last(before) <= e.now < WORD)
    ensures Tie(before, e) <==> exists x <- Dropped(Run(before), e) :: x.key != 0
  {
    TableAgrees(before);
    TreeStaysOk(before);
    var p := Run(before);
    if e.Switch? && e.prev in p.open {
      ClosedTotal(before, e.prev, e.now);
      var x := NewTotal(p, e.prev, e.now);
      assert x.key == CpuTime(before, e.prev) + Closed(before, e);
      if Tie(before, e) {
        var q :| q != e.prev && CpuTime(before, q) == x.key;
        TotalIsTaken(p.tree, e.prev, q);
        assert x in Dropped(p, e);
      } else if y :| y in Dropped(p, e) && y.key != 0 {
        var q := TakenIsTotal(p.tree, e.prev, x.key);
        assert CpuTime(before, q) == x.key;
      }
    }
  }

  lemma {:induction false} SumForZero(s: seq<Entry>, pid: int)
    requires forall x <- s :: x.key >= 0
    ensures SumFor(s, pid) >= 0
    ensures SumFor(s, pid) == 0 <==> forall x <- s :: x.pid == pid ==> x.key == 0
  {
    if s != [] {
      var front, last := s[..|s| - 1], s[|s| - 1];
      assert s == front + [last];
      SumForZero(front, pid);
    }
  }

  lemma {:induction false} DropsAreZero(events: seq<Event>)
    requires Timed(events)
    ensures Exact(events) <==> forall x <- Drops(events) :: x.key == 0
  {
    DropsNotNegative(events);
    if Exact(events) {
      forall x | x in Drops(events)
        ensures x.key == 0
      {
        TimeIsConserved(events, x.pid);
        SumForZero(Drops(events), x.pid);
      }
    }
    if forall x <- Drops(events) :: x.key == 0 {
      forall pid
        ensures Total(Run(events).tree, pid) == CpuTime(events, pid)
      {
        TimeIsConserved(events, pid);
        SumForZero(Drops(events), pid);
      }
    }
  }

  /** The code meets its purpose exactly on these runs: every pid's total is the sum of its
      own closed intervals if and only if no event, as it closes an interval, brings its pid's
      time to exactly the time of another pid. */
  lemma {:induction false} ExactUnlessTied(events: seq<Event>)
    requires Timed(events)
    ensures Exact(events) <==> TieFree(events)
  {
    DropsAreZero(events);
    if events != [] {
      var before, e := events[..|events| - 1], events[|events| - 1];
      ExactUnlessTied(before);
      DropsAreZero(before);
      assert forall x :: x in Drops(events) <==> x in Drops(before) || x in Dropped(Run(before), e);
      if Exact(before) {
        TieIffDropped(before, e);
      }
    }
  }

  const FIRST_TWO := [Switch(0, 1, 10), Switch(1, 2, 15)]

  lemma {:induction false} AfterTwo()
    ensures Timed(FIRST_TWO) && SwitchedIn(FIRST_TWO, 2) == Some(15)
    ensures CpuTime(FIRST_TWO, 1) == 5 && CpuTime(FIRST_TWO, 2) == 0
    ensures Run(FIRST_TWO).open == map[2 := 15] && Run(FIRST_TWO).tree == [Entry(5, 1)]
  {
    var e1, e2 := Switch(0, 1, 10), Switch(1, 2, 15);
    assert FIRST_TWO[..1] == [e1] && [e1][..0] == [];
    assert Timed([]) && Timed([e1]);
    assert SwitchedIn([e1], 1) == Some(10);
    assert CpuTime([e1], 1) == 0 && CpuTime([e1], 2) == 0;
    assert Run([]) == EMPTY;
    assert Run([e1]) == Profile(map[1 := 10], [], 1, 1);
    assert WithoutPid([], 1) == [];
  }

  /** Two pids with equal totals: the second loses all it had. */
  lemma {:induction false} ATieDropsATotal()
    ensures
      var events := [Switch(0, 1, 10), Switch(1, 2, 15), Switch(2, 3, 20)];
      && Timed(events)
      && CpuTime(events, 2) == 5 && Total(Run(events).tree, 2) == 0
      && CpuTime(events, 1) == 5 && Total(Run(events).tree, 1) == 5
  {
    var events := [Switch(0, 1, 10), Switch(1, 2, 15), Switch(2, 3, 20)];
    AfterTwo();
    assert events[..2] == FIRST_TWO;
    assert [Entry(5, 1)][..0] == [];
    assert WithoutPid([Entry(5, 1)], 2) == [Entry(5, 1)];
    assert NewTotal(Run(FIRST_TWO), 2, 20) == Entry(5, 2);
    assert Run(events).tree == [Entry(5, 1)];
  }

  /** Open-interval table: every event is counted, and every counted switch is still open, was
      closed, or was overwritten by a second switch-in of the same pid. */
  lemma {:induction false} SwitchesAccountedFor(events: seq<Event>)
    requires Timed(events)
    ensures Run(events).posts == |events|
    ensures Run(events).switches == Switches(events) == |Run(events).open| + Closings(events) + Overwrites(events)
  {
    if events != [] {
      var before, e := events[..|events| - 1], events[|events| - 1];
      SwitchesAccountedFor(before);
      TableAgrees(before);
      if e.Switch? {
        var p := Run(before);
        assert SwitchedIn(before, e.prev).Some? <==> e.prev in p.open;
        assert SwitchedIn(before, e.next).Some? <==> e.next in p.open;
        SizeAfter(p.open, e.prev, e.next, e.now);
      }
    }
  }

  lemma SizeAfter(open: map<int, nat>, prev: int, next: int, now: nat)
    ensures
      |(open - {prev})[next := now]| ==
      |open| - (if prev in open then 1 else 0) + if next in open && next != prev then 0 else 1
  {
    var closed := open - {prev};
    assert closed.Keys == open.Keys - {prev};
    assert closed[next := now].Keys == closed.Keys + {next};
    assert |closed| == |closed.Keys|;
    assert |closed[next := now]| == |closed.Keys + {next}|;
  }
}
