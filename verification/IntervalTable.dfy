/** The chained hash table pid -> switch-in time, for any hash function into the buckets. */
module IntervalTable {

  datatype Slot = Slot(pid: int, tsc: nat)

  class Table {
    const buckets: array<seq<Slot>>
    const hash: int -> nat
    ghost var contents: map<int, nat>

    ghost predicate Holds(slot: Slot)
      reads this
    {
      slot.pid in contents && contents[slot.pid] == slot.tsc
    }

    // The chain at b holds exactly the pids that hash there, each once.
    ghost predicate ChainOk(b: nat)
      requires b < buckets.Length
      reads this, buckets
    {
      && (forall i | 0 <= i < |buckets[b]| :: hash(buckets[b][i].pid) == b && Holds(buckets[b][i]))
      && (forall i, j | 0 <= i < j < |buckets[b]| :: buckets[b][i].pid != buckets[b][j].pid)
      && (forall pid <- contents | hash(pid) == b :: exists i | 0 <= i < |buckets[b]| :: buckets[b][i].pid == pid)
    }

    ghost predicate Valid()
      reads this, buckets
    {
      && (forall pid :: hash(pid) < buckets.Length)
      && (forall b | 0 <= b < buckets.Length :: ChainOk(b))
    }

    constructor (size: nat, hash: int -> nat)
      requires forall pid :: hash(pid) < size
      ensures Valid() && contents == map[] && fresh(buckets)
    {
      this.hash := hash;
      buckets := new seq<Slot>[size](_ => []);
      contents := map[];
    }

    /** The time stored for the pid, 0 if there is none. */
    method Lookup(pid: int) returns (tsc: nat)
      requires Valid()
      ensures tsc == if pid in contents then contents[pid] else 0
    {
      assert ChainOk(hash(pid));
      var chain := buckets[hash(pid)];
      var i := 0;
      while i < |chain|
        invariant 0 <= i <= |chain|
        invariant forall k | 0 <= k < i :: chain[k].pid != pid
      {
        if chain[i].pid == pid {
          return chain[i].tsc;
        }
        i := i + 1;
      }
      return 0;
    }

    method Remove(pid: int)
      requires Valid()
      modifies this, buckets
      ensures Valid() && contents == old(contents) - {pid}
    {
      var h := hash(pid);
      assert ChainOk(h);
      var chain := buckets[h];
      var kept: seq<Slot> := [];
      var i := 0;
      while i < |chain|
        invariant 0 <= i <= |chain|
        invariant forall k | 0 <= k < |kept| :: kept[k].pid != pid && kept[k] in chain[..i]
        invariant forall k, l | 0 <= k < l < |kept| :: kept[k].pid != kept[l].pid
        invariant forall k | 0 <= k < i && chain[k].pid != pid :: chain[k] in kept
      {
        if chain[i].pid != pid {
          kept := kept + [chain[i]];
        }
        i := i + 1;
      }
      buckets[h] := kept;
      contents := contents - {pid};
      forall b | 0 <= b < buckets.Length
        ensures ChainOk(b)
      {
        assert old(ChainOk(b));
      }
    }

    /** At most one node a pid: an older one is removed first. */
    method Insert(pid: int, tsc: nat)
      requires Valid()
      modifies this, buckets
      ensures Valid() && contents == old(contents)[pid := tsc]
    {
      Remove(pid);
      label removed:
      var h := hash(pid);
      assert ChainOk(h);
      ghost var chain := buckets[h];
      buckets[h] := [Slot(pid, tsc)] + buckets[h];
      contents := contents[pid := tsc];
      assert ChainOk(h) by {
        assert buckets[h][0].pid == pid && pid !in old@removed(contents);
        assert forall i | 1 <= i < |buckets[h]| :: buckets[h][i] == chain[i - 1];
        forall q <- contents | hash(q) == h
          ensures exists i | 0 <= i < |buckets[h]| :: buckets[h][i].pid == q
        {
          if q != pid {
            var i :| 0 <= i < |chain| && chain[i].pid == q;
            assert buckets[h][i + 1].pid == q;
          }
        }
      }
      forall b | 0 <= b < buckets.Length && b != h
        ensures ChainOk(b)
      {
        assert old@removed(ChainOk(b));
      }
    }
  }
}
