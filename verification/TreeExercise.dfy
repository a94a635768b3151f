/** The red-black tree part of the exercise module: insert every value, printing after each,
    then look every value up. */
module TreeExercise {
  import opened Ordered
  import ST = SearchTree

  // The walk after inserting the values in turn.
  function Inserted(values: seq<int>): seq<Entry> {
    if values == [] then []
    else InsertInOrder(Inserted(values[..|values| - 1]), Entry(values[|values| - 1], 0))
  }

  function Keys(walk: seq<Entry>): (keys: seq<int>)
    ensures |keys| == |walk|
  {
    seq(|walk|, i requires 0 <= i < |walk| => walk[i].key)
  }

  function Negatives(values: seq<int>): seq<int> {
    if values == [] then []
    else Negatives(values[..|values| - 1]) + if values[|values| - 1] < 0 then [values[|values| - 1]] else []
  }

  /** Tree sort: the walk is strictly increasing and holds exactly the values inserted. */
  lemma {:induction false} InsertedSorts(values: seq<int>)
    ensures Ascending(Inserted(values))
    ensures forall v :: HasKey(Inserted(values), v) <==> v in values
  {
    if values != [] {
      var front, last := values[..|values| - 1], values[|values| - 1];
      InsertedSorts(front);
      var walk, x := Inserted(front), Entry(last, 0);
      InsertAscends(walk, x);
      assert values == front + [last];
      forall v
        ensures HasKey(InsertInOrder(walk, x), v) <==> HasKey(walk, v) || v == last
      {
        InsertedKeys(walk, x, v);
      }
    }
  }

  lemma HasKeyAppend(a: seq<Entry>, b: seq<Entry>, v: int)
    ensures HasKey(a + b, v) <==> HasKey(a, v) || HasKey(b, v)
  {
    var s := a + b;
    assert forall i | 0 <= i < |a| :: a[i] == s[i];
    assert forall i | 0 <= i < |b| :: b[i] == s[|a| + i];
    assert forall i | |a| <= i < |s| :: s[i] == b[i - |a|];
  }

  lemma InsertedKeys(walk: seq<Entry>, x: Entry, v: int)
    requires Ascending(walk)
    ensures HasKey(InsertInOrder(walk, x), v) <==> HasKey(walk, v) || v == x.key
  {
    if HasKey(walk, x.key) {
      InsertPresent(walk, x);
    } else {
      var k := InsertAbsent(walk, x);
      var walk' := InsertInOrder(walk, x);
      assert walk == walk[..k] + walk[k..];
      HasKeyAppend(walk[..k], walk[k..], v);
      HasKeyAppend(walk[..k] + [x], walk[k..], v);
      HasKeyAppend(walk[..k], [x], v);
      assert HasKey([x], v) <==> [x][0].key == v;
    }
  }

  // What is printed of the walk: the values, each once, ascending.
  lemma {:induction false} PrintsSorted(values: seq<int>)
    ensures
      var keys := Keys(Inserted(values));
      && (forall a, b | 0 <= a < b < |keys| :: keys[a] < keys[b])
      && forall v :: v in keys <==> v in values
  {
    InsertedSorts(values);
    var walk := Inserted(values);
    forall v
      ensures v in Keys(walk) <==> v in values
    {
      assert HasKey(walk, v) <==> v in values;
      if HasKey(walk, v) {
        var i :| 0 <= i < |walk| && walk[i].key == v;
        assert Keys(walk)[i] == v;
      }
    }
  }

  lemma {:induction false} NegativesOnly(values: seq<int>)
    ensures forall v :: multiset(Negatives(values))[v] == if v < 0 then multiset(values)[v] else 0
  {
    if values != [] {
      var front := values[..|values| - 1];
      NegativesOnly(front);
      assert values == front + [values[|values| - 1]];
    }
  }

  /** Inserts the values in turn and prints the whole tree after each. */
  method InsertAll(values: seq<int>) returns (tree: ST.Tree, printed: seq<seq<int>>)
    ensures tree.Valid() && fresh(tree) && fresh(tree.nodes) && tree.walk == Inserted(values)
    ensures |printed| == |values| + 1
    ensures forall i, a, b | 0 <= i <= |values| && 0 <= a < b < |printed[i]| :: printed[i][a] < printed[i][b]
    ensures forall i, v | 0 <= i <= |values| :: v in printed[i] <==> v in values[..i]
  {
    hide InsertInOrder, HasKey, Ascending, Keys;
    tree := new ST.Tree();
    printed := [[]];
    var i := 0;
    while i < |values|
      invariant 0 <= i <= |values| && |printed| == i + 1
      invariant tree.Valid() && fresh(tree) && fresh(tree.nodes)
      invariant tree.walk == Inserted(values[..i])
      invariant forall k | 0 <= k <= i :: printed[k] == Keys(Inserted(values[..k]))
    {
      assert values[..i + 1][..i] == values[..i];
      var node := new ST.Node(Entry(values[i], 0));
      i := i + 1;
      var _ := tree.Insert(node);
      var walk := tree.Entries();
      printed := printed + [Keys(walk)];
    }
    assert values[..i] == values;
    forall k | 0 <= k <= |values|
      ensures forall a, b | 0 <= a < b < |printed[k]| :: printed[k][a] < printed[k][b]
      ensures forall v :: v in printed[k] <==> v in values[..k]
    {
      PrintsSorted(values[..k]);
    }
  }

  /** Looks every value up again. A negative result is reported as not found. */
  method LookupAll(tree: ST.Tree, values: seq<int>) returns (notFound: seq<int>)
    requires tree.Valid() && tree.walk == Inserted(values)
    ensures forall v :: multiset(notFound)[v] == if v < 0 then multiset(values)[v] else 0
  {
    InsertedSorts(values);
    notFound := [];
    var i := 0;
    while i < |values|
      invariant 0 <= i <= |values| && notFound == Negatives(values[..i])
    {
      assert values[..i + 1][..i] == values[..i];
      var number := values[i];
      i := i + 1;
      var ret := tree.Lookup(number);
      if ret < 0 {
        notFound := notFound + [number];
      }
    }
    assert values[..i] == values;
    NegativesOnly(values);
  }

  /** So exactly the negative values, all of them in the tree, are reported as not found. */
  method RunRedBlackTrees(values: seq<int>) returns (printed: seq<seq<int>>, notFound: seq<int>)
    ensures |printed| == |values| + 1
    ensures forall i, a, b | 0 <= i <= |values| && 0 <= a < b < |printed[i]| :: printed[i][a] < printed[i][b]
    ensures forall i, v | 0 <= i <= |values| :: v in printed[i] <==> v in values[..i]
    ensures forall v :: multiset(notFound)[v] == if v < 0 then multiset(values)[v] else 0
  {
    var tree;
    tree, printed := InsertAll(values);
    notFound := LookupAll(tree, values);
  }
}
