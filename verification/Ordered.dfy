/** Key-ordered lists of entries: what a search tree's in-order walk is. */
module Ordered {

  // `key` orders the tree (the value, or the time total); `pid` rides along.
  datatype Entry = Entry(key: int, pid: int)

  predicate Ascending(walk: seq<Entry>) {
    forall i, j | 0 <= i < j < |walk| :: walk[i].key < walk[j].key
  }

  predicate HasKey(walk: seq<Entry>, key: int) {
    exists i | 0 <= i < |walk| :: walk[i].key == key
  }

  // Where the entry goes in an ascending walk; nowhere if its key is there already.
  function InsertInOrder(walk: seq<Entry>, x: Entry): seq<Entry> {
    if walk == [] then [x]
    else if x.key < walk[0].key then [x] + walk
    else if x.key == walk[0].key then walk
    else [walk[0]] + InsertInOrder(walk[1..], x)
  }

  lemma AscendingParts(a: seq<Entry>, n: Entry, b: seq<Entry>)
    requires Ascending(a + [n] + b)
    ensures Ascending(a) && Ascending(b)
    ensures forall i | 0 <= i < |a| :: a[i].key < n.key
    ensures forall i | 0 <= i < |b| :: n.key < b[i].key
  {
    var w := a + [n] + b;
    assert w[|a|] == n;
    assert forall i | 0 <= i < |a| :: w[i] == a[i];
    assert forall i | 0 <= i < |b| :: w[|a| + 1 + i] == b[i];
  }

  lemma {:induction false} InsertLeft(a: seq<Entry>, b: seq<Entry>, x: Entry)
    requires b != [] && x.key < b[0].key
    ensures InsertInOrder(a + b, x) == InsertInOrder(a, x) + b
  {
    if a == [] {
      assert a + b == b;
    } else {
      assert (a + b)[1..] == a[1..] + b;
      InsertLeft(a[1..], b, x);
    }
  }

  lemma {:induction false} InsertRight(a: seq<Entry>, b: seq<Entry>, x: Entry)
    requires forall i | 0 <= i < |a| :: a[i].key < x.key
    ensures InsertInOrder(a + b, x) == a + InsertInOrder(b, x)
  {
    if a == [] {
      assert a + b == b;
    } else {
      assert (a + b)[1..] == a[1..] + b;
      InsertRight(a[1..], b, x);
    }
  }

  // Beside a middle entry, an insertion goes into the side its key points to.
  lemma InsertBeside(a: seq<Entry>, n: Entry, b: seq<Entry>, x: Entry)
    requires forall i | 0 <= i < |a| :: a[i].key < n.key
    ensures
      InsertInOrder(a + [n] + b, x) ==
      if x.key < n.key then InsertInOrder(a, x) + [n] + b
      else if x.key > n.key then a + [n] + InsertInOrder(b, x)
      else a + [n] + b
  {
    var tail := [n] + b;
    assert a + [n] + b == a + tail;
    if x.key < n.key {
      InsertLeft(a, tail, x);
      assert InsertInOrder(a, x) + tail == InsertInOrder(a, x) + [n] + b;
    } else {
      InsertRight(a, tail, x);
      assert tail[1..] == b;
    }
  }

  // Only the side the key points to can hold it.
  lemma KeyBeside(a: seq<Entry>, n: Entry, b: seq<Entry>, key: int)
    requires forall i | 0 <= i < |a| :: a[i].key < n.key
    requires forall i | 0 <= i < |b| :: n.key < b[i].key
    ensures
      HasKey(a + [n] + b, key) <==>
      if key < n.key then HasKey(a, key) else if key > n.key then HasKey(b, key) else true
  {
    var w := a + [n] + b;
    assert w[|a|] == n;
    assert forall i | 0 <= i < |a| :: w[i] == a[i];
    assert forall i | 0 <= i < |b| :: w[|a| + 1 + i] == b[i];
    assert forall i | |a| < i < |w| :: w[i] == b[i - |a| - 1];
  }

  lemma HasKeyTail(walk: seq<Entry>, key: int)
    requires walk != [] && walk[0].key != key
    ensures HasKey(walk[1..], key) <==> HasKey(walk, key)
  {
    var rest := walk[1..];
    assert forall i | 0 <= i < |rest| :: rest[i] == walk[i + 1];
    if HasKey(walk, key) {
      var i :| 0 <= i < |walk| && walk[i].key == key;
      assert rest[i - 1].key == key;
    }
  }

  /** A key that is there already changes nothing. */
  lemma {:induction false} InsertPresent(walk: seq<Entry>, x: Entry)
    requires Ascending(walk) && HasKey(walk, x.key)
    ensures InsertInOrder(walk, x) == walk
  {
    if x.key > walk[0].key {
      HasKeyTail(walk, x.key);
      InsertPresent(walk[1..], x);
    }
  }

  /** A new key goes in at the one place that keeps the walk ascending. */
  lemma {:induction false} InsertAbsent(walk: seq<Entry>, x: Entry) returns (k: nat)
    requires Ascending(walk) && !HasKey(walk, x.key)
    ensures k <= |walk| && InsertInOrder(walk, x) == walk[..k] + [x] + walk[k..]
    ensures forall i | 0 <= i < k :: walk[i].key < x.key
    ensures forall i | k <= i < |walk| :: x.key < walk[i].key
  {
    if walk == [] || x.key < walk[0].key {
      k := 0;
    } else {
      HasKeyTail(walk, x.key);
      var rest := walk[1..];
      var j := InsertAbsent(rest, x);
      k := j + 1;
      assert [walk[0]] + rest[..j] == walk[..k] && rest[j..] == walk[k..];
      assert [walk[0]] + (rest[..j] + [x] + rest[j..]) == ([walk[0]] + rest[..j]) + [x] + rest[j..];
      assert forall i | 1 <= i < |walk| :: walk[i] == rest[i - 1];
    }
  }

  lemma InsertAscends(walk: seq<Entry>, x: Entry)
    requires Ascending(walk)
    ensures Ascending(InsertInOrder(walk, x)) && HasKey(InsertInOrder(walk, x), x.key)
  {
    if HasKey(walk, x.key) {
      InsertPresent(walk, x);
    } else {
      var k := InsertAbsent(walk, x);
      assert InsertInOrder(walk, x)[k] == x;
    }
  }

  // The list without its k-th entry.
  function EraseAt(walk: seq<Entry>, k: nat): seq<Entry>
    requires k < |walk|
  {
    if k == 0 then walk[1..] else [walk[0]] + EraseAt(walk[1..], k - 1)
  }

  lemma {:induction false} EraseAtSlices(walk: seq<Entry>, k: nat)
    requires k < |walk|
    ensures EraseAt(walk, k) == walk[..k] + walk[k + 1..]
  {
    if k > 0 {
      EraseAtSlices(walk[1..], k - 1);
    }
  }

  lemma ErasedAscends(walk: seq<Entry>, k: nat)
    requires Ascending(walk) && k < |walk|
    ensures Ascending(EraseAt(walk, k))
  {
    EraseAtSlices(walk, k);
    var rest := EraseAt(walk, k);
    assert forall i | 0 <= i < |rest| :: rest[i] == walk[if i < k then i else i + 1];
  }
}
