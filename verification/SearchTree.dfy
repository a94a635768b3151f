/** The pointer search tree that both kernel modules build: the descents they code
    themselves, over nodes linked in place. Rebalancing and erasing are the kernel's; all
    that is assumed of them is what they do to the in-order walk. */
module SearchTree {
  import opened Ordered

  class Node {
    const entry: Entry
    var left: Node?
    var right: Node?

    constructor (entry: Entry)
      ensures this.entry == entry && left == null && right == null
    {
      this.entry := entry;
      left, right := null, null;
    }

    constructor Above(entry: Entry, right: Node?)
      ensures this.entry == entry && left == null && this.right == right
    {
      this.entry := entry;
      this.left, this.right := null, right;
    }
  }

  // Which node sits where in a linked tree.
  datatype Shape = Empty | Fork(left: Shape, node: Node, right: Shape)

  ghost function Nodes(t: Shape): set<Node> {
    match t
    case Empty => {}
    case Fork(l, n, r) => Nodes(l) + {n} + Nodes(r)
  }

  function Walk(t: Shape): seq<Entry> {
    match t
    case Empty => []
    case Fork(l, n, r) => Walk(l) + [n.entry] + Walk(r)
  }

  ghost predicate Linked(n: Node?, t: Shape)
    reads Nodes(t)
  {
    match t
    case Empty => n == null
    case Fork(l, node, r) =>
      && n == node
      && node !in Nodes(l) && node !in Nodes(r) && Nodes(l) !! Nodes(r)
      && Linked(node.left, l) && Linked(node.right, r)
  }

  // ---------- the descent ----------

  // Does the descent for the key stop at a node holding it?
  predicate Finds(t: Shape, key: int) {
    match t
    case Empty => false
    case Fork(l, n, r) =>
      if key < n.entry.key then Finds(l, key) else if key > n.entry.key then Finds(r, key) else true
  }

  // The last node on the descent for a key that is not found.
  function Parent(t: Shape, key: int, above: Node?): Node? {
    match t
    case Empty => above
    case Fork(l, n, r) => if key < n.entry.key then Parent(l, key, n) else Parent(r, key, n)
  }

  // The tree with a new leaf where the descent ends; unchanged if the key is found.
  function Graft(t: Shape, x: Node): Shape {
    match t
    case Empty => Fork(Empty, x, Empty)
    case Fork(l, n, r) =>
      if x.entry.key < n.entry.key then Fork(Graft(l, x), n, r)
      else if x.entry.key > n.entry.key then Fork(l, n, Graft(r, x))
      else t
  }

  /** For any shape, balanced or not, grafting at the end of the descent is insertion into
      the ascending walk. */
  lemma {:induction false} GraftInsertsInOrder(t: Shape, x: Node)
    requires Ascending(Walk(t))
    ensures Walk(Graft(t, x)) == InsertInOrder(Walk(t), x.entry)
  {
    match t
    case Empty =>
    case Fork(l, n, r) =>
      AscendingParts(Walk(l), n.entry, Walk(r));
      InsertBeside(Walk(l), n.entry, Walk(r), x.entry);
      GraftInsertsInOrder(l, x);
      GraftInsertsInOrder(r, x);
  }

  /** The descent stops early exactly when the key is in the tree. */
  lemma {:induction false} FindsIffInWalk(t: Shape, key: int)
    requires Ascending(Walk(t))
    ensures Finds(t, key) <==> HasKey(Walk(t), key)
  {
    match t
    case Empty =>
    case Fork(l, n, r) =>
      AscendingParts(Walk(l), n.entry, Walk(r));
      KeyBeside(Walk(l), n.entry, Walk(r), key);
      FindsIffInWalk(l, key);
      FindsIffInWalk(r, key);
  }

  // ---------- linking ----------

  lemma GraftNodes(t: Shape, x: Node)
    requires !Finds(t, x.entry.key)
    ensures Nodes(Graft(t, x)) == Nodes(t) + {x}
  {
  }

  lemma ParentInTree(t: Shape, key: int, above: Node?)
    ensures Parent(t, key, above) == above || Parent(t, key, above) in Nodes(t)
    ensures t.Fork? ==> Parent(t, key, above) != null && Parent(t, key, above) in Nodes(t)
  {
  }

  // The two links of every node, as a value.
  type Links = map<Node, (Node?, Node?)>

  ghost predicate LinkedVia(n: Node?, t: Shape, links: Links) {
    match t
    case Empty => n == null
    case Fork(l, node, r) =>
      && n == node && node in links
      && node !in Nodes(l) && node !in Nodes(r) && Nodes(l) !! Nodes(r)
      && LinkedVia(links[node].0, l, links) && LinkedVia(links[node].1, r, links)
  }

  lemma LinkedIffVia(n: Node?, t: Shape, links: Links)
    requires forall m <- Nodes(t) :: m in links && links[m] == (m.left, m.right)
    ensures Linked(n, t) <==> LinkedVia(n, t, links)
  {
  }

  lemma OtherLinks(n: Node?, t: Shape, links: Links, links': Links)
    requires LinkedVia(n, t, links)
    requires forall m <- Nodes(t) :: m in links && m in links' && links'[m] == links[m]
    ensures LinkedVia(n, t, links')
  {
  }

  // The links after `*new = node` at the end of the descent.
  function SetLink(links: Links, parent: Node, x: Node): Links
    requires parent in links
  {
    var (left, right) := links[parent];
    links[parent := if x.entry.key < parent.entry.key then (x, right) else (left, x)][x := (null, null)]
  }

  /** Setting the one link at the end of the descent turns a tree linked as t into one
      linked as Graft(t, x). */
  lemma {:induction false} LinkedGraft(n: Node?, t: Shape, x: Node, parent: Node, links: Links)
    requires LinkedVia(n, t, links) && t.Fork? && !Finds(t, x.entry.key) && x !in Nodes(t)
    requires parent in links && parent == Parent(t, x.entry.key, null)
    ensures LinkedVia(n, Graft(t, x), SetLink(links, parent, x))
  {
    var Fork(l, node, r) := t;
    var links' := SetLink(links, parent, x);
    ParentInTree(t, x.entry.key, null);
    if x.entry.key < node.entry.key {
      GraftNodes(l, x);
      if l.Fork? {
        ParentInTree(l, x.entry.key, null);
        ParentAbove(l, x.entry.key, node, null);
        LinkedGraft(links[node].0, l, x, parent, links);
      }
      LinkedNodes(links[node].1, r, links);
      OtherLinks(links[node].1, r, links, links');
    } else {
      GraftNodes(r, x);
      if r.Fork? {
        ParentInTree(r, x.entry.key, null);
        ParentAbove(r, x.entry.key, node, null);
        LinkedGraft(links[node].1, r, x, parent, links);
      }
      LinkedNodes(links[node].0, l, links);
      OtherLinks(links[node].0, l, links, links');
    }
  }

  lemma LinkedNodes(n: Node?, t: Shape, links: Links)
    requires LinkedVia(n, t, links)
    ensures Nodes(t) <= links.Keys
  {
  }

  lemma ParentAbove(t: Shape, key: int, above: Node?, other: Node?)
    requires t.Fork?
    ensures Parent(t, key, above) == Parent(t, key, other)
  {
  }

  class Tree {
    var root: Node?
    ghost var shape: Shape
    ghost var nodes: set<Node>
    ghost var walk: seq<Entry>  // the in-order walk

    ghost predicate Valid()
      reads this, nodes
    {
      nodes == Nodes(shape) && Linked(root, shape) && walk == Walk(shape) && Ascending(walk)
    }

    constructor ()
      ensures Valid() && walk == [] && nodes == {}
    {
      root, shape, nodes, walk := null, Empty, {}, [];
    }

    /** The descent both routines make: does it stop at the key, and if not, under which node
        does it run out? */
    method Descend(key: int) returns (found: bool, parent: Node?)
      requires Valid()
      ensures found == Finds(shape, key)
      ensures !found ==> parent == Parent(shape, key, null)
    {
      var cur := root;
      parent := null;
      ghost var sub := shape;
      while cur != null
        invariant Linked(cur, sub) && Nodes(sub) <= nodes
        invariant Finds(sub, key) == Finds(shape, key)
        invariant !Finds(shape, key) ==> Parent(sub, key, parent) == Parent(shape, key, null)
        decreases sub
      {
        parent := cur;
        if key < cur.entry.key {
          cur, sub := cur.left, sub.left;
        } else if key > cur.entry.key {
          cur, sub := cur.right, sub.right;
        } else {
          return true, parent;
        }
      }
      found := false;
    }

    // Sets the link at the end of the descent.
    method Link(x: Node, parent: Node?)
      requires Valid() && x !in nodes && x.left == null && x.right == null
      requires !Finds(shape, x.entry.key) && parent == Parent(shape, x.entry.key, null)
      modifies this`root, this`shape, this`nodes, nodes
      ensures shape == Graft(old(shape), x) && nodes == Nodes(shape) == old(nodes) + {x}
      ensures Linked(root, shape)
    {
      GraftNodes(shape, x);
      ParentInTree(shape, x.entry.key, null);
      ghost var links: Links := map m | m in nodes :: (m.left, m.right);
      LinkedIffVia(root, shape, links);
      if parent == null {
        root := x;
      } else {
        LinkedGraft(root, shape, x, parent, links);
        if x.entry.key < parent.entry.key {
          parent.left := x;
        } else {
          parent.right := x;
        }
        LinkedIffVia(root, Graft(shape, x), SetLink(links, parent, x));
      }
      shape, nodes := Graft(shape, x), nodes + {x};
    }

    /** Links the node in where the descent ends, unless its key is found on the way. */
    method Insert(x: Node) returns (inserted: bool)
      requires Valid() && x !in nodes && x.left == null && x.right == null
      modifies this, nodes, x
      ensures Valid()
      ensures inserted <==> !HasKey(old(walk), x.entry.key)
      ensures walk == InsertInOrder(old(walk), x.entry)
      ensures nodes == old(nodes) + if inserted then {x} else {}
    {
      FindsIffInWalk(shape, x.entry.key);
      var found, parent := Descend(x.entry.key);
      if found {
        InsertPresent(walk, x.entry);
        return false;
      }
      GraftInsertsInOrder(shape, x);
      InsertAscends(walk, x.entry);
      Link(x, parent);
      walk := InsertInOrder(walk, x.entry);
      Rebalance();
      inserted := true;
    }

    /** The search of the exercise module: the number itself if found, else -1. */
    method Lookup(number: int) returns (result: int)
      requires Valid()
      ensures result == if HasKey(walk, number) then number else -1
    {
      FindsIffInWalk(shape, number);
      var found, _ := Descend(number);
      result := if found then number else -1;
    }

    /** Stands for the kernel's rb_insert_color. Callers know only that it keeps the nodes and
        their in-order walk; doing nothing is one way to meet that. */
    method Rebalance()
      requires Valid()
      modifies this, nodes
      ensures Valid() && walk == old(walk) && nodes == old(nodes)
    {
    }

    /** The rb_first / rb_next walk. */
    method Entries() returns (entries: seq<Entry>)
      requires Valid()
      ensures entries == walk
    {
      entries := Collect(root, shape, nodes);
    }

    static method Collect(n: Node?, ghost t: Shape, ghost nodes: set<Node>) returns (entries: seq<Entry>)
      requires Linked(n, t) && Nodes(t) <= nodes
      ensures entries == Walk(t)
      decreases t
    {
      if n == null {
        entries := [];
      } else {
        var before := Collect(n.left, t.left, nodes);
        var after := Collect(n.right, t.right, nodes);
        entries := before + [n.entry] + after;
      }
    }

    /** Stands for the kernel's rb_erase of the k-th node. Callers know only what becomes of
        the walk; this way to meet that relinks copies of the other nodes as a chain. */
    method Erase(k: nat)
      requires Valid() && k < |walk|
      modifies this
      ensures Valid() && walk == EraseAt(old(walk), k)
      ensures fresh(nodes)
    {
      var entries := Entries();
      ErasedAscends(entries, k);
      walk := EraseAt(entries, k);
      root, shape, nodes := Chain(EraseAt(entries, k));
    }

    static method Chain(entries: seq<Entry>) returns (top: Node?, ghost t: Shape, ghost copies: set<Node>)
      ensures copies == Nodes(t) && fresh(copies) && Linked(top, t) && Walk(t) == entries
    {
      if entries == [] {
        top, t, copies := null, Empty, {};
      } else {
        var rest, t', copies' := Chain(entries[1..]);
        top := new Node.Above(entries[0], rest);
        t, copies := Fork(Empty, top, t'), copies' + {top};
      }
    }
  }
}
