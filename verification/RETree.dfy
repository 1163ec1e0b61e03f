/** The pointer-based search tree (Libraries/RECore/RETree.h). */
module SearchTree {
  import opened Symbols

  class Node<T> {
    const key: u32
    const value: T
    var pLeft: Node?<T>
    var pRight: Node?<T>

    constructor (key: u32, value: T)
      ensures this.key == key && this.value == value && pLeft == null && pRight == null
    {
      this.key, this.value, this.pLeft, this.pRight := key, value, null, null;
    }
  }

  /** Which nodes hang where: the tree that the pointers are to form. */
  datatype Shape<T> = Nil | Branch(node: Node<T>, left: Shape<T>, right: Shape<T>)

  function Root<T>(s: Shape<T>): Node?<T> {
    if s.Nil? then null else s.node
  }

  ghost function Nodes<T>(s: Shape<T>): set<Node<T>> {
    if s.Nil? then {} else {s.node} + Nodes(s.left) + Nodes(s.right)
  }

  /** No node hangs in two places. */
  ghost predicate Distinct<T>(s: Shape<T>) {
    s.Branch? ==>
      && s.node !in Nodes(s.left) && s.node !in Nodes(s.right) && Nodes(s.left) !! Nodes(s.right)
      && Distinct(s.left) && Distinct(s.right)
  }

  ghost function LeftOf<T>(s: Shape<T>): (m: map<Node<T>, Node?<T>>)
    ensures m.Keys == Nodes(s)
  {
    if s.Nil? then map[] else LeftOf(s.left) + LeftOf(s.right) + map[s.node := Root(s.left)]
  }

  ghost function RightOf<T>(s: Shape<T>): (m: map<Node<T>, Node?<T>>)
    ensures m.Keys == Nodes(s)
  {
    if s.Nil? then map[] else RightOf(s.left) + RightOf(s.right) + map[s.node := Root(s.right)]
  }

  /** The child pointers in the heap are those of the shape. */
  ghost predicate Linked<T>(s: Shape<T>)
    reads Nodes(s)
  {
    && Distinct(s)
    && forall n :: n in Nodes(s) ==> n.pLeft == LeftOf(s)[n] && n.pRight == RightOf(s)[n]
  }

  /** head, and the nodes, are those of an ordered tree of the given shape. */
  ghost predicate IsTree<T>(head: Node?<T>, s: Shape<T>, nodes: set<Node<T>>)
    reads nodes
  {
    nodes == Nodes(s) && head == Root(s) && Linked(s) && Ordered(s)
  }

  lemma LinkedBelow<T>(s: Shape<T>)
    requires s.Branch? && Linked(s)
    ensures Linked(s.left) && Linked(s.right)
    ensures s.node.pLeft == Root(s.left) && s.node.pRight == Root(s.right)
  {}

  /** Smaller keys to the left, larger to the right, everywhere. */
  ghost predicate Ordered<T>(s: Shape<T>) {
    s.Branch? ==>
      && (forall n :: n in Nodes(s.left) ==> n.key < s.node.key)
      && (forall n :: n in Nodes(s.right) ==> n.key > s.node.key)
      && Ordered(s.left) && Ordered(s.right)
  }

  /** The map that the tree stands for. */
  ghost function Contents<T>(s: Shape<T>): map<u32, T> {
    if s.Nil? then map[]
    else Contents(s.left) + Contents(s.right) + map[s.node.key := s.node.value]
  }

  /** The shape once `leaf` is hung where a search for its key ends. */
  ghost function Inserted<T>(s: Shape<T>, leaf: Node<T>): Shape<T> {
    if s.Nil? then Branch(leaf, Nil, Nil)
    else if leaf.key > s.node.key then s.(right := Inserted(s.right, leaf))
    else if leaf.key < s.node.key then s.(left := Inserted(s.left, leaf))
    else s
  }

  // ---------------------------------------------------------------- searching

  /** Where a search for the key ends: at the node with it, or at the one to hang it under. */
  ghost function EndOfSearch<T>(s: Shape<T>, key: u32): Node<T>
    requires s.Branch?
  {
    if key > s.node.key && s.right.Branch? then EndOfSearch(s.right, key)
    else if key < s.node.key && s.left.Branch? then EndOfSearch(s.left, key)
    else s.node
  }

  method FindEntry<T>(n: Node<T>, key: u32, ghost s: Shape<T>) returns (entry: Node?<T>)
    requires s.Branch? && s.node == n && Linked(s)
    ensures entry == if EndOfSearch(s, key).key == key then EndOfSearch(s, key) else null
    decreases s
  {
    LinkedBelow(s);
    if key > n.key {
      if n.pRight != null {
        entry := FindEntry(n.pRight, key, s.right);
        return;
      }
      return null;
    } else if key < n.key {
      if n.pLeft != null {
        entry := FindEntry(n.pLeft, key, s.left);
        return;
      }
      return null;
    }
    return n;
  }

  method FindPlacement<T>(n: Node<T>, key: u32, ghost s: Shape<T>) returns (place: Node?<T>)
    requires s.Branch? && s.node == n && Linked(s)
    ensures place == if EndOfSearch(s, key).key == key then null else EndOfSearch(s, key)
    decreases s
  {
    LinkedBelow(s);
    if key > n.key {
      if n.pRight != null {
        place := FindPlacement(n.pRight, key, s.right);
        return;
      }
      return n;
    } else if key < n.key {
      if n.pLeft != null {
        place := FindPlacement(n.pLeft, key, s.left);
        return;
      }
      return n;
    }
    return null;
  }

  /** The search ends at a node with the key if the tree has one, and never leaves the tree. */
  lemma {:induction false} EndOfSearchIsRight<T>(s: Shape<T>, key: u32)
    requires s.Branch? && Ordered(s)
    ensures EndOfSearch(s, key) in Nodes(s)
    ensures forall n :: n in Nodes(s) && n.key == key ==> EndOfSearch(s, key) == n
  {
    if key > s.node.key && s.right.Branch? {
      EndOfSearchIsRight(s.right, key);
    } else if key < s.node.key && s.left.Branch? {
      EndOfSearchIsRight(s.left, key);
    }
  }

  // ---------------------------------------------------------------- what hanging a leaf does

  lemma {:induction false} InsertedNodes<T>(s: Shape<T>, leaf: Node<T>)
    requires Ordered(s) && forall n :: n in Nodes(s) ==> n.key != leaf.key
    ensures Nodes(Inserted(s, leaf)) == Nodes(s) + {leaf}
    ensures Ordered(Inserted(s, leaf))
  {
    if s.Branch? {
      if leaf.key > s.node.key {
        InsertedNodes(s.right, leaf);
      } else {
        InsertedNodes(s.left, leaf);
      }
    }
  }

  lemma {:induction false} ContentsKeys<T>(s: Shape<T>)
    requires Ordered(s)
    ensures forall n :: n in Nodes(s) ==> n.key in Contents(s) && Contents(s)[n.key] == n.value
    ensures forall k :: k in Contents(s) ==> exists n :: n in Nodes(s) && n.key == k
  {
    if s.Branch? {
      ContentsKeys(s.left);
      ContentsKeys(s.right);
      forall k | k in Contents(s)
        ensures exists n :: n in Nodes(s) && n.key == k
      {
        if k != s.node.key {
          if k in Contents(s.right) {
            var n :| n in Nodes(s.right) && n.key == k;
            assert n in Nodes(s);
          } else {
            var n :| n in Nodes(s.left) && n.key == k;
            assert n in Nodes(s);
          }
        }
      }
    }
  }

  lemma UpdateRight<T>(left: map<u32, T>, right: map<u32, T>, top: map<u32, T>, k: u32, v: T)
    requires k !in top
    ensures left + right[k := v] + top == (left + right + top)[k := v]
  {}

  lemma UpdateLeft<T>(left: map<u32, T>, right: map<u32, T>, top: map<u32, T>, k: u32, v: T)
    requires k !in top && k !in right
    ensures left[k := v] + right + top == (left + right + top)[k := v]
  {}

  /** Hanging a leaf with a new key adds just that key to the map. */
  lemma {:induction false} InsertedContents<T>(s: Shape<T>, leaf: Node<T>)
    requires Ordered(s) && forall n :: n in Nodes(s) ==> n.key != leaf.key
    ensures Contents(Inserted(s, leaf)) == Contents(s)[leaf.key := leaf.value]
  {
    if s.Branch? {
      var top := map[s.node.key := s.node.value];
      if leaf.key > s.node.key {
        InsertedContents(s.right, leaf);
        UpdateRight(Contents(s.left), Contents(s.right), top, leaf.key, leaf.value);
      } else {
        assert leaf.key != s.node.key;
        InsertedContents(s.left, leaf);
        ContentsKeys(s.right);
        UpdateLeft(Contents(s.left), Contents(s.right), top, leaf.key, leaf.value);
      }
    }
  }

  type Links<!T> = map<Node<T>, Node?<T>>

  /** links with the new leaf in it, hanging at place if `here`. */
  ghost function Hung<T>(links: Links<T>, place: Node<T>, leaf: Node<T>, here: bool): Links<T> {
    (if here then links[place := leaf] else links)[leaf := null]
  }

  lemma HungRight<T>(left: Links<T>, right: Links<T>, top: Links<T>, place: Node<T>, leaf: Node<T>, here: bool)
    requires place !in top && leaf !in top
    ensures left + Hung(right, place, leaf, here) + top == Hung(left + right + top, place, leaf, here)
  {}

  lemma HungLeft<T>(left: Links<T>, right: Links<T>, top: Links<T>, place: Node<T>, leaf: Node<T>, here: bool)
    requires place !in top && leaf !in top && place !in right && leaf !in right
    ensures Hung(left, place, leaf, here) + right + top == Hung(left + right + top, place, leaf, here)
  {}

  lemma HungTopRight<T>(left: Links<T>, node: Node<T>, to: Node?<T>, leaf: Node<T>, here: bool)
    requires node != leaf && leaf !in left
    ensures left + map[leaf := null] + map[node := if here then leaf else to]
         == Hung(left + map[] + map[node := to], node, leaf, here)
  {}

  lemma HungTopLeft<T>(right: Links<T>, node: Node<T>, to: Node?<T>, leaf: Node<T>, here: bool)
    requires node != leaf && leaf !in right
    ensures map[leaf := null] + right + map[node := if here then leaf else to]
         == Hung(map[] + right + map[node := to], node, leaf, here)
  {}

  lemma {:induction false} InsertedDistinct<T>(s: Shape<T>, leaf: Node<T>)
    requires Ordered(s) && Distinct(s)
    requires leaf !in Nodes(s) && forall n :: n in Nodes(s) ==> n.key != leaf.key
    ensures Distinct(Inserted(s, leaf))
  {
    if s.Branch? {
      if leaf.key > s.node.key {
        InsertedNodes(s.right, leaf);
        InsertedDistinct(s.right, leaf);
      } else {
        InsertedNodes(s.left, leaf);
        InsertedDistinct(s.left, leaf);
      }
    }
  }

  ghost predicate LinksInserted<T>(s: Shape<T>, leaf: Node<T>)
    requires s.Branch?
  {
    var place := EndOfSearch(s, leaf.key);
    && LeftOf(Inserted(s, leaf)) == Hung(LeftOf(s), place, leaf, leaf.key < place.key)
    && RightOf(Inserted(s, leaf)) == Hung(RightOf(s), place, leaf, leaf.key > place.key)
  }

  lemma InsertedOnTheRight<T>(s: Shape<T>, leaf: Node<T>)
    requires s.Branch? && Ordered(s) && Distinct(s)
    requires leaf !in Nodes(s) && leaf.key > s.node.key
    requires s.right.Branch? ==> LinksInserted(s.right, leaf)
    ensures LinksInserted(s, leaf)
  {
    var place := EndOfSearch(s, leaf.key);
    var goesLeft, goesRight := leaf.key < place.key, leaf.key > place.key;
    var l, r, n := s.left, s.right, s.node;
    if r.Branch? {
      EndOfSearchIsRight(r, leaf.key);
      assert Root(Inserted(r, leaf)) == Root(r);
      HungRight(LeftOf(l), LeftOf(r), map[n := Root(l)], place, leaf, goesLeft);
      HungRight(RightOf(l), RightOf(r), map[n := Root(r)], place, leaf, goesRight);
    } else {
      LeafLinks(leaf);
      HungTopRight(LeftOf(l), n, Root(l), leaf, false);
      HungTopRight(RightOf(l), n, null, leaf, true);
    }
  }

  lemma InsertedOnTheLeft<T>(s: Shape<T>, leaf: Node<T>)
    requires s.Branch? && Ordered(s) && Distinct(s)
    requires leaf !in Nodes(s) && leaf.key < s.node.key
    requires s.left.Branch? ==> LinksInserted(s.left, leaf)
    ensures LinksInserted(s, leaf)
  {
    var place := EndOfSearch(s, leaf.key);
    var goesLeft, goesRight := leaf.key < place.key, leaf.key > place.key;
    var l, r, n := s.left, s.right, s.node;
    if l.Branch? {
      EndOfSearchIsRight(l, leaf.key);
      assert Root(Inserted(l, leaf)) == Root(l);
      HungLeft(LeftOf(l), LeftOf(r), map[n := Root(l)], place, leaf, goesLeft);
      HungLeft(RightOf(l), RightOf(r), map[n := Root(r)], place, leaf, goesRight);
    } else {
      LeafLinks(leaf);
      HungTopLeft(LeftOf(r), n, null, leaf, true);
      HungTopLeft(RightOf(r), n, Root(r), leaf, false);
    }
  }

  /** One link changes, that of the node where the search ended, which may be anywhere inside
      the tree, and the links then form the new shape. */
  lemma {:induction false} InsertedLinks<T>(s: Shape<T>, leaf: Node<T>)
    requires s.Branch? && Ordered(s) && Distinct(s)
    requires leaf !in Nodes(s) && forall n :: n in Nodes(s) ==> n.key != leaf.key
    ensures LinksInserted(s, leaf)
  {
    assert leaf.key != s.node.key;
    if leaf.key > s.node.key {
      if s.right.Branch? {
        InsertedLinks(s.right, leaf);
      }
      InsertedOnTheRight(s, leaf);
    } else {
      if s.left.Branch? {
        InsertedLinks(s.left, leaf);
      }
      InsertedOnTheLeft(s, leaf);
    }
  }

  lemma LeafLinks<T>(leaf: Node<T>)
    ensures LeftOf(Inserted(Nil, leaf)) == map[leaf := null]
    ensures RightOf(Inserted(Nil, leaf)) == map[leaf := null]
  {
    assert LeftOf<T>(Nil) + LeftOf(Nil) + map[leaf := Root(Nil)] == map[leaf := null];
  }

  /** The heap holds the shape, but for the one pointer, and the leaf. */
  ghost predicate PointerSet<T>(s: Shape<T>, leaf: Node<T>)
    requires s.Branch?
    reads Nodes(s), leaf
  {
    var place := EndOfSearch(s, leaf.key);
    && leaf.pLeft == null && leaf.pRight == null
    && forall n :: n in Nodes(s) ==>
         && n.pLeft == (if n == place && leaf.key < place.key then leaf else LeftOf(s)[n])
         && n.pRight == (if n == place && leaf.key > place.key then leaf else RightOf(s)[n])
  }

  /** Once that one pointer has been set, the heap holds the new shape. */
  lemma HungInHeap<T>(s: Shape<T>, leaf: Node<T>)
    requires s.Branch? && Ordered(s) && Distinct(s)
    requires leaf !in Nodes(s) && forall n :: n in Nodes(s) ==> n.key != leaf.key
    requires PointerSet(s, leaf)
    ensures IsTree(Root(s), Inserted(s, leaf), Nodes(s) + {leaf})
  {
    var place, after := EndOfSearch(s, leaf.key), Inserted(s, leaf);
    InsertedNodes(s, leaf);
    InsertedDistinct(s, leaf);
    InsertedLinks(s, leaf);
    forall n | n in Nodes(after)
      ensures n.pLeft == LeftOf(after)[n] && n.pRight == RightOf(after)[n]
    {
      HungAt(LeftOf(s), place, leaf, leaf.key < place.key, n);
      HungAt(RightOf(s), place, leaf, leaf.key > place.key, n);
    }
  }

  lemma HungAt<T>(links: Links<T>, place: Node<T>, leaf: Node<T>, here: bool, n: Node<T>)
    requires n == leaf || n in links
    ensures Hung(links, place, leaf, here)[n]
         == if n == leaf then null else if n == place && here then leaf else links[n]
  {}

  lemma AfterHanging<T>(head: Node<T>, s: Shape<T>, nodes: set<Node<T>>, leaf: Node<T>)
    requires s.Branch? && s.node == head && nodes == Nodes(s) && Ordered(s) && Distinct(s)
    requires leaf !in nodes && EndOfSearch(s, leaf.key).key != leaf.key
    requires PointerSet(s, leaf)
    ensures IsTree(head, Inserted(s, leaf), nodes + {leaf})
    ensures Contents(Inserted(s, leaf)) == Contents(s)[leaf.key := leaf.value]
  {
    EndOfSearchIsRight(s, leaf.key);
    HungInHeap(s, leaf);
    InsertedContents(s, leaf);
  }

  // ---------------------------------------------------------------- runs of inserts

  function AfterInsert<T>(m: map<u32, T>, key: u32, value: T): map<u32, T> {
    if key in m then m else m[key := value]
  }

  function AfterInserts<T>(m: map<u32, T>, entries: seq<(u32, T)>): map<u32, T> {
    if entries == [] then m
    else AfterInsert(AfterInserts(m, entries[..|entries| - 1]), entries[|entries| - 1].0, entries[|entries| - 1].1)
  }

  /** Entry i is the first with its key. */
  predicate IsFirst<T>(entries: seq<(u32, T)>, i: nat) {
    i < |entries| && forall j :: 0 <= j < i ==> entries[j].0 != entries[i].0
  }

  predicate HasKey<T>(entries: seq<(u32, T)>, key: u32) {
    exists i :: 0 <= i < |entries| && entries[i].0 == key
  }

  /** After any run of inserts the keys are those there were and those inserted, each with the value
      it had or else its first. */
  lemma {:induction false} FirstInsertWins<T>(m: map<u32, T>, entries: seq<(u32, T)>, key: u32)
    ensures key in AfterInserts(m, entries) <==> key in m || HasKey(entries, key)
    ensures key in m ==> AfterInserts(m, entries)[key] == m[key]
    ensures forall i: nat :: IsFirst(entries, i) && entries[i].0 == key && key !in m
              ==> AfterInserts(m, entries)[key] == entries[i].1
  {
    if entries != [] {
      var shorter := entries[..|entries| - 1];
      FirstInsertWins(m, shorter, key);
      if HasKey(entries, key) && entries[|entries| - 1].0 != key {
        var i :| 0 <= i < |entries| && entries[i].0 == key;
        assert shorter[i].0 == key;
      }
      forall i: nat | IsFirst(entries, i) && i < |shorter|
        ensures IsFirst(shorter, i)
      {}
    }
  }

  // ---------------------------------------------------------------- the tree

  class RETree<T> {
    var pHead: Node?<T>
    ghost var shape: Shape<T>
    ghost var nodes: set<Node<T>>

    ghost predicate Valid()
      reads this, nodes
    {
      IsTree(pHead, shape, nodes)
    }

    /** The map that the tree implements. */
    ghost function Entries(): map<u32, T>
      reads this
    {
      Contents(shape)
    }

    constructor ()
      ensures Valid() && Entries() == map[] && nodes == {}
    {
      pHead := null;
      shape := Nil;
      nodes := {};
    }

    /** operator[]. */
    method Get(key: u32) returns (value: Option<T>)
      requires Valid()
      ensures value == if key in Entries() then Some(Entries()[key]) else None
    {
      if pHead == null {
        return None;
      }
      GetIsRight(key);
      var entry := FindEntry(pHead, key, shape);
      if entry == null {
        return None;
      }
      return Some(entry.value);
    }

    lemma GetIsRight(key: u32)
      requires Valid() && shape.Branch?
      ensures var n := EndOfSearch(shape, key);
              if n.key == key then key in Entries() && Entries()[key] == n.value else key !in Entries()
    {
      EndOfSearchIsRight(shape, key);
      ContentsKeys(shape);
    }

    /** The first value inserted for a key stays; a repeated key changes nothing. */
    method Insert(key: u32, value: T)
      requires Valid()
      modifies this, nodes
      ensures Valid()
      ensures Entries() == AfterInsert(old(Entries()), key, value)
      ensures fresh(nodes - old(nodes))
    {
      if pHead == null {
        pHead := new Node(key, value);
        shape := Branch(pHead, Nil, Nil);
        nodes := {pHead};
        return;
      }
      GetIsRight(key);
      var pEntry := FindPlacement(pHead, key, shape);
      if pEntry == null {
        return;
      }
      EndOfSearchIsRight(shape, key);
      HangUnder(pEntry, key, value);
    }

    /** A run of inserts. */
    method InsertAll(entries: seq<(u32, T)>)
      requires Valid()
      modifies this, nodes
      ensures Valid() && fresh(nodes - old(nodes))
      ensures Entries() == AfterInserts(old(Entries()), entries)
    {
      for n := 0 to |entries|
        invariant Valid() && fresh(nodes - old(nodes))
        invariant Entries() == AfterInserts(old(Entries()), entries[..n])
      {
        assert entries[..n + 1][..n] == entries[..n];
        Insert(entries[n].0, entries[n].1);
      }
      assert entries[..|entries|] == entries;
    }

    /** After one, operator[] finds exactly the keys there were and those inserted, each with the
        value it had or else the first it was inserted with. */
    method GetAfterInserts(ghost before: map<u32, T>, ghost entries: seq<(u32, T)>, key: u32)
        returns (value: Option<T>)
      requires Valid() && Entries() == AfterInserts(before, entries)
      ensures value.Some? <==> key in before || HasKey(entries, key)
      ensures key in before ==> value == Some(before[key])
      ensures forall i: nat :: IsFirst(entries, i) && entries[i].0 == key && key !in before
                ==> value == Some(entries[i].1)
    {
      FirstInsertWins(before, entries, key);
      value := Get(key);
    }

    method SetPointer(pEntry: Node<T>, pNewNode: Node<T>)
      requires shape.Branch? && Linked(shape) && pNewNode !in Nodes(shape)
      requires pNewNode.pLeft == null && pNewNode.pRight == null
      requires pEntry == EndOfSearch(shape, pNewNode.key) && pEntry.key != pNewNode.key && pEntry in Nodes(shape)
      modifies pEntry
      ensures PointerSet(shape, pNewNode)
    {
      if pNewNode.key > pEntry.key {
        pEntry.pRight := pNewNode;
      } else if pNewNode.key < pEntry.key {
        pEntry.pLeft := pNewNode;
      }
    }

    /** The new leaf, hung under the node where the search for its key ended. */
    method NewLeaf(pEntry: Node<T>, key: u32, value: T) returns (pNewNode: Node<T>)
      requires shape.Branch? && Linked(shape) && nodes == Nodes(shape) && pEntry in nodes
      requires pEntry == EndOfSearch(shape, key) && pEntry.key != key
      modifies pEntry
      ensures fresh(pNewNode) && pNewNode.key == key && pNewNode.value == value
      ensures pNewNode !in Nodes(shape) && PointerSet(shape, pNewNode)
    {
      pNewNode := new Node(key, value);
      assert pNewNode !in nodes;
      SetPointer(pEntry, pNewNode);
    }

    method HangUnder(pEntry: Node<T>, key: u32, value: T)
      requires Valid() && shape.Branch?
      requires pEntry == EndOfSearch(shape, key) && pEntry.key != key
      modifies this, pEntry
      ensures Valid()
      ensures Entries() == old(Entries())[key := value]
      ensures fresh(nodes - old(nodes))
    {
      EndOfSearchIsRight(shape, key);
      ghost var before := shape;
      var pNewNode := NewLeaf(pEntry, key, value);
      shape := Inserted(before, pNewNode);
      nodes := nodes + {pNewNode};
      AfterHanging(pHead, before, old(nodes), pNewNode);
    }
  }
}
