/** cJSON items in memory: doubly linked lists of siblings, the allocator, and freeing a tree. */
module CJsonHeap {
  import opened CJsonText
  import opened CJsonRoundTrip

  datatype Kind = FalseKind | TrueKind | NullKind | NumberKind | StringKind | ArrayKind | ObjectKind

  /** What malloc has handed out and not got back. Allocation succeeds. */
  class Heap {
    ghost var live: set<object>

    ghost predicate Valid()
      reads this
    {
      this !in live
    }

    method NewItem() returns (c: Item)
      requires Valid()
      modifies this
      ensures Valid() && fresh(c) && live == old(live) + {c} && c.Blank()
    {
      c := new Item();
      live := live + {c};
    }

    method NewText(n: nat) returns (a: array<char>)
      requires Valid()
      modifies this
      ensures Valid() && fresh(a) && a.Length == n && live == old(live) + {a}
    {
      a := new char[n];
      live := live + {a};
    }

    /** An array of pointers, cleared. */
    method NewTable(n: nat) returns (t: array<array?<char>>)
      requires Valid()
      modifies this
      ensures Valid() && fresh(t) && t.Length == n && live == old(live) + {t}
      ensures forall i :: 0 <= i < n ==> t[i] == null
    {
      t := new array?<char>[n](i => null);
      live := live + {t};
    }

    /** Only memory that is still in use may be freed. */
    method Free(o: object)
      requires Valid() && o in live
      modifies this
      ensures Valid() && live == old(live) - {o}
    {
      live := live - {o};
    }
  }

  class Item {
    var next: Item?
    var prev: Item?
    var child: Item?
    var kind: Kind
    var mantissa: int
    var exponent: int
    var valuestring: array?<char>
    var name: array?<char>

    /** cJSON_New_Item clears the new item. */
    constructor ()
      ensures Blank()
    {
      next, prev, child, kind := null, null, null, FalseKind;
      mantissa, exponent, valuestring, name := 0, 0, null, null;
    }

    ghost predicate Blank()
      reads this
    {
      && next == null && prev == null && child == null && kind == FalseKind
      && mantissa == 0 && exponent == 0 && valuestring == null && name == null
    }
  }

  /** An item and what hangs below it, as a value: the shape the fields of the items must have. */
  datatype Node = Node(
    item: Item, kind: Kind, mantissa: int, exponent: int,
    text: array?<char>, str: string, name: array?<char>, key: string, kids: seq<Node>)

  ghost function Some(a: array?<char>): set<object> {
    if a == null then {} else {a}
  }

  /** Strings have a text and members a name. */
  ghost predicate Complete(n: Node)
    decreases n
  {
    && (n.kind == StringKind ==> n.text != null)
    && (n.kind == ObjectKind ==> forall i :: 0 <= i < |n.kids| ==> n.kids[i].name != null)
    && forall i :: 0 <= i < |n.kids| ==> Complete(n.kids[i])
  }

  /** Every object a tree is made of. */
  ghost function Objects(n: Node): set<object> {
    {n.item} + Some(n.text) + Some(n.name) + Union(n.kids)
  }

  ghost function Union(ns: seq<Node>): set<object> {
    set i, o | 0 <= i < |ns| && o in Objects(ns[i]) :: o
  }

  lemma RootInside(n: Node)
    ensures n.item in Objects(n)
  {
  }

  lemma KidInside(ns: seq<Node>, i: nat)
    requires i < |ns|
    ensures Objects(ns[i]) <= Union(ns)
  {
    hide Objects;
  }

  lemma ItemsInUnion(ns: seq<Node>)
    ensures forall c :: c in Items(ns) ==> c in Union(ns)
    ensures forall i :: 0 <= i < |ns| ==> ns[i].item in Union(ns) && Objects(ns[i]) <= Union(ns)
  {
    hide Objects, Union;
    forall i | 0 <= i < |ns| ensures ns[i].item in Objects(ns[i]) && Objects(ns[i]) <= Union(ns) {
      RootInside(ns[i]);
      KidInside(ns, i);
    }
  }

  lemma UnionAppend(ns: seq<Node>, ms: seq<Node>)
    ensures Union(ns + ms) == Union(ns) + Union(ms)
  {
    var all := ns + ms;
    forall o | o in Union(ns) + Union(ms) ensures o in Union(all) {
      if o in Union(ns) {
        var i :| 0 <= i < |ns| && o in Objects(ns[i]);
        assert all[i] == ns[i];
      } else {
        var i :| 0 <= i < |ms| && o in Objects(ms[i]);
        assert all[|ns| + i] == ms[i];
      }
    }
  }

  lemma UnionOne(n: Node)
    ensures Union([n]) == Objects(n)
  {
    assert [n][0] == n;
  }

  /** No object is used twice. */
  ghost predicate Apart(n: Node) {
    && n.item !in Some(n.text) + Some(n.name) + Union(n.kids)
    && Some(n.text) !! Some(n.name) && Some(n.text) + Some(n.name) !! Union(n.kids)
    && AllApart(n.kids)
  }

  ghost predicate AllApart(ns: seq<Node>) {
    && (forall i :: 0 <= i < |ns| ==> Apart(ns[i]))
    && (forall i, j :: 0 <= i < j < |ns| ==> Objects(ns[i]) !! Objects(ns[j]))
  }

  ghost function First(ns: seq<Node>): Item? {
    ItemAt(ns, 0)
  }

  ghost function Items(ns: seq<Node>): set<Item> {
    set i | 0 <= i < |ns| :: ns[i].item
  }

  ghost function ItemAt(ns: seq<Node>, i: int): Item? {
    if 0 <= i < |ns| then ns[i].item else null
  }

  ghost predicate LinkedAt(ns: seq<Node>, i: nat)
    requires i < |ns|
    reads ns[i].item`next, ns[i].item`prev
  {
    ns[i].item.next == ItemAt(ns, i + 1) && ns[i].item.prev == ItemAt(ns, i - 1)
  }

  /** The items of a list point at each other, forwards and backwards, and at nothing else. */
  ghost predicate Linked(ns: seq<Node>)
    reads Items(ns)`next, Items(ns)`prev
  {
    forall i :: 0 <= i < |ns| ==> LinkedAt(ns, i)
  }

  /** A C string in an allocated buffer. */
  ghost predicate Spells(a: array?<char>, s: string)
    reads a
  {
    a != null ==> NulFree(s) && |s| < a.Length && a[..|s|] == s && a[|s|] == '\0'
  }

  /** The memory has this shape. An item's own links belong to the list it is in. */
  ghost predicate Holds(n: Node)
    reads n.item`kind, n.item`mantissa, n.item`exponent, n.item`valuestring, n.item`name, n.item`child
    reads Objects(n) - {n.item}
    decreases n, 1
  {
    && n.item.kind == n.kind && n.item.mantissa == n.mantissa && n.item.exponent == n.exponent
    && n.item.valuestring == n.text && Spells(n.text, n.str)
    && n.item.name == n.name && Spells(n.name, n.key)
    && n.item.child == First(n.kids)
    && n.item !in Union(n.kids) && n.item !in Some(n.text) + Some(n.name)
    && HoldsAll(n.kids)
  }

  ghost predicate HoldsAll(ns: seq<Node>)
    reads Union(ns)
    decreases ns, 0
  {
    ItemsInUnion(ns);
    Linked(ns) && forall i :: 0 <= i < |ns| ==> Holds(ns[i])
  }

  /** The value a tree stands for. */
  ghost function Value(n: Node): Json {
    match n.kind
    case NullKind => Null
    case FalseKind => False
    case TrueKind => True
    case NumberKind => Number(n.mantissa, n.exponent)
    case StringKind => Str(n.str)
    case ArrayKind => Arr(seq(|n.kids|, i requires 0 <= i < |n.kids| => Value(n.kids[i])))
    case ObjectKind => Obj(seq(|n.kids|, i requires 0 <= i < |n.kids| => Member(n.kids[i].key, Value(n.kids[i]))))
  }

  ghost function Values(ks: seq<Node>): seq<Json> {
    seq(|ks|, i requires 0 <= i < |ks| => Value(ks[i]))
  }

  ghost function MemberOf(k: Node): Member {
    Member(k.key, Value(k))
  }

  ghost function MembersOf(ks: seq<Node>): seq<Member> {
    seq(|ks|, i requires 0 <= i < |ks| => Member(ks[i].key, Value(ks[i])))
  }

  lemma ArrayValue(n: Node)
    requires n.kind == ArrayKind
    ensures Value(n) == Arr(Values(n.kids))
  {
    assert Value(n).items == Values(n.kids);
  }

  lemma ObjectValue(n: Node)
    requires n.kind == ObjectKind
    ensures Value(n) == Obj(MembersOf(n.kids))
  {
    assert Value(n).members == MembersOf(n.kids);
  }

  /** cJSON_Delete: a list of siblings and everything below them goes back to the allocator, each object
      once, and no object is looked at after it was freed. */
  method Delete(heap: Heap, c0: Item?, ghost ns: seq<Node>)
    requires heap.Valid() && c0 == First(ns) && AllApart(ns) && HoldsAll(ns) && Union(ns) <= heap.live
    modifies heap
    ensures heap.Valid() && heap.live == old(heap.live) - Union(ns)
    decreases ns
  {
    hide Objects, Union, Apart, AllApart, Holds, HoldsAll, Linked;
    var c := c0;
    ghost var i := 0;
    UnionNone(ns);
    while c != null
      invariant 0 <= i <= |ns| && c == ItemAt(ns, i)
      invariant heap.Valid() && heap !in Union(ns) && HoldsAll(ns) && heap.live == old(heap.live) - Union(ns[..i])
      decreases |ns| - i
    {
      ghost var n := ns[i];
      UnionStep(ns, i);
      HoldsAt(ns, i);
      assert c in heap.live;
      var next := c.next;
      DeleteItem(heap, c, n);
      c, i := next, i + 1;
    }
    assert ns[..|ns|] == ns;
  }

  lemma UnionNone(ns: seq<Node>)
    ensures Union(ns[..0]) == {}
  {
  }

  lemma HoldsAt(ns: seq<Node>, i: nat)
    requires HoldsAll(ns) && i < |ns|
    ensures Holds(ns[i]) && ns[i].item.next == ItemAt(ns, i + 1) && ns[i].item.prev == ItemAt(ns, i - 1)
  {
    hide Holds;
    assert LinkedAt(ns, i);
  }

  /** The objects of the next tree, apart from those before it. */
  lemma UnionStep(ns: seq<Node>, i: nat)
    requires AllApart(ns) && i < |ns|
    ensures Apart(ns[i]) && ns[i].item in Objects(ns[i])
    ensures Objects(ns[i]) <= Union(ns) && Objects(ns[i]) !! Union(ns[..i])
    ensures Union(ns[..i + 1]) == Union(ns[..i]) + Objects(ns[i])
  {
    hide Apart, Objects;
    InOwn(ns[i]);
    InUnion(ns, i);
    forall o | o in Union(ns[..i]) ensures o !in Objects(ns[i]) {
      var j :| 0 <= j < i && o in Objects(ns[..i][j]);
      assert Objects(ns[j]) !! Objects(ns[i]);
    }
    assert ns[..i + 1] == ns[..i] + [ns[i]];
    UnionAppend(ns[..i], [ns[i]]);
    UnionOne(ns[i]);
  }

  lemma InUnion(ns: seq<Node>, i: nat)
    requires i < |ns|
    ensures Objects(ns[i]) <= Union(ns)
  {
    hide Objects;
  }

  lemma InOwn(n: Node)
    ensures n.item in Objects(n)
  {
  }

  /** One round of the loop. */
  method DeleteItem(heap: Heap, c: Item, ghost n: Node)
    requires heap.Valid() && c == n.item && Apart(n) && Holds(n) && Objects(n) <= heap.live
    modifies heap
    ensures heap.Valid() && heap.live == old(heap.live) - Objects(n)
    decreases n
  {
    if c.child != null {
      Delete(heap, c.child, n.kids);
    }
    if c.valuestring != null {
      heap.Free(c.valuestring);
    }
    if c.name != null {
      heap.Free(c.name);
    }
    heap.Free(c);
  }
}
