/** The operations on the list of an array's items refine the operations on a sequence. */
module CJsonLists {
  import opened CJsonText
  import opened CJsonHeap

  ghost function Opt(c: Item?): set<Item> {
    if c == null then {} else {c}
  }

  /** The position an index means: negative ones mean the front. */
  function Position(which: int): nat {
    if which < 0 then 0 else which
  }

  lemma HoldsBelow(a: Node)
    requires Holds(a)
    ensures HoldsAll(a.kids) && a.item.child == First(a.kids)
  {
  }

  /** cJSON_GetArraySize. */
  method GetArraySize(arr: Item, ghost a: Node) returns (i: int)
    requires arr == a.item && Holds(a)
    ensures i == |a.kids|
  {
    hide Holds, HoldsAll, Objects, Union;
    HoldsBelow(a);
    var c := arr.child;
    i := 0;
    while c != null
      invariant HoldsAll(a.kids)
      invariant 0 <= i <= |a.kids| && c == ItemAt(a.kids, i)
      decreases |a.kids| - i
    {
      HoldsAt(a.kids, i);
      i, c := i + 1, c.next;
    }
  }

  /** cJSON_GetArrayItem. */
  method GetArrayItem(ghost heap: Heap, arr: Item, item: int, ghost a: Node) returns (c: Item?)
    requires arr == a.item && Holds(a) && Objects(a) <= heap.live
    ensures c == ItemAt(a.kids, Position(item))
  {
    hide Holds, HoldsAll, Objects, Union;
    HoldsBelow(a);
    c := arr.child;
    var which := item;
    ghost var i := 0;
    while c != null && which > 0
      invariant HoldsAll(a.kids)
      invariant 0 <= i <= |a.kids| && c == ItemAt(a.kids, i)
      invariant i + Position(which) == Position(item)
      decreases |a.kids| - i
    {
      HoldsAt(a.kids, i);
      c, which, i := c.next, which - 1, i + 1;
    }
  }

  // ---------------------------------------------------------------- relinking

  /** The memory of an item itself, without its children. */
  ghost predicate Alone(a: Node)
    reads a.item`kind, a.item`mantissa, a.item`exponent, a.item`valuestring, a.item`name
    reads Some(a.text), Some(a.name)
  {
    && a.item.kind == a.kind && a.item.mantissa == a.mantissa && a.item.exponent == a.exponent
    && a.item.valuestring == a.text && Spells(a.text, a.str)
    && a.item.name == a.name && Spells(a.name, a.key)
    && a.item !in Some(a.text) + Some(a.name)
  }

  lemma AloneKids(a: Node, ks: seq<Node>)
    ensures Alone(a.(kids := ks)) <==> Alone(a)
  {
  }

  lemma HoldsIs(a: Node)
    ensures Holds(a) <==> Alone(a) && a.item.child == First(a.kids) && a.item !in Union(a.kids) && HoldsAll(a.kids)
  {
  }

  lemma ApartParts(a: Node)
    requires Apart(a)
    ensures AllApart(a.kids) && a.item !in Union(a.kids) && Some(a.text) + Some(a.name) !! Union(a.kids)
    ensures Objects(a) == {a.item} + Some(a.text) + Some(a.name) + Union(a.kids)
  {
    hide AllApart, Union;
  }

  /** The trees of a list share no object, and each has its own root. */
  lemma KidsApart(ns: seq<Node>)
    requires AllApart(ns)
    ensures forall i :: 0 <= i < |ns| ==> ns[i].item in Objects(ns[i]) && Objects(ns[i]) <= Union(ns)
    ensures forall i, j :: 0 <= i < |ns| && 0 <= j < |ns| && i != j ==> ns[j].item !in Objects(ns[i])
  {
    hide Objects, Apart, Union;
    forall i | 0 <= i < |ns| ensures ns[i].item in Objects(ns[i]) && Objects(ns[i]) <= Union(ns) {
      InOwn(ns[i]);
      InUnion(ns, i);
    }
  }

  lemma ItemsApart(ns: seq<Node>)
    requires AllApart(ns)
    ensures forall i, j :: 0 <= i < |ns| && 0 <= j < |ns| && i != j ==> ns[i].item != ns[j].item
  {
    hide Objects, Union;
    KidsApart(ns);
  }

  lemma NewKids(a: Node, ks: seq<Node>)
    requires Apart(a) && AllApart(ks) && a.item !in Union(ks) && Some(a.text) + Some(a.name) !! Union(ks)
    ensures Apart(a.(kids := ks))
    ensures Objects(a.(kids := ks)) == {a.item} + Some(a.text) + Some(a.name) + Union(ks)
  {
  }

  lemma AppendApart(a: Node, n: Node)
    requires Apart(a) && Apart(n) && Objects(a) !! Objects(n)
    ensures var b := a.(kids := a.kids + [n]); Apart(b) && Objects(b) == Objects(a) + Objects(n)
  {
    ApartParts(a);
    KidsApart(a.kids);
    UnionAppend(a.kids, [n]);
    UnionOne(n);
    NewKids(a, a.kids + [n]);
  }

  /** Changing the links of this item leaves these trees as they are. */
  ghost predicate Free(c: Item, ns: seq<Node>) {
    forall i :: 0 <= i < |ns| ==> c !in Objects(ns[i]) - {ns[i].item}
  }

  ghost predicate Each(ns: seq<Node>)
    reads Union(ns)
  {
    forall i :: 0 <= i < |ns| ==> HoldsIn(ns, i)
  }

  ghost predicate HoldsIn(ns: seq<Node>, i: nat)
    requires i < |ns|
    reads Union(ns)
  {
    ItemsInUnion(ns);
    Holds(ns[i])
  }

  lemma EachIs(ns: seq<Node>)
    ensures Each(ns) && Linked(ns) <==> HoldsAll(ns)
  {
    hide Holds, Objects;
    if Each(ns) {
      forall i | 0 <= i < |ns| ensures Holds(ns[i]) {
        assert HoldsIn(ns, i);
      }
    }
  }

  lemma EachAppend(ns: seq<Node>, n: Node)
    requires Each(ns) && Holds(n)
    ensures Each(ns + [n])
  {
    hide Holds, Objects;
    var ks := ns + [n];
    forall i | 0 <= i < |ks| ensures HoldsIn(ks, i) {
      if i < |ns| {
        assert HoldsIn(ns, i);
      }
    }
  }

  /** Roots of the trees of a list are not inside the trees. */
  lemma RootFree(ns: seq<Node>, k: nat)
    requires AllApart(ns) && k < |ns|
    ensures Free(ns[k].item, ns)
  {
    hide Objects;
    KidsApart(ns);
  }

  /** Setting a link of an item that is not inside these trees leaves them as they are. */
  method SetNext(c: Item, x: Item?, ghost ns: seq<Node>)
    requires Each(ns) && Free(c, ns)
    modifies c`next
    ensures c.next == x && Each(ns)
  {
    hide Holds, Objects, Union;
    label Before:
    c.next := x;
    forall i | 0 <= i < |ns| ensures HoldsIn(ns, i) {
      assert old@Before(HoldsIn(ns, i));
    }
  }

  method SetChild(arr: Item, x: Item, ghost ns: seq<Node>)
    requires Each(ns) && arr !in Union(ns)
    modifies arr`child
    ensures arr.child == x && Each(ns)
  {
    hide Holds, Objects, Union;
    arr.child := x;
  }

  method SetPrev(c: Item, x: Item?, ghost ns: seq<Node>)
    requires Each(ns) && Free(c, ns)
    modifies c`prev
    ensures c.prev == x && Each(ns)
  {
    hide Holds, Objects, Union;
    label Before:
    c.prev := x;
    forall i | 0 <= i < |ns| ensures HoldsIn(ns, i) {
      assert old@Before(HoldsIn(ns, i));
    }
  }

  /** The loop that goes to the end of a list. */
  method LastItem(ghost heap: Heap, c0: Item, ghost ns: seq<Node>) returns (c: Item)
    requires HoldsAll(ns) && Union(ns) <= heap.live && c0 == First(ns)
    ensures HoldsAll(ns) && ns != [] && c == ns[|ns| - 1].item
  {
    hide HoldsAll, Holds, Objects, Union;
    c := c0;
    ghost var i := 0;
    HoldsAt(ns, 0);
    while c.next != null
      invariant 0 <= i < |ns| && c == ns[i].item && c.next == ItemAt(ns, i + 1) && HoldsAll(ns)
      decreases |ns| - i
    {
      c, i := c.next, i + 1;
      HoldsAt(ns, i);
    }
  }

  lemma LinksOf(ns: seq<Node>)
    requires HoldsAll(ns)
    ensures forall i :: 0 <= i < |ns| ==> LinkedAt(ns, i)
  {
    assert Linked(ns);
  }

  lemma OneLinked(n: Node)
    requires n.item.next == null && n.item.prev == null
    ensures Linked([n])
  {
    assert LinkedAt([n], 0);
  }

  lemma AppendLinked(ns: seq<Node>, n: Node)
    requires ns != [] && forall i :: 0 <= i < |ns| - 1 ==> LinkedAt(ns, i)
    requires ns[|ns| - 1].item.next == n.item && ns[|ns| - 1].item.prev == ItemAt(ns, |ns| - 2)
    requires n.item.prev == ns[|ns| - 1].item && n.item.next == null
    ensures Linked(ns + [n])
  {
    var ks := ns + [n];
    forall i | 0 <= i < |ks| ensures LinkedAt(ks, i) {
      if i < |ns| - 1 {
        assert LinkedAt(ns, i);
      }
    }
  }

  /** suffix_object, at the end of a list. */
  method SuffixObject(prev: Item, item: Item, ghost ns: seq<Node>, ghost n: Node)
    requires ns != [] && prev == ns[|ns| - 1].item && item == n.item
    requires HoldsAll(ns) && Holds(n) && AllApart(ns + [n]) && item.next == null
    modifies prev`next, item`prev
    ensures HoldsAll(ns + [n])
  {
    hide HoldsAll, Holds, Apart, Objects, Union, Linked, AllApart, Each, Free;
    ghost var k, ks := |ns| - 1, ns + [n];
    EachIs(ns);
    EachAppend(ns, n);
    LinksOf(ns);
    RootFree(ks, k);
    RootFree(ks, k + 1);
    ItemsApart(ks);
    assert LinkedAt(ns, k) && prev == ks[k].item && item == ks[k + 1].item;
    assert forall i :: 0 <= i < k ==> ks[i] == ns[i] && LinkedAt(ns, i);
    label Before:
    SetNext(prev, item, ks);
    SetPrev(item, prev, ks);
    forall i | 0 <= i < k ensures LinkedAt(ns, i) {
      assert old@Before(LinkedAt(ns, i));
    }
    AppendLinked(ns, n);
    EachIs(ks);
  }

  /** cJSON_AddItemToArray. */
  method AddItemToArray(ghost heap: Heap, arr: Item, item: Item?, ghost a: Node, ghost n: Node)
    requires arr == a.item && Holds(a) && Apart(a) && Objects(a) <= heap.live
    requires item != null ==>
      item == n.item && Holds(n) && Apart(n) && Objects(n) <= heap.live && Objects(a) !! Objects(n)
      && item.next == null && (a.kids == [] ==> item.prev == null)
    modifies arr`child, Opt(item)`prev, Items(a.kids)`next
    ensures item == null ==> Holds(a)
    ensures item != null ==> var b := a.(kids := a.kids + [n]);
              Holds(b) && Apart(b) && Objects(b) == Objects(a) + Objects(n)
  {
    hide HoldsAll, Holds, Apart, Objects, Union, Linked, Each, Alone;
    var c := arr.child;
    if item == null {
      return;
    }
    ghost var b := a.(kids := a.kids + [n]);
    HoldsIs(a);
    ApartParts(a);
    AppendApart(a, n);
    ApartParts(b);
    if c == null {
      EachIs(a.kids);
      EachAppend(a.kids, n);
      arr.child := item;
      assert b.kids == [n];
      OneLinked(n);
      EachIs(b.kids);
    } else {
      c := LastItem(heap, c, a.kids);
      SuffixObject(c, item, a.kids, n);
    }
    AloneKids(a, b.kids);
    HoldsIs(b);
  }

  // ---------------------------------------------------------------- inserting

  function Inserted<T>(ns: seq<T>, k: nat, n: T): seq<T>
    requires k <= |ns|
  {
    ns[..k] + [n] + ns[k..]
  }

  function Removed<T>(ns: seq<T>, k: nat): seq<T>
    requires k < |ns|
  {
    ns[..k] + ns[k + 1..]
  }

  lemma InsertUnion(ns: seq<Node>, k: nat, n: Node)
    requires k <= |ns|
    ensures Union(Inserted(ns, k, n)) == Union(ns) + Objects(n)
  {
    hide Union, Objects;
    assert ns == ns[..k] + ns[k..];
    UnionAppend(ns[..k], ns[k..]);
    UnionAppend(ns[..k], [n]);
    UnionAppend(ns[..k] + [n], ns[k..]);
    UnionOne(n);
  }

  lemma InsertApart(ns: seq<Node>, k: nat, n: Node)
    requires k <= |ns| && AllApart(ns) && Apart(n) && Union(ns) !! Objects(n)
    ensures AllApart(Inserted(ns, k, n))
  {
    hide Apart, Objects, Union;
    var ks := Inserted(ns, k, n);
    KidsApart(ns);
    forall i, j | 0 <= i < j < |ks| ensures Objects(ks[i]) !! Objects(ks[j]) {
      var p := if i < k then i else i - 1;
      var q := if j < k then j else j - 1;
      if i != k { assert ks[i] == ns[p]; }
      if j != k { assert ks[j] == ns[q]; }
    }
    forall i | 0 <= i < |ks| ensures Apart(ks[i]) {
      if i != k { assert ks[i] == ns[if i < k then i else i - 1]; }
    }
  }

  lemma EachInserted(ns: seq<Node>, k: nat, n: Node)
    requires k <= |ns| && Each(ns) && Holds(n)
    ensures Each(Inserted(ns, k, n))
  {
    hide Holds, Objects, Union;
    var ks := Inserted(ns, k, n);
    forall i | 0 <= i < |ks| ensures HoldsIn(ks, i) {
      if i != k {
        var j := if i < k then i else i - 1;
        assert ks[i] == ns[j];
        assert HoldsIn(ns, j);
      }
    }
  }

  lemma InsertLinked(ns: seq<Node>, k: nat, n: Node)
    requires k < |ns| && forall i :: 0 <= i < |ns| && i != k - 1 && i != k ==> LinkedAt(ns, i)
    requires k > 0 ==> ns[k - 1].item.next == n.item && ns[k - 1].item.prev == ItemAt(ns, k - 2)
    requires n.item.next == ns[k].item && n.item.prev == ItemAt(ns, k - 1)
    requires ns[k].item.prev == n.item && ns[k].item.next == ItemAt(ns, k + 1)
    ensures Linked(Inserted(ns, k, n)) && First(Inserted(ns, k, n)) == if k == 0 then n.item else First(ns)
  {
    var ks := Inserted(ns, k, n);
    forall i | 0 <= i < |ks| ensures LinkedAt(ks, i) {
      if i < k - 1 {
        assert LinkedAt(ns, i);
      } else if i > k + 1 {
        assert LinkedAt(ns, i - 1);
      }
    }
  }

  /** The trees of a list have different roots, none of them inside another, and none of them is arr. */
  ghost predicate Roots(ns: seq<Node>, arr: Item) {
    && arr !in Union(ns)
    && (forall i :: 0 <= i < |ns| ==> Free(ns[i].item, ns) && arr !in Objects(ns[i]) && ns[i].item != arr)
    && (forall i, j :: 0 <= i < |ns| && 0 <= j < |ns| && i != j ==> ns[i].item != ns[j].item)
  }

  lemma RootsOf(ns: seq<Node>, arr: Item)
    requires AllApart(ns) && arr !in Union(ns)
    ensures Roots(ns, arr)
  {
    hide AllApart, Union, Objects, Free;
    ItemsApart(ns);
    ItemsInUnion(ns);
    forall i: nat | i < |ns| ensures Free(ns[i].item, ns) {
      RootFree(ns, i);
    }
  }

  /** The assignments of cJSON_InsertItemInArray. */
  method LinkIn(arr: Item, c: Item, newitem: Item, ghost ns: seq<Node>, ghost k: nat, ghost n: Node)
    requires k < |ns| && c == ns[k].item && newitem == n.item && arr.child == First(ns)
    requires HoldsAll(ns) && Holds(n) && AllApart(ns) && Apart(n) && Union(ns) !! Objects(n)
    requires arr !in Union(ns) && arr !in Objects(n)
    modifies arr`child, newitem`next, newitem`prev, c`prev, Items(ns)`next
    ensures HoldsAll(Inserted(ns, k, n)) && arr.child == First(Inserted(ns, k, n))
  {
    hide HoldsAll, Holds, Apart, Objects, Union, Linked, AllApart;
    ghost var ks := Inserted(ns, k, n);
    EachIs(ns);
    EachInserted(ns, k, n);
    InsertUnion(ns, k, n);
    InsertApart(ns, k, n);
    RootsOf(ks, arr);
    RootsOf(ns, arr);
    LinksOf(ns);
    ghost var p := ItemAt(ns, k - 1);
    assert ks[k] == n && ks[k + 1] == ns[k] && LinkedAt(ns, k) && c.prev == p;
    assert Free(newitem, ks) && Free(c, ks);
    if k > 0 {
      assert ks[k - 1] == ns[k - 1] && LinkedAt(ns, k - 1) && Free(p, ks);
      assert ns[0].item != ns[k].item;
    }
    forall i | 0 <= i < |ns| && i != k - 1 && i != k ensures ns[i].item != c && ns[i].item != newitem
        && ns[i].item != p {
      assert ks[if i < k then i else i + 1] == ns[i];
    }
    label Before:
    newitem.next := c;
    newitem.prev := c.prev;
    c.prev := newitem;
    if c == arr.child {
      arr.child := newitem;
    } else {
      newitem.prev.next := newitem;
    }
    forall i | 0 <= i < |ks| ensures HoldsIn(ks, i) {
      assert old@Before(HoldsIn(ks, i));
    }
    forall i | 0 <= i < |ns| && i != k - 1 && i != k ensures LinkedAt(ns, i) {
      assert old@Before(LinkedAt(ns, i));
    }
    InsertLinked(ns, k, n);
    EachIs(ks);
  }

  /** What an operation on a list leaves: the item with its new list. */
  ghost predicate Became(a: Node, ks: seq<Node>)
    reads a.item`kind, a.item`mantissa, a.item`exponent, a.item`valuestring, a.item`name, a.item`child
    reads Objects(a.(kids := ks)) - {a.item}
  {
    Holds(a.(kids := ks)) && Apart(a.(kids := ks))
  }

  lemma BecameIs(a: Node, ks: seq<Node>)
    requires Apart(a) && Alone(a) && AllApart(ks) && HoldsAll(ks) && a.item.child == First(ks)
    requires a.item !in Union(ks) && Some(a.text) + Some(a.name) !! Union(ks)
    ensures Became(a, ks)
  {
    hide Holds, HoldsAll, Apart, AllApart, Objects, Union, Alone;
    AloneKids(a, ks);
    HoldsIs(a.(kids := ks));
    NewKids(a, ks);
  }

  /** cJSON_InsertItemInArray: before the item at this position, or at the end when there is none. */
  method InsertItemInArray(ghost heap: Heap, arr: Item, which: int, newitem: Item, ghost a: Node, ghost n: Node)
    requires arr == a.item && newitem == n.item && Holds(a) && Holds(n) && Apart(a) && Apart(n)
    requires Objects(a) + Objects(n) <= heap.live && Objects(a) !! Objects(n)
    requires Position(which) >= |a.kids| ==> newitem.next == null && (a.kids == [] ==> newitem.prev == null)
    modifies arr`child, newitem`next, newitem`prev, Items(a.kids)`next, Items(a.kids)`prev
    ensures Became(a, if Position(which) < |a.kids| then Inserted(a.kids, Position(which), n) else a.kids + [n])
  {
    hide HoldsAll, Holds, Apart, Objects, Union, Linked, AllApart, Alone;
    HoldsIs(a);
    HoldsIs(n);
    ApartParts(a);
    InOwn(a);
    InOwn(n);
    var c := GetArrayItem(heap, arr, which, a);
    if c == null {
      AddItemToArray(heap, arr, newitem, a, n);
    } else {
      ghost var k := Position(which);
      LinkIn(arr, c, newitem, a.kids, k, n);
      InsertUnion(a.kids, k, n);
      InsertApart(a.kids, k, n);
      BecameIs(a, Inserted(a.kids, k, n));
    }
  }

  // ---------------------------------------------------------------- detaching

  lemma RemoveUnion(ns: seq<Node>, k: nat)
    requires k < |ns| && AllApart(ns)
    ensures Union(ns) == Union(Removed(ns, k)) + Objects(ns[k]) && Union(Removed(ns, k)) !! Objects(ns[k])
    ensures AllApart(Removed(ns, k)) && Apart(ns[k])
  {
    hide Apart, Objects;
    var ks := Removed(ns, k);
    assert ns == Inserted(ks, k, ns[k]);
    InsertUnion(ks, k, ns[k]);
    forall i | 0 <= i < |ks| ensures Apart(ks[i]) && Objects(ks[i]) !! Objects(ns[k]) {
      assert ks[i] == ns[if i < k then i else i + 1];
    }
    forall i, j | 0 <= i < j < |ks| ensures Objects(ks[i]) !! Objects(ks[j]) {
      assert ks[i] == ns[if i < k then i else i + 1] && ks[j] == ns[if j < k then j else j + 1];
    }
  }

  lemma EachRemoved(ns: seq<Node>, k: nat)
    requires k < |ns| && Each(ns)
    ensures Each(Removed(ns, k)) && Holds(ns[k])
  {
    hide Holds, Objects, Union;
    var ks := Removed(ns, k);
    assert HoldsIn(ns, k);
    forall i | 0 <= i < |ks| ensures HoldsIn(ks, i) {
      var j := if i < k then i else i + 1;
      assert ks[i] == ns[j];
      assert HoldsIn(ns, j);
    }
  }

  lemma RemoveLinked(ns: seq<Node>, k: nat)
    requires k < |ns| && forall i :: 0 <= i < |ns| && i != k - 1 && i != k && i != k + 1 ==> LinkedAt(ns, i)
    requires k > 0 ==> ns[k - 1].item.next == ItemAt(ns, k + 1) && ns[k - 1].item.prev == ItemAt(ns, k - 2)
    requires k + 1 < |ns| ==> ns[k + 1].item.prev == ItemAt(ns, k - 1) && ns[k + 1].item.next == ItemAt(ns, k + 2)
    ensures Linked(Removed(ns, k)) && First(Removed(ns, k)) == if k == 0 then ItemAt(ns, 1) else First(ns)
  {
    var ks := Removed(ns, k);
    forall i | 0 <= i < |ks| ensures LinkedAt(ks, i) {
      if i < k - 1 {
        assert LinkedAt(ns, i);
      } else if i > k {
        assert LinkedAt(ns, i + 1);
      }
    }
  }

  /** The assignments of cJSON_DetachItemFromArray. */
  method LinkOut(arr: Item, c: Item, ghost ns: seq<Node>, ghost k: nat)
    requires k < |ns| && c == ns[k].item && arr.child == First(ns)
    requires HoldsAll(ns) && AllApart(ns) && arr !in Union(ns)
    modifies arr`child, Items(ns)`next, Items(ns)`prev
    ensures HoldsAll(Removed(ns, k)) && Holds(ns[k]) && c.next == null && c.prev == null
    ensures arr.child == First(Removed(ns, k))
  {
    hide HoldsAll, Holds, Apart, Objects, Union, Linked, AllApart;
    EachIs(ns);
    RootsOf(ns, arr);
    LinksOf(ns);
    ghost var p, q := ItemAt(ns, k - 1), ItemAt(ns, k + 1);
    assert LinkedAt(ns, k) && c.prev == p && c.next == q && Free(c, ns);
    if k > 0 {
      assert LinkedAt(ns, k - 1) && Free(p, ns);
      assert ns[0].item != ns[k].item;
    }
    if k + 1 < |ns| {
      assert LinkedAt(ns, k + 1) && Free(q, ns);
    }
    label Before:
    if c.prev != null {
      c.prev.next := c.next;
    }
    if c.next != null {
      c.next.prev := c.prev;
    }
    if c == arr.child {
      arr.child := c.next;
    }
    c.prev, c.next := null, null;
    forall i | 0 <= i < |ns| ensures HoldsIn(ns, i) {
      assert old@Before(HoldsIn(ns, i));
    }
    forall i | 0 <= i < |ns| && i != k - 1 && i != k && i != k + 1 ensures LinkedAt(ns, i) {
      assert old@Before(LinkedAt(ns, i));
    }
    RemoveLinked(ns, k);
    EachRemoved(ns, k);
    EachIs(Removed(ns, k));
  }

  /** cJSON_DetachItemFromArray: null when there is no such item. */
  method DetachItemFromArray(ghost heap: Heap, arr: Item, which: int, ghost a: Node) returns (c: Item?)
    requires arr == a.item && Holds(a) && Apart(a) && Objects(a) <= heap.live
    modifies arr`child, Items(a.kids)`next, Items(a.kids)`prev
    ensures var k := Position(which);
            if k >= |a.kids| then c == null && Holds(a)
            else
              && c == a.kids[k].item && c.next == null && c.prev == null
              && Holds(a.kids[k]) && Apart(a.kids[k]) && Became(a, Removed(a.kids, k))
              && Objects(a) == Objects(a.(kids := Removed(a.kids, k))) + Objects(a.kids[k])
              && Objects(a.(kids := Removed(a.kids, k))) !! Objects(a.kids[k])
  {
    hide HoldsAll, Holds, Apart, Objects, Union, Linked, AllApart, Alone;
    HoldsIs(a);
    ApartParts(a);
    InOwn(a);
    c := GetArrayItem(heap, arr, which, a);
    if c != null {
      ghost var k := Position(which);
      RemoveUnion(a.kids, k);
      LinkOut(arr, c, a.kids, k);
      BecameIs(a, Removed(a.kids, k));
      ApartParts(a.(kids := Removed(a.kids, k)));
    }
  }

  /** cJSON_DeleteItemFromArray. */
  method DeleteItemFromArray(heap: Heap, arr: Item, which: int, ghost a: Node)
    requires heap.Valid() && arr == a.item && Holds(a) && Apart(a) && Objects(a) <= heap.live
    modifies heap, arr`child, Items(a.kids)`next, Items(a.kids)`prev
    ensures heap.Valid()
    ensures var k := Position(which);
            if k >= |a.kids| then Holds(a) && heap.live == old(heap.live)
            else Became(a, Removed(a.kids, k)) && heap.live == old(heap.live) - Objects(a.kids[k])
  {
    hide HoldsAll, Holds, Apart, Objects, Union, Linked, AllApart;
    ghost var k := Position(which);
    InOwn(a);
    var c := DetachItemFromArray(heap, arr, which, a);
    if c != null {
      DeleteOne(heap, c, a.kids[k]);
    }
  }

  /** cJSON_Delete of a detached item. */
  method DeleteOne(heap: Heap, c: Item, ghost n: Node)
    requires heap.Valid() && c == n.item && Holds(n) && Apart(n) && c.next == null && c.prev == null
    requires Objects(n) <= heap.live
    modifies heap
    ensures heap.Valid() && heap.live == old(heap.live) - Objects(n)
  {
    hide Holds, Apart, Objects;
    UnionOne(n);
    OneLinked(n);
    OneHolds(n);
    Delete(heap, c, [n]);
  }

  lemma OneHolds(n: Node)
    requires Holds(n) && Apart(n) && n.item.next == null && n.item.prev == null
    ensures HoldsAll([n]) && AllApart([n])
  {
    hide Holds, Apart, Objects;
    OneLinked(n);
    assert [n][0] == n;
  }

  // ---------------------------------------------------------------- replacing

  lemma ReplaceIs(ns: seq<Node>, k: nat, n: Node)
    requires k < |ns|
    ensures ns[k := n] == Inserted(Removed(ns, k), k, n)
  {
  }

  /** Both the old list and the new one, as trees. */
  lemma EachReplaced(ns: seq<Node>, k: nat, n: Node)
    requires k < |ns| && Each(Inserted(ns, k, n))
    ensures Each(ns[k := n]) && Holds(ns[k])
  {
    hide Holds, Objects, Union;
    var ks, both := ns[k := n], Inserted(ns, k, n);
    assert both[k + 1] == ns[k] && HoldsIn(both, k + 1);
    forall i | 0 <= i < |ks| ensures HoldsIn(ks, i) {
      var j := if i <= k then i else i + 1;
      assert ks[i] == both[j];
      assert HoldsIn(both, j);
    }
  }

  lemma ReplaceLinked(ns: seq<Node>, k: nat, n: Node)
    requires k < |ns| && forall i :: 0 <= i < |ns| && i != k - 1 && i != k && i != k + 1 ==> LinkedAt(ns, i)
    requires k > 0 ==> ns[k - 1].item.next == n.item && ns[k - 1].item.prev == ItemAt(ns, k - 2)
    requires k + 1 < |ns| ==> ns[k + 1].item.prev == n.item && ns[k + 1].item.next == ItemAt(ns, k + 2)
    requires n.item.next == ItemAt(ns, k + 1) && n.item.prev == ItemAt(ns, k - 1)
    ensures Linked(ns[k := n]) && First(ns[k := n]) == if k == 0 then n.item else First(ns)
  {
    var ks := ns[k := n];
    forall i | 0 <= i < |ks| ensures LinkedAt(ks, i) {
      if i < k - 1 || i > k + 1 {
        assert LinkedAt(ns, i);
      }
    }
  }

  /** What is known before an item is replaced: which links there are, and that changing them leaves the
      trees alone. */
  lemma ReplaceFacts(arr: Item, ns: seq<Node>, k: nat, n: Node)
    requires k < |ns| && HoldsAll(ns) && Holds(n) && AllApart(ns) && Apart(n) && Union(ns) !! Objects(n)
    requires arr !in Union(ns) && arr !in Objects(n)
    ensures var both, c := Inserted(ns, k, n), ns[k].item;
            var p, q := ItemAt(ns, k - 1), ItemAt(ns, k + 1);
            && Each(both) && Roots(both, arr) && Free(n.item, both) && Free(c, both)
            && c.prev == p && c.next == q && (k > 0 ==> Free(p, both)) && (k + 1 < |ns| ==> Free(q, both))
            && arr != c && arr != n.item && arr != p && arr != q && n.item != c && n.item != p && n.item != q
            && p != c && q != c && (p != null ==> p != q) && (k > 0 ==> First(ns) != c)
            && (k > 0 ==> p.prev == ItemAt(ns, k - 2)) && (k + 1 < |ns| ==> q.next == ItemAt(ns, k + 2))
            && forall i :: 0 <= i < |ns| && i != k - 1 && i != k && i != k + 1 ==>
                 LinkedAt(ns, i) && ns[i].item != c && ns[i].item != n.item && ns[i].item != p && ns[i].item != q
  {
    hide HoldsAll, Holds, Apart, Objects, Union, Linked, AllApart, Free;
    var both := Inserted(ns, k, n);
    EachIs(ns);
    EachInserted(ns, k, n);
    InsertUnion(ns, k, n);
    InsertApart(ns, k, n);
    RootsOf(both, arr);
    LinksOf(ns);
    assert both[k] == n && both[k + 1] == ns[k] && LinkedAt(ns, k);
    if k > 0 {
      assert both[k - 1] == ns[k - 1] && LinkedAt(ns, k - 1) && both[0] == ns[0];
    }
    if k + 1 < |ns| {
      assert both[k + 2] == ns[k + 1] && LinkedAt(ns, k + 1);
    }
    forall i | 0 <= i < |ns| && i != k - 1 && i != k && i != k + 1
      ensures ns[i].item != ns[k].item && ns[i].item != n.item
      ensures ns[i].item != ItemAt(ns, k - 1) && ns[i].item != ItemAt(ns, k + 1)
    {
      assert both[if i < k then i else i + 1] == ns[i];
    }
  }

  /** The assignments of cJSON_ReplaceItemInArray. */
  method LinkOver(arr: Item, c: Item, newitem: Item, ghost ns: seq<Node>, ghost k: nat, ghost n: Node)
    requires k < |ns| && c == ns[k].item && newitem == n.item && arr.child == First(ns)
    requires HoldsAll(ns) && Holds(n) && AllApart(ns) && Apart(n) && Union(ns) !! Objects(n)
    requires arr !in Union(ns) && arr !in Objects(n)
    modifies arr`child, newitem`next, newitem`prev, Items(ns)`next, Items(ns)`prev
    ensures HoldsAll(ns[k := n]) && arr.child == First(ns[k := n])
    ensures Holds(ns[k]) && c.next == null && c.prev == null
  {
    hide HoldsAll, Holds, Apart, Objects, Union, Linked, AllApart, Inserted;
    ghost var both := Inserted(ns, k, n);
    ReplaceFacts(arr, ns, k, n);
    label Before:
    SetNext(newitem, c.next, both);
    SetPrev(newitem, c.prev, both);
    if newitem.next != null {
      SetPrev(newitem.next, newitem, both);
    }
    if c == arr.child {
      SetChild(arr, newitem, both);
    } else {
      SetNext(newitem.prev, newitem, both);
    }
    SetNext(c, null, both);
    SetPrev(c, null, both);
    forall i | 0 <= i < |ns| && i != k - 1 && i != k && i != k + 1 ensures LinkedAt(ns, i) {
      assert old@Before(LinkedAt(ns, i));
    }
    ReplaceLinked(ns, k, n);
    EachReplaced(ns, k, n);
    EachIs(ns[k := n]);
  }

  /** cJSON_ReplaceItemInArray: the replaced item is freed with all that hangs below it; past the end the
      call does nothing, and the new item stays with the caller. */
  method ReplaceItemInArray(heap: Heap, arr: Item, which: int, newitem: Item, ghost a: Node, ghost n: Node)
    requires heap.Valid() && arr == a.item && newitem == n.item && Holds(a) && Holds(n) && Apart(a) && Apart(n)
    requires Objects(a) + Objects(n) <= heap.live && Objects(a) !! Objects(n)
    modifies heap, arr`child, newitem`next, newitem`prev, Items(a.kids)`next, Items(a.kids)`prev
    ensures heap.Valid()
    ensures var k := Position(which);
            if k >= |a.kids| then Holds(a) && Holds(n) && heap.live == old(heap.live) && unchanged(newitem)
            else Became(a, a.kids[k := n]) && heap.live == old(heap.live) - Objects(a.kids[k])
  {
    hide HoldsAll, Holds, Apart, Objects, Union, Linked, AllApart, Alone;
    HoldsIs(a);
    HoldsIs(n);
    ApartParts(a);
    InOwn(a);
    InOwn(n);
    var c := GetArrayItem(heap, arr, which, a);
    if c == null {
      return;
    }
    ghost var k := Position(which);
    RemoveUnion(a.kids, k);
    ReplaceIs(a.kids, k, n);
    InsertUnion(Removed(a.kids, k), k, n);
    InsertApart(Removed(a.kids, k), k, n);
    LinkOver(arr, c, newitem, a.kids, k, n);
    BecameIs(a, a.kids[k := n]);
    ApartParts(a.(kids := a.kids[k := n]));
    DeleteOne(heap, c, a.kids[k]);
  }

  // ---------------------------------------------------------------- building a list

  lemma FreshApart(ms: seq<Node>, m: Node)
    requires AllApart(ms) && Apart(m) && Union(ms) !! Objects(m)
    ensures AllApart(ms + [m]) && Union(ms + [m]) == Union(ms) + Objects(m)
  {
    hide Apart, Objects;
    UnionAppend(ms, [m]);
    UnionOne(m);
    InsertApart(ms, |ms|, m);
    assert Inserted(ms, |ms|, m) == ms + [m];
  }

  lemma NoKids(m: Node)
    requires m.kids == [] && m.item !in Some(m.text) + Some(m.name) && Some(m.text) !! Some(m.name)
    ensures Apart(m) && Union(m.kids) == {} && Objects(m) == {m.item} + Some(m.text) + Some(m.name)
  {
  }

  lemma NothingYet()
    ensures HoldsAll([]) && AllApart([]) && Union([]) == {}
  {
  }

  /** A child goes behind the ones there are, or becomes the first. */
  method LinkChild(parent: Item, last: Item?, child: Item, ghost ms: seq<Node>, ghost m: Node)
    requires child == m.item && last == ItemAt(ms, |ms| - 1) && parent.child == First(ms)
    requires HoldsAll(ms) && Holds(m) && AllApart(ms + [m]) && child.next == null && child.prev == null
    requires parent !in Union(ms + [m])
    modifies parent`child, Opt(last)`next, child`prev
    ensures HoldsAll(ms + [m]) && parent.child == First(ms + [m])
  {
    hide HoldsAll, Holds, AllApart, Union, Objects;
    if last != null {
      SuffixObject(last, child, ms, m);
    } else {
      UnionOne(m);
      InOwn(m);
      assert ms + [m] == [m];
      parent.child := child;
      OneHolds(m) by { ApartOne(m); }
    }
  }

  lemma ApartOne(m: Node)
    requires AllApart([m])
    ensures Apart(m)
  {
    assert [m][0] == m;
  }

  lemma KidAt(n: Node, i: nat)
    requires Holds(n) && Apart(n) && i < |n.kids|
    ensures var k := n.kids[i];
            && Holds(k) && Apart(k) && Objects(k) <= Objects(n)
            && k.item in Objects(k) && k.item.next == ItemAt(n.kids, i + 1)
  {
    hide Objects, Apart, AllApart, Holds, HoldsAll;
    HoldsIs(n);
    ApartParts(n);
    HoldsAt(n.kids, i);
    InUnion(n.kids, i);
    InOwn(n.kids[i]);
    RemoveUnion(n.kids, i);
  }
}
