/** cJSON_Duplicate: an equal tree made of new memory. */
module CJsonDuplicate {
  import opened CJsonText
  import opened CJsonRoundTrip
  import opened CJsonHeap
  import opened CJsonLists

  /** cJSON_strdup. */
  method Strdup(heap: Heap, str: array<char>, ghost s: string) returns (copy: array<char>)
    requires heap.Valid() && Spells(str, s) && str in heap.live
    modifies heap
    ensures heap.Valid() && fresh(copy) && Spells(copy, s) && heap.live == old(heap.live) + {copy}
  {
    var len := 0;
    while str[len] != '\0'
      invariant 0 <= len <= |s| && Spells(str, s)
      invariant forall i :: 0 <= i < len ==> str[i] != '\0'
      decreases |s| - len
    {
      assert str[..|s|][len] == s[len];
      len := len + 1;
    }
    assert len == |s|;
    len := len + 1;
    copy := heap.NewText(len);
    forall i | 0 <= i < len {
      copy[i] := str[i];
    }
    assert copy[..|s|] == str[..|s|];
  }

  /** A text is copied when there is one. */
  method StrdupIf(heap: Heap, str: array?<char>, ghost s: string) returns (copy: array?<char>)
    requires heap.Valid() && Spells(str, s) && Some(str) <= heap.live
    modifies heap
    ensures heap.Valid() && (copy == null <==> str == null) && Spells(copy, s)
    ensures fresh(Some(copy)) && heap.live == old(heap.live) + Some(copy)
  {
    copy := null;
    if str != null {
      copy := Strdup(heap, str, s);
    }
  }

  /** The same tree, in other memory. */
  ghost predicate Copy(m: Node, n: Node)
    decreases m
  {
    && m.kind == n.kind && m.mantissa == n.mantissa && m.exponent == n.exponent
    && (m.text == null <==> n.text == null) && m.str == n.str
    && (m.name == null <==> n.name == null) && m.key == n.key
    && Copies(m.kids, n.kids)
  }

  ghost predicate Copies(ms: seq<Node>, ns: seq<Node>)
    decreases ms
  {
    |ms| == |ns| && forall i :: 0 <= i < |ms| ==> Copy(ms[i], ns[i])
  }

  lemma {:induction false} CopyComplete(m: Node, n: Node)
    requires Copy(m, n)
    ensures Complete(n) ==> Complete(m)
    decreases m
  {
    if Complete(n) {
      forall i | 0 <= i < |m.kids|
        ensures Complete(m.kids[i]) && (n.kind == ObjectKind ==> m.kids[i].name != null)
      {
        assert Complete(n.kids[i]) && Copy(m.kids[i], n.kids[i]);
        CopyComplete(m.kids[i], n.kids[i]);
      }
    }
  }

  lemma NoKidsComplete(n: Node)
    requires Complete(n)
    ensures Complete(n.(kids := []))
  {
  }

  lemma {:induction false} CopyValue(m: Node, n: Node)
    requires Copy(m, n)
    ensures Value(m) == Value(n)
    decreases m
  {
    forall i | 0 <= i < |m.kids| ensures Value(m.kids[i]) == Value(n.kids[i]) && m.kids[i].key == n.kids[i].key {
      CopyValue(m.kids[i], n.kids[i]);
    }
  }

  /** The texts of an item, duplicated into a new one. */
  method CopyTexts(heap: Heap, item: Item, newitem: Item, ghost n: Node)
    requires heap.Valid() && item == n.item && Alone(n) && Some(n.text) + Some(n.name) <= heap.live
    requires newitem in heap.live
    requires newitem != item
    modifies heap, newitem`valuestring, newitem`name
    ensures heap.Valid() && (newitem.valuestring == null <==> n.text == null)
              && (newitem.name == null <==> n.name == null)
    ensures Spells(newitem.valuestring, n.str) && Spells(newitem.name, n.key)
    ensures fresh(Some(newitem.valuestring) + Some(newitem.name)) && Some(newitem.valuestring) !! Some(newitem.name)
    ensures heap.live == old(heap.live) + Some(newitem.valuestring) + Some(newitem.name)
  {
    hide Spells;
    newitem.valuestring := StrdupIf(heap, item.valuestring, n.str);
    newitem.name := StrdupIf(heap, item.name, n.key);
  }

  /** The new item, with its texts and without children. */
  method CopyItem(heap: Heap, item: Item, ghost n: Node) returns (newitem: Item, ghost m: Node)
    requires heap.Valid() && item == n.item && Holds(n) && Apart(n) && Objects(n) <= heap.live
    modifies heap
    ensures heap.Valid() && newitem == m.item && newitem.next == null && newitem.prev == null && newitem.child == null
    ensures Alone(m) && Apart(m) && m.kids == [] && fresh(Objects(m)) && heap.live == old(heap.live) + Objects(m)
    ensures Copy(m.(kids := []), n.(kids := [])) && Holds(n)
  {
    hide Holds, HoldsAll, Apart, Union, Objects, Spells, Copy;
    HoldsIs(n);
    ApartParts(n);
    newitem := heap.NewItem();
    newitem.kind, newitem.mantissa, newitem.exponent := item.kind, item.mantissa, item.exponent;
    CopyTexts(heap, item, newitem, n);
    m := Node(newitem, n.kind, n.mantissa, n.exponent, newitem.valuestring, n.str, newitem.name, n.key, []);
    NoKids(m);
    CopyHead(m, n);
  }

  lemma CopyHead(m: Node, n: Node)
    requires m.kind == n.kind && m.mantissa == n.mantissa && m.exponent == n.exponent
    requires (m.text == null <==> n.text == null) && m.str == n.str
    requires (m.name == null <==> n.name == null) && m.key == n.key
    ensures Copy(m.(kids := []), n.(kids := []))
  {
  }

  /** cJSON_Duplicate. The copy shares nothing with the original, which stays as it was. */
  method Duplicate(heap: Heap, item: Item, recurse: bool, ghost n: Node) returns (newitem: Item, ghost m: Node)
    requires heap.Valid() && item == n.item && Holds(n) && Apart(n) && Objects(n) <= heap.live
    modifies heap
    ensures heap.Valid() && newitem == m.item && newitem.next == null && newitem.prev == null
    ensures Holds(m) && Apart(m) && fresh(Objects(m)) && heap.live == old(heap.live) + Objects(m)
    ensures Copy(m, if recurse then n else n.(kids := [])) && Holds(n)
    ensures Value(m) == Value(if recurse then n else n.(kids := [])) && (Complete(n) ==> Complete(m))
    decreases n
  {
    hide HoldsAll, Holds, Apart, AllApart, Objects, Union, Alone, Copy, Value, Complete;
    HoldsIs(n);
    ApartParts(n);
    newitem, m := CopyItem(heap, item, n);
    InOwn(m);
    ApartParts(m);
    if !recurse {
      HoldsNone(m);
      CopyValue(m, n.(kids := []));
      CopyComplete(m, n.(kids := []));
      if Complete(n) {
        NoKidsComplete(n);
      }
      return;
    }
    ghost var ms := CopyKids(heap, item, newitem, n, m);
    Finish(n, m, ms);
    m := m.(kids := ms);
    CopyValue(m, n);
    CopyComplete(m, n);
  }

  lemma HoldsNone(m: Node)
    requires Alone(m) && m.kids == [] && m.item.child == null
    ensures Holds(m) && m.(kids := []) == m
  {
  }

  lemma Finish(n: Node, m: Node, ms: seq<Node>)
    requires Copy(m.(kids := []), n.(kids := [])) && Copies(ms, n.kids) && Alone(m) && Apart(m) && m.kids == []
    requires HoldsAll(ms) && AllApart(ms) && m.item.child == First(ms) && Objects(m) !! Union(ms)
    ensures var c := m.(kids := ms); Copy(c, n) && Holds(c) && Apart(c) && Objects(c) == Objects(m) + Union(ms)
  {
    hide HoldsAll, Holds, Apart, AllApart, Objects, Alone;
    ApartParts(m);
    BecameIs(m, ms);
    NewKids(m, ms);
  }

  /** The loop over the children. */
  method CopyKids(heap: Heap, item: Item, newitem: Item, ghost n: Node, ghost m: Node) returns (ghost ms: seq<Node>)
    requires heap.Valid() && item == n.item && Holds(n) && Apart(n) && Objects(n) <= heap.live
    requires newitem == m.item && Alone(m) && Apart(m) && m.kids == [] && newitem.child == null
    requires Objects(m) <= heap.live && Objects(m) !! Objects(n)
    modifies heap, newitem`child
    ensures heap.Valid() && HoldsAll(ms) && AllApart(ms) && newitem.child == First(ms) && Copies(ms, n.kids)
    ensures fresh(Union(ms)) && heap.live == old(heap.live) + Union(ms) && Union(ms) !! old(heap.live)
    decreases n, 0
  {
    hide HoldsAll, Holds, Apart, AllApart, Objects, Union, Alone, Copy;
    ms := [];
    NothingYet();
    HoldsIs(n);
    InOwn(m);
    ghost var i := 0;
    var nptr: Item? := null;
    var cptr := item.child;
    while cptr != null
      invariant 0 <= i <= |n.kids| && cptr == ItemAt(n.kids, i) && heap.Valid()
      invariant |ms| == i && forall j :: 0 <= j < i ==> Copy(ms[j], n.kids[j])
      invariant HoldsAll(ms) && AllApart(ms) && nptr == ItemAt(ms, i - 1) && newitem.child == First(ms)
      invariant fresh(Union(ms)) && heap.live == old(heap.live) + Union(ms) && Union(ms) !! old(heap.live)
      invariant Holds(n)
      decreases |n.kids| - i
    {
      KidAt(n, i);
      ItemsInUnion(ms);
      assert nptr != null ==> nptr == ms[i - 1].item && nptr in Union(ms);
      var newchild, k := Duplicate(heap, cptr, true, n.kids[i]);
      InOwn(k);
      FreshApart(ms, k);
      LinkChild(newitem, nptr, newchild, ms, k);
      ms, nptr, cptr, i := ms + [k], newchild, cptr.next, i + 1;
    }
  }
}
