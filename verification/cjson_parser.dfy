/** The parser building items in memory: what it builds, what it owns, and that it leaves nothing behind. */
module CJsonParser {
  import opened CJsonText
  import opened CJsonRoundTrip
  import opened CJsonStrings
  import opened CJsonHeap
  import opened CJsonLists
  import opened CJsonReader

  /** An item that no value was read into yet. */
  ghost predicate Open(b: Node) {
    b.kids == [] && b.text == null
  }

  /** The result of a parse function: a pointer behind the value, or none and the place of the error. */
  ghost predicate Reports<T>(o: Outcome<T>, ok: bool, end: string, v: T) {
    o == if ok then Parsed(v, end) else Failed(end)
  }

  /** From a memory was, a tree grew at the item of b: all that is new in memory belongs to it. */
  ghost predicate Grew(b: Node, n: Node, was: set<object>, live: set<object>) {
    && n.item == b.item && Apart(n)
    && Objects(b) <= was && Objects(b) <= Objects(n) && live == was + Objects(n)
    && (Objects(n) - Objects(b)) !! was
  }

  /** A new item below the one at hand. */
  method AddBlank(heap: Heap, item: Item, last: Item?, ghost b: Node, ghost a: Node, ghost was: set<object>)
    returns (child: Item, ghost nb: Node)
    requires heap.Valid() && item == a.item && Holds(a) && Grew(b, a, was, heap.live)
    requires last == ItemAt(a.kids, |a.kids| - 1)
    modifies heap, item`child, Opt(last)`next
    ensures heap.Valid() && fresh(child) && child == nb.item && Open(nb) && nb.name == null
    ensures Holds(a.(kids := a.kids + [nb])) && Grew(b, a.(kids := a.kids + [nb]), was, heap.live)
  {
    hide Holds, HoldsAll, Apart, AllApart, Objects, Union, Alone;
    HoldsIs(a);
    ApartParts(a);
    child := heap.NewItem();
    nb := Node(child, FalseKind, 0, 0, null, "", null, "", []);
    NoKids(nb);
    BlankHolds(nb);
    FreshApart(a.kids, nb);
    LinkChild(item, last, child, a.kids, nb);
    BecameIs(a, a.kids + [nb]);
    NewKids(a, a.kids + [nb]);
  }

  lemma BlankHolds(nb: Node)
    requires nb.item.Blank() && nb == Node(nb.item, FalseKind, 0, 0, null, "", null, "", [])
    ensures Holds(nb)
  {
  }

  lemma LinkedSame(ks: seq<Node>, m: Node, k: Node)
    requires m.item == k.item && Linked(ks + [m])
    ensures Linked(ks + [k]) && First(ks + [k]) == First(ks + [m])
  {
    var u, v := ks + [m], ks + [k];
    forall i | 0 <= i < |v| ensures LinkedAt(v, i) {
      assert LinkedAt(u, i);
    }
  }

  /** The last tree of a list grew: pure part. */
  lemma LastGrew(b: Node, a: Node, ks: seq<Node>, m: Node, k: Node, was: set<object>, mid: set<object>,
          now: set<object>)
    requires Grew(b, a.(kids := ks + [m]), was, mid) && Grew(m, k, mid, now)
    ensures Grew(b, a.(kids := ks + [k]), was, now) && AllApart(ks + [k]) && a.item !in Union(ks + [k])
    ensures k.item !in Union(ks) && Union(ks) <= mid
  {
    hide Apart, AllApart, Objects, Union;
    var c := a.(kids := ks + [m]);
    ApartParts(c);
    UnionAppend(ks, [m]);
    UnionAppend(ks, [k]);
    UnionOne(m);
    UnionOne(k);
    InOwn(m);
    RemoveUnion(ks + [m], |ks|);
    assert Removed(ks + [m], |ks|) == ks;
    assert (ks + [m])[|ks|] == m;
    FreshApart(ks, k);
    NewKids(c, ks + [k]);
    assert c.(kids := ks + [k]) == a.(kids := ks + [k]);
  }

  /** The last tree of a list grew: what the memory must hold. */
  lemma LastHolds(a: Node, ks: seq<Node>, m: Node, k: Node)
    requires Alone(a) && a.item.child == First(ks + [m]) && Linked(ks + [m]) && Each(ks) && Holds(k)
    requires m.item == k.item && a.item !in Union(ks + [k])
    ensures Holds(a.(kids := ks + [k]))
  {
    hide Holds, HoldsAll, Linked, Each, Union, Objects, Alone;
    LinkedSame(ks, m, k);
    EachAppend(ks, k);
    EachIs(ks + [k]);
    AloneKids(a, ks + [k]);
    HoldsIs(a.(kids := ks + [k]));
  }

  /** A value parsed into the last child of an item. */
  method ParseElement(heap: Heap, child: Item, t: string, ghost b: Node, ghost a: Node, ghost ks: seq<Node>,
                      ghost m: Node, ghost was: set<object>)
    returns (ok: bool, end: string, ghost k: Node)
    requires heap.Valid() && child == m.item && Open(m) && ParseValue(t) != Undefined
    requires Holds(a.(kids := ks + [m])) && Grew(b, a.(kids := ks + [m]), was, heap.live)
    modifies heap, child`kind, child`mantissa, child`exponent, child`valuestring, child`child
    ensures heap.Valid() && k.item == child && k.name == m.name && k.key == m.key
    ensures Reports(ParseValue(t), ok, end, Value(k)) && (ok ==> Complete(k))
    ensures Holds(a.(kids := ks + [k])) && Grew(b, a.(kids := ks + [k]), was, heap.live)
    decreases |t|, 4
  {
    hide Holds, HoldsAll, Apart, AllApart, Objects, Union, Alone, Linked, Each, Complete;
    ghost var c, mid := a.(kids := ks + [m]), heap.live;
    LastOpened(c, ks, m);
    ok, end, k := ParseValueAt(heap, child, t, m);
    LastGrew(b, a, ks, m, k, was, mid, heap.live);
    AloneKids(c, a.kids);
    LastHolds(a, ks, m, k);
  }

  lemma LastOpened(c: Node, ks: seq<Node>, m: Node)
    requires Holds(c) && Apart(c) && c.kids == ks + [m]
    ensures Alone(c) && c.item.child == First(ks + [m]) && Linked(ks + [m]) && Each(ks)
    ensures Holds(m) && Apart(m) && Objects(m) <= Objects(c) && Union(ks) <= Objects(c)
    ensures Some(c.text) + Some(c.name) <= Objects(c) && c.item in Objects(c)
    ensures forall x :: x in Items(ks + [m]) ==> x in Objects(c)
    ensures m.item in Objects(m) && m.item !in Union(ks) && m.item != c.item
    ensures m.item !in Some(c.text) + Some(c.name)
  {
    hide Holds, HoldsAll, Apart, Objects, Union, Alone, Linked;
    HoldsIs(c);
    ApartParts(c);
    EachIs(c.kids);
    HoldsAt(c.kids, |ks|);
    RemoveUnion(c.kids, |ks|);
    assert Removed(c.kids, |ks|) == ks;
    UnionAppend(ks, [m]);
    UnionOne(m);
    InOwn(m);
    ItemsInUnion(c.kids);
    EachRemoved(c.kids, |ks|);
  }

  // ---------------------------------------------------------------- values without children

  lemma Childless(n: Node)
    requires Alone(n) && n.kids == [] && n.item.child == null && Some(n.text) !! Some(n.name)
    ensures Holds(n) && Apart(n) && Objects(n) == {n.item} + Some(n.text) + Some(n.name)
  {
  }

  lemma GrewNot(b: Node, live: set<object>)
    requires Apart(b) && Objects(b) <= live
    ensures Grew(b, b, live, live)
  {
    hide Apart, Objects;
  }

  lemma OpenParts(b: Node)
    requires Holds(b) && Apart(b) && Open(b)
    ensures Alone(b) && b.item.child == null && Objects(b) == {b.item} + Some(b.name)
  {
  }

  /** A value that is a word. */
  method SetKind(heap: Heap, item: Item, kind: Kind, ghost b: Node) returns (ghost n: Node)
    requires heap.Valid() && item == b.item && Open(b) && Holds(b) && Apart(b) && Objects(b) <= heap.live
    modifies item`kind
    ensures n == b.(kind := kind) && Holds(n) && Grew(b, n, heap.live, heap.live)
  {
    hide Holds, Apart, Objects, Spells;
    OpenParts(b);
    item.kind := kind;
    n := b.(kind := kind);
    Childless(n);
  }

  method ParseNumberAt(heap: Heap, item: Item, t: string, ghost b: Node) returns (end: string, ghost n: Node)
    requires heap.Valid() && item == b.item && Open(b) && Holds(b) && Apart(b) && Objects(b) <= heap.live
    requires At(t) == '-' || IsDigit(At(t))
    modifies item`kind, item`mantissa, item`exponent
    ensures Holds(n) && Grew(b, n, heap.live, heap.live) && n.name == b.name && n.key == b.key
    ensures ParseNumber(t) == Parsed(Value(n), end) && Complete(n)
  {
    hide Holds, Apart, Objects, Spells, ParseNumber;
    OpenParts(b);
    var m, e, r := ReadNumber(t);
    item.mantissa, item.exponent, item.kind, end := m, e, NumberKind, r;
    n := b.(mantissa := m, exponent := e, kind := NumberKind);
    Childless(n);
  }

  /** parse_string, into an item. */
  method ParseStringAt(heap: Heap, item: Item, t: string, ghost b: Node)
    returns (ok: bool, end: string, ghost n: Node)
    requires heap.Valid() && item == b.item && Open(b) && Holds(b) && Apart(b) && Objects(b) <= heap.live
    requires ParseString(t) != Undefined
    modifies heap, item`kind, item`valuestring
    ensures heap.Valid() && Holds(n) && Grew(b, n, old(heap.live), heap.live) && n.kids == [] && n.name == b.name
    ensures n.key == b.key
    ensures Reports(ParseString(t), ok, end, n.str)
    ensures ok ==> n.kind == StringKind && n.text != null
    ensures !ok ==> n == b
  {
    hide Holds, Apart, Objects, Spells, ParseString;
    OpenParts(b);
    n := b;
    var out;
    ghost var s;
    ok, end, out, s := ReadString(heap, t);
    if !ok {
      Childless(b);
      return;
    }
    item.valuestring, item.kind := out, StringKind;
    n := b.(text := out, str := s, kind := StringKind);
    Childless(n);
  }

  // ---------------------------------------------------------------- values

  method ParseValueAt(heap: Heap, item: Item, t: string, ghost b: Node) returns (ok: bool, end: string, ghost n: Node)
    requires heap.Valid() && item == b.item && Open(b) && Holds(b) && Apart(b) && Objects(b) <= heap.live
    requires ParseValue(t) != Undefined
    modifies heap, item`kind, item`mantissa, item`exponent, item`valuestring, item`child
    ensures heap.Valid() && Holds(n) && Grew(b, n, old(heap.live), heap.live)
    ensures Reports(ParseValue(t), ok, end, Value(n)) && n.name == b.name && n.key == b.key
    ensures ok ==> Complete(n)
    decreases |t|, 3
  {
    hide Holds, Apart, Objects, ParseNumber, ParseString, ParseArray, ParseObject;
    ok := true;
    if "null" <= t {
      n := SetKind(heap, item, NullKind, b);
      end := t[4..];
    } else if "false" <= t {
      n := SetKind(heap, item, FalseKind, b);
      end := t[5..];
    } else if "true" <= t {
      n := SetKind(heap, item, TrueKind, b);
      end := t[4..];
    } else if At(t) == '"' {
      ok, end, n := ParseStringAt(heap, item, t, b);
    } else if At(t) == '-' || IsDigit(At(t)) {
      end, n := ParseNumberAt(heap, item, t, b);
    } else if At(t) == '[' {
      ok, end, n := ParseArrayAt(heap, item, t, b);
    } else if At(t) == '{' {
      ok, end, n := ParseObjectAt(heap, item, t, b);
    } else {
      ok, end, n := false, t, b;
      GrewNot(b, heap.live);
    }
  }

  // ---------------------------------------------------------------- arrays

  function Chain<T>(vs: seq<T>, o: Outcome<seq<T>>): Outcome<seq<T>> {
    if o.Parsed? then Parsed(vs + o.value, o.rest) else o
  }

  lemma ChainTwice<T>(u: seq<T>, v: seq<T>, o: Outcome<seq<T>>)
    ensures Chain(u, Chain(v, o)) == Chain(u + v, o)
  {
    if o.Parsed? {
      assert u + (v + o.value) == (u + v) + o.value;
    }
  }

  /** What may follow an element. */
  function ItemsAfter(u: string): Outcome<seq<Json>> {
    if At(u) == ',' then ParseItems(u[1..]) else if At(u) == ']' then Parsed([], u[1..]) else Failed(u)
  }

  lemma ItemsUnfold(t: string)
    ensures ParseItems(t) == match ParseValue(Skip(t))
                             case Parsed(v, rest) => Chain([v], ItemsAfter(Skip(rest)))
                             case Failed(at) => Failed(at)
                             case Undefined => Undefined
  {
    hide ParseValue;
    var o := ParseValue(Skip(t));
    if o.Parsed? {
      assert [o.value] + [] == [o.value];
    }
  }

  /** One element: a new item at the end of the list, and the value parsed into it. */
  method NextElement(heap: Heap, item: Item, last: Item?, t: string, ghost b: Node, ghost n: Node,
          ghost was: set<object>)
    returns (child: Item, ok: bool, value: string, ghost k: Node)
    requires heap.Valid() && item == n.item && Holds(n) && Grew(b, n, was, heap.live)
    requires ParseValue(Skip(t)) != Undefined
    requires last == ItemAt(n.kids, |n.kids| - 1)
    modifies heap, item`child, Opt(last)`next
    ensures heap.Valid() && fresh(child) && child == k.item
    ensures Holds(n.(kids := n.kids + [k])) && Grew(b, n.(kids := n.kids + [k]), was, heap.live)
    ensures var o := ParseValue(Skip(t));
            if ok then o.Parsed? && o.value == Value(k) && value == Skip(o.rest) && |value| < |t|
            else o == Failed(value)
    ensures ok ==> Complete(k)
    decreases |t|, 5
  {
    hide Holds, Apart, Objects, ParseValue, Skip, Complete;
    ghost var m;
    child, m := AddBlank(heap, item, last, b, n, was);
    value := SkipSpaces(t);
    var end;
    ok, end, k := ParseElement(heap, child, value, b, n, n.kids, m, was);
    if !ok {
      return child, false, end, k;
    }
    value := SkipSpaces(end);
  }

  /** The elements of an array that has some, up to its closing bracket. */
  method ItemsAt(heap: Heap, item: Item, t: string, ghost b: Node, ghost a: Node, ghost was: set<object>)
    returns (ok: bool, end: string, ghost n: Node)
    requires heap.Valid() && item == a.item && Holds(a) && Grew(b, a, was, heap.live) && ParseItems(t) != Undefined
    requires a.kids == [] && a.kind == ArrayKind
    modifies heap, item`child
    ensures heap.Valid() && Holds(n) && Grew(b, n, was, heap.live) && n == a.(kids := n.kids)
    ensures Reports(ParseItems(t), ok, end, Values(n.kids))
    ensures ok ==> forall i :: 0 <= i < |n.kids| ==> Complete(n.kids[i])
    decreases |t|, 6
  {
    hide Holds, Apart, Objects, ParseValue, ParseItems, Skip, ItemsAfter, Value, Complete;
    var child, value;
    ghost var k;
    ItemsUnfold(t);
    child, ok, value, k := NextElement(heap, item, null, t, b, a, was);
    n := a.(kids := a.kids + [k]);
    if !ok {
      return false, value, n;
    }
    assert Values(n.kids) == [Value(k)];
    while At(value) == ','
      invariant heap.Valid() && item == n.item && Holds(n) && Grew(b, n, was, heap.live)
      invariant n == a.(kids := n.kids) && child == ItemAt(n.kids, |n.kids| - 1) && fresh(child) && |value| < |t|
      invariant forall i :: 0 <= i < |n.kids| ==> Complete(n.kids[i])
      invariant ParseItems(t) == Chain(Values(n.kids), ItemsAfter(value))
      decreases |value|
    {
      ghost var kids := n.kids;
      AfterComma(value);
      ItemsUnfold(value[1..]);
      child, ok, value, k := NextElement(heap, item, child, value[1..], b, n, was);
      n := n.(kids := kids + [k]);
      if !ok {
        return false, value, n;
      }
      assert Values(n.kids) == Values(kids) + [Value(k)];
      ChainTwice(Values(kids), [Value(k)], ItemsAfter(value));
    }
    ok := At(value) == ']';
    end := if ok then value[1..] else value;
    ItemsEnd(Values(n.kids), value);
  }

  /** parse_array. */
  method ParseArrayAt(heap: Heap, item: Item, t: string, ghost b: Node) returns (ok: bool, end: string, ghost n: Node)
    requires heap.Valid() && item == b.item && Open(b) && Holds(b) && Apart(b) && Objects(b) <= heap.live
    requires At(t) == '[' && ParseArray(t) != Undefined
    modifies heap, item`kind, item`child
    ensures heap.Valid() && Holds(n) && Grew(b, n, old(heap.live), heap.live)
    ensures Reports(ParseArray(t), ok, end, Value(n)) && n.name == b.name && n.key == b.key
    ensures ok ==> Complete(n)
    decreases |t|, 2
  {
    hide Holds, Apart, Objects, ParseItems, Skip;
    ghost var was := heap.live;
    n := SetKind(heap, item, ArrayKind, b);
    var value := SkipSpaces(t[1..]);
    if At(value) == ']' {
      ok, end := true, value[1..];
      assert Values(n.kids) == [];
    } else {
      ok, end, n := ItemsAt(heap, item, value, b, n, was);
    }
    ArrayValue(n);
  }

  lemma AfterComma(u: string)
    requires At(u) == ','
    ensures ItemsAfter(u) == ParseItems(u[1..])
  {
  }

  lemma ItemsEnd(vs: seq<Json>, u: string)
    requires At(u) != ','
    ensures Chain(vs, ItemsAfter(u)) == if At(u) == ']' then Parsed(vs, u[1..]) else Failed(u)
  {
    assert vs + [] == vs;
  }

  // ---------------------------------------------------------------- objects

  /** What may follow a member. */
  function MembersAfter(u: string): Outcome<seq<Member>> {
    if At(u) == ',' then ParseMembers(u[1..]) else if At(u) == '}' then Parsed([], u[1..]) else Failed(u)
  }

  lemma MembersUnfold(t: string)
    ensures ParseMembers(t) == match ParseMember(t)
                               case Parsed(m, rest) => Chain([m], MembersAfter(Skip(rest)))
                               case Failed(at) => Failed(at)
                               case Undefined => Undefined
  {
    hide ParseMember;
    var o := ParseMember(t);
    if o.Parsed? {
      assert [o.value] + [] == [o.value];
    }
  }

  /** The name of a member, read into the last child of an item. */
  method ParseKey(heap: Heap, child: Item, t: string, ghost b: Node, ghost a: Node, ghost ks: seq<Node>,
                  ghost m: Node, ghost was: set<object>)
    returns (ok: bool, end: string, ghost k: Node)
    requires heap.Valid() && child == m.item && Open(m) && m.name == null && ParseString(t) != Undefined
    requires Holds(a.(kids := ks + [m])) && Grew(b, a.(kids := ks + [m]), was, heap.live)
    modifies heap, child`kind, child`valuestring, child`name
    ensures heap.Valid() && k.item == child && Open(k) && Reports(ParseString(t), ok, end, k.key)
    ensures ok ==> k.name != null
    ensures Holds(a.(kids := ks + [k])) && Grew(b, a.(kids := ks + [k]), was, heap.live)
  {
    hide Holds, HoldsAll, Apart, AllApart, Objects, Union, Alone, Linked, Each, ParseString;
    ghost var c, mid := a.(kids := ks + [m]), heap.live;
    LastOpened(c, ks, m);
    ok, end, k := ParseNameAt(heap, child, t, m);
    LastGrew(b, a, ks, m, k, was, mid, heap.live);
    AloneKids(c, a.kids);
    LastHolds(a, ks, m, k);
  }

  /** parse_string into an item, and the literal moved from its value to its name. */
  method ParseNameAt(heap: Heap, child: Item, t: string, ghost m: Node) returns (ok: bool, end: string, ghost k: Node)
    requires heap.Valid() && child == m.item && Open(m) && m.name == null && Holds(m) && Apart(m)
    requires Objects(m) <= heap.live && ParseString(t) != Undefined
    modifies heap, child`kind, child`valuestring, child`name
    ensures heap.Valid() && Holds(k) && Grew(m, k, old(heap.live), heap.live) && Open(k)
    ensures Reports(ParseString(t), ok, end, k.key)
    ensures ok ==> k.name != null
  {
    hide Holds, Apart, Objects, Spells, ParseString;
    OpenParts(m);
    ok, end, k := ParseStringAt(heap, child, t, m);
    if ok {
      OpenedParts(k);
      SpellsNothing(k.str);
      child.name := child.valuestring;
      child.valuestring := null;
      k := k.(name := k.text, key := k.str, text := null);
      Childless(k);
    }
  }

  lemma SpellsNothing(s: string)
    ensures Spells(null, s)
  {
  }

  lemma OpenedParts(k: Node)
    requires Holds(k) && Apart(k) && k.kids == []
    ensures Alone(k) && k.item.child == null && Objects(k) == {k.item} + Some(k.text) + Some(k.name)
  {
  }

  /** One member: a new item at the end of the list, its name, a colon and its value. */
  method NextMember(heap: Heap, item: Item, last: Item?, t: string, ghost b: Node, ghost n: Node,
          ghost was: set<object>)
    returns (child: Item, ok: bool, value: string, ghost k: Node)
    requires heap.Valid() && item == n.item && Holds(n) && Grew(b, n, was, heap.live) && ParseMember(t) != Undefined
    requires last == ItemAt(n.kids, |n.kids| - 1)
    modifies heap, item`child, Opt(last)`next
    ensures heap.Valid() && fresh(child) && child == k.item
    ensures Holds(n.(kids := n.kids + [k])) && Grew(b, n.(kids := n.kids + [k]), was, heap.live)
    ensures var o := ParseMember(t);
            if ok then o.Parsed? && o.value == MemberOf(k) && value == Skip(o.rest) && |value| < |t|
            else o == Failed(value)
    ensures ok ==> Complete(k) && k.name != null
    decreases |t|, 5
  {
    hide Holds, Apart, Objects, ParseValue, ParseString, Skip, Complete;
    ghost var m, j;
    child, m := AddBlank(heap, item, last, b, n, was);
    value := SkipSpaces(t);
    var end;
    ok, end, j := ParseKey(heap, child, value, b, n, n.kids, m, was);
    k := j;
    if !ok {
      return child, false, end, k;
    }
    value := SkipSpaces(end);
    if At(value) != ':' {
      ok := false;
      return;
    }
    value := SkipSpaces(value[1..]);
    ok, end, k := ParseElement(heap, child, value, b, n, n.kids, j, was);
    if !ok {
      return child, false, end, k;
    }
    value := SkipSpaces(end);
  }

  /** The elements of an object that has some, up to its closing bracket. */
  method MembersAt(heap: Heap, item: Item, t: string, ghost b: Node, ghost a: Node, ghost was: set<object>)
    returns (ok: bool, end: string, ghost n: Node)
    requires heap.Valid() && item == a.item && Holds(a) && Grew(b, a, was, heap.live) && ParseMembers(t) != Undefined
    requires a.kids == [] && a.kind == ObjectKind
    modifies heap, item`child
    ensures heap.Valid() && Holds(n) && Grew(b, n, was, heap.live) && n == a.(kids := n.kids)
    ensures Reports(ParseMembers(t), ok, end, MembersOf(n.kids))
    ensures ok ==> forall i :: 0 <= i < |n.kids| ==> Complete(n.kids[i]) && n.kids[i].name != null
    decreases |t|, 6
  {
    hide Holds, Apart, Objects, ParseMember, ParseMembers, Skip, MembersAfter, Value, Complete;
    var child, value;
    ghost var k;
    MembersUnfold(t);
    child, ok, value, k := NextMember(heap, item, null, t, b, a, was);
    n := a.(kids := a.kids + [k]);
    if !ok {
      return false, value, n;
    }
    assert MembersOf(n.kids) == [MemberOf(k)];
    while At(value) == ','
      invariant heap.Valid() && item == n.item && Holds(n) && Grew(b, n, was, heap.live)
      invariant n == a.(kids := n.kids) && child == ItemAt(n.kids, |n.kids| - 1) && fresh(child) && |value| < |t|
      invariant forall i :: 0 <= i < |n.kids| ==> Complete(n.kids[i]) && n.kids[i].name != null
      invariant ParseMembers(t) == Chain(MembersOf(n.kids), MembersAfter(value))
      decreases |value|
    {
      ghost var kids := n.kids;
      AfterMember(value);
      MembersUnfold(value[1..]);
      child, ok, value, k := NextMember(heap, item, child, value[1..], b, n, was);
      n := n.(kids := kids + [k]);
      if !ok {
        return false, value, n;
      }
      assert MembersOf(n.kids) == MembersOf(kids) + [MemberOf(k)];
      ChainTwice(MembersOf(kids), [MemberOf(k)], MembersAfter(value));
    }
    ok := At(value) == '}';
    end := if ok then value[1..] else value;
    MembersEnd(MembersOf(n.kids), value);
  }

  /** parse_object. */
  method ParseObjectAt(heap: Heap, item: Item, t: string, ghost b: Node) returns (ok: bool, end: string, ghost n: Node)
    requires heap.Valid() && item == b.item && Open(b) && Holds(b) && Apart(b) && Objects(b) <= heap.live
    requires At(t) == '{' && ParseObject(t) != Undefined
    modifies heap, item`kind, item`child
    ensures heap.Valid() && Holds(n) && Grew(b, n, old(heap.live), heap.live)
    ensures Reports(ParseObject(t), ok, end, Value(n)) && n.name == b.name && n.key == b.key
    ensures ok ==> Complete(n)
    decreases |t|, 2
  {
    hide Holds, Apart, Objects, ParseMembers, Skip;
    ghost var was := heap.live;
    n := SetKind(heap, item, ObjectKind, b);
    var value := SkipSpaces(t[1..]);
    if At(value) == '}' {
      ok, end := true, value[1..];
      assert MembersOf(n.kids) == [];
    } else {
      ok, end, n := MembersAt(heap, item, value, b, n, was);
    }
    ObjectValue(n);
  }

  lemma AfterMember(u: string)
    requires At(u) == ','
    ensures MembersAfter(u) == ParseMembers(u[1..])
  {
  }

  lemma MembersEnd(vs: seq<Member>, u: string)
    requires At(u) != ','
    ensures Chain(vs, MembersAfter(u)) == if At(u) == '}' then Parsed(vs, u[1..]) else Failed(u)
  {
    assert vs + [] == vs;
  }

  // ---------------------------------------------------------------- a whole text

  /** cJSON_ParseWithOpts, on a text that it does not run out of: complete escapes in what is parsed are enough
      (ParseDefined). On success the result is the tree of the value, with the text of every string and the name of
      every member, and what was allocated is exactly that tree; on failure everything that was allocated has been
      freed, each object once. */
  method ParseWithOpts(heap: Heap, value: string, requireNullTerminated: bool)
    returns (c: Item?, end: string, ghost n: Node)
    requires heap.Valid() && Parse(value, requireNullTerminated) != Undefined
    modifies heap
    ensures heap.Valid()
    ensures c != null ==>
              && Parse(value, requireNullTerminated) == Parsed(Value(n), end)
              && c == n.item && Holds(n) && Apart(n) && c.next == null && c.prev == null && Complete(n)
              && heap.live == old(heap.live) + Objects(n) && Objects(n) !! old(heap.live)
    ensures c == null ==> Parse(value, requireNullTerminated) == Failed(end) && heap.live == old(heap.live)
  {
    hide Holds, Apart, Objects, ParseValue, Skip, Complete;
    ghost var was := heap.live;
    c := heap.NewItem();
    ghost var b := Node(c, FalseKind, 0, 0, null, "", null, "", []);
    BlankHolds(b);
    NoKids(b);
    ghost var mid := heap.live;
    var t := SkipSpaces(value);
    var ok;
    ok, end, n := ParseValueAt(heap, c, t, b);
    assert Objects(n) !! was;
    if !ok {
      DeleteOne(heap, c, n);
      return null, end, n;
    }
    if requireNullTerminated {
      end := SkipSpaces(end);
      if At(end) != '\0' {
        DeleteOne(heap, c, n);
        return null, end, n;
      }
    }
  }
}
