/** Printing a tree into a growing buffer, without layout. */
module CJsonPrint {
  import opened CJsonText
  import opened CJsonRoundTrip
  import opened CJsonMinify
  import opened CJsonHeap
  import opened CJsonLists
  import opened CJsonBuffer

  /** The text of a value without layout. */
  function Compact(j: Json): string {
    Print(j, 0, false)
  }

  /** print_number, for 32-bit integers. */
  method PrintNumber(heap: Heap, p: PrintBuffer, mantissa: int, ghost s: string)
    requires Owns(heap, p) && p.Has(s) && INT_MIN <= mantissa <= INT_MAX && |s| + 21 <= LIMIT
    modifies heap, p, p.buffer
    ensures Kept(heap, p) && p.Written(s, PrintInt(mantissa)) && p.offset == |s|
  {
    hide Decimal;
    IntSize(mantissa);
    if mantissa == 0 {
      Ensure(heap, p, 2, s);
      Put(p, "0", s);
      assert PrintInt(0) == "0" by { DecimalStart(0); }
    } else {
      Ensure(heap, p, 21, s);
      Put(p, PrintInt(mantissa), s);
    }
  }

  lemma {:induction false} DecimalSize(n: nat, k: nat, p: nat)
    requires k >= 1 && n < p && p == Ten(k)
    ensures |Decimal(n)| <= k
    decreases k
  {
    if k == 1 {
      assert Ten(0) == 1;
    } else if n >= 10 {
      DecimalSize(n / 10, k - 1, Ten(k - 1));
    }
  }

  function Ten(k: nat): nat {
    if k == 0 then 1 else 10 * Ten(k - 1)
  }

  lemma IntSize(n: int)
    requires INT_MIN <= n <= INT_MAX
    ensures |PrintInt(n)| <= 11
  {
    assert Ten(5) == 100000;
    assert Ten(10) == 10000000000;
    DecimalSize(if n < 0 then -n else n, 10, Ten(10));
  }

  // ---------------------------------------------------------------- texts

  lemma {:induction false} DecimalNulFree(n: nat)
    ensures NulFree(Decimal(n))
    decreases n
  {
    if n >= 10 {
      DecimalNulFree(n / 10);
    }
  }

  lemma {:induction false} EscapeNulFree(s: string)
    requires NulFree(s)
    ensures NulFree(Escape(s))
    decreases |s|
  {
    hide EscapeChar;
    if s != "" {
      EscapeNulFree(s[1..]);
      EscapeCharNulFree(s[0]);
    }
  }

  lemma EscapeCharNulFree(c: char)
    requires c != '\0'
    ensures NulFree(EscapeChar(c))
  {
    hide Digit;
    PlainDigit(c as int / 16 % 16);
    PlainDigit(c as int % 16);
  }

  lemma {:induction false} TabsNulFree(n: nat)
    ensures NulFree(Tabs(n))
    decreases n
  {
    if n > 0 {
      TabsNulFree(n - 1);
    }
  }

  /** No printed text has a terminator in it. */
  lemma {:induction false} PrintNulFree(j: Json, d: nat, fmt: bool)
    requires Printable(j)
    ensures NulFree(Print(j, d, fmt))
    decreases j, 1
  {
    hide Decimal, Escape, PrintItems, PrintMembers, Tabs;
    match j
    case Number(n, _) => DecimalNulFree(if n < 0 then -n else n);
    case Str(s) => EscapeNulFree(s);
    case Arr(items) => ItemsNulFree(j, items, d + 1, fmt);
    case Obj(members) =>
      MembersNulFree(j, members, d + 1, fmt);
      TabsNulFree(d);
      TabsNulFree(if d == 0 then 0 else d - 1);
    case _ =>
  }

  lemma {:induction false} ItemsNulFree(j: Json, items: seq<Json>, d: nat, fmt: bool)
    requires forall i :: 0 <= i < |items| ==> Printable(items[i]) && items[i] < j
    ensures NulFree(PrintItems(items, d, fmt))
    decreases j, 0, |items|
  {
    hide Print, Printable;
    if items != [] {
      PrintNulFree(items[0], d, fmt);
      ItemsNulFree(j, items[1..], d, fmt);
    }
  }

  lemma {:induction false} MembersNulFree(j: Json, members: seq<Member>, d: nat, fmt: bool)
    requires forall i :: 0 <= i < |members| ==>
               NulFree(members[i].key) && Printable(members[i].value) && members[i].value < j
    ensures NulFree(PrintMembers(members, d, fmt))
    decreases j, 0, |members|
  {
    hide Print, Printable, Escape, Tabs;
    if members != [] {
      PrintNulFree(members[0].value, d, fmt);
      EscapeNulFree(members[0].key);
      TabsNulFree(d);
      MembersNulFree(j, members[1..], d, fmt);
    }
  }

  /** The elements from the i-th on, as they are printed between brackets. */
  function ItemsFrom(items: seq<Json>, i: nat): string
    requires i <= |items|
  {
    PrintItems(items[i..], 1, false)
  }

  lemma ItemsFromStep(items: seq<Json>, i: nat)
    requires i < |items|
    ensures ItemsFrom(items, i) == Compact(items[i]) + (if i + 1 < |items| then "," + ItemsFrom(items, i + 1) else "")
    ensures ItemsFrom(items, |items|) == ""
  {
    hide Print;
    PrintDepth(items[i], 1, 0);
    assert items[i..][1..] == items[i + 1..] && items[i..][0] == items[i];
    assert Compact(items[i]) + "" == Compact(items[i]);
  }

  /** The members from the i-th on, as they are printed between braces. */
  function MembersFrom(members: seq<Member>, i: nat): string
    requires i <= |members|
  {
    PrintMembers(members[i..], 1, false)
  }

  lemma MembersFromStep(members: seq<Member>, i: nat)
    requires i < |members|
    ensures MembersFrom(members, i) == Quote(members[i].key) + ":" + Compact(members[i].value)
                                  + (if i + 1 < |members| then "," else "") + MembersFrom(members, i + 1)
    ensures MembersFrom(members, |members|) == ""
  {
    hide Print, Quote;
    PrintDepth(members[i].value, 1, 0);
    assert members[i..][1..] == members[i + 1..] && members[i..][0] == members[i];
    assert "" + Quote(members[i].key) == Quote(members[i].key);
    var m, comma := PrintMember(members[i], 1, false), if i + 1 < |members| then "," else "";
    assert MembersFrom(members, i) == m + comma + "" + MembersFrom(members, i + 1);
    assert m + comma + "" == m + comma;
  }

  // ---------------------------------------------------------------- trees

  /** The tree is in memory, apart from the buffer, and there is room for its text. */
  ghost predicate Printing(heap: Heap, p: PrintBuffer, n: Node, s: string, t: string)
    reads heap, p, p.buffer
  {
    && Owns(heap, p) && p.Has(s) && Apart(n) && Objects(n) <= heap.live && p.buffer !in Objects(n)
    && Complete(n) && Printable(Value(n)) && |s| + |t| + 21 <= LIMIT
  }

  method PrintWord(heap: Heap, p: PrintBuffer, word: string, ghost s: string)
    requires Owns(heap, p) && p.Has(s) && |s| + |word| + 1 <= LIMIT
    modifies heap, p, p.buffer
    ensures Kept(heap, p) && p.Written(s, word)
  {
    Ensure(heap, p, |word| + 1, s);
    Put(p, word, s);
  }

  /** print_value into the buffer, without layout. */
  method PrintValue(heap: Heap, item: Item, p: PrintBuffer, ghost n: Node, ghost s: string)
    requires item == n.item && Holds(n) && Printing(heap, p, n, s, Compact(Value(n)))
    modifies heap, p, p.buffer
    ensures Kept(heap, p) && p.Written(s, Compact(Value(n))) && Holds(n)
    decreases n, 4
  {
    hide Holds, Apart, Objects, Print, Printable, PrintInt, Quote, Compact, Moved;
    HoldsIs(n);
    ApartParts(n);
    CompactLeaf(n);
    match item.kind {
      case NullKind =>
        PrintWord(heap, p, "null", s);
      case FalseKind =>
        PrintWord(heap, p, "false", s);
      case TrueKind =>
        PrintWord(heap, p, "true", s);
      case NumberKind =>
        PrintNumber(heap, p, item.mantissa, s);
      case StringKind =>
        PrintString(heap, p, item.valuestring, n.str, s);
      case ArrayKind =>
        PrintArray(heap, item, p, n, s);
      case ObjectKind =>
        PrintObject(heap, item, p, n, s);
    }
  }

  lemma CompactLeaf(n: Node)
    ensures n.kind == NullKind ==> Compact(Value(n)) == "null"
    ensures n.kind == FalseKind ==> Compact(Value(n)) == "false"
    ensures n.kind == TrueKind ==> Compact(Value(n)) == "true"
    ensures n.kind == NumberKind ==> Compact(Value(n)) == PrintInt(n.mantissa)
                                     && (Printable(Value(n)) ==> INT_MIN <= n.mantissa <= INT_MAX)
    ensures n.kind == StringKind ==> Compact(Value(n)) == Quote(n.str)
  {
  }

  lemma CompactArray(n: Node)
    requires n.kind == ArrayKind
    ensures Compact(Value(n)) == if n.kids == [] then "[]" else "[" + ItemsFrom(Values(n.kids), 0) + "]"
    ensures forall i :: 0 <= i < |n.kids| ==> Values(n.kids)[i] == Value(n.kids[i])
    ensures Printable(Value(n)) ==> forall i :: 0 <= i < |n.kids| ==> Printable(Value(n.kids[i]))
  {
    hide Value, PrintItems;
    ArrayValue(n);
    assert Values(n.kids)[0..] == Values(n.kids);
    var items := Value(n).items;
    if Printable(Value(n)) {
      forall i | 0 <= i < |n.kids| ensures Printable(Value(n.kids[i])) {
        assert Printable(items[i]);
      }
    }
  }

  /** A child printed at the offset, and the offset moved behind it. */
  method PrintKid(heap: Heap, child: Item, p: PrintBuffer, ghost n: Node, ghost i: nat, ghost s: string)
    requires i < |n.kids| && child == n.kids[i].item && Holds(n) && Apart(n) && Objects(n) <= heap.live
    requires Complete(n.kids[i]) && Printable(Value(n.kids[i])) && Owns(heap, p) && p.Has(s) && p.buffer !in Objects(n)
    requires |s| + |Compact(Value(n.kids[i]))| + 21 <= LIMIT
    modifies heap, p, p.buffer
    ensures Kept(heap, p) && p.Has(s + Compact(Value(n.kids[i]))) && Holds(n)
    decreases n, 0
  {
    hide Holds, Apart, Objects, Print, Printable, Value, Complete;
    KidAt(n, i);
    PrintValue(heap, child, p, n.kids[i], s);
    CompactText(Value(n.kids[i]));
    Update(p, s, Compact(Value(n.kids[i])));
  }

  /** A comma, when another child follows. */
  method PutComma(heap: Heap, p: PrintBuffer, more: bool, ghost s: string)
    requires Owns(heap, p) && p.Has(s) && |s| + 2 <= LIMIT
    modifies heap, p, p.buffer
    ensures Kept(heap, p) && p.Has(if more then s + "," else s)
  {
    if more {
      Ensure(heap, p, 2, s);
      PutChar(p, ',', s);
      p.buffer[p.offset] := '\0';
      assert p.buffer[..|s| + 1] == s + ",";
    }
  }

  /** What goes behind a member: a comma when another follows, and a terminator in any case. */
  method PutTail(heap: Heap, p: PrintBuffer, more: bool, ghost s: string)
    requires Owns(heap, p) && p.Has(s) && |s| + 2 <= LIMIT
    modifies heap, p, p.buffer
    ensures Kept(heap, p) && p.Has(if more then s + "," else s)
  {
    Ensure(heap, p, if more then 2 else 1, s);
    if more {
      PutChar(p, ',', s);
    }
    ghost var t := if more then s + "," else s;
    p.buffer[p.offset] := '\0';
    assert p.buffer[..|t|] == t;
  }

  /** One round of the loop over the elements. */
  method PrintElement(heap: Heap, child: Item, p: PrintBuffer, ghost n: Node, ghost i: nat, ghost s: string)
    returns (ghost t: string)
    requires i < |n.kids| && child == n.kids[i].item && Holds(n) && Apart(n) && Objects(n) <= heap.live
    requires Complete(n.kids[i]) && Printable(Value(n.kids[i])) && Owns(heap, p) && p.Has(s) && p.buffer !in Objects(n)
    requires |s| + |ItemsFrom(Values(n.kids), i)| + 21 <= LIMIT
    modifies heap, p, p.buffer
    ensures Kept(heap, p) && p.Has(t) && Holds(n)
    ensures t + ItemsFrom(Values(n.kids), i + 1) == s + ItemsFrom(Values(n.kids), i)
    decreases n, 1
  {
    hide Holds, Apart, Objects, Print, Printable, Value, Complete, Compact, ItemsFrom;
    ghost var l0, b0 := heap.live, p.buffer;
    ghost var v := Compact(Value(n.kids[i]));
    ItemsFromStep(Values(n.kids), i);
    KidAt(n, i);
    PrintKid(heap, child, p, n, i, s);
    KidAt(n, i);
    ghost var l1, b1 := heap.live, p.buffer;
    PutComma(heap, p, child.next != null, s + v);
    MovedTwice(l0, b0, l1, b1, heap.live, p.buffer);
    t := if i + 1 < |n.kids| then s + v + "," else s + v;
    assert s + v + "," + ItemsFrom(Values(n.kids), i + 1) == s + (v + ("," + ItemsFrom(Values(n.kids), i + 1)));
  }

  /** The loop over the elements. */
  method PrintElements(heap: Heap, first: Item?, p: PrintBuffer, ghost n: Node, ghost s: string)
    requires first == First(n.kids) && Holds(n) && Apart(n) && Objects(n) <= heap.live
    requires forall i :: 0 <= i < |n.kids| ==> Complete(n.kids[i]) && Printable(Value(n.kids[i]))
    requires Owns(heap, p) && p.Has(s) && p.buffer !in Objects(n) && |s| + |ItemsFrom(Values(n.kids), 0)| + 21 <= LIMIT
    modifies heap, p, p.buffer
    ensures Kept(heap, p) && p.Has(s + ItemsFrom(Values(n.kids), 0)) && Holds(n)
    decreases n, 2
  {
    hide Holds, Apart, Objects, Print, Printable, Value, Compact, ItemsFrom, Moved, Complete;
    ghost var items := Values(n.kids);
    ghost var l0, b0 := heap.live, p.buffer;
    MovedNot(l0, b0);
    ghost var cur, i := s, 0;
    var child := first;
    while child != null
      invariant 0 <= i <= |n.kids| && child == ItemAt(n.kids, i) && Kept(heap, p) && Holds(n) && Objects(n) <= heap.live
      invariant p.Has(cur) && p.buffer !in Objects(n) && cur + ItemsFrom(items, i) == s + ItemsFrom(items, 0)
      decreases |n.kids| - i
    {
      ghost var l1, b1 := heap.live, p.buffer;
      cur := PrintElement(heap, child, p, n, i, cur);
      MovedTwice(l0, b0, l1, b1, heap.live, p.buffer);
      MovedApart(l1, b1, heap.live, p.buffer, Objects(n));
      KidAt(n, i);
      child, i := child.next, i + 1;
    }
    RestNone(items);
    assert cur + "" == cur;
  }

  method PrintArray(heap: Heap, item: Item, p: PrintBuffer, ghost n: Node, ghost s: string)
    requires item == n.item && n.kind == ArrayKind && Holds(n) && Printing(heap, p, n, s, Compact(Value(n)))
    modifies heap, p, p.buffer
    ensures Kept(heap, p) && p.Written(s, Compact(Value(n))) && Holds(n)
    decreases n, 3
  {
    hide Holds, Apart, Objects, Print, Printable, Value, Compact, ItemsFrom, Moved;
    ghost var inner := ItemsFrom(Values(n.kids), 0);
    HoldsIs(n);
    CompactArray(n);
    if item.child == null {
      PrintWord(heap, p, "[]", s);
      return;
    }
    ghost var l0, b0 := heap.live, p.buffer;
    PutOpening(heap, p, '[', 1, s);
    MovedApart(l0, b0, heap.live, p.buffer, Objects(n));
    ghost var l1, b1 := heap.live, p.buffer;
    PrintElements(heap, item.child, p, n, s + "[");
    MovedTwice(l0, b0, l1, b1, heap.live, p.buffer);
    ghost var l2, b2 := heap.live, p.buffer;
    MovedApart(l1, b1, l2, b2, Objects(n));
    PutClosing(heap, p, "]", s, "[" + inner);
    MovedTwice(l0, b0, l2, b2, heap.live, p.buffer);
    MovedApart(l2, b2, heap.live, p.buffer, Objects(n));
  }

  /** The opening bracket, and a terminator when there is room for one; the offset goes behind the bracket. */
  method PutOpening(heap: Heap, p: PrintBuffer, c: char, needed: nat, ghost s: string)
    requires Owns(heap, p) && p.Has(s) && needed >= 1 && |s| + needed <= LIMIT
    modifies heap, p, p.buffer
    ensures Kept(heap, p) && p.Has(s + [c])
  {
    Ensure(heap, p, needed, s);
    PutChar(p, c, s);
    if needed > 1 {
      p.buffer[p.offset] := '\0';
      assert p.buffer[..|s| + 1] == s + [c];
    }
  }

  /** The closing bracket and the terminator; the offset stays before them. */
  method PutClosing(heap: Heap, p: PrintBuffer, c: string, ghost s: string, ghost t: string)
    requires |c| == 1 && Owns(heap, p) && p.Has(s + t) && |s| + |t| + 2 <= LIMIT
    modifies heap, p, p.buffer
    ensures Kept(heap, p) && p.Written(s, t + c)
  {
    Ensure(heap, p, 2, s + t);
    Put(p, c, s + t);
    assert s + t + c == s + (t + c);
  }

  lemma MovedNot(l: set<object>, b: array<char>)
    requires b in l
    ensures Moved(l, b, l, b)
  {
  }

  lemma RestNone(items: seq<Json>)
    ensures ItemsFrom(items, |items|) == ""
  {
  }

  lemma MovedApart(l0: set<object>, b0: array<char>, l1: set<object>, b1: array<char>, os: set<object>)
    requires Moved(l0, b0, l1, b1) && os <= l0 && b0 !in os
    ensures os <= l1 && b1 !in os
  {
  }

  // ---------------------------------------------------------------- objects

  lemma CompactObject(n: Node)
    requires n.kind == ObjectKind
    ensures Compact(Value(n)) == if n.kids == [] then "{}" else "{" + MembersFrom(MembersOf(n.kids), 0) + "}"
    ensures Printable(Value(n)) ==> forall i :: 0 <= i < |n.kids| ==>
              Printable(Value(n.kids[i])) && NulFree(n.kids[i].key)
  {
    hide Value, PrintMembers;
    ObjectValue(n);
    assert MembersOf(n.kids)[0..] == MembersOf(n.kids);
    var members := Value(n).members;
    if n.kids != [] {
      CompactMembers(members);
    }
    if Printable(Value(n)) {
      forall i | 0 <= i < |n.kids| ensures Printable(Value(n.kids[i])) && NulFree(n.kids[i].key) {
        assert Printable(members[i].value);
      }
    }
  }

  lemma CompactMembers(members: seq<Member>)
    requires members != []
    ensures Compact(Obj(members)) == "{" + PrintMembers(members, 1, false) + "}"
  {
    hide PrintMembers;
    var r := PrintMembers(members, 1, false);
    assert "{" + "" + r + "" + "}" == "{" + r + "}";
  }

  /** The name of a child and a colon. */
  method PrintName(heap: Heap, child: Item, p: PrintBuffer, ghost n: Node, ghost i: nat, ghost s: string)
    requires i < |n.kids| && child == n.kids[i].item && Holds(n) && Apart(n) && Objects(n) <= heap.live
    requires n.kids[i].name != null && NulFree(n.kids[i].key) && Owns(heap, p) && p.Has(s) && p.buffer !in Objects(n)
    requires |s| + |Quote(n.kids[i].key)| + 2 <= LIMIT
    modifies heap, p, p.buffer
    ensures Kept(heap, p) && p.Has(s + Quote(n.kids[i].key) + ":") && Holds(n)
  {
    hide Holds, Apart, Objects, Quote, Escape, Spells, Moved;
    ghost var k := n.kids[i];
    ghost var l0, b0 := heap.live, p.buffer;
    KidAt(n, i);
    HoldsIs(k);
    ApartParts(k);
    PrintString(heap, p, child.name, k.key, s);
    QuoteNulFree(k.key);
    Update(p, s, Quote(k.key));
    ghost var l1, b1 := heap.live, p.buffer;
    MovedApart(l0, b0, l1, b1, Objects(n));
    Ensure(heap, p, 1, s + Quote(k.key));
    MovedTwice(l0, b0, l1, b1, heap.live, p.buffer);
    MovedApart(l1, b1, heap.live, p.buffer, Objects(n));
    PutChar(p, ':', s + Quote(k.key));
  }

  lemma QuoteNulFree(s: string)
    requires NulFree(s)
    ensures NulFree(Quote(s))
  {
    hide Escape;
    EscapeNulFree(s);
  }

  /** One round of the loop over the members. */
  method PrintPair(heap: Heap, child: Item, p: PrintBuffer, ghost n: Node, ghost i: nat, ghost s: string)
    returns (ghost t: string)
    requires i < |n.kids| && child == n.kids[i].item && Holds(n) && Apart(n) && Objects(n) <= heap.live
    requires Complete(n.kids[i]) && Printable(Value(n.kids[i])) && Owns(heap, p) && p.Has(s) && p.buffer !in Objects(n)
    requires n.kids[i].name != null && NulFree(n.kids[i].key)
    requires |s| + |MembersFrom(MembersOf(n.kids), i)| + 22 <= LIMIT
    modifies heap, p, p.buffer
    ensures Kept(heap, p) && p.Has(t) && Holds(n)
    ensures t + MembersFrom(MembersOf(n.kids), i + 1) == s + MembersFrom(MembersOf(n.kids), i)
    decreases n, 1
  {
    hide Holds, Apart, Objects, Print, Printable, Value, Complete, Compact, MembersFrom, Quote, Moved;
    ghost var l0, b0 := heap.live, p.buffer;
    ghost var q, v := Quote(n.kids[i].key), Compact(Value(n.kids[i]));
    MembersFromStep(MembersOf(n.kids), i);
    KidAt(n, i);
    PrintName(heap, child, p, n, i, s);
    ghost var l1, b1 := heap.live, p.buffer;
    MovedApart(l0, b0, l1, b1, Objects(n));
    PrintKid(heap, child, p, n, i, s + q + ":");
    ghost var l2, b2 := heap.live, p.buffer;
    MovedTwice(l0, b0, l1, b1, l2, b2);
    MovedApart(l1, b1, l2, b2, Objects(n));
    KidAt(n, i);
    PutTail(heap, p, child.next != null, s + q + ":" + v);
    MovedTwice(l0, b0, l2, b2, heap.live, p.buffer);
    MovedApart(l2, b2, heap.live, p.buffer, Objects(n));
    t := if i + 1 < |n.kids| then s + q + ":" + v + "," else s + q + ":" + v;
    Assemble(s, q, v, if i + 1 < |n.kids| then "," else "", MembersFrom(MembersOf(n.kids), i + 1));
  }

  lemma Assemble(s: string, q: string, v: string, c: string, r: string)
    ensures s + q + ":" + v + c + r == s + (q + ":" + v + c + r)
    ensures c == "" ==> s + q + ":" + v + c == s + q + ":" + v
  {
  }

  /** The loop over the members. */
  method PrintPairs(heap: Heap, first: Item?, p: PrintBuffer, ghost n: Node, ghost s: string)
    requires first == First(n.kids) && Holds(n) && Apart(n) && Objects(n) <= heap.live
    requires forall i :: 0 <= i < |n.kids| ==> Complete(n.kids[i]) && Printable(Value(n.kids[i]))
    requires forall i :: 0 <= i < |n.kids| ==> n.kids[i].name != null && NulFree(n.kids[i].key)
    requires Owns(heap, p) && p.Has(s) && p.buffer !in Objects(n)
    requires |s| + |MembersFrom(MembersOf(n.kids), 0)| + 22 <= LIMIT
    modifies heap, p, p.buffer
    ensures Kept(heap, p) && p.Has(s + MembersFrom(MembersOf(n.kids), 0)) && Holds(n)
    decreases n, 2
  {
    hide Holds, Apart, Objects, Print, Printable, Value, Compact, MembersFrom, Moved, Complete, NulFree;
    ghost var members := MembersOf(n.kids);
    ghost var l0, b0 := heap.live, p.buffer;
    MovedNot(l0, b0);
    ghost var cur, i := s, 0;
    var child := first;
    while child != null
      invariant 0 <= i <= |n.kids| && child == ItemAt(n.kids, i) && Kept(heap, p) && Holds(n) && Objects(n) <= heap.live
      invariant p.Has(cur) && p.buffer !in Objects(n) && cur + MembersFrom(members, i) == s + MembersFrom(members, 0)
      decreases |n.kids| - i
    {
      ghost var l1, b1 := heap.live, p.buffer;
      cur := PrintPair(heap, child, p, n, i, cur);
      MovedTwice(l0, b0, l1, b1, heap.live, p.buffer);
      MovedApart(l1, b1, heap.live, p.buffer, Objects(n));
      KidAt(n, i);
      child, i := child.next, i + 1;
    }
    RestOfNone(members);
    assert cur + "" == cur;
  }

  lemma RestOfNone(members: seq<Member>)
    ensures MembersFrom(members, |members|) == ""
  {
  }

  method PrintObject(heap: Heap, item: Item, p: PrintBuffer, ghost n: Node, ghost s: string)
    requires item == n.item && n.kind == ObjectKind && Holds(n) && Printing(heap, p, n, s, Compact(Value(n)))
    modifies heap, p, p.buffer
    ensures Kept(heap, p) && p.Written(s, Compact(Value(n))) && Holds(n)
    decreases n, 3
  {
    hide Holds, Apart, Objects, Print, Printable, Value, Compact, MembersFrom, Moved, NulFree;
    ghost var inner := MembersFrom(MembersOf(n.kids), 0);
    HoldsIs(n);
    CompactObject(n);
    if item.child == null {
      PrintWord(heap, p, "{}", s);
      return;
    }
    ghost var l0, b0 := heap.live, p.buffer;
    PutOpening(heap, p, '{', 2, s);
    MovedApart(l0, b0, heap.live, p.buffer, Objects(n));
    ghost var l1, b1 := heap.live, p.buffer;
    PrintPairs(heap, item.child, p, n, s + "{");
    MovedTwice(l0, b0, l1, b1, heap.live, p.buffer);
    ghost var l2, b2 := heap.live, p.buffer;
    MovedApart(l1, b1, l2, b2, Objects(n));
    PutClosing(heap, p, "}", s, "{" + inner);
    MovedTwice(l0, b0, l2, b2, heap.live, p.buffer);
    MovedApart(l2, b2, heap.live, p.buffer, Objects(n));
  }

  lemma CompactText(j: Json)
    requires Printable(j)
    ensures NulFree(Compact(j))
  {
    PrintNulFree(j, 0, false);
  }

  /** cJSON_PrintBuffered without layout: from any positive initial size and through any number of
      enlargements the result is the text the unbuffered printer gives, as a C string in one buffer. */
  method PrintBuffered(heap: Heap, item: Item, prebuffer: nat, ghost n: Node) returns (out: array<char>)
    requires heap.Valid() && item == n.item && Holds(n) && Apart(n) && Objects(n) <= heap.live
    requires Complete(n) && Printable(Value(n)) && prebuffer > 0 && |Compact(Value(n))| + 21 <= LIMIT
    modifies heap
    ensures heap.Valid() && Spells(out, Compact(Value(n))) && Holds(n)
    ensures out !in old(heap.live) && heap.live == old(heap.live) + {out}
  {
    hide Holds, Apart, Objects, Compact, Complete, Printable, Value;
    var buffer := heap.NewText(prebuffer);
    var p := new PrintBuffer(buffer);
    assert p.Has("");
    PrintValue(heap, item, p, n, "");
    CompactText(Value(n));
    out := p.buffer;
    assert "" + Compact(Value(n)) == Compact(Value(n));
  }
}
