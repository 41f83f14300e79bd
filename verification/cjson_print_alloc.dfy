/** Printing with an allocation for every value: each text is put together from the texts of its parts,
    in a buffer whose size was added up from theirs. */
module CJsonPrintAlloc {
  import opened CJsonText
  import opened CJsonRoundTrip
  import opened CJsonHeap
  import opened CJsonLists
  import opened CJsonBuffer
  import opened CJsonPrint

  type Table = array<array?<char>>

  /** The first entries of a table. */
  ghost predicate Filled(t: Table, es: seq<array<char>>)
    reads t
  {
    |es| <= t.Length && forall j :: 0 <= j < |es| ==> t[j] == es[j]
  }

  ghost function All(es: seq<array<char>>): set<object> {
    set j | 0 <= j < |es| :: es[j] as object
  }

  ghost predicate Strings(es: seq<array<char>>, texts: seq<string>)
    reads All(es)
  {
    |es| == |texts| && forall j :: 0 <= j < |es| ==> Spells(es[j], texts[j])
  }

  /** These strings, each once, are what was added to a memory. */
  ghost predicate Added(was: set<object>, es: seq<array<char>>, live: set<object>) {
    && (forall i, j :: 0 <= i < |es| && 0 <= j < |es| && i != j ==> es[i] != es[j])
    && All(es) !! was && live == was + All(es)
  }

  lemma AddedOne(was: set<object>, es: seq<array<char>>, live: set<object>, e: array<char>)
    requires Added(was, es, live) && e !in live
    ensures Added(was, es + [e], live + {e})
  {
    var fs := es + [e];
    assert All(fs) == All(es) + {e} by {
      assert fs[|es|] == e;
      forall j | 0 <= j < |es| ensures es[j] in All(fs) {
        assert fs[j] == es[j];
      }
    }
  }

  // ---------------------------------------------------------------- sizes

  function Separator(fmt: bool): string {
    if fmt then ", " else ","
  }

  /** The texts from the i-th on, in a row. */
  function Join(texts: seq<string>, i: nat, fmt: bool): string
    requires i <= |texts|
    decreases |texts| - i
  {
    if i == |texts| then ""
    else texts[i] + (if i + 1 < |texts| then Separator(fmt) else "") + Join(texts, i + 1, fmt)
  }

  /** What is reserved for the first i. */
  function Room(texts: seq<string>, i: nat, fmt: bool): nat
    requires i <= |texts|
  {
    if i == 0 then 0 else Room(texts, i - 1, fmt) + |texts[i - 1]| + 2 + (if fmt then 1 else 0)
  }

  lemma {:induction false} JoinFits(texts: seq<string>, i: nat, fmt: bool)
    requires i <= |texts|
    ensures Room(texts, i, fmt) + |Join(texts, i, fmt)| <= Room(texts, |texts|, fmt)
    decreases |texts| - i
  {
    if i < |texts| {
      JoinFits(texts, i + 1, fmt);
    }
  }

  function Texts(items: seq<Json>, d: nat, fmt: bool): (ts: seq<string>)
    ensures |ts| == |items| && forall i :: 0 <= i < |items| ==> ts[i] == Print(items[i], d, fmt)
  {
    seq(|items|, i requires 0 <= i < |items| => Print(items[i], d, fmt))
  }

  lemma {:induction false} JoinItems(items: seq<Json>, i: nat, d: nat, fmt: bool)
    requires i <= |items|
    ensures Join(Texts(items, d, fmt), i, fmt) == PrintItems(items[i..], d, fmt)
    decreases |items| - i
  {
    hide Print;
    if i < |items| {
      JoinItems(items, i + 1, d, fmt);
      var rest := items[i..];
      assert rest[0] == items[i] && rest[1..] == items[i + 1..];
      if i + 1 == |items| {
        assert Print(items[i], d, fmt) + "" + "" == Print(items[i], d, fmt);
      }
    }
  }

  // ---------------------------------------------------------------- writing

  /** A text copied into a buffer. */
  method PutAt(out: array<char>, ptr: nat, s: string) returns (end: nat)
    requires ptr + |s| <= out.Length
    modifies out
    ensures end == ptr + |s| && out[..end] == old(out[..ptr]) + s
  {
    forall i | 0 <= i < |s| {
      out[ptr + i] := s[i];
    }
    end := ptr + |s|;
    assert out[ptr..end] == s;
  }

  /** A string copied into a buffer, without its terminator. */
  method PutString(out: array<char>, ptr: nat, e: array<char>, ghost s: string) returns (end: nat)
    requires Spells(e, s) && ptr + |s| <= out.Length && e != out
    modifies out
    ensures end == ptr + |s| && out[..end] == old(out[..ptr]) + s
  {
    var tmplen := Strlen(e, s);
    forall i | 0 <= i < tmplen {
      out[ptr + i] := e[i];
    }
    end := ptr + tmplen;
    assert out[ptr..end] == e[..tmplen] == s;
  }

  method Strlen(e: array<char>, ghost s: string) returns (n: nat)
    requires Spells(e, s)
    ensures n == |s|
  {
    hide Spells;
    n := 0;
    TextAt(e, s, 0);
    while e[n] != '\0'
      invariant n <= |s| && n < e.Length && (e[n] == '\0' <==> n == |s|)
      decreases |s| - n
    {
      TextAt(e, s, n + 1);
      n := n + 1;
    }
  }

  /** cJSON_strdup of a constant. */
  method Copied(heap: Heap, s: string) returns (out: array<char>)
    requires heap.Valid() && NulFree(s)
    modifies heap
    ensures heap.Valid() && fresh(out) && Spells(out, s) && heap.live == old(heap.live) + {out}
  {
    out := heap.NewText(|s| + 1);
    var end := PutAt(out, 0, s);
    out[end] := '\0';
    assert out[..|s|] == s;
  }

  /** print_string_ptr, with a buffer of its own. */
  method PrintStringAlloc(heap: Heap, str: array<char>, ghost text: string) returns (out: array<char>)
    requires heap.Valid() && Spells(str, text) && str in heap.live
    modifies heap
    ensures heap.Valid() && fresh(out) && Spells(out, Quote(text)) && heap.live == old(heap.live) + {out}
  {
    hide Escape, EscapeChar, NeedsEscape, Spells;
    var flag, len := Scan(str, text);
    if flag {
      len := EscapedLength(str, text);
    } else {
      NothingToEscape(str, text);
    }
    out := heap.NewText(len + 3);
    var p := new PrintBuffer(out);
    assert p.Has("");
    if flag {
      PutEscapes(p, str, text, "");
    } else {
      PutPlain(p, str, len, text, "");
    }
    SpelledText(str, text);
    QuoteNulFree(text);
    WrittenSpells(p, Quote(text));
  }

  lemma SpelledText(str: array<char>, text: string)
    requires Spells(str, text)
    ensures NulFree(text)
  {
  }

  lemma WrittenSpells(p: PrintBuffer, t: string)
    requires p.Written("", t) && NulFree(t)
    ensures Spells(p.buffer, t)
  {
    assert "" + t == t;
  }

  // ---------------------------------------------------------------- values

  /** A tree in memory that can be printed. */
  ghost predicate Ready(heap: Heap, n: Node)
    reads heap
  {
    heap.Valid() && Apart(n) && Objects(n) <= heap.live && Complete(n) && Printable(Value(n))
  }

  /** print_value without a buffer: a new string, and nothing else is left in memory. */
  method PrintValueAlloc(heap: Heap, item: Item, depth: nat, fmt: bool, ghost n: Node) returns (out: array<char>)
    requires item == n.item && Holds(n) && Ready(heap, n)
    modifies heap
    ensures heap.Valid() && fresh(out) && Spells(out, Print(Value(n), depth, fmt)) && Holds(n)
    ensures heap.live == old(heap.live) + {out} && out !in old(heap.live)
    decreases n, 4
  {
    hide Holds, Apart, Objects, Print, Printable, PrintInt, Quote, Spells;
    HoldsIs(n);
    ApartParts(n);
    Leaf(n, depth, fmt);
    match item.kind {
      case NullKind => out := Copied(heap, "null");
      case FalseKind => out := Copied(heap, "false");
      case TrueKind => out := Copied(heap, "true");
      case NumberKind => out := PrintNumberAlloc(heap, item.mantissa);
      case StringKind => out := PrintStringAlloc(heap, item.valuestring, n.str);
      case ArrayKind => out := PrintArrayAlloc(heap, item, depth, fmt, n);
      case ObjectKind => out := PrintObjectAlloc(heap, item, depth, fmt, n);
    }
  }

  lemma Leaf(n: Node, d: nat, fmt: bool)
    ensures n.kind == NullKind ==> Print(Value(n), d, fmt) == "null"
    ensures n.kind == FalseKind ==> Print(Value(n), d, fmt) == "false"
    ensures n.kind == TrueKind ==> Print(Value(n), d, fmt) == "true"
    ensures n.kind == NumberKind ==> Print(Value(n), d, fmt) == PrintInt(n.mantissa)
                                     && (Printable(Value(n)) ==> INT_MIN <= n.mantissa <= INT_MAX)
    ensures n.kind == StringKind ==> Print(Value(n), d, fmt) == Quote(n.str)
  {
  }

  /** print_number, in 21 characters or, for zero, in two. */
  method PrintNumberAlloc(heap: Heap, mantissa: int) returns (out: array<char>)
    requires heap.Valid() && INT_MIN <= mantissa <= INT_MAX
    modifies heap
    ensures heap.Valid() && fresh(out) && Spells(out, PrintInt(mantissa)) && heap.live == old(heap.live) + {out}
  {
    hide Decimal;
    IntSize(mantissa);
    var text := PrintInt(mantissa);
    DecimalNulFree(if mantissa < 0 then -mantissa else mantissa);
    DecimalStart(0);
    out := heap.NewText(if mantissa == 0 then 2 else 21);
    var end := PutAt(out, 0, text);
    out[end] := '\0';
    assert out[..|text|] == text;
  }

  // ---------------------------------------------------------------- arrays

  /** The loop that prints the elements. */
  method PrintEntries(heap: Heap, first: Item?, entries: Table, depth: nat, fmt: bool, ghost n: Node)
    returns (len: nat, ghost es: seq<array<char>>)
    requires heap.Valid() && first == First(n.kids) && Holds(n) && Apart(n) && Objects(n) <= heap.live
    requires forall i :: 0 <= i < |n.kids| ==> Complete(n.kids[i]) && Printable(Value(n.kids[i]))
    requires entries.Length == |n.kids| && entries in heap.live && entries !in Objects(n)
    modifies heap, entries
    ensures heap.Valid() && Holds(n) && |es| == |n.kids| && Filled(entries, es)
    ensures Strings(es, Texts(Values(n.kids), depth, fmt)) && Added(old(heap.live), es, heap.live)
    ensures len == 5 + Room(Texts(Values(n.kids), depth, fmt), |n.kids|, fmt)
    decreases n, 2
  {
    hide Holds, Apart, Objects, Print, Printable, Value, Complete, Spells, Added;
    ghost var texts, was := Texts(Values(n.kids), depth, fmt), heap.live;
    es := [];
    AddedNone(was);
    len := 5;
    var child, i: nat := first, 0;
    while child != null
      invariant i <= |n.kids| && child == ItemAt(n.kids, i) && heap.Valid() && Holds(n) && Objects(n) <= heap.live
      invariant |es| == i && Filled(entries, es) && Added(was, es, heap.live) && entries in heap.live
      invariant forall j :: 0 <= j < i ==> Spells(es[j], texts[j])
      invariant len == 5 + Room(texts, i, fmt)
      decreases |n.kids| - i
    {
      KidAt(n, i);
      ghost var l := heap.live;
      var ret := PrintValueAlloc(heap, child, depth, fmt, n.kids[i]);
      AddedOne(was, es, l, ret);
      entries[i] := ret;
      var size := Strlen(ret, texts[i]);
      len := len + size + 2 + (if fmt then 1 else 0);
      KidAt(n, i);
      es, child, i := es + [ret], child.next, i + 1;
    }
  }

  lemma AddedNone(was: set<object>)
    ensures Added(was, [], was)
  {
  }

  /** The strings from the i-th on. */
  ghost function AllFrom(es: seq<array<char>>, i: nat): set<object> {
    set j | i <= j < |es| :: es[j] as object
  }

  /** The i-th string freed. */
  lemma FreeOne(base: set<object>, es: seq<array<char>>, i: nat)
    requires i < |es| && All(es) !! base
    requires forall j, k :: 0 <= j < |es| && 0 <= k < |es| && j != k ==> es[j] != es[k]
    ensures es[i] in AllFrom(es, i) && es[i] !in base
    ensures base + AllFrom(es, i) - {es[i]} == base + AllFrom(es, i + 1)
  {
    assert es[i] in All(es);
    assert es[i] !in AllFrom(es, i + 1);
  }

  lemma JoinStep(texts: seq<string>, i: nat, fmt: bool, front: string)
    requires i < |texts|
    ensures front + texts[i] + (if i + 1 < |texts| then Separator(fmt) else "") + Join(texts, i + 1, fmt)
            == front + Join(texts, i, fmt)
  {
    var sep := if i + 1 < |texts| then Separator(fmt) else "";
    var rest := Join(texts, i + 1, fmt);
    assert front + texts[i] + sep + rest == front + (texts[i] + sep + rest);
  }

  /** One round of the loop that puts the array together. */
  method ComposeOne(heap: Heap, e: array<char>, out: array<char>, ptr: nat, last: bool, fmt: bool, ghost text: string)
    returns (end: nat)
    requires heap.Valid() && e in heap.live && e != out && Spells(e, text)
    requires ptr + |text| + (if last then 0 else |Separator(fmt)| + 1) <= out.Length
    modifies heap, out
    ensures heap.Valid() && heap.live == old(heap.live) - {e}
    ensures end <= out.Length && out[..end] == old(out[..ptr]) + text + (if last then "" else Separator(fmt))
  {
    hide Spells;
    ghost var front := out[..ptr];
    end := PutString(out, ptr, e, text);
    if !last {
      end := PutAt(out, end, if fmt then ", " else ",");
      out[end] := '\0';
      assert out[..end] == front + text + Separator(fmt);
    } else {
      assert front + text + "" == front + text;
    }
    heap.Free(e);
  }

  /** The loop that puts the array together and frees its parts. */
  method Compose(heap: Heap, entries: Table, out: array<char>, fmt: bool, ghost es: seq<array<char>>,
                 ghost texts: seq<string>, ghost base: set<object>)
    returns (ptr: nat)
    requires heap.Valid() && Filled(entries, es) && |es| == entries.Length && Strings(es, texts)
    requires Added(base, es, heap.live) && out in base && entries in base
    requires out.Length >= 4 + Room(texts, |texts|, fmt)
    modifies heap, out
    ensures heap.Valid() && heap.live == base
    ensures ptr + 2 <= out.Length && out[..ptr] == "[" + Join(texts, 0, fmt)
  {
    hide Spells, Join, Room;
    out[0] := '[';
    ptr := 1;
    out[ptr] := '\0';
    assert out[..1] == "[";
    var i: nat := 0;
    ghost var front := "[";
    RoomNone(texts, fmt);
    JoinNone(texts, fmt);
    assert All(es) == AllFrom(es, 0);
    while i < entries.Length
      invariant i <= |es| && heap.Valid() && heap.live == base + AllFrom(es, i) && Filled(entries, es)
      invariant forall j :: i <= j < |es| ==> Spells(es[j], texts[j])
      invariant ptr == |front| <= out.Length && out[..ptr] == front
      invariant front + Join(texts, i, fmt) == "[" + Join(texts, 0, fmt)
    {
      JoinFits(texts, 0, fmt);
      JoinStep(texts, i, fmt, front);
      FreeOne(base, es, i);
      InAll(es, i);
      ghost var sep := if i + 1 < |texts| then Separator(fmt) else "";
      ptr := ComposeOne(heap, entries[i], out, ptr, i == entries.Length - 1, fmt, texts[i]);
      front := front + texts[i] + sep;
      i := i + 1;
    }
    assert front + "" == front;
    JoinFits(texts, 0, fmt);
    assert AllFrom(es, |es|) == {};
  }

  lemma InAll(es: seq<array<char>>, i: nat)
    requires i < |es|
    ensures es[i] in All(es)
  {
  }

  lemma RoomNone(texts: seq<string>, fmt: bool)
    ensures Room(texts, 0, fmt) == 0
  {
  }

  lemma JoinNone(texts: seq<string>, fmt: bool)
    ensures Join(texts, |texts|, fmt) == ""
  {
  }

  /** print_array without a buffer: the size that was added up is enough, and all that is left in memory is
      the result. */
  method PrintArrayAlloc(heap: Heap, item: Item, depth: nat, fmt: bool, ghost n: Node) returns (out: array<char>)
    requires item == n.item && n.kind == ArrayKind && Holds(n) && Ready(heap, n)
    modifies heap
    ensures heap.Valid() && fresh(out) && Spells(out, Print(Value(n), depth, fmt)) && Holds(n)
    ensures heap.live == old(heap.live) + {out} && out !in old(heap.live)
    decreases n, 3
  {
    hide Holds, Apart, Objects, Print, Printable, Value, Complete, Spells, Join, Room;
    ghost var texts := Texts(Values(n.kids), depth + 1, fmt);
    HoldsIs(n);
    FormattedArray(n, depth, fmt);
    PrintNulFree(Value(n), depth, fmt);
    KidsReady(n);
    var numentries := GetArraySize(item, n);
    if numentries == 0 {
      out := Copied(heap, "[]");
      return;
    }
    var entries := heap.NewTable(numentries);
    ghost var l1 := heap.live;
    var len;
    ghost var es;
    len, es := PrintEntries(heap, item.child, entries, depth + 1, fmt, n);
    ghost var l2 := heap.live;
    out := heap.NewText(len);
    AddedMore(l1, es, l2, out);
    var ptr := Compose(heap, entries, out, fmt, es, texts, l1 + {out});
    heap.Free(entries);
    out[ptr], out[ptr + 1] := ']', '\0';
    Finished(out, Print(Value(n), depth, fmt), "[" + Join(texts, 0, fmt), "]");
  }

  lemma Finished(out: array<char>, text: string, front: string, e: string)
    requires text == front + e && |e| == 1 && NulFree(text) && |front| + 1 < out.Length
    requires out[..|front|] == front && out[|front|] == e[0] && out[|front| + 1] == '\0'
    ensures Spells(out, text)
  {
    assert out[..|text|] == text;
  }

  lemma AddedMore(was: set<object>, es: seq<array<char>>, live: set<object>, o: object)
    requires Added(was, es, live) && o !in live
    ensures Added(was + {o}, es, live + {o})
  {
  }

  lemma FormattedArray(n: Node, d: nat, fmt: bool)
    requires n.kind == ArrayKind
    ensures Print(Value(n), d, fmt)
            == if n.kids == [] then "[]" else "[" + Join(Texts(Values(n.kids), d + 1, fmt), 0, fmt) + "]"
  {
    hide Value, PrintItems, Join;
    ArrayValue(n);
    JoinItems(Values(n.kids), 0, d + 1, fmt);
    assert Values(n.kids)[0..] == Values(n.kids);
  }

  lemma KidsReady(n: Node)
    requires Complete(n) && Printable(Value(n)) && (n.kind == ArrayKind || n.kind == ObjectKind)
    ensures forall i :: 0 <= i < |n.kids| ==> Complete(n.kids[i]) && Printable(Value(n.kids[i]))
    ensures n.kind == ObjectKind ==>
              forall i :: 0 <= i < |n.kids| ==> n.kids[i].name != null && NulFree(n.kids[i].key)
  {
    hide Value;
    if n.kind == ArrayKind {
      ArrayValue(n);
      forall i | 0 <= i < |n.kids| ensures Printable(Value(n.kids[i])) {
        assert Printable(Value(n).items[i]);
      }
    } else {
      ObjectValue(n);
      forall i | 0 <= i < |n.kids| ensures Printable(Value(n.kids[i])) && NulFree(n.kids[i].key) {
        assert Printable(Value(n).members[i].value);
      }
    }
  }

  // ---------------------------------------------------------------- objects

  /** The printed names of the members, and their values. */
  function Names(members: seq<Member>): (ts: seq<string>)
    ensures |ts| == |members| && forall i :: 0 <= i < |members| ==> ts[i] == Quote(members[i].key)
  {
    seq(|members|, i requires 0 <= i < |members| => Quote(members[i].key))
  }

  function Held(members: seq<Member>): (js: seq<Json>)
    ensures |js| == |members| && forall i :: 0 <= i < |members| ==> js[i] == members[i].value
  {
    seq(|members|, i requires 0 <= i < |members| => members[i].value)
  }

  /** One member as it is printed. */
  function Line(name: string, value: string, d: nat, fmt: bool, last: bool): string {
    (if fmt then Tabs(d) else "") + name + (if fmt then ":\t" else ":") + value
    + (if last then "" else ",") + (if fmt then "\n" else "")
  }

  function Lines(ns: seq<string>, vs: seq<string>, i: nat, d: nat, fmt: bool): string
    requires i <= |ns| == |vs|
    decreases |ns| - i
  {
    if i == |ns| then "" else Line(ns[i], vs[i], d, fmt, i + 1 == |ns|) + Lines(ns, vs, i + 1, d, fmt)
  }

  /** What is reserved for the first i members. */
  function RoomOf(ns: seq<string>, vs: seq<string>, i: nat, d: nat, fmt: bool): nat
    requires i <= |ns| == |vs|
  {
    if i == 0 then 0
    else RoomOf(ns, vs, i - 1, d, fmt) + |vs[i - 1]| + |ns[i - 1]| + 2 + (if fmt then 2 + d else 0)
  }

  lemma LineSize(name: string, value: string, d: nat, fmt: bool, last: bool)
    ensures |Line(name, value, d, fmt, last)| <= |value| + |name| + 2 + (if fmt then 2 + d else 0)
  {
    TabsLength(d);
  }

  lemma {:induction false} LinesFit(ns: seq<string>, vs: seq<string>, i: nat, d: nat, fmt: bool)
    requires i <= |ns| == |vs|
    ensures RoomOf(ns, vs, i, d, fmt) + |Lines(ns, vs, i, d, fmt)| <= RoomOf(ns, vs, |ns|, d, fmt)
    decreases |ns| - i
  {
    hide Line;
    if i < |ns| {
      LineSize(ns[i], vs[i], d, fmt, i + 1 == |ns|);
      LinesFit(ns, vs, i + 1, d, fmt);
    }
  }

  lemma {:induction false} LinesOfMembers(members: seq<Member>, i: nat, d: nat, fmt: bool)
    requires i <= |members|
    ensures Lines(Names(members), Texts(Held(members), d, fmt), i, d, fmt) == PrintMembers(members[i..], d, fmt)
    decreases |members| - i
  {
    hide Print, Quote, Tabs;
    if i < |members| {
      LinesOfMembers(members, i + 1, d, fmt);
      var rest := members[i..];
      assert rest[0] == members[i] && rest[1..] == members[i + 1..];
      LineOf(members[i], d, fmt, i + 1 == |members|);
    }
  }

  lemma LineOf(m: Member, d: nat, fmt: bool, last: bool)
    ensures Line(Quote(m.key), Print(m.value, d, fmt), d, fmt, last)
            == PrintMember(m, d, fmt) + (if last then "" else ",") + (if fmt then "\n" else "")
  {
    hide Print, Quote, Tabs;
  }

  lemma FormattedObject(n: Node, d: nat, fmt: bool)
    requires n.kind == ObjectKind
    ensures Print(Value(n), d, fmt)
            == if n.kids == [] then (if fmt then "{\n" + Tabs(if d == 0 then 0 else d - 1) + "}" else "{}")
               else "{" + (if fmt then "\n" else "")
                    + Lines(Names(MembersOf(n.kids)), Texts(Held(MembersOf(n.kids)), d + 1, fmt), 0, d + 1, fmt)
                    + (if fmt then Tabs(d) else "") + "}"
  {
    hide Value, PrintMembers, Lines, Tabs;
    ObjectValue(n);
    LinesOfMembers(MembersOf(n.kids), 0, d + 1, fmt);
    assert MembersOf(n.kids)[0..] == MembersOf(n.kids);
  }

  /** So many tabs. */
  method PutTabs(out: array<char>, ptr: nat, n: nat) returns (end: nat)
    requires ptr + n <= out.Length
    modifies out
    ensures end == ptr + n == ptr + |Tabs(n)| && out[..end] == old(out[..ptr]) + Tabs(n)
  {
    ghost var front := out[..ptr];
    end := ptr;
    var j: nat := 0;
    while j < n
      invariant j <= n && end == ptr + j && out[..end] == front + Tabs(j) && |Tabs(j)| == j
    {
      TabsMore(j);
      out[end] := '\t';
      end := end + 1;
      assert out[..end] == front + Tabs(j) + "\t";
      j := j + 1;
    }
  }

  lemma {:induction false} TabsMore(n: nat)
    ensures Tabs(n + 1) == Tabs(n) + "\t" && |Tabs(n + 1)| == |Tabs(n)| + 1
    decreases n
  {
    if n == 0 {
      assert Tabs(1) == [TAB] + Tabs(0);
    } else {
      TabsMore(n - 1);
      assert [TAB] + (Tabs(n - 1) + "\t") == ([TAB] + Tabs(n - 1)) + "\t";
    }
  }

  /** Names and values, each a string of its own, are what was added to a memory. */
  ghost predicate BothAdded(was: set<object>, es: seq<array<char>>, fs: seq<array<char>>, live: set<object>) {
    Added(was, es, was + All(es)) && Added(was + All(es), fs, live)
  }

  lemma BothAddedOne(was: set<object>, es: seq<array<char>>, fs: seq<array<char>>, live: set<object>,
                     e: array<char>, f: array<char>)
    requires BothAdded(was, es, fs, live) && e !in live && f !in live && e != f
    ensures BothAdded(was, es + [e], fs + [f], live + {e} + {f})
  {
    AddedOne(was, es, was + All(es), e);
    AddedOne(was + All(es), fs, live, f);
    assert was + All(es + [e]) == was + All(es) + {e};
    assert was + All(es) + {e} + All(fs + [f]) == live + {e} + {f};
  }

  /** The printed name and the printed value of one member. */
  method PrintPairAlloc(heap: Heap, child: Item, depth: nat, fmt: bool, ghost n: Node, ghost i: nat)
    returns (str: array<char>, ret: array<char>)
    requires heap.Valid() && i < |n.kids| && child == n.kids[i].item && Holds(n) && Apart(n) && Objects(n) <= heap.live
    requires Complete(n.kids[i]) && Printable(Value(n.kids[i])) && n.kids[i].name != null
    modifies heap
    ensures heap.Valid() && Holds(n) && fresh(str) && fresh(ret) && str != ret
    ensures Spells(str, Quote(n.kids[i].key)) && Spells(ret, Print(Value(n.kids[i]), depth, fmt))
    ensures str !in old(heap.live) && ret !in old(heap.live) && heap.live == old(heap.live) + {str} + {ret}
    decreases n, 0
  {
    hide Holds, Apart, Objects, Print, Printable, Value, Complete, Spells, Quote;
    ghost var k := n.kids[i];
    KidAt(n, i);
    HoldsIs(k);
    ApartParts(k);
    str := PrintStringAlloc(heap, child.name, k.key);
    ret := PrintValueAlloc(heap, child, depth, fmt, k);
  }

  /** The names and values of the first members. */
  ghost predicate Spelled(n: Node, depth: nat, fmt: bool, es: seq<array<char>>, fs: seq<array<char>>)
    reads All(es), All(fs)
  {
    && |es| == |fs| <= |n.kids|
    && forall j :: 0 <= j < |es| ==>
         Spells(es[j], Quote(n.kids[j].key)) && Spells(fs[j], Print(Value(n.kids[j]), depth, fmt))
  }

  lemma SpelledMore(n: Node, depth: nat, fmt: bool, es: seq<array<char>>, fs: seq<array<char>>, e: array<char>,
          f: array<char>)
    requires Spelled(n, depth, fmt, es, fs) && |es| < |n.kids|
    requires Spells(e, Quote(n.kids[|es|].key)) && Spells(f, Print(Value(n.kids[|es|]), depth, fmt))
    ensures Spelled(n, depth, fmt, es + [e], fs + [f])
  {
    hide Spells, Quote, Print, Value;
    var es', fs' := es + [e], fs + [f];
    forall j | 0 <= j < |es'|
      ensures Spells(es'[j], Quote(n.kids[j].key)) && Spells(fs'[j], Print(Value(n.kids[j]), depth, fmt))
    {
      if j < |es| {
        assert es'[j] == es[j] && fs'[j] == fs[j];
      }
    }
  }

  /** The size that is reserved for the first i members. */
  ghost function SizeOf(n: Node, depth: nat, fmt: bool, i: nat): nat
    requires i <= |n.kids|
  {
    7 + (if fmt then depth else 0)
    + RoomOf(Names(MembersOf(n.kids)), Texts(Held(MembersOf(n.kids)), depth, fmt), i, depth, fmt)
  }

  lemma SizeMore(n: Node, depth: nat, fmt: bool, i: nat)
    requires i < |n.kids|
    ensures SizeOf(n, depth, fmt, i + 1) == SizeOf(n, depth, fmt, i) + |Print(Value(n.kids[i]), depth, fmt)|
                                             + |Quote(n.kids[i].key)| + 2 + if fmt then 2 + depth else 0
  {
    hide Print, Quote, Value;
  }

  /** The names and values printed so far, and the size added up so far. */
  ghost predicate Progress(heap: Heap, names: Table, entries: Table, n: Node, depth: nat, fmt: bool, was: set<object>,
                           es: seq<array<char>>, fs: seq<array<char>>, len: nat)
    reads heap, names, entries, All(es), All(fs)
  {
    && heap.Valid() && Spelled(n, depth, fmt, es, fs) && len == SizeOf(n, depth, fmt, |es|)
    && |n.kids| == names.Length == entries.Length && names != entries
    && Filled(names, es) && Filled(entries, fs) && BothAdded(was, es, fs, heap.live)
    && Objects(n) + {names, entries} <= was && names !in Objects(n) && entries !in Objects(n)
  }

  lemma ProgressParts(heap: Heap, names: Table, entries: Table, n: Node, depth: nat, fmt: bool, was: set<object>,
                      es: seq<array<char>>, fs: seq<array<char>>, len: nat)
    ensures Progress(heap, names, entries, n, depth, fmt, was, es, fs, len)
            <==> (&& heap.Valid() && Spelled(n, depth, fmt, es, fs) && |es| == |fs| <= |n.kids|
                && len == SizeOf(n, depth, fmt, |es|)
                  && |n.kids| == names.Length == entries.Length && names != entries
                  && Filled(names, es) && Filled(entries, fs) && BothAdded(was, es, fs, heap.live)
                  && Objects(n) + {names, entries} <= was && names !in Objects(n) && entries !in Objects(n))
  {
  }

  method Store(t: Table, i: nat, e: array<char>, ghost es: seq<array<char>>)
    requires Filled(t, es) && i == |es| < t.Length
    modifies t
    ensures Filled(t, es + [e])
  {
    t[i] := e;
  }

  /** One round of the loop over the members. */
  method AddPair(heap: Heap, child: Item, names: Table, entries: Table, i: nat, depth: nat, fmt: bool, ghost n: Node,
                 ghost was: set<object>, ghost es: seq<array<char>>, ghost fs: seq<array<char>>, len0: nat)
    returns (ghost es': seq<array<char>>, ghost fs': seq<array<char>>, len: nat)
    requires Progress(heap, names, entries, n, depth, fmt, was, es, fs, len0) && |es| == i < |n.kids|
    requires child == n.kids[i].item && Holds(n) && Apart(n)
    requires Complete(n.kids[i]) && Printable(Value(n.kids[i])) && n.kids[i].name != null
    modifies heap, names, entries
    ensures Progress(heap, names, entries, n, depth, fmt, was, es', fs', len) && |es'| == i + 1 && Holds(n)
    decreases n, 1
  {
    hide Holds, Apart, Objects, Print, Printable, Value, Complete, Spells, Quote, BothAdded, SizeOf, Spelled, Progress;
    ghost var l := heap.live;
    ProgressParts(heap, names, entries, n, depth, fmt, was, es, fs, len0);
    BothLive(was, es, fs, l);
    var str, ret := PrintPairAlloc(heap, child, depth, fmt, n, i);
    BothAddedOne(was, es, fs, l, str, ret);
    SpelledMore(n, depth, fmt, es, fs, str, ret);
    SizeMore(n, depth, fmt, i);
    NotAdded(was, es + [str], fs + [ret], heap.live, names);
    NotAdded(was, es + [str], fs + [ret], heap.live, entries);
    var valueSize := Strlen(ret, Print(Value(n.kids[i]), depth, fmt));
    var nameSize := Strlen(str, Quote(n.kids[i].key));
    len := len0 + valueSize + nameSize + 2 + (if fmt then 2 + depth else 0);
    Store(names, i, str, es);
    Store(entries, i, ret, fs);
    es', fs' := es + [str], fs + [ret];
    ProgressParts(heap, names, entries, n, depth, fmt, was, es', fs', len);
  }

  lemma NotAdded(was: set<object>, es: seq<array<char>>, fs: seq<array<char>>, live: set<object>, o: object)
    requires BothAdded(was, es, fs, live) && o in was
    ensures o !in All(es) && o !in All(fs)
  {
  }

  lemma BothLive(was: set<object>, es: seq<array<char>>, fs: seq<array<char>>, live: set<object>)
    requires BothAdded(was, es, fs, live)
    ensures was + All(es) + All(fs) == live
  {
  }

  /** The loop that prints the members. */
  method PrintPairsAlloc(heap: Heap, first: Item?, names: Table, entries: Table, depth: nat, fmt: bool, ghost n: Node)
    returns (len: nat, ghost es: seq<array<char>>, ghost fs: seq<array<char>>)
    requires heap.Valid() && first == First(n.kids) && Holds(n) && Apart(n) && Objects(n) <= heap.live
    requires forall i :: 0 <= i < |n.kids| ==>
               Complete(n.kids[i]) && Printable(Value(n.kids[i])) && n.kids[i].name != null
    requires names.Length == entries.Length == |n.kids| && {names, entries} <= heap.live && names != entries
    requires names !in Objects(n) && entries !in Objects(n)
    modifies heap, names, entries
    ensures Progress(heap, names, entries, n, depth, fmt, old(heap.live), es, fs, len) && |es| == |n.kids| && Holds(n)
    decreases n, 2
  {
    hide Holds, Apart, Objects, Print, Printable, Value, Complete, Spells, BothAdded, Quote, Progress, SizeOf;
    ghost var was := heap.live;
    es, fs := [], [];
    len := 7;
    if fmt {
      len := len + depth;
    }
    ProgressNone(heap, names, entries, n, depth, fmt, was, len);
    var child, i: nat := first, 0;
    while child != null
      invariant i <= |n.kids| && child == ItemAt(n.kids, i) && Holds(n) && |es| == i
      invariant Progress(heap, names, entries, n, depth, fmt, was, es, fs, len)
      decreases |n.kids| - i
    {
      KidAt(n, i);
      es, fs, len := AddPair(heap, child, names, entries, i, depth, fmt, n, was, es, fs, len);
      KidAt(n, i);
      child, i := child.next, i + 1;
    }
  }

  lemma ProgressNone(heap: Heap, names: Table, entries: Table, n: Node, depth: nat, fmt: bool, was: set<object>,
          len: nat)
    requires heap.Valid() && |n.kids| == names.Length == entries.Length && names != entries && was == heap.live
    requires Objects(n) + {names, entries} <= was && names !in Objects(n) && entries !in Objects(n)
    requires len == 7 + if fmt then depth else 0
    ensures Progress(heap, names, entries, n, depth, fmt, was, [], [], len)
  {
    hide Objects, BothAdded;
    BothNone(was);
  }

  lemma BothNone(was: set<object>)
    ensures BothAdded(was, [], [], was)
  {
  }

  // ---------------------------------------------------------------- putting the object together

  lemma LinesStep(ns: seq<string>, vs: seq<string>, i: nat, d: nat, fmt: bool, front: string)
    requires i < |ns| == |vs|
    ensures front + Line(ns[i], vs[i], d, fmt, i + 1 == |ns|) + Lines(ns, vs, i + 1, d, fmt)
            == front + Lines(ns, vs, i, d, fmt)
  {
    hide Line;
    var line, rest := Line(ns[i], vs[i], d, fmt, i + 1 == |ns|), Lines(ns, vs, i + 1, d, fmt);
    assert front + line + rest == front + (line + rest);
  }

  lemma LinesNone(ns: seq<string>, vs: seq<string>, d: nat, fmt: bool)
    requires |ns| == |vs|
    ensures Lines(ns, vs, |ns|, d, fmt) == "" && RoomOf(ns, vs, 0, d, fmt) == 0
  {
  }

  /** The text of one line, piece by piece. */
  lemma LinePieces(front: string, name: string, value: string, d: nat, fmt: bool, last: bool)
    ensures front + (if fmt then Tabs(d) else "") + name + (if fmt then ":\t" else ":") + value
            + (if last then "" else ",") + (if fmt then "\n" else "") == front + Line(name, value, d, fmt, last)
    ensures |Line(name, value, d, fmt, last)|
            == (if fmt then d + 2 else 0) + |name| + 1 + |value| + (if last then 0 else 1)
  {
    hide Tabs;
    TabsLength(d);
    var a := if fmt then Tabs(d) else "";
    var b := if fmt then ":\t" else ":";
    var c := if last then "" else ",";
    var e := if fmt then "\n" else "";
    assert front + a + name + b + value + c + e == front + (a + name + b + value + c + e);
  }

  /** One round of the loop that puts the object together, before the strings are freed. */
  method ComposeLine(name: array<char>, value: array<char>, out: array<char>, ptr: nat, depth: nat, last: bool,
                     fmt: bool, ghost ns: string, ghost vs: string)
    returns (end: nat)
    requires Spells(name, ns) && Spells(value, vs) && name != out && value != out
    requires ptr + |Line(ns, vs, depth, fmt, last)| < out.Length
    modifies out
    ensures end < out.Length && out[..end] == old(out[..ptr]) + Line(ns, vs, depth, fmt, last)
  {
    hide Spells, Tabs, Line;
    ghost var front := out[..ptr];
    LinePieces(front, ns, vs, depth, fmt, last);
    TabsLength(depth);
    end := ptr;
    if fmt {
      end := PutTabs(out, end, depth);
    }
    end := PutString(out, end, name, ns);
    end := PutAt(out, end, if fmt then ":\t" else ":");
    end := PutString(out, end, value, vs);
    end := PutAt(out, end, if last then "" else ",");
    end := PutAt(out, end, if fmt then "\n" else "");
    out[end] := '\0';
  }

  /** One round of the loop that puts the object together. */
  method ComposePair(heap: Heap, name: array<char>, value: array<char>, out: array<char>, ptr: nat, depth: nat,
                     last: bool, fmt: bool, ghost ns: string, ghost vs: string)
    returns (end: nat)
    requires heap.Valid() && name in heap.live && value in heap.live && name != value && name != out && value != out
    requires Spells(name, ns) && Spells(value, vs) && ptr + |Line(ns, vs, depth, fmt, last)| < out.Length
    modifies heap, out
    ensures heap.Valid() && heap.live == old(heap.live) - {name} - {value}
    ensures end < out.Length && out[..end] == old(out[..ptr]) + Line(ns, vs, depth, fmt, last)
  {
    hide Spells, Line;
    end := ComposeLine(name, value, out, ptr, depth, last, fmt, ns, vs);
    heap.Free(name);
    heap.Free(value);
  }

  /** The i-th name and value freed. */
  lemma FreeBoth(base: set<object>, es: seq<array<char>>, fs: seq<array<char>>, i: nat)
    requires i < |es| == |fs| && BothAdded(base, es, fs, base + All(es) + All(fs))
    ensures es[i] in AllFrom(es, i) && fs[i] in AllFrom(fs, i) && es[i] != fs[i] && es[i] !in base && fs[i] !in base
    ensures base + AllFrom(es, i) + AllFrom(fs, i) - {es[i]} - {fs[i]} == base + AllFrom(es, i + 1) + AllFrom(fs, i + 1)
  {
    FreeOne(base, es, i);
    FreeOne(base + All(es), fs, i);
    assert es[i] in All(es);
    forall j | i <= j < |es| ensures fs[i] != es[j] {
      assert es[j] in All(es);
    }
    forall j | i <= j < |fs| ensures fs[j] != es[i] {
      assert fs[j] in All(fs);
    }
  }

  /** The loop that puts the object together and frees its parts. */
  method ComposeLines(heap: Heap, names: Table, entries: Table, out: array<char>, start: nat, depth: nat, fmt: bool,
                      ghost es: seq<array<char>>, ghost fs: seq<array<char>>, ghost ns: seq<string>,
                      ghost vs: seq<string>, ghost base: set<object>)
    returns (ptr: nat)
    requires heap.Valid() && Filled(names, es) && Filled(entries, fs) && |es| == |fs| == names.Length == entries.Length
    requires Strings(es, ns) && Strings(fs, vs) && BothAdded(base, es, fs, heap.live)
    requires out in base && {names, entries} <= base && start + |Lines(ns, vs, 0, depth, fmt)| < out.Length
    modifies heap, out
    ensures heap.Valid() && heap.live == base
    ensures ptr < out.Length && out[..ptr] == old(out[..start]) + Lines(ns, vs, 0, depth, fmt)
  {
    hide Spells, Line, Lines, RoomOf, BothAdded;
    ptr := start;
    var i: nat := 0;
    ghost var front0 := out[..start];
    ghost var front := front0;
    ghost var all := Lines(ns, vs, 0, depth, fmt);
    LinesNone(ns, vs, depth, fmt);
    BothLive(base, es, fs, heap.live);
    BothApart(base, es, fs, heap.live, out);
    assert All(es) == AllFrom(es, 0) && All(fs) == AllFrom(fs, 0);
    while i < names.Length
      invariant i <= |es| && heap.Valid() && heap.live == base + AllFrom(es, i) + AllFrom(fs, i)
      invariant Filled(names, es) && Filled(entries, fs)
      invariant forall j :: i <= j < |es| ==> Spells(es[j], ns[j]) && Spells(fs[j], vs[j])
      invariant ptr == |front| < out.Length && out[..ptr] == front
      invariant front + Lines(ns, vs, i, depth, fmt) == front0 + all
    {
      ghost var line := Line(ns[i], vs[i], depth, fmt, i + 1 == |ns|);
      LinesStep(ns, vs, i, depth, fmt, front);
      FreeBoth(base, es, fs, i);
      assert |front| + |line| <= |front0 + all|;
      ptr := ComposePair(heap, names[i], entries[i], out, ptr, depth, i == names.Length - 1, fmt, ns[i], vs[i]);
      front := front + line;
      i := i + 1;
    }
    assert front + "" == front;
    assert AllFrom(es, |es|) == {} == AllFrom(fs, |fs|);
  }

  lemma BothApart(base: set<object>, es: seq<array<char>>, fs: seq<array<char>>, live: set<object>, o: array<char>)
    requires BothAdded(base, es, fs, live) && o in base
    ensures forall j :: 0 <= j < |es| ==> es[j] != o
    ensures forall j :: 0 <= j < |fs| ==> fs[j] != o
  {
    forall j | 0 <= j < |es| ensures es[j] != o {
      assert es[j] in All(es);
    }
    forall j | 0 <= j < |fs| ensures fs[j] != o {
      assert fs[j] in All(fs);
    }
  }

  /** What has been printed when every member has been. */
  lemma AllPrinted(heap: Heap, names: Table, entries: Table, n: Node, depth: nat, fmt: bool, was: set<object>,
                   es: seq<array<char>>, fs: seq<array<char>>, len: nat)
    requires Progress(heap, names, entries, n, depth, fmt, was, es, fs, len) && |es| == |n.kids|
    ensures heap.Valid() && Filled(names, es) && Filled(entries, fs) && BothAdded(was, es, fs, heap.live)
    ensures |fs| == |es| == names.Length == entries.Length
    ensures Strings(es, Names(MembersOf(n.kids))) && Strings(fs, Texts(Held(MembersOf(n.kids)), depth, fmt))
    ensures 7 + (if fmt then depth else 0)
            + |Lines(Names(MembersOf(n.kids)), Texts(Held(MembersOf(n.kids)), depth, fmt), 0, depth, fmt)| <= len
  {
    hide Spells, Quote, Print, Value, BothAdded, Filled;
    LinesFit(Names(MembersOf(n.kids)), Texts(Held(MembersOf(n.kids)), depth, fmt), 0, depth, fmt);
  }

  lemma BothMore(was: set<object>, es: seq<array<char>>, fs: seq<array<char>>, live: set<object>, o: object)
    requires BothAdded(was, es, fs, live) && o !in live
    ensures BothAdded(was + {o}, es, fs, live + {o})
  {
    AddedMore(was, es, was + All(es), o);
    AddedMore(was + All(es), fs, live, o);
    assert was + {o} + All(es) == was + All(es) + {o};
  }

  /** The opening bracket of an object. */
  method OpenObject(out: array<char>, fmt: bool) returns (ptr: nat)
    requires out.Length >= 3
    modifies out
    ensures ptr < out.Length && out[..ptr] == "{" + if fmt then "\n" else ""
  {
    out[0] := '{';
    ptr := 1;
    if fmt {
      out[ptr] := '\n';
      ptr := ptr + 1;
    }
    assert out[..ptr] == "{" + if fmt then "\n" else "";
  }

  /** An object without members, in the characters that were counted for it. */
  method EmptyObject(heap: Heap, depth: nat, fmt: bool) returns (out: array<char>)
    requires heap.Valid()
    modifies heap
    ensures heap.Valid() && fresh(out) && heap.live == old(heap.live) + {out} && out !in old(heap.live)
    ensures Spells(out, if fmt then "{\n" + Tabs(if depth == 0 then 0 else depth - 1) + "}" else "{}")
  {
    hide Tabs;
    ghost var tabs := Tabs(if depth == 0 then 0 else depth - 1);
    TabsLength(if depth == 0 then 0 else depth - 1);
    TabsNulFree(if depth == 0 then 0 else depth - 1);
    out := heap.NewText(if fmt then depth + 4 else 3);
    var ptr := OpenObject(out, fmt);
    if fmt {
      ptr := PutTabs(out, ptr, if depth == 0 then 0 else depth - 1);
      assert out[..ptr] == "{\n" + tabs;
    }
    out[ptr], out[ptr + 1] := '}', '\0';
    Finished(out, if fmt then "{\n" + tabs + "}" else "{}", if fmt then "{\n" + tabs else "{", "}");
  }

  /** The closing bracket of an object. */
  method CloseObject(out: array<char>, start: nat, depth: nat, fmt: bool, ghost text: string, ghost front: string)
    requires start == |front| && start + (if fmt then depth else 0) + 2 <= out.Length && out[..start] == front
    requires text == front + (if fmt then Tabs(depth) else "") + "}" && NulFree(text)
    modifies out
    ensures Spells(out, text)
  {
    hide Tabs;
    var ptr := start;
    if fmt {
      ptr := PutTabs(out, ptr, depth);
    }
    ghost var whole := front + if fmt then Tabs(depth) else "";
    assert out[..ptr] == whole;
    out[ptr], out[ptr + 1] := '}', '\0';
    Finished(out, text, whole, "}");
  }

  /** print_object without a buffer: the size that was added up is enough, and all that is left in memory is
      the result. */
  method PrintObjectAlloc(heap: Heap, item: Item, depth: nat, fmt: bool, ghost n: Node) returns (out: array<char>)
    requires item == n.item && n.kind == ObjectKind && Holds(n) && Ready(heap, n)
    modifies heap
    ensures heap.Valid() && fresh(out) && Spells(out, Print(Value(n), depth, fmt)) && Holds(n)
    ensures heap.live == old(heap.live) + {out} && out !in old(heap.live)
    decreases n, 3
  {
    hide Holds, Apart, Objects, Print, Printable, Value, Complete, Spells, Lines, RoomOf, Progress, BothAdded, Tabs;
    HoldsIs(n);
    FormattedObject(n, depth, fmt);
    PrintNulFree(Value(n), depth, fmt);
    KidsReady(n);
    var numentries := GetArraySize(item, n);
    if numentries == 0 {
      out := EmptyObject(heap, depth, fmt);
      return;
    }
    out := PrintMembersAlloc(heap, item, numentries, depth, fmt, n);
  }

  /** Putting the object together. */
  method ComposeObject(heap: Heap, names: Table, entries: Table, len: nat, depth: nat, fmt: bool,
                       ghost es: seq<array<char>>, ghost fs: seq<array<char>>, ghost ns: seq<string>,
                       ghost vs: seq<string>, ghost text: string, ghost was: set<object>)
    returns (out: array<char>)
    requires heap.Valid() && Filled(names, es) && Filled(entries, fs) && |es| == |fs| == names.Length == entries.Length
    requires Strings(es, ns) && Strings(fs, vs) && BothAdded(was, es, fs, heap.live)
    requires {names, entries} <= was && names != entries
    requires 7 + (if fmt then depth + 1 else 0) + |Lines(ns, vs, 0, depth + 1, fmt)| <= len
    requires text == "{" + (if fmt then "\n" else "") + Lines(ns, vs, 0, depth + 1, fmt)
                     + (if fmt then Tabs(depth) else "") + "}"
    requires NulFree(text)
    modifies heap
    ensures heap.Valid() && fresh(out) && Spells(out, text) && out !in old(heap.live)
    ensures heap.live == was - {names} - {entries} + {out}
  {
    hide Spells, Lines, BothAdded, Tabs;
    ghost var l2 := heap.live;
    out := heap.NewText(len);
    BothMore(was, es, fs, l2, out);
    BothLive(was, es, fs, l2);
    var ptr := OpenObject(out, fmt);
    ptr := ComposeLines(heap, names, entries, out, ptr, depth + 1, fmt, es, fs, ns, vs, was + {out});
    heap.Free(names);
    heap.Free(entries);
    CloseObject(out, ptr, depth, fmt, text, out[..ptr]);
  }

  /** An object with members. */
  method PrintMembersAlloc(heap: Heap, item: Item, numentries: nat, depth: nat, fmt: bool, ghost n: Node)
    returns (out: array<char>)
    requires item.child == First(n.kids) && numentries == |n.kids| > 0 && Holds(n) && Apart(n) && heap.Valid()
    requires Objects(n) <= heap.live && NulFree(Print(Value(n), depth, fmt)) && n.kind == ObjectKind
    requires forall i :: 0 <= i < |n.kids| ==>
               Complete(n.kids[i]) && Printable(Value(n.kids[i])) && n.kids[i].name != null
    modifies heap
    ensures heap.Valid() && fresh(out) && Spells(out, Print(Value(n), depth, fmt)) && Holds(n)
    ensures heap.live == old(heap.live) + {out} && out !in old(heap.live)
    decreases n, 3, 0
  {
    hide Holds, Apart, Objects, Print, Printable, Value, Complete, Spells, Lines, RoomOf, Progress, BothAdded, Tabs;
    FormattedObject(n, depth, fmt);
    ghost var ns, vs := Names(MembersOf(n.kids)), Texts(Held(MembersOf(n.kids)), depth + 1, fmt);
    var entries := heap.NewTable(numentries);
    var names := heap.NewTable(numentries);
    ghost var l1 := heap.live;
    var len;
    ghost var es, fs;
    len, es, fs := PrintPairsAlloc(heap, item.child, names, entries, depth + 1, fmt, n);
    AllPrinted(heap, names, entries, n, depth + 1, fmt, l1, es, fs, len);
    out := ComposeObject(heap, names, entries, len, depth, fmt, es, fs, ns, vs, Print(Value(n), depth, fmt), l1);
  }

  /** cJSON_Print and cJSON_PrintUnformatted: the text that is left in memory parses to the tree that was printed. */
  method PrintTree(heap: Heap, item: Item, fmt: bool, ghost n: Node) returns (out: array<char>)
    requires item == n.item && Holds(n) && Ready(heap, n)
    modifies heap
    ensures heap.Valid() && fresh(out) && Spells(out, Print(Value(n), 0, fmt)) && Holds(n)
    ensures heap.live == old(heap.live) + {out} && out !in old(heap.live)
    ensures Parse(Print(Value(n), 0, fmt), true) == Parsed(Value(n), "")
  {
    hide Holds, Apart, Objects, Print, Value, Complete, Spells, Parse;
    RoundTrip(Value(n), fmt);
    out := PrintValueAlloc(heap, item, 0, fmt, n);
  }
}
