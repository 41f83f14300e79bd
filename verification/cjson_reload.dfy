/** A tree printed, parsed back from the text in memory, and printed again. */
module CJsonReload {
  import opened CJsonText
  import opened CJsonRoundTrip
  import opened CJsonHeap
  import opened CJsonLists
  import opened CJsonParser
  import opened CJsonBuffer
  import opened CJsonPrint
  import opened CJsonPrintAlloc

  /** What cJSON_Parse makes of the text in a buffer is a tree of its own that stands for the printed value and can
      be printed again. */
  method ParsePrintedText(heap: Heap, buffer: array<char>, fmt: bool, ghost j: Json) returns (c: Item, ghost m: Node)
    requires heap.Valid() && Printable(j) && Spells(buffer, Print(j, 0, fmt))
    modifies heap
    ensures c == m.item && c.next == null && c.prev == null && Holds(m) && Ready(heap, m) && Value(m) == j
    ensures heap.live == old(heap.live) + Objects(m) && Objects(m) !! old(heap.live)
  {
    hide Holds, Apart, Objects, Print, Value, Complete, Parse, Printable;
    ghost var text := Print(j, 0, fmt);
    RoundTrip(j, fmt);
    var len := Strlen(buffer, text);
    var value := buffer[..len];
    assert value == text;
    var root, end;
    root, end, m := ParseWithOpts(heap, value, true);
    c := root;
  }

  /** cJSON_Print, cJSON_Parse and cJSON_Print again: the second text is the first, from a second tree that is equal
      to the first and shares nothing with it; the first is as it was. */
  method PrintParsePrint(heap: Heap, item: Item, fmt: bool, ghost n: Node)
    returns (out: array<char>, c: Item, again: array<char>, ghost m: Node)
    requires item == n.item && Holds(n) && Ready(heap, n)
    modifies heap
    ensures heap.Valid() && Holds(n) && c == m.item && c.next == null && c.prev == null && Holds(m) && Apart(m)
    ensures Value(m) == Value(n) && Complete(m)
    ensures Spells(out, Print(Value(n), 0, fmt)) && Spells(again, Print(Value(n), 0, fmt)) && out != again
    ensures heap.live == old(heap.live) + {out} + Objects(m) + {again}
    ensures Objects(m) !! old(heap.live) + {out, again} && {out, again} !! old(heap.live)
  {
    hide Holds, Apart, Objects, Print, Value, Complete, Parse, Printable, Spells;
    out := PrintTree(heap, item, fmt, n);
    c, m := ParsePrintedText(heap, out, fmt, Value(n));
    again := PrintTree(heap, c, fmt, m);
  }

  /** The same with everything but the last text freed: the memory holds that text and what it held before. */
  method ThereAndBack(heap: Heap, item: Item, fmt: bool, ghost n: Node) returns (again: array<char>)
    requires item == n.item && Holds(n) && Ready(heap, n)
    modifies heap
    ensures heap.Valid() && Holds(n) && Spells(again, Print(Value(n), 0, fmt))
    ensures heap.live == old(heap.live) + {again} && again !in old(heap.live)
  {
    hide Holds, Apart, Objects, Print, Value, Complete, Parse, Printable, Spells;
    var out, c;
    ghost var m;
    out, c, again, m := PrintParsePrint(heap, item, fmt, n);
    heap.Free(out);
    DeleteOne(heap, c, m);
  }
}
