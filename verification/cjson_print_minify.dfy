/** The minifier on what the printer leaves in memory. */
module CJsonPrintMinify {
  import opened CJsonText
  import opened CJsonRoundTrip
  import opened CJsonHeap
  import opened CJsonMinify
  import opened CJsonMinifyInPlace
  import opened CJsonBuffer
  import opened CJsonPrint
  import opened CJsonPrintAlloc

  /** cJSON_Print and then cJSON_Minify on the same buffer: the result is what cJSON_PrintUnformatted gives. */
  method PrintAndMinify(heap: Heap, item: Item, ghost n: Node) returns (out: array<char>, ok: bool)
    requires item == n.item && Holds(n) && Ready(heap, n)
    modifies heap
    ensures ok && heap.Valid() && fresh(out) && heap.live == old(heap.live) + {out} && Holds(n)
    ensures Spells(out, Print(Value(n), 0, false))
  {
    hide Holds, Apart, Objects, Print, Value, Complete, Minify, Printable;
    out := PrintTree(heap, item, true, n);
    ghost var pretty := Print(Value(n), 0, true);
    PrintNulFree(Value(n), 0, true);
    PrintNulFree(Value(n), 0, false);
    assert out[|pretty|] == '\0';
    CStringOf(pretty, out[|pretty|..]);
    assert out[..] == pretty + out[|pretty|..];
    MinifyPretty(Value(n));
    ok := MinifyInPlace(out);
  }
}
