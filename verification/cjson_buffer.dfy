/** The printer's buffer: it grows by powers of two and keeps what was printed. */
module CJsonBuffer {
  import opened CJsonText
  import opened CJsonRoundTrip
  import opened CJsonHeap
  import opened CJsonPow2

  /** Sizes stay below this. */
  const LIMIT: nat := 0x4000_0000

  class PrintBuffer {
    var buffer: array<char>
    var length: nat
    var offset: nat

    constructor (buffer: array<char>)
      ensures this.buffer == buffer && length == buffer.Length && offset == 0
    {
      this.buffer, length, offset := buffer, buffer.Length, 0;
    }

    /** The printed text up to the offset. */
    ghost predicate Has(s: string)
      reads this, buffer
    {
      length == buffer.Length && offset == |s| <= length && buffer[..|s|] == s
    }

    /** The printed text and its terminator; the offset may still be behind. */
    ghost predicate Written(s: string, t: string)
      reads this, buffer
    {
      && length == buffer.Length && |s| <= offset <= |s| + |t| < length
      && buffer[..|s| + |t|] == s + t && buffer[|s| + |t|] == '\0'
    }
  }

  /** The buffer is the only memory the printer owns. */
  ghost predicate Owns(heap: Heap, p: PrintBuffer)
    reads heap, p
  {
    heap.Valid() && p.buffer in heap.live && p !in heap.live
  }

  /** Only the buffer was exchanged, perhaps. */
  ghost predicate Moved(was: set<object>, old_: array<char>, live: set<object>, new_: array<char>) {
    live == was - {old_} + {new_} && (new_ == old_ || new_ !in was)
  }

  /** The buffer may have been exchanged for a larger one; it is still the only thing that changed. */
  twostate predicate Kept(heap: Heap, p: PrintBuffer)
    reads heap, p
  {
    Owns(heap, p) && Moved(old(heap.live), old(p.buffer), heap.live, p.buffer)
    && (p.buffer == old(p.buffer) || fresh(p.buffer))
  }

  lemma MovedTwice(a: set<object>, b0: array<char>, c: set<object>, b1: array<char>, d: set<object>, b2: array<char>)
    requires Moved(a, b0, c, b1) && Moved(c, b1, d, b2) && b0 in a
    ensures Moved(a, b0, d, b2)
  {
  }

  /** ensure: room for this many more characters behind the offset. */
  method Ensure(heap: Heap, p: PrintBuffer, needed: nat, ghost s: string)
    requires Owns(heap, p) && p.Has(s) && 1 <= needed && |s| + needed <= LIMIT
    modifies heap, p
    ensures Kept(heap, p) && p.Has(s) && |s| + needed <= p.length
  {
    var total := needed + p.offset;
    if total <= p.length {
      return;
    }
    var newsize := Pow2gt(total);
    var newbuffer := heap.NewText(newsize);
    forall i | 0 <= i < p.length {
      newbuffer[i] := p.buffer[i];
    }
    heap.Free(p.buffer);
    p.length, p.buffer := newsize, newbuffer;
    assert newbuffer[..|s|] == s;
  }

  /** update: the offset goes to the end of the text. */
  method Update(p: PrintBuffer, ghost s: string, ghost t: string)
    requires p.Written(s, t) && NulFree(t)
    modifies p`offset
    ensures p.Has(s + t)
  {
    ghost var end := |s| + |t|;
    var n := p.offset;
    while p.buffer[n] != '\0'
      invariant p.offset <= n <= end && p.Written(s, t)
      decreases end - n
    {
      assert n < end;
      n := n + 1;
    }
    assert n == end;
    p.offset := n;
  }

  /** A text and its terminator copied to the offset, which stays. */
  method Put(p: PrintBuffer, t: string, ghost s: string)
    requires p.Has(s) && |s| + |t| < p.length
    modifies p.buffer
    ensures p.Written(s, t) && p.offset == |s|
  {
    var at := p.offset;
    forall i | 0 <= i < |t| {
      p.buffer[at + i] := t[i];
    }
    p.buffer[at + |t|] := '\0';
    assert p.buffer[..|s| + |t|] == s + t;
  }

  /** One character at the offset, which goes on. */
  method PutChar(p: PrintBuffer, c: char, ghost s: string)
    requires p.Has(s) && |s| < p.length
    modifies p`offset, p.buffer
    ensures p.Has(s + [c]) && p.buffer == old(p.buffer)
  {
    p.buffer[p.offset] := c;
    p.offset := p.offset + 1;
    assert p.buffer[..|s| + 1] == s + [c];
  }

  // ---------------------------------------------------------------- strings

  predicate NeedsEscape(c: char) {
    ('\0' < c < ' ') || c == '"' || c == '\\'
  }

  lemma {:induction false} EscapeAppend(s: string, c: char)
    ensures Escape(s + [c]) == Escape(s) + EscapeChar(c)
    decreases |s|
  {
    hide EscapeChar;
    if s == "" {
      assert s + [c] == [c] && [c][1..] == "";
    } else {
      assert (s + [c])[1..] == s[1..] + [c];
      EscapeAppend(s[1..], c);
    }
  }

  lemma {:induction false} PlainEscape(s: string)
    requires NulFree(s) && forall i :: 0 <= i < |s| ==> !NeedsEscape(s[i])
    ensures Escape(s) == s
    decreases |s|
  {
    if s != "" {
      PlainEscape(s[1..]);
    }
  }

  /** How many characters print_string_ptr reserves for one. */
  lemma EscapedSize(c: char)
    requires c != '\0'
    ensures |EscapeChar(c)| == 1 + (if c == '"' || c == '\\' || c == '\U{08}' || c == '\U{0c}' || c == '\n'
              || c == '\r' || c == '\t' then 1
                                    else if c < ' ' then 5 else 0)
  {
  }

  lemma TextAt(str: array<char>, text: string, i: nat)
    requires Spells(str, text) && i <= |text|
    ensures i < str.Length && (i < |text| ==> str[i] == text[i] != '\0') && (i == |text| ==> str[i] == '\0')
  {
    if i < |text| {
      assert str[..|text|][i] == text[i];
    }
  }

  /** The first loop: is there anything to escape? */
  method Scan(str: array<char>, ghost text: string) returns (flag: bool, len: nat)
    requires Spells(str, text)
    ensures len == |text| && (flag <==> exists i :: 0 <= i < |text| && NeedsEscape(text[i]))
  {
    hide Spells;
    flag, len := false, 0;
    TextAt(str, text, 0);
    while str[len] != '\0'
      invariant Spells(str, text) && len <= |text| && len < str.Length && (str[len] == '\0' <==> len == |text|)
      invariant flag <==> exists i :: 0 <= i < len && NeedsEscape(text[i])
      decreases |text| - len
    {
      TextAt(str, text, len);
      TextAt(str, text, len + 1);
      flag := flag || NeedsEscape(str[len]);
      len := len + 1;
    }
  }

  /** The second loop: the size of the escaped text. */
  method EscapedLength(str: array<char>, ghost text: string) returns (len: nat)
    requires Spells(str, text)
    ensures len == |Escape(text)|
  {
    hide Spells, EscapeChar, Escape;
    var i := 0;
    len := 0;
    TextAt(str, text, 0);
    assert Escape(text[..0]) == "" by { EscapeNothing(); }
    while str[i] != '\0'
      invariant Spells(str, text) && 0 <= i <= |text| && i < str.Length && (str[i] == '\0' <==> i == |text|)
      invariant len == |Escape(text[..i])|
      decreases |text| - i
    {
      TextAt(str, text, i);
      TextAt(str, text, i + 1);
      EscapeAppend(text[..i], text[i]);
      assert text[..i + 1] == text[..i] + [text[i]];
      EscapedSize(text[i]);
      var token := str[i];
      len := len + 1;
      if token == '"' || token == '\\' || token == '\U{08}' || token == '\U{0c}' || token == '\n' || token == '\r'
          || token == '\t' {
        len := len + 1;
      } else if token < ' ' {
        len := len + 5;
      }
      i := i + 1;
    }
    assert text[..|text|] == text;
  }

  lemma EscapeNothing()
    ensures Escape("") == ""
  {
  }

  /** What the escape loop has written: everything before at, then out. */
  ghost predicate Out(buffer: seq<char>, s: string, out: string) {
    |s| + |out| <= |buffer| && buffer[..|s| + |out|] == s + out
  }

  lemma OutMore(before: seq<char>, after: seq<char>, s: string, out: string, e: string)
    requires Out(before, s, out) && |before| == |after| && |s| + |out| + |e| <= |after|
    requires after[..|s| + |out|] == before[..|s| + |out|]
    requires after[|s| + |out|..|s| + |out| + |e|] == e
    ensures Out(after, s, out + e)
  {
    var n := |s| + |out|;
    assert after[..n + |e|] == after[..n] + after[n..n + |e|];
    assert s + out + e == s + (out + e);
  }

  /** The characters for one of the text. */
  method PutEscaped(buffer: array<char>, at: nat, c: char) returns (end: nat)
    requires c != '\0' && at + |EscapeChar(c)| <= buffer.Length
    modifies buffer
    ensures end == at + |EscapeChar(c)| && buffer[..at] == old(buffer[..at]) && buffer[at..end] == EscapeChar(c)
  {
    hide Digit;
    ghost var was := buffer[..at];
    if c > '\U{1f}' && c != '"' && c != '\\' {
      buffer[at] := c;
      end := at + 1;
    } else {
      buffer[at] := '\\';
      end := at + 2;
      match c {
        case '\\' => buffer[at + 1] := '\\';
        case '"' => buffer[at + 1] := '"';
        case '\U{08}' => buffer[at + 1] := 'b';
        case '\U{0c}' => buffer[at + 1] := 'f';
        case '\n' => buffer[at + 1] := 'n';
        case '\r' => buffer[at + 1] := 'r';
        case '\t' => buffer[at + 1] := 't';
        case _ =>
          buffer[at + 1], buffer[at + 2], buffer[at + 3] := 'u', '0', '0';
          buffer[at + 4], buffer[at + 5] := Digit(c as int / 16 % 16), Digit(c as int % 16);
          end := at + 6;
      }
    }
    assert buffer[..at] == was;
  }

  /** print_string_ptr on a text with something to escape, once its room is reserved. */
  method PutEscapes(p: PrintBuffer, str: array<char>, ghost text: string, ghost s: string)
    requires Spells(str, text) && p.Has(s) && |s| + |Escape(text)| + 3 <= p.length && str != p.buffer
    modifies p.buffer
    ensures p.Written(s, Quote(text)) && p.offset == |s|
  {
    hide Spells, EscapeChar, Escape;
    var ptr2, i := p.offset, 0;
    p.buffer[ptr2] := '"';
    ptr2 := ptr2 + 1;
    ghost var s1 := s + "\"";
    EscapeNothing();
    TextAt(str, text, 0);
    while str[i] != '\0'
      invariant Spells(str, text) && 0 <= i <= |text| && i < str.Length && (str[i] == '\0' <==> i == |text|)
      invariant Out(p.buffer[..], s1, Escape(text[..i])) && ptr2 == |s1| + |Escape(text[..i])|
      decreases |text| - i
    {
      TextAt(str, text, i);
      TextAt(str, text, i + 1);
      EscapeAppend(text[..i], text[i]);
      EscapePrefix(text, i + 1);
      assert text[..i + 1] == text[..i] + [text[i]];
      ghost var before := p.buffer[..];
      ptr2 := PutEscaped(p.buffer, ptr2, str[i]);
      OutMore(before, p.buffer[..], s1, Escape(text[..i]), EscapeChar(text[i]));
      i := i + 1;
    }
    assert text[..|text|] == text;
    p.buffer[ptr2] := '"';
    p.buffer[ptr2 + 1] := '\0';
    assert p.buffer[..|s| + |Quote(text)|] == s + Quote(text);
  }

  lemma EscapePrefix(text: string, i: nat)
    requires i <= |text|
    ensures |Escape(text[..i])| <= |Escape(text)|
    decreases |text| - i
  {
    if i < |text| {
      EscapeAppend(text[..i], text[i]);
      assert text[..i + 1] == text[..i] + [text[i]];
      EscapePrefix(text, i + 1);
    } else {
      assert text[..i] == text;
    }
  }

  lemma NothingToEscape(str: array<char>, text: string)
    requires Spells(str, text) && !exists i :: 0 <= i < |text| && NeedsEscape(text[i])
    ensures Escape(text) == text
  {
    PlainEscape(text);
  }

  /** print_string_ptr on a text with nothing to escape. */
  method PutPlain(p: PrintBuffer, str: array<char>, len: nat, ghost text: string, ghost s: string)
    requires Spells(str, text) && len == |text| && Escape(text) == text
    requires p.Has(s) && |s| + len + 3 <= p.length && str != p.buffer
    modifies p.buffer
    ensures p.Written(s, Quote(text)) && p.offset == |s|
  {
    hide Escape;
    ghost var q := Quote(text);
    var at := p.offset;
    p.buffer[at] := '"';
    forall i | 0 <= i < len {
      p.buffer[at + 1 + i] := str[i];
    }
    p.buffer[at + 1 + len] := '"';
    p.buffer[at + 2 + len] := '\0';
    assert p.buffer[at + 1..at + 1 + len] == text;
    assert p.buffer[..|s| + |q|] == s + q;
  }

  /** The size of the printed form of a string, as print_string_ptr asks for it, is exact. */
  method PrintString(heap: Heap, p: PrintBuffer, str: array<char>, ghost text: string, ghost s: string)
    requires Owns(heap, p) && p.Has(s) && Spells(str, text) && str in heap.live && str != p.buffer
    requires |s| + |Quote(text)| + 1 <= LIMIT
    modifies heap, p, p.buffer
    ensures Kept(heap, p) && p.Written(s, Quote(text)) && p.offset == |s|
  {
    hide Escape, EscapeChar, NeedsEscape, Spells;
    var flag, len := Scan(str, text);
    if !flag {
      NothingToEscape(str, text);
      Ensure(heap, p, len + 3, s);
      PutPlain(p, str, len, text, s);
      return;
    }
    len := EscapedLength(str, text);
    Ensure(heap, p, len + 3, s);
    PutEscapes(p, str, text, s);
  }
}
