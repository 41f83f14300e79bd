/** Reading one token: spaces, numbers and literals, as the loops of the parser do it. */
module CJsonReader {
  import opened CJsonText
  import opened CJsonRoundTrip
  import opened CJsonStrings
  import opened CJsonHeap

  /** skip. */
  method SkipSpaces(t: string) returns (r: string)
    ensures r == Skip(t)
  {
    r := t;
    while r != "" && r[0] != '\0' && r[0] <= ' '
      invariant Skip(r) == Skip(t)
      decreases |r|
    {
      r := r[1..];
    }
  }

  /** The loop over digits that several parts of a number share. */
  method ReadDigits(acc: nat, t: string) returns (n: nat, k: nat, r: string)
    ensures (n, k) == Digits(acc, t) && r == Drop(t, k)
  {
    n, k, r := acc, 0, t;
    while IsDigit(At(r))
      invariant k <= |t| && r == t[k..]
      invariant Digits(acc, t) == (Digits(n, r).0, k + Digits(n, r).1)
      decreases |r|
    {
      n, k, r := n * 10 + (r[0] as int - '0' as int), k + 1, r[1..];
    }
  }

  /** The part behind a decimal point. */
  method ReadFraction(n0: nat, t: string) returns (n: nat, scale: int, r: string)
    ensures (n, scale, r) == Fraction(n0, t)
  {
    hide Digits;
    n, scale, r := n0, 0, t;
    if At(r) == '.' && |r| >= 2 && IsDigit(r[1]) {
      var k: int;
      n, k, r := ReadDigits(n, r[1..]);
      scale := 0 - k;
    }
  }

  /** The sign of an exponent. */
  method ReadSign(t: string) returns (minus: bool, r: string)
    ensures minus == (At(t) == '-') && r == (if At(t) == '+' || minus then t[1..] else t)
  {
    minus, r := false, t;
    if At(r) == '+' {
      r := r[1..];
    } else if At(r) == '-' {
      minus, r := true, r[1..];
    }
  }

  /** The part behind an e. */
  method ReadExponent(t: string) returns (e: int, r: string)
    ensures (e, r) == Exponent(t)
  {
    hide Digits;
    e, r := 0, t;
    if At(t) == 'e' || At(t) == 'E' {
      var minus, u := ReadSign(t[1..]);
      var subscale: int, k;
      subscale, k, r := ReadDigits(0, u);
      e := if minus then 0 - subscale else subscale;
    }
  }

  /** parse_number: the sign, the mantissa, the power of ten, and where the number ends. */
  method ReadNumber(t: string) returns (mantissa: int, exponent: int, r: string)
    requires At(t) == '-' || IsDigit(At(t))
    ensures ParseNumber(t) == Parsed(Number(mantissa, exponent), r)
  {
    hide Digits, Fraction, Exponent;
    var sign, n: nat := 1, 0;
    r := t;
    if At(r) == '-' {
      sign, r := -1, r[1..];
    }
    if At(r) == '0' {
      r := r[1..];
    }
    if '1' <= At(r) <= '9' {
      var k;
      n, k, r := ReadDigits(0, r);
    }
    var scale, e;
    n, scale, r := ReadFraction(n, r);
    e, r := ReadExponent(r);
    mantissa, exponent := sign * n, scale + e;
  }

  // ---------------------------------------------------------------- literals

  function LongerBy(o: Outcome<nat>, k: nat): Outcome<nat> {
    if o.Parsed? then Parsed(o.value + k, o.rest) else o
  }

  /** The first pass over a literal. */
  method Measure(t: string) returns (len: nat)
    requires ScanLength(t).Parsed?
    ensures len == ScanLength(t).value
  {
    var ptr := t;
    len := 0;
    while At(ptr) != '"' && At(ptr) != '\0'
      invariant ScanLength(t) == LongerBy(ScanLength(ptr), len)
      decreases |ptr|
    {
      len := len + 1;
      var c := ptr[0];
      ptr := ptr[1..];
      if c == '\\' {
        ptr := ptr[1..];
      }
    }
  }

  /** The bytes of one code point, from the last to the first. */
  method PutUtf8(out: array<char>, at: nat, uc0: Scalar) returns (end: nat)
    requires at + |Utf8(uc0)| <= out.Length
    modifies out
    ensures end == at + |Utf8(uc0)|
    ensures out[..at] == old(out[..at]) && out[at..end] == Utf8(uc0)
  {
    var uc: nat := uc0;
    var len := if uc < 0x80 then 1 else if uc < 0x800 then 2 else if uc < 0x1_0000 then 3 else 4;
    var mark := if len == 1 then 0 else if len == 2 then 0xC0 else if len == 3 then 0xE0 else 0xF0;
    end := at + len;
    Sixth(uc);
    ghost var was := out[..];
    if len == 4 {
      out[at + 3], uc := (0x80 + uc % 0x40) as char, uc / 0x40;
    }
    if len >= 3 {
      out[at + 2], uc := (0x80 + uc % 0x40) as char, uc / 0x40;
    }
    if len >= 2 {
      out[at + 1], uc := (0x80 + uc % 0x40) as char, uc / 0x40;
    }
    out[at] := (mark + uc) as char;
    assert out[at..end] == Utf8(uc0);
    assert out[..at] == was[..at];
  }

  lemma Sixth(uc: nat)
    requires uc < 0x11_0000
    ensures uc / 0x40 / 0x40 == uc / 0x1000 && uc / 0x40 / 0x40 / 0x40 == uc / 0x4_0000
    ensures uc / 0x4_0000 < 8
  {
  }

  /** A \u escape, at the backslash: its bytes go to out, and the escape is passed. */
  method PutEscape(ptr: string, out: array<char>, k: nat) returns (j: nat, next: string)
    requires |ptr| >= 2 && ptr[0] == '\\' && ptr[1] == 'u' && Transcode(ptr).1 <= |ptr|
    requires k + |Transcode(ptr).0| <= out.Length
    modifies out
    ensures out[..k] == old(out[..k]) && k <= j <= out.Length && out[k..j] == Transcode(ptr).0
    ensures Transcode(ptr).1 <= |ptr| && next == ptr[Transcode(ptr).1..] && |next| < |ptr|
  {
    hide Hex4, Utf8, HexDigit;
    var uc := Hex4(ptr[2..]);
    HexBound(ptr[2..]);
    j, next := k, ptr[6..];
    if 0xDC00 <= uc <= 0xDFFF || uc == 0 {
      return;
    }
    if 0xD800 <= uc <= 0xDBFF {
      if At(next) != '\\' || At(next[1..]) != 'u' {
        return;
      }
      var uc2 := Hex4(next[2..]);
      assert next[2..] == ptr[8..] && next[6..] == ptr[12..];
      next := next[6..];
      if uc2 < 0xDC00 || uc2 > 0xDFFF {
        return;
      }
      PairIsUtf16(uc, uc2);
      uc := Pair(uc, uc2);
    }
    j := PutUtf8(out, k, uc);
  }

  /** One round of the second pass. */
  method PutNext(ptr: string, out: array<char>, k: nat) returns (j: nat, next: string)
    requires At(ptr) != '"' && At(ptr) != '\0'
    requires Unescape(ptr).Parsed? && k + |Unescape(ptr).value| < out.Length
    modifies out
    ensures out[..k] == old(out[..k]) && k <= j < out.Length && |next| < |ptr|
    ensures Unescape(next).Parsed? && Unescape(ptr) == Before(out[k..j], Unescape(next))
  {
    hide Transcode;
    if ptr[0] != '\\' {
      out[k] := ptr[0];
      j, next := k + 1, ptr[1..];
    } else if ptr[1] != 'u' {
      out[k] := UnescapeChar(ptr[1]);
      j, next := k + 1, ptr[2..];
    } else {
      ghost var (u, n) := Transcode(ptr);
      assert Unescape(ptr) == Before(u, Unescape(ptr[n..])) by { EscapeOnce(ptr); }
      j, next := PutEscape(ptr, out, k);
    }
  }

  lemma EscapeOnce(ptr: string)
    requires Unescape(ptr).Parsed? && |ptr| >= 2 && ptr[0] == '\\' && ptr[1] == 'u'
    ensures var (u, n) := Transcode(ptr); 0 < n <= |ptr| && Unescape(ptr) == Before(u, Unescape(ptr[n..]))
  {
    hide Hex4, Utf8, HexDigit;
  }

  lemma BeforeNothing(o: Outcome<string>)
    ensures Before("", o) == o
  {
    if o.Parsed? {
      assert "" + o.value == o.value;
    }
  }

  lemma BeforeTwice(u: string, v: string, o: Outcome<string>)
    ensures Before(u, Before(v, o)) == Before(u + v, o)
  {
    if o.Parsed? {
      assert u + (v + o.value) == (u + v) + o.value;
    }
  }

  /** The second pass: the characters of the literal, in a buffer that is long enough. */
  method Decode(t: string, out: array<char>) returns (k: nat, ptr: string)
    requires Unescape(t).Parsed? && |Unescape(t).value| < out.Length
    modifies out
    ensures k < out.Length && Unescape(t).value == out[..k] && (At(ptr) == '"' || At(ptr) == '\0')
    ensures Unescape(t).rest == if At(ptr) == '"' then ptr[1..] else ptr
  {
    hide Transcode;
    k, ptr := 0, t;
    BeforeNothing(Unescape(t));
    while At(ptr) != '"' && At(ptr) != '\0'
      invariant k < out.Length && Unescape(ptr).Parsed?
      invariant k + |Unescape(ptr).value| < out.Length
      invariant Unescape(t) == Before(out[..k], Unescape(ptr))
      decreases |ptr|
    {
      ghost var done := out[..k];
      var j, next := PutNext(ptr, out, k);
      assert out[..j] == done + out[k..j];
      BeforeTwice(done, out[k..j], Unescape(next));
      k, ptr := j, next;
    }
  }

  /** A parsed string has no terminator in it. */
  lemma {:induction false} UnescapedNulFree(t: string)
    requires Unescape(t).Parsed?
    ensures NulFree(Unescape(t).value)
    decreases |t|
  {
    hide Transcode;
    if At(t) == '"' || At(t) == '\0' {
    } else if t[0] != '\\' {
      UnescapedNulFree(t[1..]);
    } else if t[1] != 'u' {
      UnescapedNulFree(t[2..]);
    } else {
      EscapeOnce(t);
      EscapeNulFree(t);
      UnescapedNulFree(t[Transcode(t).1..]);
    }
  }

  lemma EscapeNulFree(t: string)
    ensures NulFree(Transcode(t).0)
  {
    hide Hex4, HexDigit, Utf8;
    HexBound(Drop(t, 2));
    HexBound(Drop(t, 8));
    forall uc: Scalar ensures NulFree(Utf8(uc)) {
      Utf8NulFree(uc);
    }
  }

  lemma Utf8NulFree(uc: Scalar)
    ensures NulFree(Utf8(uc))
  {
  }

  /** parse_string. On success out is a new C string, and end is behind the literal. */
  method ReadString(heap: Heap, t: string) returns (ok: bool, end: string, out: array?<char>, ghost s: string)
    requires heap.Valid() && ParseString(t) != Undefined
    modifies heap
    ensures heap.Valid() && ParseString(t) == if ok then Parsed(s, end) else Failed(end)
    ensures ok ==> out != null && Spells(out, s) && fresh(out) && heap.live == old(heap.live) + {out}
    ensures !ok ==> out == null && heap.live == old(heap.live)
  {
    hide Unescape, ScanLength;
    ok, end, out, s := false, t, null, "";
    if At(t) != '"' {
      return;
    }
    UnescapedNulFree(t[1..]);
    var len := Measure(t[1..]);
    var a := heap.NewText(len + 1);
    var k, ptr := Decode(t[1..], a);
    s := a[..k];
    a[k] := '\0';
    assert a[..k] == s;
    if At(ptr) == '"' {
      ptr := ptr[1..];
    }
    ok, end, out := true, ptr, a;
  }
}
