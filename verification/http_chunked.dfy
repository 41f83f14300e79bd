/** Bodies in chunks, section 4.1 of RFC 7230, and the buffer a response is collected in. */
module HttpChunked {
  import opened HttpStrtol
  import opened Numerals

  const CRLF: string := "\r\n"

  /** Where the first line end is, or the length of the text when none comes before a terminator. */
  function Find(t: string): (k: nat)
    ensures k <= |t| && (k < |t| ==> k + 2 <= |t| && t[k] == '\r' && t[k + 1] == '\n')
  {
    if |t| < 2 || t[0] == '\0' then |t| else if t[0] == '\r' && t[1] == '\n' then 0 else 1 + Find(t[1..])
  }

  /** The data and how much text they took, or Lost when the C code leaves the text. */
  datatype Decoded = Decoded(data: string, used: nat) | Lost

  function Following(data: string, used: nat, d: Decoded): Decoded {
    if d.Decoded? then Decoded(data + d.data, used + d.used) else Lost
  }

  function Decode(t: string): (d: Decoded)
    ensures d.Decoded? ==> d.used <= |t| && |d.data| <= d.used
    decreases |t|
  {
    var i := Strtol(t, 16);
    if i <= 0 then Decoded("", 0)
    else
      var k := Find(t);
      if k == |t| || k + 2 + i + 2 > |t| then Lost
      else Following(t[k + 2..k + 2 + i], k + 2 + i + 2, Decode(t[k + 2 + i + 2..]))
  }

  // ---------------------------------------------------------------- what a server sends

  /** The digits of the size, and how they are written. */
  datatype Chunk = Chunk(digits: seq<nat>, size: string, ext: string, data: string)

  /** An extension does not begin with a letter or a digit, and has no line end and no terminator in it. */
  predicate ExtensionOk(ext: string) {
    (ext == "" || NoDigit(ext[0])) && Find(ext + CRLF) == |ext|
  }

  /** A hexadecimal numeral, in either case. */
  ghost predicate Hexadecimal(ds: seq<nat>, s: string) {
    Spelt(ds, s) && ds != [] && forall i :: 0 <= i < |ds| ==> ds[i] < 16
  }

  ghost predicate ChunkOk(c: Chunk) {
    && Hexadecimal(c.digits, c.size) && ExtensionOk(c.ext)
    && NumberOf(16, c.digits) == |c.data| && 0 < |c.data| <= LONG_MAX
  }

  function Line(c: Chunk, t: string): string {
    c.size + c.ext + CRLF + c.data + CRLF + t
  }

  function Encode(cs: seq<Chunk>): string
    decreases |cs|
  {
    if cs == [] then "" else Line(cs[0], Encode(cs[1..]))
  }

  function Joined(cs: seq<Chunk>): string
    decreases |cs|
  {
    if cs == [] then "" else cs[0].data + Joined(cs[1..])
  }

  /** The end of a body: a size of zero, an extension, and whatever follows. */
  ghost predicate LastOk(last: string, zeros: string, ext: string, rest: string) {
    && last == zeros + ext + CRLF + rest && zeros != "" && (forall i :: 0 <= i < |zeros| ==> zeros[i] == '0')
    && ExtensionOk(ext)
  }

  // ---------------------------------------------------------------- decoding undoes encoding

  /** A size is read as its value, whatever extension follows. */
  lemma SizeRead(ds: seq<nat>, size: string, t: string)
    requires Hexadecimal(ds, size) && (t == "" || NoDigit(t[0]))
    ensures Strtol(size + t, 16) == Clamp(NumberOf(16, ds))
  {
    hide Strtol, Spelt, NumberOf;
    assert "" + "" + "" + size + t == size + t;
    NoLetter(t);
    NumeralRead("", "", "", ds, size, t, 16, 16);
  }

  lemma NoLetter(t: string)
    requires t == "" || NoDigit(t[0])
    ensures NoPrefix(t)
  {
    assert LOWER[33] == 'x' && UPPER[33] == 'X' && LOWER[11] == 'b' && UPPER[11] == 'B';
  }

  lemma {:induction false} ZeroDigits(zeros: string)
    requires forall i :: 0 <= i < |zeros| ==> zeros[i] == '0'
    ensures var ds := seq(|zeros|, i => 0); Spelt(ds, zeros) && NumberOf(16, ds) == 0
    decreases |zeros|
  {
    var ds: seq<nat> := seq(|zeros|, i => 0);
    if zeros != "" {
      ZeroDigits(zeros[1..]);
      assert ds[1..] == seq(|zeros[1..]|, i => 0);
    }
  }

  /** Digits have no line end in them. */
  lemma {:induction false} FindBehind(s: string, t: string)
    requires forall i :: 0 <= i < |s| ==> Digit(s[i]) >= 0
    requires |t| >= 2
    ensures Find(s + t) == |s| + Find(t)
    decreases |s|
  {
    if s == "" {
      assert s + t == t;
    } else {
      var u := s + t;
      assert u[0] == s[0] && u[1..] == s[1..] + t;
      FindBehind(s[1..], t);
      assert u[0] != '\r';
    }
  }

  /** The first line end stays the first, whatever is behind it. */
  lemma {:induction false} FindBefore(s: string, t: string)
    requires Find(s + CRLF) == |s|
    ensures Find(s + CRLF + t) == |s|
    decreases |s|
  {
    var u := s + CRLF + t;
    if s != "" {
      assert (s + CRLF)[1..] == s[1..] + CRLF && u[1..] == s[1..] + CRLF + t;
      FindBefore(s[1..], t);
      assert u[0] == (s + CRLF)[0] && u[1] == (s + CRLF)[1];
    }
  }

  lemma DecodeAt(u: string, k: nat, d: string, t: string)
    requires Strtol(u, 16) == |d| > 0 && Find(u) == k && k + 2 + |d| + 2 <= |u|
    requires u[k + 2..k + 2 + |d|] == d && u[k + 2 + |d| + 2..] == t
    ensures Decode(u) == Following(d, k + 4 + |d|, Decode(t))
  {
    hide Find, Strtol, Decode, Following;
    DecodeOnce(u);
  }

  lemma LineStart(c: Chunk, t: string)
    ensures Line(c, t) == c.size + (c.ext + CRLF + (c.data + CRLF + t))
  {
  }

  lemma DecodeStep(c: Chunk, t: string)
    requires ChunkOk(c)
    ensures Decode(Line(c, t)) == Following(c.data, |c.size| + |c.ext| + 4 + |c.data|, Decode(t))
  {
    hide Find, Strtol, NumberOf, Decode, Line, Digit, Spelt, Following, NoDigit;
    var w := c.data + CRLF + t;
    var v := c.ext + CRLF + w;
    LineStart(c, t);
    FirstOf(c.ext, w);
    SizeRead(c.digits, c.size, v);
    FindBefore(c.ext, w);
    SpeltDigits(16, c.digits, c.size);
    FindBehind(c.size, v);
    LinePieces(c, t);
    DecodeAt(Line(c, t), |c.size| + |c.ext|, c.data, t);
  }

  lemma FirstOf(ext: string, w: string)
    requires ExtensionOk(ext)
    ensures NoDigit((ext + CRLF + w)[0])
  {
    hide NoDigit;
    ReturnIsNone();
    assert (ext + CRLF + w)[0] == if ext == "" then '\r' else ext[0];
  }

  lemma LinePieces(c: Chunk, t: string)
    ensures var u, k := Line(c, t), |c.size| + |c.ext|;
            |u| == k + 4 + |c.data| + |t| && u[k + 2..k + 2 + |c.data|] == c.data && u[k + 2 + |c.data| + 2..] == t
  {
    Pieces(c.size + c.ext, c.data, t);
  }

  lemma Pieces(a: string, d: string, t: string)
    ensures var u := a + CRLF + d + CRLF + t;
            u[|a| + 2..|a| + 2 + |d|] == d && u[|a| + 2 + |d| + 2..] == t
  {
  }

  lemma DecodeLast(last: string, zeros: string, ext: string, rest: string)
    requires LastOk(last, zeros, ext, rest)
    ensures Decode(last) == Decoded("", 0)
  {
    hide Find, NumberOf, Strtol, Spelt, NoDigit;
    var t := ext + CRLF + rest;
    assert last == zeros + t;
    FirstOf(ext, rest);
    ZeroDigits(zeros);
    SizeRead(seq(|zeros|, i => 0), zeros, t);
  }

  /** Every well-formed body decodes to the data of its chunks in a row, and the decoder stops at the
      last chunk. */
  lemma {:induction false} DecodeEncoded(cs: seq<Chunk>, last: string, zeros: string, ext: string, rest: string)
    requires (forall i :: 0 <= i < |cs| ==> ChunkOk(cs[i])) && LastOk(last, zeros, ext, rest)
    ensures Decode(Encode(cs) + last) == Decoded(Joined(cs), |Encode(cs)|)
    decreases |cs|
  {
    hide Decode, Find;
    if cs == [] {
      assert Encode(cs) + last == last;
      DecodeLast(last, zeros, ext, rest);
    } else {
      var c := cs[0];
      DecodeEncoded(cs[1..], last, zeros, ext, rest);
      DecodeStep(c, Encode(cs[1..]) + last);
      Regroup(c, Encode(cs[1..]), last);
    }
  }

  lemma Regroup(c: Chunk, e: string, last: string)
    ensures Line(c, e) + last == Line(c, e + last)
  {
  }

  // ---------------------------------------------------------------- the decoder

  /** os_strstr for a line end. */
  method Strstr(t: string) returns (k: nat)
    ensures k == Find(t)
  {
    k := 0;
    assert t[0..] == t;
    while |t| - k >= 2 && t[k] != '\0' && !(t[k] == '\r' && t[k + 1] == '\n')
      invariant k <= |t| && Find(t) == k + Find(t[k..])
      decreases |t| - k
    {
      assert t[k..][1..] == t[k + 1..];
      k := k + 1;
    }
    if |t| - k < 2 || t[k] == '\0' {
      k := |t|;
    }
  }

  lemma FollowingTwice(a: string, m: nat, b: string, n: nat, d: Decoded)
    ensures Following(a, m, Following(b, n, d)) == Following(a + b, m + n, d)
  {
    if d.Decoded? {
      assert a + (b + d.data) == (a + b) + d.data;
    }
  }

  lemma FollowingNothing(d: Decoded)
    ensures Following("", 0, d) == d
  {
    if d.Decoded? {
      assert "" + d.data == d.data;
    }
  }

  /** How a text begins: with the last chunk, with something that is no chunk, or with a chunk. */
  datatype Front = Last | NoChunk | Front(size: nat, at: nat)

  function FrontOf(t: string): (f: Front)
    ensures f.Front? ==> f.at + f.size + 2 <= |t| && f.at >= 2 && f.size > 0
  {
    var i, k := Strtol(t, 16), Find(t);
    if i <= 0 then Last else if k == |t| || k + 2 + i + 2 > |t| then NoChunk else Front(i, k + 2)
  }

  lemma DecodeOnce(t: string)
    ensures Decode(t) == match FrontOf(t)
                         case Last => Decoded("", 0)
                         case NoChunk => Lost
                         case Front(i, at) => Following(t[at..at + i], at + i + 2, Decode(t[at + i + 2..]))
  {
    hide Strtol, Find, Following;
  }

  /** The size line of a chunk. */
  method ReadFront(t: string) returns (f: Front)
    ensures f == FrontOf(t)
  {
    hide Strtol, Find;
    var i, endptr := EspStrtol(t, 16);
    if i <= 0 {
      return Last;
    }
    var k := Strstr(t);
    f := if k == |t| || k + 2 + i + 2 > |t| then NoChunk else Front(i, k + 2);
  }

  /** One chunk copied. */
  method CopyChunk(str: string, j: nat, i: nat, decode: array<char>, at: nat)
    requires j + i <= |str| && at + i <= decode.Length
    modifies decode
    ensures decode[..at] == old(decode[..at]) && decode[at..at + i] == str[j..j + i]
    ensures decode[at + i..] == old(decode[at + i..])
  {
    forall x | 0 <= x < i {
      decode[at + x] := str[j + x];
    }
  }

  /** http_chunked_decode. It stops, and ok is false, where the C code would leave the text. */
  method ChunkedDecode(str: string, decode: array<char>) returns (j: nat, ok: bool)
    requires decode.Length >= |str|
    modifies decode
    ensures var d := Decode(str);
            && ok == d.Decoded?
            && (ok ==> j == d.used && |d.data| <= decode.Length && decode[..] == d.data + old(decode[|d.data|..]))
  {
    hide FrontOf, Decode, Following;
    ghost var was := decode[..];
    var decode_size: nat := 0;
    j := 0;
    assert str[0..] == str;
    FollowingNothing(Decode(str));
    while true
      invariant decode_size <= j <= |str| && decode[decode_size..] == was[decode_size..]
      invariant Decode(str) == Following(decode[..decode_size], j, Decode(str[j..]))
      decreases |str| - j
    {
      ghost var t := str[j..];
      DecodeOnce(t);
      var f := ReadFront(str[j..]);
      match f {
        case Last =>
          BehindLast(decode[..decode_size], j);
          assert decode[..] == decode[..decode_size] + decode[decode_size..];
          return j, true;
        case NoChunk =>
          BehindLost(decode[..decode_size], j);
          return j, false;
        case Front(i, at) =>
          ghost var done := decode[..decode_size];
          CopyChunk(str, j + at, i, decode, decode_size);
          Cut(str, j, at, i);
          assert decode[..decode_size + i] == done + t[at..at + i];
          FollowingTwice(done, j, t[at..at + i], at + i + 2, Decode(t[at + i + 2..]));
          decode_size, j := decode_size + i, j + at + i + 2;
      }
    }
  }

  lemma BehindLast(data: string, used: nat)
    ensures Following(data, used, Decoded("", 0)) == Decoded(data, used)
  {
    assert data + "" == data;
  }

  lemma BehindLost(data: string, used: nat)
    ensures Following(data, used, Lost) == Lost
  {
  }

  lemma Cut(str: string, j: nat, at: nat, i: nat)
    requires j + at + i + 2 <= |str|
    ensures str[j + at..j + at + i] == str[j..][at..at + i]
    ensures str[j + at + i + 2..] == str[j..][at + i + 2..]
  {
  }
}
