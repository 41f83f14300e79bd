/** What string literals mean: section 7 of RFC 8259 and section 3 of RFC 3629, and which inputs keep
    the parser within the text and within the buffer it allocates. */
module CJsonStrings {
  import opened CJsonText

  // ---------------------------------------------------------------- UTF-8

  /** A continuation byte's six bits. */
  function Tail(c: char): int {
    if 0x80 <= c as int < 0xC0 then c as int - 0x80 else -1
  }

  /** Decoding one code point from its bytes, refusing overlong forms and surrogates; -1 for anything
      that is not UTF-8. */
  function DecodeUtf8(u: string): int {
    if |u| == 1 && u[0] as int < 0x80 then u[0] as int
    else if |u| == 2 && 0xC2 <= u[0] as int < 0xE0 && Tail(u[1]) >= 0 then
      (u[0] as int - 0xC0) * 0x40 + Tail(u[1])
    else if |u| == 3 && 0xE0 <= u[0] as int < 0xF0 && Tail(u[1]) >= 0 && Tail(u[2]) >= 0 then
      var uc := (u[0] as int - 0xE0) * 0x1000 + Tail(u[1]) * 0x40 + Tail(u[2]);
      if uc < 0x800 || 0xD800 <= uc < 0xE000 then -1 else uc
    else if |u| == 4 && 0xF0 <= u[0] as int < 0xF5 && Tail(u[1]) >= 0 && Tail(u[2]) >= 0 && Tail(u[3]) >= 0 then
      var uc := (u[0] as int - 0xF0) * 0x4_0000 + Tail(u[1]) * 0x1000 + Tail(u[2]) * 0x40 + Tail(u[3]);
      if uc < 0x1_0000 || uc > 0x10_FFFF then -1 else uc
    else -1
  }

  /** The base-64 digits of a code point. */
  lemma Sextets(uc: nat)
    ensures uc == uc / 0x40 * 0x40 + uc % 0x40
    ensures uc == uc / 0x1000 * 0x1000 + uc / 0x40 % 0x40 * 0x40 + uc % 0x40
    ensures uc == uc / 0x4_0000 * 0x4_0000 + uc / 0x1000 % 0x40 * 0x1000 + uc / 0x40 % 0x40 * 0x40 + uc % 0x40
  {
    var s1 := uc / 0x40;
    var s2 := s1 / 0x40;
    assert uc / 0x1000 == s2 && uc / 0x4_0000 == s2 / 0x40;
  }

  lemma SextetsUnique(a: nat, b: nat, c: nat, d: nat)
    requires b < 0x40 && c < 0x40 && d < 0x40
    ensures var uc := a * 0x4_0000 + b * 0x1000 + c * 0x40 + d;
            uc / 0x4_0000 == a && uc / 0x1000 % 0x40 == b && uc / 0x40 % 0x40 == c && uc % 0x40 == d
  {
    var uc := a * 0x4_0000 + b * 0x1000 + c * 0x40 + d;
    assert uc / 0x40 == a * 0x1000 + b * 0x40 + c;
    assert uc / 0x1000 == a * 0x40 + b;
  }

  lemma TailOf(d: nat)
    requires d < 0x40
    ensures Tail((0x80 + d) as char) == d
  {
  }

  /** What the transcoder writes is the UTF-8 form of the code point. */
  lemma Utf8Decodes(uc: Scalar)
    requires !(0xD800 <= uc < 0xE000)
    ensures DecodeUtf8(Utf8(uc)) == uc
  {
    hide Tail;
    Sextets(uc);
    TailOf(uc % 0x40);
    TailOf(uc / 0x40 % 0x40);
    TailOf(uc / 0x1000 % 0x40);
  }

  /** A code point has one UTF-8 form, and the transcoder's is it. */
  lemma Utf8Unique(u: string)
    requires DecodeUtf8(u) > 0
    ensures DecodeUtf8(u) < 0x11_0000 && u == Utf8(DecodeUtf8(u))
  {
    var uc := DecodeUtf8(u);
    if |u| == 2 {
      SextetsUnique(0, 0, u[0] as int - 0xC0, Tail(u[1]));
    } else if |u| == 3 {
      SextetsUnique(0, u[0] as int - 0xE0, Tail(u[1]), Tail(u[2]));
    } else if |u| == 4 {
      SextetsUnique(u[0] as int - 0xF0, Tail(u[1]), Tail(u[2]), Tail(u[3]));
    }
  }

  /** The two halves are put together as UTF-16 defines. */
  lemma PairIsUtf16(hi: nat, lo: nat)
    requires 0xD800 <= hi < 0xDC00 <= lo < 0xE000
    ensures Pair(hi, lo) == 0x1_0000 + (hi - 0xD800) * 0x400 + (lo - 0xDC00)
    ensures 0x1_0000 <= Pair(hi, lo) < 0x11_0000
  {
  }

  // ---------------------------------------------------------------- hexadecimal digits

  const LOWER: string := "0123456789abcdef"
  const UPPER: string := "0123456789ABCDEF"

  /** Four characters that are these digits, each in lower or in upper case. */
  ghost predicate HexText(ds: seq<nat>, h: string) {
    |ds| == |h| == 4 && forall i :: 0 <= i < 4 ==> ds[i] < 16 && (h[i] == LOWER[ds[i]] || h[i] == UPPER[ds[i]])
  }

  function HexValue(ds: seq<nat>): nat
    requires |ds| == 4
  {
    ds[0] * 0x1000 + ds[1] * 0x100 + ds[2] * 0x10 + ds[3]
  }

  lemma HexDigitIs(d: nat, c: char)
    requires d < 16
    ensures HexDigit(LOWER[d]) == d && HexDigit(UPPER[d]) == d
    ensures HexDigit(c) == d ==> c == LOWER[d] || c == UPPER[d]
  {
    var l, u := LOWER[d], UPPER[d];
    HexChars(d);
    HexDigitOf(d, c, l, u);
  }

  lemma HexChars(d: nat)
    requires d < 16
    ensures LOWER[d] as int == if d < 10 then '0' as int + d else 'a' as int + d - 10
    ensures UPPER[d] as int == if d < 10 then '0' as int + d else 'A' as int + d - 10
  {
  }

  lemma HexDigitOf(d: nat, c: char, l: char, u: char)
    requires d < 16
    requires l as int == if d < 10 then '0' as int + d else 'a' as int + d - 10
    requires u as int == if d < 10 then '0' as int + d else 'A' as int + d - 10
    ensures HexDigit(l) == d && HexDigit(u) == d && (HexDigit(c) == d ==> c == l || c == u)
  {
  }

  /** Four hexadecimal digits in any mixture of cases are read as their number. */
  lemma HexIs(ds: seq<nat>, h: string)
    requires HexText(ds, h)
    ensures IsHex4(h) && Hex4(h) == HexValue(ds) < 0x1_0000
  {
    hide HexDigit;
    HexDigitIs(ds[0], h[0]);
    HexDigitIs(ds[1], h[1]);
    HexDigitIs(ds[2], h[2]);
    HexDigitIs(ds[3], h[3]);
  }

  /** And nothing else is. */
  lemma HexOnly(h: string) returns (ds: seq<nat>)
    requires |h| == 4 && IsHex4(h)
    ensures HexText(ds, h)
  {
    hide HexDigit;
    HexBelow(h[0]);
    HexBelow(h[1]);
    HexBelow(h[2]);
    HexBelow(h[3]);
    ds := [HexDigit(h[0]), HexDigit(h[1]), HexDigit(h[2]), HexDigit(h[3])];
    forall i | 0 <= i < 4 ensures ds[i] < 16 && (h[i] == LOWER[ds[i]] || h[i] == UPPER[ds[i]]) {
      HexDigitIs(ds[i], h[i]);
    }
  }

  lemma HexBelow(c: char)
    ensures HexDigit(c) < 16
  {
  }

  // ---------------------------------------------------------------- literals

  /** One element of a well-formed literal. */
  datatype Unit =
    | Plain(c: char)                       // itself
    | Short(c: char)                       // \ and one character
    | Code(ds: seq<nat>, hex: string)      // \u and four digits
    | Surrogates(hs: seq<nat>, hi: string, ls: seq<nat>, lo: string)   // two of them, forming a pair

  ghost predicate WellFormed(u: Unit) {
    match u
    case Plain(c) => c != '"' && c != '\\' && c != '\0'
    case Short(c) => c != 'u' && c != '\0'
    case Code(ds, h) => HexText(ds, h) && !(0xD800 <= HexValue(ds) < 0xDC00)
    case Surrogates(hs, h, ls, l) =>
      && HexText(hs, h) && HexText(ls, l)
      && 0xD800 <= HexValue(hs) < 0xDC00 && 0xDC00 <= HexValue(ls) < 0xE000
  }

  function Spelled(u: Unit): string {
    match u
    case Plain(c) => [c]
    case Short(c) => ['\\', c]
    case Code(_, h) => "\\u" + h
    case Surrogates(_, h, _, l) => "\\u" + h + "\\u" + l
  }

  /** The eight short escapes of section 7 of RFC 8259, and the code points they stand for. */
  const SHORT: string := "\"\\/bfnrt"
  const STANDS: seq<nat> := [0x22, 0x5C, 0x2F, 0x08, 0x0C, 0x0A, 0x0D, 0x09]

  /** Another character behind a backslash stands for itself. */
  function ShortMeaning(c: char): char {
    if c in SHORT then var i :| 0 <= i < 8 && SHORT[i] == c; STANDS[i] as char else c
  }

  /** The code point that an escape stands for. A NUL and a lone second half of a pair cannot be part of the result
      and are left out. */
  function CodePoint(u: Unit): nat
    requires u.Code? ==> |u.ds| == 4
    requires u.Surrogates? ==> |u.hs| == |u.ls| == 4 && HexValue(u.hs) >= 0xD800 && HexValue(u.ls) >= 0xDC00
  {
    match u
    case Code(ds, _) => if 0xDC00 <= HexValue(ds) < 0xE000 then 0 else HexValue(ds)
    case Surrogates(hs, _, ls, _) => 0x1_0000 + (HexValue(hs) - 0xD800) * 0x400 + (HexValue(ls) - 0xDC00)
    case Plain(c) => c as int
    case Short(c) => c as int
  }

  /** The bytes an element stands for. */
  ghost function Meaning(u: Unit): string
    requires WellFormed(u)
  {
    match u
    case Plain(c) => [c]
    case Short(c) => [ShortMeaning(c)]
    case _ =>
      var uc := CodePoint(u);
      if uc == 0 then "" else (CodePointBound(u); Utf8(uc))
  }

  lemma CodePointBound(u: Unit)
    requires WellFormed(u) && (u.Code? || u.Surrogates?)
    ensures CodePoint(u) < 0x11_0000
  {
  }

  /** The parser's table of short escapes is that of the standard. */
  lemma ShortIs(c: char)
    requires c != 'u'
    ensures UnescapeChar(c) == ShortMeaning(c)
  {
  }

  function SpelledAll(us: seq<Unit>): string {
    if us == [] then "" else Spelled(us[0]) + SpelledAll(us[1..])
  }

  ghost predicate AllWellFormed(us: seq<Unit>) {
    forall i :: 0 <= i < |us| ==> WellFormed(us[i])
  }

  ghost function MeaningAll(us: seq<Unit>): string
    requires AllWellFormed(us)
  {
    if us == [] then "" else Meaning(us[0]) + MeaningAll(us[1..])
  }

  lemma PlainHex(h: string, i: nat)
    requires IsHex4(h) && i < 4
    ensures h[i] != '"' && h[i] != '\\' && h[i] != '\0'
  {
  }

  lemma ScanNext(c: char, t: string)
    requires c != '"' && c != '\\' && c != '\0'
    ensures ScanLength([c] + t) == Longer(ScanLength(t))
  {
    assert ([c] + t)[1..] == t;
  }

  lemma ScanEscape(c: char, t: string)
    requires c != '\0'
    ensures ScanLength(['\\', c] + t) == Longer(ScanLength(t))
  {
    assert (['\\', c] + t)[2..] == t && (['\\', c] + t)[1..][0] == c;
  }

  /** The first pass counts the four digits of an escape one by one. */
  lemma ScanHex(h: string, t: string)
    requires |h| == 4 && IsHex4(h) && ScanLength(t).Parsed?
    ensures ScanLength("\\u" + h + t).Parsed? && ScanLength("\\u" + h + t).value == 5 + ScanLength(t).value
  {
    hide IsHex4, ScanLength;
    forall i: nat | i < 4 ensures h[i] != '"' && h[i] != '\\' && h[i] != '\0' {
      PlainHex(h, i);
    }
    var v3 := [h[3]] + t;
    var v2 := [h[2]] + v3;
    var v1 := [h[1]] + v2;
    var v0 := [h[0]] + v1;
    ScanNext(h[3], t);
    ScanNext(h[2], v3);
    ScanNext(h[1], v2);
    ScanNext(h[0], v1);
    ScanEscape('u', v0);
    assert "\\u" + h + t == ['\\', 'u'] + v0;
  }

  lemma HexAhead(h: string, t: string)
    requires |h| == 4 && IsHex4(h)
    ensures IsHex4(h + t) && Hex4(h + t) == Hex4(h)
  {
  }

  lemma UnescapeCode(ds: seq<nat>, h: string, t: string)
    requires WellFormed(Code(ds, h))
    ensures Unescape("\\u" + h + t) == Before(Meaning(Code(ds, h)), Unescape(t))
  {
    hide IsHex4, Hex4, Utf8, HexText, HexValue;
    var u := "\\u" + h + t;
    HexIs(ds, h);
    HexFour(ds, h);
    assert u[2..] == h + t && u[6..] == t;
    HexAhead(h, t);
  }

  lemma HexFour(ds: seq<nat>, h: string)
    requires HexText(ds, h)
    ensures |ds| == |h| == 4
  {
  }

  lemma UnescapePair(hs: seq<nat>, h: string, ls: seq<nat>, l: string, t: string)
    requires WellFormed(Surrogates(hs, h, ls, l))
    ensures Unescape("\\u" + h + ("\\u" + l + t)) == Before(Meaning(Surrogates(hs, h, ls, l)), Unescape(t))
  {
    hide IsHex4, Hex4, Utf8, HexText, HexValue;
    HexIs(hs, h);
    HexIs(ls, l);
    HexFour(hs, h);
    HexFour(ls, l);
    var v := "\\u" + l + t;
    var u := "\\u" + h + v;
    assert u[2..] == h + v && u[6..] == v && u[8..] == l + t && u[12..] == t;
    assert u[7..][0] == v[1] == 'u';
    HexAhead(h, v);
    HexAhead(l, t);
    PairIsUtf16(Hex4(h), Hex4(l));
  }

  lemma UnescapeEscape(u: Unit, t: string)
    requires WellFormed(u) && (u.Code? || u.Surrogates?)
    ensures Unescape(Spelled(u) + t) == Before(Meaning(u), Unescape(t))
    ensures ScanLength(t).Parsed? ==>
              && ScanLength(Spelled(u) + t).Parsed?
              && ScanLength(Spelled(u) + t).value >= |Meaning(u)| + ScanLength(t).value
  {
    hide IsHex4, Hex4, Utf8, Transcode, Unescape, ScanLength, HexText, HexValue, CodePoint;
    match u
    case Code(ds, h) =>
      UnescapeCode(ds, h, t);
      HexIs(ds, h);
      HexFour(ds, h);
      if ScanLength(t).Parsed? {
        ScanHex(h, t);
      }
    case Surrogates(hs, h, ls, l) =>
      UnescapePair(hs, h, ls, l, t);
      HexIs(hs, h);
      HexFour(hs, h);
      HexIs(ls, l);
      HexFour(ls, l);
      assert Spelled(u) + t == "\\u" + h + ("\\u" + l + t);
      if ScanLength(t).Parsed? {
        ScanHex(l, t);
        ScanHex(h, "\\u" + l + t);
      }
  }

  lemma UnescapeUnit(u: Unit, t: string)
    requires WellFormed(u)
    ensures Unescape(Spelled(u) + t) == Before(Meaning(u), Unescape(t))
    ensures ScanLength(t).Parsed? ==>
              && ScanLength(Spelled(u) + t).Parsed?
              && ScanLength(Spelled(u) + t).value >= |Meaning(u)| + ScanLength(t).value
  {
    hide IsHex4, Hex4, Utf8, Transcode, HexText, HexValue, UnescapeChar, ShortMeaning;
    match u
    case Plain(c) => assert ([c] + t)[1..] == t;
    case Short(c) => assert (['\\', c] + t)[2..] == t; ShortIs(c);
    case _ => UnescapeEscape(u, t);
  }

  lemma {:induction false} UnescapeUnits(us: seq<Unit>, t: string)
    requires AllWellFormed(us)
    ensures Unescape(SpelledAll(us) + "\"" + t) == Parsed(MeaningAll(us), t)
    ensures ScanLength(SpelledAll(us) + "\"" + t).Parsed?
    ensures ScanLength(SpelledAll(us) + "\"" + t).value >= |MeaningAll(us)|
    decreases |us|
  {
    hide Spelled, Meaning;
    if us == [] {
      assert SpelledAll(us) + "\"" + t == "\"" + t;
      assert ("\"" + t)[1..] == t;
    } else {
      var v := SpelledAll(us[1..]) + "\"" + t;
      assert SpelledAll(us) + "\"" + t == Spelled(us[0]) + v;
      UnescapeUnits(us[1..], t);
      UnescapeUnit(us[0], v);
    }
  }

  /** Every well-formed literal parses to what it means, within the length the first pass found. */
  lemma LiteralMeaning(us: seq<Unit>, t: string)
    requires AllWellFormed(us)
    ensures ParseString("\"" + SpelledAll(us) + "\"" + t) == Parsed(MeaningAll(us), t)
  {
    hide Unescape, ScanLength, SpelledAll, MeaningAll;
    var u := "\"" + SpelledAll(us) + "\"" + t;
    assert u[1..] == SpelledAll(us) + "\"" + t;
    UnescapeUnits(us, t);
  }

  // ---------------------------------------------------------------- inputs that are never undefined

  /** Outside a literal: every literal that opens has complete escapes. */
  predicate OutsideOk(t: string)
    decreases |t|
  {
    if At(t) == '\0' then true
    else if t[0] == '"' then InsideOk(t[1..])
    else OutsideOk(t[1..])
  }

  predicate InsideOk(t: string)
    decreases |t|
  {
    if At(t) == '\0' then true
    else if t[0] == '"' then OutsideOk(t[1..])
    else if t[0] != '\\' then InsideOk(t[1..])
    else if |t| < 2 || t[1] == '\0' then false
    else if t[1] == 'u' then IsHex4(t[2..]) && InsideOk(t[6..])
    else InsideOk(t[2..])
  }

  /** A literal with complete escapes is read within the text and written within its buffer. */
  lemma {:induction false} LiteralDefined(t: string)
    requires InsideOk(t)
    ensures ScanLength(t).Parsed? && Unescape(t).Parsed?
    ensures |Unescape(t).value| <= ScanLength(t).value && OutsideOk(Unescape(t).rest)
    decreases |t|
  {
    if At(t) == '"' || At(t) == '\0' {
    } else if t[0] != '\\' {
      LiteralDefined(t[1..]);
    } else if t[1] != 'u' {
      LiteralDefined(t[2..]);
    } else {
      EscapeDefined(t);
    }
  }

  lemma {:induction false} EscapeDefined(t: string)
    requires InsideOk(t) && |t| >= 2 && t[0] == '\\' && t[1] == 'u'
    ensures ScanLength(t).Parsed? && Unescape(t).Parsed?
    ensures |Unescape(t).value| <= ScanLength(t).value && OutsideOk(Unescape(t).rest)
    decreases |t|, 0
  {
    hide Utf8, Hex4, HexDigit;
    var (u, k) := Transcode(t);
    var h := t[2..6];
    assert t == "\\u" + h + t[6..];
    assert t[2..] == h + t[6..];
    if k == 12 {
      assert t[6] == '\\' && t[7] == 'u';
      assert t[6..][2..] == t[8..] && t[6..][6..] == t[12..];
      var l := t[8..12];
      assert t[6..] == "\\u" + l + t[12..];
      LiteralDefined(t[12..]);
      ScanHex(l, t[12..]);
      ScanHex(h, t[6..]);
    } else {
      LiteralDefined(t[6..]);
      ScanHex(h, t[6..]);
    }
  }

  lemma {:induction false} OutsideSkip(t: string)
    requires OutsideOk(t)
    ensures OutsideOk(Skip(t))
    decreases |t|
  {
    if t != "" && t[0] != '\0' && t[0] <= ' ' {
      OutsideSkip(t[1..]);
    }
  }

  /** Characters that are neither a quote nor the end can be dropped. */
  lemma {:induction false} OutsideDrop(t: string, k: nat)
    requires OutsideOk(t) && k <= |t| && forall i :: 0 <= i < k ==> t[i] != '"' && t[i] != '\0'
    ensures OutsideOk(t[k..])
    decreases k
  {
    if k > 0 {
      assert t[1..][k - 1..] == t[k..];
      OutsideDrop(t[1..], k - 1);
    }
  }

  lemma {:induction false} OutsideDigits(acc: nat, t: string)
    requires OutsideOk(t)
    ensures OutsideOk(Drop(t, Digits(acc, t).1))
    decreases |t|
  {
    if t != "" && IsDigit(t[0]) {
      var acc' := acc * 10 + (t[0] as int - '0' as int);
      OutsideDigits(acc', t[1..]);
      assert t[1..][Digits(acc', t[1..]).1..] == t[Digits(acc', t[1..]).1 + 1..];
    }
  }

  lemma OutsideFraction(n: nat, t: string)
    requires OutsideOk(t)
    ensures OutsideOk(Fraction(n, t).2)
  {
    if At(t) == '.' && |t| >= 2 && IsDigit(t[1]) {
      OutsideDigits(n, t[1..]);
    }
  }

  lemma OutsideExponent(t: string)
    requires OutsideOk(t)
    ensures OutsideOk(Exponent(t).1)
  {
    if At(t) == 'e' || At(t) == 'E' {
      var u := t[1..];
      var v := if At(u) == '+' || At(u) == '-' then u[1..] else u;
      assert OutsideOk(u) && OutsideOk(v);
      OutsideDigits(0, v);
    }
  }

  lemma OutsideNumber(t: string)
    requires OutsideOk(t) && (At(t) == '-' || IsDigit(At(t)))
    ensures OutsideOk(ParseNumber(t).rest)
  {
    hide Digits, Fraction, Exponent;
    var t1 := if At(t) == '-' then t[1..] else t;
    assert OutsideOk(t1);
    var t2 := if At(t1) == '0' then t1[1..] else t1;
    assert OutsideOk(t2);
    OutsideDigits(0, t2);
    var (n, k) := if '1' <= At(t2) <= '9' then Digits(0, t2) else (0, 0);
    OutsideFraction(n, Drop(t2, k));
    OutsideExponent(Fraction(n, Drop(t2, k)).2);
  }

  lemma OutsideString(t: string)
    requires OutsideOk(t)
    ensures ParseString(t) != Undefined && (ParseString(t).Parsed? ==> OutsideOk(ParseString(t).rest))
  {
    if At(t) == '"' {
      LiteralDefined(t[1..]);
    }
  }

  ghost predicate Fine<T>(o: Outcome<T>) {
    o != Undefined && (o.Parsed? ==> OutsideOk(o.rest))
  }

  /** On input whose literals have complete escapes, the parser never leaves the text or its buffers;
      it accepts or it reports an error. */
  lemma {:induction false} ValueDefined(t: string)
    requires OutsideOk(t)
    ensures Fine(ParseValue(t))
    decreases |t|, 3
  {
    hide ParseNumber, ParseString, ParseItems, ParseMembers;
    if "null" <= t {
      OutsideDrop(t, 4);
    } else if "false" <= t {
      OutsideDrop(t, 5);
    } else if "true" <= t {
      OutsideDrop(t, 4);
    } else if At(t) == '"' {
      OutsideString(t);
    } else if At(t) == '-' || IsDigit(At(t)) {
      OutsideNumber(t);
    } else if At(t) == '[' || At(t) == '{' {
      OutsideSkip(t[1..]);
      ItemsDefined(Skip(t[1..]));
      MembersDefined(Skip(t[1..]));
    }
  }

  lemma {:induction false} ItemsDefined(t: string)
    requires OutsideOk(t)
    ensures Fine(ParseItems(t))
    decreases |t|, 4
  {
    hide ParseValue;
    OutsideSkip(t);
    ValueDefined(Skip(t));
    if ParseValue(Skip(t)).Parsed? {
      var u := Skip(ParseValue(Skip(t)).rest);
      OutsideSkip(ParseValue(Skip(t)).rest);
      if At(u) == ',' {
        ItemsDefined(u[1..]);
      }
    }
  }

  lemma {:induction false} MemberDefined(t: string)
    requires OutsideOk(t)
    ensures Fine(ParseMember(t))
    decreases |t|, 4
  {
    hide ParseValue, ParseString;
    OutsideSkip(t);
    OutsideString(Skip(t));
    if ParseString(Skip(t)).Parsed? {
      var u := Skip(ParseString(Skip(t)).rest);
      OutsideSkip(ParseString(Skip(t)).rest);
      if At(u) == ':' {
        OutsideSkip(u[1..]);
        ValueDefined(Skip(u[1..]));
      }
    }
  }

  lemma {:induction false} MembersDefined(t: string)
    requires OutsideOk(t)
    ensures Fine(ParseMembers(t))
    decreases |t|, 5
  {
    hide ParseMember;
    MemberDefined(t);
    if ParseMember(t).Parsed? {
      var u := Skip(ParseMember(t).rest);
      OutsideSkip(ParseMember(t).rest);
      if At(u) == ',' {
        MembersDefined(u[1..]);
      }
    }
  }

  /** Complete escapes in all literals are enough for a whole parse. */
  lemma ParseDefined(t: string, requireNullTerminated: bool)
    requires OutsideOk(t)
    ensures Parse(t, requireNullTerminated) != Undefined
  {
    hide ParseValue;
    OutsideSkip(t);
    ValueDefined(Skip(t));
  }
}
