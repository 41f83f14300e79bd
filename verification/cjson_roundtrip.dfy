/** Parsing undoes printing, formatted or not, and escaping is undone by unescaping. */
module CJsonRoundTrip {
  import opened CJsonText

  const INT_MAX: int := 2147483647
  const INT_MIN: int := -INT_MAX - 1

  /** A C string: none of its characters is the terminator. */
  predicate NulFree(s: string) {
    forall i :: 0 <= i < |s| ==> s[i] != '\0'
  }

  /** Trees of null, booleans, 32-bit integers, strings, arrays and objects. */
  predicate Printable(j: Json) {
    match j
    case Number(n, e) => e == 0 && INT_MIN <= n <= INT_MAX
    case Str(s) => NulFree(s)
    case Arr(items) => forall i :: 0 <= i < |items| ==> Printable(items[i])
    case Obj(members) => forall i :: 0 <= i < |members| ==> NulFree(members[i].key) && Printable(members[i].value)
    case _ => true
  }

  /** Nothing that would make a number go on. */
  predicate NumberEnds(t: string) {
    !IsDigit(At(t)) && At(t) != '.' && At(t) != 'e' && At(t) != 'E'
  }

  // ---------------------------------------------------------------- numbers

  lemma ReadDigit(acc: nat, d: nat, t: string)
    requires d < 10
    ensures var (m, k) := Digits(acc * 10 + d, t); Digits(acc, [Digit(d)] + t) == (m, k + 1)
  {
    assert ([Digit(d)] + t)[1..] == t;
  }

  /** Reading the decimal digits of n is the same as having read n. */
  lemma {:induction false} ReadDecimal(n: nat, t: string)
    ensures var (m, k) := Digits(n, t); Digits(0, Decimal(n) + t) == (m, |Decimal(n)| + k)
    decreases n
  {
    hide Digits, Digit;
    if n < 10 {
      ReadDigit(0, n, t);
    } else {
      var d := [Digit(n % 10)];
      ReadDecimal(n / 10, d + t);
      ReadDigit(n / 10, n % 10, t);
      assert Decimal(n) + t == Decimal(n / 10) + (d + t);
    }
  }

  lemma {:induction false} DecimalStart(n: nat)
    ensures Decimal(n) != "" && IsDigit(Decimal(n)[0])
    ensures Decimal(n)[0] == '0' <==> n == 0
    ensures n == 0 ==> Decimal(n) == "0"
    decreases n
  {
    if n >= 10 {
      DecimalStart(n / 10);
    }
  }

  lemma ParseDecimal(n: nat, t: string)
    requires NumberEnds(t)
    ensures var u := Decimal(n) + t;
            var v := if At(u) == '0' then u[1..] else u;
            if '1' <= At(v) <= '9' then Digits(0, v) == (n, |Decimal(n)|) && Drop(v, |Decimal(n)|) == t
            else n == 0 && v == t
  {
    DecimalStart(n);
    ReadDecimal(n, t);
    var u := Decimal(n) + t;
    assert u[0] == Decimal(n)[0];
    if n == 0 {
      assert u[1..] == t;
    } else {
      assert u[|Decimal(n)|..] == t;
    }
  }

  lemma ParseInt(n: int, t: string)
    requires NumberEnds(t)
    ensures var u := PrintInt(n) + t; At(u) == '-' || IsDigit(At(u))
    ensures ParseNumber(PrintInt(n) + t) == Parsed(Number(n, 0), t)
  {
    hide Decimal, Digits;
    var u := PrintInt(n) + t;
    var d: nat := if n < 0 then -n else n;
    DecimalStart(d);
    ParseDecimal(d, t);
    if n < 0 {
      assert u[1..] == Decimal(d) + t;
    } else {
      assert u[0] == Decimal(d)[0];
    }
  }

  // ---------------------------------------------------------------- strings

  lemma HexOfDigit(d: nat)
    requires d < 16
    ensures HexDigit(Digit(d)) == d
  {
  }

  /** One character's escape is undone, and counted at least once by the first pass. */
  lemma UnescapeOne(c: char, t: string)
    requires c != '\0'
    ensures Unescape(EscapeChar(c) + t) == Before([c], Unescape(t))
    ensures ScanLength(t).Parsed? ==>
              ScanLength(EscapeChar(c) + t).Parsed? && ScanLength(EscapeChar(c) + t).value >= 1 + ScanLength(t).value
  {
    hide Transcode, Digit;
    var e := EscapeChar(c);
    var u := e + t;
    if |e| == 1 {
      assert u[1..] == t;
    } else if |e| == 2 {
      assert u[2..] == t;
    } else {
      UnescapeHex(c, t);
    }
  }

  lemma UnescapeHex(c: char, t: string)
    requires '\0' < c && c as int < 32 && |EscapeChar(c)| == 6
    ensures Unescape(EscapeChar(c) + t) == Before([c], Unescape(t))
    ensures ScanLength(t).Parsed? ==>
              ScanLength(EscapeChar(c) + t).Parsed? && ScanLength(EscapeChar(c) + t).value >= 1 + ScanLength(t).value
  {
    UnescapeControl(c, t);
    if ScanLength(t).Parsed? {
      ScanControl(c, t);
    }
  }

  lemma UnescapeControl(c: char, t: string)
    requires '\0' < c && c as int < 32 && |EscapeChar(c)| == 6
    ensures Unescape(EscapeChar(c) + t) == Before([c], Unescape(t))
  {
    hide Digit;
    var u := EscapeChar(c) + t;
    var hi, lo := c as int / 16 % 16, c as int % 16;
    HexOfDigit(hi);
    HexOfDigit(lo);
    assert u[2..][0] == '0' && u[2..][1] == '0' && u[2..][2] == Digit(hi) && u[2..][3] == Digit(lo);
    assert Hex4(Drop(u, 2)) == c as int;
    assert Transcode(u) == ([c], 6);
    assert u[6..] == t;
  }

  lemma ScanControl(c: char, t: string)
    requires '\0' < c && c as int < 32 && |EscapeChar(c)| == 6 && ScanLength(t).Parsed?
    ensures ScanLength(EscapeChar(c) + t).Parsed? && ScanLength(EscapeChar(c) + t).value >= 1 + ScanLength(t).value
  {
    hide Digit, ScanLength, EscapeChar;
    var u := EscapeChar(c) + t;
    var hi, lo := c as int / 16 % 16, c as int % 16;
    var v2 := [Digit(lo)] + t;
    var v3 := [Digit(hi)] + v2;
    var v4 := ['0'] + v3;
    PlainDigit(hi);
    PlainDigit(lo);
    ScanPlain(Digit(lo), t);
    ScanPlain(Digit(hi), v2);
    ScanPlain('0', v3);
    ScanPlain('0', v4);
    ControlIs(c);
    assert u == ['\\', 'u'] + (['0'] + v4);
    ScanPair('u', ['0'] + v4);
  }

  lemma ControlIs(c: char)
    requires '\0' < c && c as int < 32 && |EscapeChar(c)| == 6
    ensures EscapeChar(c) == ['\\', 'u', '0', '0', Digit(c as int / 16 % 16), Digit(c as int % 16)]
  {
  }

  lemma ScanPair(c: char, t: string)
    requires c != '\0'
    ensures ScanLength(['\\', c] + t) == Longer(ScanLength(t))
  {
    assert (['\\', c] + t)[2..] == t && (['\\', c] + t)[1..][0] == c;
  }

  lemma PlainDigit(d: nat)
    requires d < 16
    ensures var c := Digit(d); c != '"' && c != '\0' && c != '\\'
  {
  }

  lemma ScanPlain(c: char, t: string)
    requires c != '"' && c != '\0' && c != '\\'
    ensures ScanLength([c] + t) == Longer(ScanLength(t))
  {
    assert ([c] + t)[1..] == t;
  }

  /** Escaping and unescaping are inverse on every C string, whatever follows the closing quote. */
  lemma {:induction false} UnescapeEscaped(s: string, t: string)
    requires NulFree(s)
    ensures Unescape(Escape(s) + "\"" + t) == Parsed(s, t)
    ensures ScanLength(Escape(s) + "\"" + t).Parsed? && ScanLength(Escape(s) + "\"" + t).value >= |s|
    decreases |s|
  {
    if s == "" {
      assert Escape(s) + "\"" + t == "\"" + t;
      assert ("\"" + t)[1..] == t;
    } else {
      var u := Escape(s[1..]) + "\"" + t;
      assert Escape(s) + "\"" + t == EscapeChar(s[0]) + u;
      UnescapeEscaped(s[1..], t);
      UnescapeOne(s[0], u);
      assert [s[0]] + s[1..] == s;
    }
  }

  lemma ParseQuoted(s: string, t: string)
    requires NulFree(s)
    ensures ParseString(Quote(s) + t) == Parsed(s, t)
  {
    var u := Quote(s) + t;
    assert u[1..] == Escape(s) + "\"" + t;
    UnescapeEscaped(s, t);
  }

  // ---------------------------------------------------------------- trees

  lemma {:induction false} SkipTabs(n: nat, t: string)
    ensures Skip(Tabs(n) + t) == Skip(t)
  {
    if n == 0 {
      assert Tabs(n) + t == t;
    } else {
      assert (Tabs(n) + t)[1..] == Tabs(n - 1) + t;
      SkipTabs(n - 1, t);
    }
  }

  lemma SkipSpace(c: char, t: string)
    requires '\0' < c <= ' '
    ensures Skip([c] + t) == Skip(t)
  {
    assert ([c] + t)[1..] == t;
  }

  /** What a printed value begins with. */
  lemma PrintStart(j: Json, depth: nat, fmt: bool)
    requires Printable(j)
    ensures var p := Print(j, depth, fmt); p != "" && p[0] > ' ' && p[0] != ']' && p[0] != '}'
  {
    if j.Number? {
      var n := j.mantissa;
      DecimalStart(if n < 0 then -n else n);
    }
  }

  lemma NotWords(c: char, t: string)
    requires c == '"' || c == '[' || c == '{' || c == '-' || IsDigit(c)
    ensures !("null" <= [c] + t) && !("false" <= [c] + t) && !("true" <= [c] + t)
  {
    assert ([c] + t)[0] == c;
  }

  lemma ParsePrintedNumber(n: int, t: string)
    requires NumberEnds(t)
    ensures ParseValue(PrintInt(n) + t) == Parsed(Number(n, 0), t)
  {
    hide ParseNumber, Decimal, ParseString;
    ParseInt(n, t);
    var u := PrintInt(n) + t;
    NotWords(u[0], u[1..]);
    assert u == [u[0]] + u[1..];
  }

  lemma ParsePrintedString(s: string, t: string)
    requires NulFree(s)
    ensures ParseValue(Quote(s) + t) == Parsed(Str(s), t)
  {
    hide ParseNumber, Escape, ParseString;
    ParseQuoted(s, t);
    var u := Quote(s) + t;
    NotWords('"', u[1..]);
    assert u == ['"'] + u[1..];
  }

  lemma ParseBracketed(u: string)
    requires At(u) == '[' || At(u) == '{'
    ensures ParseValue(u) == if At(u) == '[' then ParseArray(u) else ParseObject(u)
  {
    hide ParseNumber, ParseString, ParseArray, ParseObject;
    NotWords(u[0], u[1..]);
    assert u == [u[0]] + u[1..];
  }

  lemma ParseWord(j: Json, depth: nat, fmt: bool, t: string)
    requires j == Null || j == False || j == True
    ensures ParseValue(Print(j, depth, fmt) + t) == Parsed(j, t)
  {
    hide ParseNumber, ParseString, ParseArray, ParseObject;
    var p := Print(j, depth, fmt);
    assert (p + t)[|p|..] == t;
    assert (p + t)[0] == p[0];
    assert p <= p + t;
  }

  /** The value, the whole value and nothing but the value, before any text that does not prolong it. */
  lemma {:induction false} ParsePrinted(j: Json, depth: nat, fmt: bool, t: string)
    requires Printable(j) && (j.Number? ==> NumberEnds(t))
    ensures ParseValue(Print(j, depth, fmt) + t) == Parsed(j, t)
    decreases j, 1
  {
    hide ParseValue, ParseArray, ParseObject, Quote, PrintInt, PrintItems, PrintMembers, Tabs, NumberEnds, Skip;
    match j
    case Number(n, e) => ParsePrintedNumber(n, t);
    case Str(s) => ParsePrintedString(s, t);
    case Arr(items) =>
      ParsePrintedArray(j, depth, fmt, t);
      ParseBracketed(Print(j, depth, fmt) + t);
    case Obj(members) =>
      ParsePrintedObject(j, depth, fmt, t);
      ParseBracketed(Print(j, depth, fmt) + t);
    case _ => ParseWord(j, depth, fmt, t);
  }

  lemma {:induction false} ParsePrintedArray(j: Json, depth: nat, fmt: bool, t: string)
    requires j.Arr? && Printable(j)
    ensures var u := Print(j, depth, fmt) + t; At(u) == '[' && ParseArray(u) == Parsed(j, t)
    decreases j, 0
  {
    hide ParseItems, PrintItems;
    var u := Print(j, depth, fmt) + t;
    if j.items == [] {
      assert u[1..] == "]" + t && ("]" + t)[1..] == t;
    } else {
      var v := PrintItems(j.items, depth + 1, fmt) + "]" + t;
      assert u[1..] == v;
      ParsePrintedItems(j, j.items, depth + 1, fmt, t);
      ItemsStart(j.items, depth + 1, fmt, "]" + t);
      assert v == PrintItems(j.items, depth + 1, fmt) + ("]" + t);
    }
  }

  lemma ItemsStart(items: seq<Json>, depth: nat, fmt: bool, t: string)
    requires items != [] && Printable(items[0])
    ensures var u := PrintItems(items, depth, fmt) + t; Skip(u) == u && At(u) != ']'
  {
    PrintStart(items[0], depth, fmt);
    var p := Print(items[0], depth, fmt);
    assert PrintItems(items, depth, fmt)[0] == p[0];
  }

  lemma LastItem(u: string, v: Json, t: string)
    requires ParseValue(Skip(u)) == Parsed(v, "]" + t)
    ensures ParseItems(u) == Parsed([v], t)
  {
    hide ParseValue;
    assert ("]" + t)[1..] == t;
  }

  lemma NextItem(u: string, v: Json, w: string)
    requires ParseValue(Skip(u)) == Parsed(v, "," + w) && ParseItems(w).Parsed?
    ensures ParseItems(u) == Parsed([v] + ParseItems(w).value, ParseItems(w).rest)
  {
    hide ParseValue;
    assert ("," + w)[1..] == w;
  }

  lemma ItemsSkip(u: string, w: string)
    requires Skip(u) == Skip(w)
    ensures ParseItems(u) == ParseItems(w)
  {
    hide ParseValue;
  }

  lemma {:induction false} ParsePrintedItems(j: Json, items: seq<Json>, depth: nat, fmt: bool, t: string)
    requires items != [] && forall i :: 0 <= i < |items| ==> Printable(items[i]) && items[i] < j
    ensures ParseItems(PrintItems(items, depth, fmt) + "]" + t) == Parsed(items, t)
    decreases j, 0, |items|
  {
    hide ParseValue, ParseItems, Print, Printable, Skip;
    var u := PrintItems(items, depth, fmt) + "]" + t;
    var p := Print(items[0], depth, fmt);
    ItemsStart(items, depth, fmt, "]" + t);
    assert u == PrintItems(items, depth, fmt) + ("]" + t);
    if |items| == 1 {
      assert u == p + ("]" + t);
      ParsePrinted(items[0], depth, fmt, "]" + t);
      LastItem(u, items[0], t);
      assert items == [items[0]];
    } else {
      var v := PrintItems(items[1..], depth, fmt) + "]" + t;
      var w := (if fmt then " " else "") + v;
      assert u == p + ("," + w);
      ParsePrinted(items[0], depth, fmt, "," + w);
      ParsePrintedItems(j, items[1..], depth, fmt, t);
      if fmt {
        SkipSpace(' ', v);
        ItemsSkip(w, v);
      } else {
        assert w == v;
      }
      NextItem(u, items[0], w);
      assert items == [items[0]] + items[1..];
    }
  }

  /** What stands between the last member and the closing brace, and the brace. */
  function Close(depth: nat, fmt: bool): string {
    (if fmt then Tabs(depth) else "") + "}"
  }

  lemma {:induction false} ParsePrintedObject(j: Json, depth: nat, fmt: bool, t: string)
    requires j.Obj? && Printable(j)
    ensures var u := Print(j, depth, fmt) + t; At(u) == '{' && ParseObject(u) == Parsed(j, t)
    decreases j, 0
  {
    hide ParseMembers, PrintMembers, Tabs;
    var u := Print(j, depth, fmt) + t;
    if j.members == [] {
      if fmt {
        var n := if depth == 0 then 0 else depth - 1;
        assert u[1..] == ['\n'] + (Tabs(n) + ("}" + t));
        SkipSpace('\n', Tabs(n) + ("}" + t));
        SkipTabs(n, "}" + t);
      } else {
        assert u[1..] == "}" + t;
      }
      assert ("}" + t)[1..] == t;
    } else {
      var v := PrintMembers(j.members, depth + 1, fmt) + Close(depth, fmt) + t;
      assert u[1..] == (if fmt then "\n" else "") + v;
      if fmt {
        SkipSpace('\n', v);
      } else {
        assert u[1..] == v;
      }
      MembersStart(j.members, depth + 1, fmt, Close(depth, fmt) + t);
      assert v == PrintMembers(j.members, depth + 1, fmt) + (Close(depth, fmt) + t);
      ParsePrintedMembers(j, j.members, depth, fmt, t);
      MembersSkip(v);
    }
  }

  lemma MembersStart(members: seq<Member>, depth: nat, fmt: bool, t: string)
    requires members != []
    ensures At(Skip(PrintMembers(members, depth, fmt) + t)) == '"'
  {
    var u := PrintMembers(members, depth, fmt) + t;
    hide Print, Escape, Skip;
    var n := if fmt then depth else 0;
    var q := Quote(members[0].key);
    var p := PrintMember(members[0], depth, fmt);
    TabsLength(n);
    assert p == Tabs(n) + (q + (if fmt then ":\t" else ":") + Print(members[0].value, depth, fmt));
    var v := u[n..];
    assert u == Tabs(n) + v;
    assert v[0] == q[0];
    SkipTabs(n, v);
    NoSkip(v);
  }

  lemma NoSkip(t: string)
    requires At(t) > ' '
    ensures Skip(t) == t
  {
  }

  lemma {:induction false} TabsLength(n: nat)
    ensures |Tabs(n)| == n
  {
    if n > 0 {
      TabsLength(n - 1);
    }
  }

  lemma SkipTwice(t: string)
    ensures Skip(Skip(t)) == Skip(t)
  {
    if t != "" && t[0] != '\0' && t[0] <= ' ' {
      SkipTwice(t[1..]);
    }
  }

  lemma MembersSkip(t: string)
    ensures ParseMembers(Skip(t)) == ParseMembers(t)
  {
    hide ParseString, ParseValue, ParseMembers;
    SkipTwice(t);
    MembersSame(Skip(t), t);
  }

  lemma MembersSame(u: string, w: string)
    requires ParseMember(u) == ParseMember(w)
    ensures ParseMembers(u) == ParseMembers(w)
  {
    hide ParseMember;
  }

  lemma LastMember(u: string, m: Member, w: string, t: string)
    requires ParseMember(u) == Parsed(m, w) && Skip(w) == "}" + t
    ensures ParseMembers(u) == Parsed([m], t)
  {
    hide ParseMember;
    assert ("}" + t)[1..] == t;
  }

  lemma NextMember(u: string, m: Member, w: string)
    requires ParseMember(u) == Parsed(m, "," + w) && ParseMembers(w).Parsed?
    ensures ParseMembers(u) == Parsed([m] + ParseMembers(w).value, ParseMembers(w).rest)
  {
    hide ParseMember;
    assert ("," + w)[1..] == w;
  }

  lemma {:induction false} ParsePrintedMember(j: Json, m: Member, depth: nat, fmt: bool, t: string)
    requires NulFree(m.key) && Printable(m.value) && m.value < j && (m.value.Number? ==> NumberEnds(t))
    ensures ParseMember(PrintMember(m, depth, fmt) + t) == Parsed(m, t)
    decreases j, 0, 0
  {
    hide ParseValue, ParseString, Print, Printable, Escape;
    var n := if fmt then depth else 0;
    var w := Print(m.value, depth, fmt) + t;
    var v := (if fmt then ":\t" else ":") + w;
    var u := PrintMember(m, depth, fmt) + t;
    assert u == Tabs(n) + (Quote(m.key) + v);
    SkipTabs(n, Quote(m.key) + v);
    assert (Quote(m.key) + v)[0] == '"';
    ParseQuoted(m.key, v);
    assert v[0] == ':';
    PrintStart(m.value, depth, fmt);
    assert w[0] == Print(m.value, depth, fmt)[0];
    if fmt {
      assert v[1..] == ['\t'] + w;
      SkipSpace('\t', w);
    } else {
      assert v[1..] == w;
    }
    ParsePrinted(m.value, depth, fmt, t);
  }

  lemma {:induction false} ParsePrintedMembers(j: Json, members: seq<Member>, depth: nat, fmt: bool, t: string)
    requires members != []
    requires forall i :: 0 <= i < |members| ==>
               NulFree(members[i].key) && Printable(members[i].value) && members[i].value < j
    ensures ParseMembers(PrintMembers(members, depth + 1, fmt) + Close(depth, fmt) + t) == Parsed(members, t)
    decreases j, 0, |members|
  {
    hide ParseMember, ParseMembers, PrintMember, Printable, Skip, Close;
    var m := members[0];
    var p := PrintMember(m, depth + 1, fmt);
    var nl := if fmt then "\n" else "";
    var u := PrintMembers(members, depth + 1, fmt) + Close(depth, fmt) + t;
    if |members| == 1 {
      var w := nl + Close(depth, fmt) + t;
      assert PrintMembers(members[1..], depth + 1, fmt) == "";
      assert u == p + w;
      SkipClose(depth, fmt, t);
      ParsePrintedMember(j, m, depth + 1, fmt, w);
      LastMember(u, m, w, t);
      assert members == [m];
    } else {
      var v := PrintMembers(members[1..], depth + 1, fmt) + Close(depth, fmt) + t;
      var w := nl + v;
      assert u == p + ("," + w);
      ParsePrintedMember(j, m, depth + 1, fmt, "," + w);
      ParsePrintedMembers(j, members[1..], depth, fmt, t);
      if fmt {
        SkipSpace('\n', v);
        MembersSkip(v);
        MembersSkip(w);
      } else {
        assert w == v;
      }
      NextMember(u, m, w);
      assert members == [m] + members[1..];
    }
  }

  lemma SkipClose(depth: nat, fmt: bool, t: string)
    ensures Skip((if fmt then "\n" else "") + Close(depth, fmt) + t) == "}" + t
    ensures NumberEnds((if fmt then "\n" else "") + Close(depth, fmt) + t)
    ensures ("}" + t)[1..] == t
  {
    if fmt {
      assert "\n" + Close(depth, fmt) + t == ['\n'] + (Tabs(depth) + ("}" + t));
      SkipSpace('\n', Tabs(depth) + ("}" + t));
      SkipTabs(depth, "}" + t);
    } else {
      assert "" + Close(depth, fmt) + t == "}" + t;
    }
  }

  /** cJSON_Parse undoes cJSON_Print and cJSON_PrintUnformatted on every printable tree. */
  lemma RoundTrip(j: Json, fmt: bool)
    requires Printable(j)
    ensures Parse(Print(j, 0, fmt), true) == Parsed(j, "") && Parse(Print(j, 0, fmt), false) == Parsed(j, "")
  {
    var p := Print(j, 0, fmt);
    assert p + "" == p;
    PrintStart(j, 0, fmt);
    ParsePrinted(j, 0, fmt, "");
  }
}
