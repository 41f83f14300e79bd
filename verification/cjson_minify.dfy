/** The in-place minifier, and that it changes nothing but the layout. */
module CJsonMinify {
  import opened CJsonText
  import opened CJsonRoundTrip
  import opened CJsonStrings

  /** The minified text, or Overrun when the C code reads past the terminating NUL (a comment or a
      literal that is not closed). */
  datatype Minified = Text(s: string) | Overrun

  function Prepend(p: string, m: Minified): Minified {
    if m.Text? then Text(p + m.s) else Overrun
  }

  predicate IsLayout(c: char) {
    c == ' ' || c == '\t' || c == '\r' || c == '\n'
  }

  /** What is left behind a line comment; the line end stays. */
  function LineComment(t: string): (r: string)
    ensures |r| <= |t|
  {
    if At(t) == '\0' || t[0] == '\n' then t else LineComment(t[1..])
  }

  datatype Rest = Rest(t: string) | NoEnd

  function BlockComment(t: string): (r: Rest)
    ensures r.Rest? ==> |r.t| < |t|
  {
    if At(t) == '\0' then NoEnd
    else if t[0] == '*' && |t| >= 2 && t[1] == '/' then Rest(t[2..])
    else BlockComment(t[1..])
  }

  datatype Literal = Literal(text: string, rest: string) | Open

  /** A literal from behind its opening quote, closing quote included. */
  function CopyLiteral(t: string): (l: Literal)
    ensures l.Literal? ==> |l.rest| < |t| && l.text + l.rest == t
    decreases |t|
  {
    if At(t) == '\0' then Open
    else if t[0] == '"' then Literal("\"", t[1..])
    else if t[0] != '\\' then CopyOn(t, 1, CopyLiteral(t[1..]))
    else if At(t[1..]) == '\0' then Open
    else CopyOn(t, 2, CopyLiteral(t[2..]))
  }

  function CopyOn(t: string, k: nat, l: Literal): Literal
    requires k <= |t|
  {
    if l.Literal? then Literal(t[..k] + l.text, l.rest) else Open
  }

  function Minify(t: string): Minified
    decreases |t|
  {
    if At(t) == '\0' then Text("")
    else if IsLayout(t[0]) then Minify(t[1..])
    else if t[0] == '/' && |t| >= 2 && t[1] == '/' then Minify(LineComment(t[2..]))
    else if t[0] == '/' && |t| >= 2 && t[1] == '*' then
      match BlockComment(t)
      case Rest(u) => Minify(u)
      case NoEnd => Overrun
    else if t[0] == '"' then
      match CopyLiteral(t[1..])
      case Literal(text, rest) => Prepend("\"" + text, Minify(rest))
      case Open => Overrun
    else Prepend([t[0]], Minify(t[1..]))
  }

  // ---------------------------------------------------------------- the pretty form

  lemma MinifyPlain(c: char, t: string)
    requires c > ' ' && c != '"' && c != '/'
    ensures Minify([c] + t) == Prepend([c], Minify(t))
  {
    assert ([c] + t)[1..] == t;
  }

  lemma MinifyLayout(c: char, t: string)
    requires IsLayout(c)
    ensures Minify([c] + t) == Minify(t)
  {
    assert ([c] + t)[1..] == t;
  }

  lemma {:induction false} MinifyTabs(n: nat, t: string)
    ensures Minify(Tabs(n) + t) == Minify(t)
  {
    if n == 0 {
      assert Tabs(n) + t == t;
    } else {
      assert Tabs(n) + t == [TAB] + (Tabs(n - 1) + t);
      MinifyLayout(TAB, Tabs(n - 1) + t);
      MinifyTabs(n - 1, t);
    }
  }

  /** Characters that are copied one by one. */
  predicate Plain(s: string) {
    forall i :: 0 <= i < |s| ==> s[i] > ' ' && s[i] != '"' && s[i] != '/'
  }

  lemma PrependTwice(p: string, q: string, m: Minified)
    ensures Prepend(p, Prepend(q, m)) == Prepend(p + q, m)
  {
    if m.Text? {
      assert p + (q + m.s) == (p + q) + m.s;
    }
  }

  lemma {:induction false} MinifyPlains(s: string, t: string)
    requires Plain(s)
    ensures Minify(s + t) == Prepend(s, Minify(t))
    decreases |s|
  {
    hide Minify;
    if s == "" {
      assert s + t == t;
      if Minify(t).Text? {
        assert "" + Minify(t).s == Minify(t).s;
      }
    } else {
      assert s + t == [s[0]] + (s[1..] + t);
      MinifyPlain(s[0], s[1..] + t);
      MinifyPlains(s[1..], t);
      PrependTwice([s[0]], s[1..], Minify(t));
      assert [s[0]] + s[1..] == s;
    }
  }

  lemma CopyEscaped(c: char, t: string)
    requires c != '\0' && CopyLiteral(t).Literal?
    ensures var l := CopyLiteral(t);
            CopyLiteral(EscapeChar(c) + t) == Literal(EscapeChar(c) + l.text, l.rest)
  {
    hide Digit, CopyLiteral;
    var e := EscapeChar(c);
    if |e| == 1 {
      CopyOne(c, t);
    } else if |e| == 2 {
      assert e == ['\\', e[1]];
      CopyTwo(e[1], t);
    } else {
      CopyControl(c, t);
    }
  }

  lemma CopyTwo(c: char, t: string)
    requires c != '\0' && CopyLiteral(t).Literal?
    ensures CopyLiteral(['\\', c] + t) == Literal(['\\', c] + CopyLiteral(t).text, CopyLiteral(t).rest)
  {
    assert (['\\', c] + t)[2..] == t && (['\\', c] + t)[..2] == ['\\', c];
  }

  lemma CopyOne(c: char, t: string)
    requires c != '"' && c != '\\' && c != '\0' && CopyLiteral(t).Literal?
    ensures CopyLiteral([c] + t) == Literal([c] + CopyLiteral(t).text, CopyLiteral(t).rest)
  {
    assert ([c] + t)[1..] == t && ([c] + t)[..1] == [c];
  }

  predicate InLiteral(c: char) {
    c != '"' && c != '\\' && c != '\0'
  }

  lemma CopyBoth(a: char, b: char, t: string)
    requires InLiteral(a) && InLiteral(b) && CopyLiteral(t).Literal?
    ensures CopyLiteral([a, b] + t) == Literal([a, b] + CopyLiteral(t).text, CopyLiteral(t).rest)
  {
    hide CopyLiteral;
    CopyOne(b, t);
    CopyOne(a, [b] + t);
    assert [a, b] + t == [a] + ([b] + t);
    assert [a, b] + CopyLiteral(t).text == [a] + ([b] + CopyLiteral(t).text);
  }

  lemma CopyControl(c: char, t: string)
    requires c != '\0' && |EscapeChar(c)| == 6 && CopyLiteral(t).Literal?
    ensures var l := CopyLiteral(t);
            CopyLiteral(EscapeChar(c) + t) == Literal(EscapeChar(c) + l.text, l.rest)
  {
    hide Digit, CopyLiteral;
    var hi, lo := Digit(c as int / 16 % 16), Digit(c as int % 16);
    var p := ['\\', 'u'] + ['0', '0'] + [hi, lo];
    assert EscapeChar(c) == p;
    CopySix(hi, lo, t) by {
      PlainDigit(c as int / 16 % 16);
      PlainDigit(c as int % 16);
    }
  }

  lemma CopySix(hi: char, lo: char, t: string)
    requires InLiteral(hi) && InLiteral(lo) && CopyLiteral(t).Literal?
    ensures var p := ['\\', 'u'] + ['0', '0'] + [hi, lo];
            CopyLiteral(p + t) == Literal(p + CopyLiteral(t).text, CopyLiteral(t).rest)
  {
    hide CopyLiteral;
    CopyBoth(hi, lo, t);
    CopyBoth('0', '0', [hi, lo] + t);
    CopyTwo('u', ['0', '0'] + ([hi, lo] + t));
    Regroup(['\\', 'u'], ['0', '0'], [hi, lo], t);
    Regroup(['\\', 'u'], ['0', '0'], [hi, lo], CopyLiteral(t).text);
  }

  lemma Regroup(p: string, q: string, r: string, t: string)
    ensures p + q + r + t == p + (q + (r + t))
  {
  }

  lemma {:induction false} CopyQuoted(s: string, t: string)
    requires NulFree(s)
    ensures CopyLiteral(Escape(s) + "\"" + t) == Literal(Escape(s) + "\"", t)
    decreases |s|
  {
    if s == "" {
      assert Escape(s) + "\"" + t == "\"" + t && ("\"" + t)[1..] == t;
    } else {
      hide CopyLiteral, EscapeChar;
      var u := Escape(s[1..]) + "\"" + t;
      assert Escape(s) + "\"" + t == EscapeChar(s[0]) + u;
      CopyQuoted(s[1..], t);
      CopyEscaped(s[0], u);
      assert EscapeChar(s[0]) + (Escape(s[1..]) + "\"") == Escape(s) + "\"";
    }
  }

  lemma MinifyQuoted(s: string, t: string)
    requires NulFree(s)
    ensures Minify(Quote(s) + t) == Prepend(Quote(s), Minify(t))
  {
    hide CopyLiteral, Escape;
    var u := Quote(s) + t;
    assert u[1..] == Escape(s) + "\"" + t;
    CopyQuoted(s, t);
    assert "\"" + (Escape(s) + "\"") == Quote(s);
  }

  lemma {:induction false} PlainInt(n: int)
    ensures Plain(PrintInt(n))
  {
    PlainDecimal(if n < 0 then -n else n);
  }

  lemma {:induction false} PlainDecimal(n: nat)
    ensures Plain(Decimal(n))
    decreases n
  {
    if n >= 10 {
      PlainDecimal(n / 10);
    }
  }

  /** The formatted text of a value minifies to its unformatted text, whatever follows. */
  lemma {:induction false} MinifyPrinted(j: Json, depth: nat, t: string)
    requires Printable(j)
    ensures Minify(Print(j, depth, true) + t) == Prepend(Print(j, 0, false), Minify(t))
    decreases j, 1
  {
    hide Minify, PrintInt, Quote, PrintItems, PrintMembers, Tabs, Prepend;
    match j
    case Number(n, _) =>
      PlainInt(n);
      MinifyPlains(PrintInt(n), t);
    case Str(s) => MinifyQuoted(s, t);
    case Arr(items) => MinifyArray(j, depth, t);
    case Obj(members) => MinifyObject(j, depth, t);
    case _ => MinifyPlains(Print(j, depth, true), t);
  }

  lemma {:induction false} MinifyArray(j: Json, depth: nat, t: string)
    requires Printable(j) && j.Arr?
    ensures Minify(Print(j, depth, true) + t) == Prepend(Print(j, 0, false), Minify(t))
    decreases j, 0
  {
    hide Minify, PrintItems, Prepend;
    if j.items == [] {
      MinifyPlains("[]", t);
    } else {
      var f, c := PrintItems(j.items, depth + 1, true), PrintItems(j.items, 1, false);
      assert Print(j, depth, true) + t == "[" + (f + ("]" + t));
      MinifyPlains("[", f + ("]" + t));
      MinifyItems(j, j.items, depth + 1, 1, "]" + t);
      MinifyPlains("]", t);
      PrependTwice(c, "]", Minify(t));
      PrependTwice("[", c + "]", Minify(t));
      assert "[" + (c + "]") == Print(j, 0, false);
    }
  }

  lemma {:induction false} MinifyItems(j: Json, items: seq<Json>, depth: nat, d: nat, t: string)
    requires items != [] && forall i :: 0 <= i < |items| ==> Printable(items[i]) && items[i] < j
    ensures Minify(PrintItems(items, depth, true) + t) == Prepend(PrintItems(items, d, false), Minify(t))
    decreases j, 0, |items|
  {
    hide Minify, Print, Prepend, Printable;
    var f, c := Print(items[0], depth, true), Print(items[0], 0, false);
    PrintDepth(items[0], d, 0);
    if |items| == 1 {
      MinifyPrinted(items[0], depth, t);
    } else {
      var fs, cs := PrintItems(items[1..], depth, true), PrintItems(items[1..], d, false);
      assert PrintItems(items, depth, true) + t == f + ("," + ([' '] + (fs + t)));
      MinifyPrinted(items[0], depth, "," + ([' '] + (fs + t)));
      MinifyPlains(",", [' '] + (fs + t));
      MinifyLayout(' ', fs + t);
      MinifyItems(j, items[1..], depth, d, t);
      PrependTwice(",", cs, Minify(t));
      PrependTwice(c, "," + cs, Minify(t));
      assert c + ("," + cs) == PrintItems(items, d, false);
    }
  }

  /** Unformatted text does not depend on the depth. */
  lemma {:induction false} PrintDepth(j: Json, d: nat, e: nat)
    ensures Print(j, d, false) == Print(j, e, false)
    decreases j, 1
  {
    hide PrintInt, Quote, PrintItems, PrintMembers;
    match j
    case Arr(items) => ItemsDepth(items, d + 1, e + 1);
    case Obj(members) => MembersDepth(members, d + 1, e + 1);
    case _ =>
  }

  lemma {:induction false} ItemsDepth(items: seq<Json>, d: nat, e: nat)
    ensures PrintItems(items, d, false) == PrintItems(items, e, false)
    decreases items
  {
    hide Print;
    if items != [] {
      PrintDepth(items[0], d, e);
      ItemsDepth(items[1..], d, e);
    }
  }

  lemma {:induction false} MembersDepth(members: seq<Member>, d: nat, e: nat)
    ensures PrintMembers(members, d, false) == PrintMembers(members, e, false)
    decreases members
  {
    hide Print;
    if members != [] {
      PrintDepth(members[0].value, d, e);
      MembersDepth(members[1..], d, e);
    }
  }

  lemma {:induction false} MinifyObject(j: Json, depth: nat, t: string)
    requires Printable(j) && j.Obj?
    ensures Minify(Print(j, depth, true) + t) == Prepend(Print(j, 0, false), Minify(t))
    decreases j, 0
  {
    hide Minify, PrintMembers, Tabs, Prepend, PrintItems, PrintInt, Quote;
    var n: nat := if j.members != [] then depth else if depth == 0 then 0 else depth - 1;
    var f := if j.members == [] then "" else PrintMembers(j.members, depth + 1, true);
    var c := if j.members == [] then "" else PrintMembers(j.members, 1, false);
    var w := Tabs(n) + ("}" + t);
    assert Print(j, depth, true) + t == "{" + (['\n'] + (f + w));
    MinifyPlains("{", ['\n'] + (f + w));
    MinifyLayout('\n', f + w);
    if j.members == [] {
      assert f + w == w;
    } else {
      MinifyMembers(j, j.members, depth + 1, w);
      PrintMembersDepth(j.members);
    }
    MinifyTabs(n, "}" + t);
    MinifyPlains("}", t);
    PrependTwice(c, "}", Minify(t));
    PrependTwice("{", c + "}", Minify(t));
    assert "{" + (c + "}") == Print(j, 0, false);
    if j.members == [] {
      assert c + "}" == "}";
    }
  }

  lemma PrintMembersDepth(members: seq<Member>)
    ensures PrintMembers(members, 1, false) == PrintMembers(members, 0, false)
  {
    MembersDepth(members, 1, 0);
  }

  lemma {:induction false} MinifyMembers(j: Json, members: seq<Member>, depth: nat, t: string)
    requires forall i :: 0 <= i < |members| ==>
               NulFree(members[i].key) && Printable(members[i].value) && members[i].value < j
    ensures Minify(PrintMembers(members, depth, true) + t) == Prepend(PrintMembers(members, 0, false), Minify(t))
    decreases j, 0, |members|
  {
    hide Minify, PrintMember, Prepend, Printable;
    if members == [] {
      assert PrintMembers(members, depth, true) + t == t;
      MinifyPlains("", t);
    } else {
      var m, rest := members[0], members[1..];
      var f, c := PrintMember(m, depth, true), PrintMember(m, 0, false);
      var fs, cs := PrintMembers(rest, depth, true), PrintMembers(rest, 0, false);
      var comma := if |members| > 1 then "," else "";
      assert PrintMembers(members, depth, true) + t == f + (comma + (['\n'] + (fs + t)));
      MinifyMember(j, m, depth, comma + (['\n'] + (fs + t)));
      MinifyPlains(comma, ['\n'] + (fs + t));
      MinifyLayout('\n', fs + t);
      MinifyMembers(j, rest, depth, t);
      PrependTwice(comma, cs, Minify(t));
      PrependTwice(c, comma + cs, Minify(t));
      assert c + (comma + cs) == PrintMembers(members, 0, false);
    }
  }

  lemma {:induction false} MinifyMember(j: Json, m: Member, depth: nat, t: string)
    requires NulFree(m.key) && Printable(m.value) && m.value < j
    ensures Minify(PrintMember(m, depth, true) + t) == Prepend(PrintMember(m, 0, false), Minify(t))
    decreases j, 0, 0
  {
    hide Minify, Print, Quote, Tabs, Prepend;
    var f, c, q := Print(m.value, depth, true), Print(m.value, 0, false), Quote(m.key);
    assert PrintMember(m, depth, true) + t == Tabs(depth) + (q + (":" + ([TAB] + (f + t))));
    MinifyTabs(depth, q + (":" + ([TAB] + (f + t))));
    MinifyQuoted(m.key, ":" + ([TAB] + (f + t)));
    MinifyPlains(":", [TAB] + (f + t));
    MinifyLayout(TAB, f + t);
    MinifyPrinted(m.value, depth, t);
    PrependTwice(":", c, Minify(t));
    PrependTwice(q, ":" + c, Minify(t));
    assert q + (":" + c) == PrintMember(m, 0, false);
  }

  /** Minifying what cJSON_Print produces gives what cJSON_PrintUnformatted produces. */
  lemma MinifyPretty(j: Json)
    requires Printable(j)
    ensures Minify(Print(j, 0, true)) == Text(Print(j, 0, false))
  {
    hide Print;
    assert Print(j, 0, true) + "" == Print(j, 0, true);
    MinifyPrinted(j, 0, "");
    assert Print(j, 0, false) + "" == Print(j, 0, false);
  }
}
