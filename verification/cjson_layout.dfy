/** Where the line ends, tabs and spaces of formatted text are: a scan that follows the brackets of a text and looks
    at nothing but the characters. */
module CJsonLayout {
  import opened CJsonText
  import opened CJsonRoundTrip
  import opened CJsonMinify

  /** How many tabs t begins with. */
  function TabsAhead(t: string): (k: nat)
    ensures k <= |t|
  {
    if At(t) == TAB then 1 + TabsAhead(t[1..]) else 0
  }

  /** What stands in a line behind its tabs. */
  function Line(t: string): (r: string)
    ensures |r| <= |t|
  {
    t[TabsAhead(t)..]
  }

  predicate Starts(t: string, c: char) {
    t != "" && t[0] == c
  }

  /** A text within these open brackets, and the rest of its layout:
      - behind an opening brace and behind a comma in an object the line ends, and the next line begins with one tab
        for each open bracket;
      - a closing brace is on a line of its own, with one tab for each bracket that stays open, and in an empty object
        one less where there is one;
      - behind a colon there is one tab, behind a comma in an array one space, and blanks are nowhere else. */
  predicate Laid(t: string, open: string)
    decreases |t|
  {
    if t == "" then open == ""
    else
      var c, u, n := t[0], t[1..], |open|;
      if c == '"' then
        match CopyLiteral(u)
        case Literal(_, rest) => Laid(rest, open)
        case Open => false
      else if c == '{' then
        && Starts(u, '\n')
        && var k, r := TabsAhead(u[1..]), Line(u[1..]);
           if Starts(r, '}') then k == (if n == 0 then 0 else n - 1) && Laid(r[1..], open)
           else k == n + 1 && Laid(r, open + "{")
      else if c == '[' then Laid(u, open + "[")
      else if c == ']' then n > 0 && open[n - 1] == '[' && Laid(u, open[..n - 1])
      else if c == ',' then
        && n > 0
        && if open[n - 1] == '{' then Starts(u, '\n') && TabsAhead(u[1..]) == n && Laid(Line(u[1..]), open)
           else Starts(u, ' ') && Laid(u[1..], open)
      else if c == ':' then Starts(u, TAB) && Laid(u[1..], open)
      else if c == '\n' then
        && n > 0 && open[n - 1] == '{' && TabsAhead(u) == n - 1
        && var r := Line(u);
           Starts(r, '}') && Laid(r[1..], open[..n - 1])
      else c > ' ' && c != '}' && Laid(u, open)
  }

  // ---------------------------------------------------------------- the parts

  lemma {:induction false} TabsCounted(n: nat, t: string)
    requires At(t) != TAB
    ensures TabsAhead(Tabs(n) + t) == n && Line(Tabs(n) + t) == t
  {
    if n == 0 {
      assert Tabs(n) + t == t;
    } else {
      assert (Tabs(n) + t)[1..] == Tabs(n - 1) + t;
      TabsCounted(n - 1, t);
      assert (Tabs(n) + t)[n..] == (Tabs(n - 1) + t)[n - 1..];
    }
  }

  /** A character of a word or a number. */
  predicate Simple(c: char) {
    c > ' ' && c != '"' && c != '{' && c != '}' && c != '[' && c != ']' && c != ',' && c != ':'
  }

  lemma {:induction false} SimpleLaid(s: string, t: string, open: string)
    requires forall i :: 0 <= i < |s| ==> Simple(s[i])
    ensures Laid(s + t, open) == Laid(t, open)
    decreases |s|
  {
    if s == "" {
      assert s + t == t;
    } else {
      assert (s + t)[0] == s[0] && (s + t)[1..] == s[1..] + t;
      SimpleLaid(s[1..], t, open);
    }
  }

  lemma {:induction false} DecimalSimple(n: nat)
    ensures forall i :: 0 <= i < |Decimal(n)| ==> Simple(Decimal(n)[i])
    decreases n
  {
    if n >= 10 {
      DecimalSimple(n / 10);
    }
  }

  lemma QuoteLaid(s: string, t: string, open: string)
    requires NulFree(s)
    ensures Laid(Quote(s) + t, open) == Laid(t, open)
  {
    hide CopyLiteral;
    var u := Quote(s) + t;
    assert u[1..] == Escape(s) + "\"" + t;
    CopyQuoted(s, t);
  }

  lemma WordLaid(j: Json, depth: nat, t: string, open: string)
    requires Printable(j) && !j.Arr? && !j.Obj?
    ensures Laid(Print(j, depth, true) + t, open) == Laid(t, open)
  {
    hide Laid, Decimal, Escape;
    match j
    case Null => SimpleLaid("null", t, open);
    case False => SimpleLaid("false", t, open);
    case True => SimpleLaid("true", t, open);
    case Number(n, _) =>
      DecimalSimple(if n < 0 then 0 - n else n);
      SimpleLaid(PrintInt(n), t, open);
    case Str(s) => QuoteLaid(s, t, open);
  }

  lemma OpenList(t: string, open: string)
    ensures Laid("[" + t, open) == Laid(t, open + "[")
  {
    assert ("[" + t)[1..] == t;
  }

  lemma CloseList(t: string, open: string)
    ensures Laid("]" + t, open + "[") == Laid(t, open)
  {
    assert ("]" + t)[1..] == t && (open + "[")[..|open|] == open;
  }

  lemma CommaInList(t: string, open: string)
    ensures Laid(", " + t, open + "[") == Laid(t, open + "[")
  {
    assert (", " + t)[1..] == " " + t && (" " + t)[1..] == t;
  }

  lemma Colon(t: string, open: string)
    ensures Laid(":\t" + t, open) == Laid(t, open)
  {
    assert (":\t" + t)[1..] == "\t" + t && ("\t" + t)[1..] == t;
  }

  lemma OpenTable(t: string, open: string)
    requires At(t) != TAB && At(t) != '}'
    ensures Laid("{\n" + (Tabs(|open| + 1) + t), open) == Laid(t, open + "{")
  {
    var u := "{\n" + (Tabs(|open| + 1) + t);
    assert u[1..] == "\n" + (Tabs(|open| + 1) + t) && u[1..][1..] == Tabs(|open| + 1) + t;
    TabsCounted(|open| + 1, t);
  }

  lemma EmptyTable(k: nat, t: string, open: string)
    requires k == if |open| == 0 then 0 else |open| - 1
    ensures Laid("{\n" + (Tabs(k) + ("}" + t)), open) == Laid(t, open)
  {
    hide Tabs, TabsAhead, Line;
    var v := Tabs(k) + ("}" + t);
    var u := "{\n" + v;
    assert u[1..] == "\n" + v && u[1..][1..] == v;
    TabsCounted(k, "}" + t);
    assert ("}" + t)[1..] == t;
  }

  lemma NextInTable(t: string, open: string)
    requires At(t) != TAB
    ensures Laid(",\n" + (Tabs(|open| + 1) + t), open + "{") == Laid(t, open + "{")
  {
    var u := ",\n" + (Tabs(|open| + 1) + t);
    assert u[1..] == "\n" + (Tabs(|open| + 1) + t) && u[1..][1..] == Tabs(|open| + 1) + t;
    TabsCounted(|open| + 1, t);
  }

  lemma CloseTable(t: string, open: string)
    ensures Laid("\n" + (Tabs(|open|) + ("}" + t)), open + "{") == Laid(t, open)
  {
    var u := "\n" + (Tabs(|open|) + ("}" + t));
    assert u[1..] == Tabs(|open|) + ("}" + t);
    TabsCounted(|open|, "}" + t);
    assert ("}" + t)[1..] == t && (open + "{")[..|open|] == open;
  }

  // ---------------------------------------------------------------- trees

  /** A printed value keeps the layout of what follows it, wherever it stands. */
  lemma {:induction false} ValueLaid(j: Json, t: string, open: string)
    requires Printable(j)
    ensures Laid(Print(j, |open|, true) + t, open) == Laid(t, open)
    decreases j, 2
  {
    hide Laid, Print;
    match j
    case Arr(items) => ListLaid(j, t, open);
    case Obj(members) => TableLaid(j, t, open);
    case _ => WordLaid(j, |open|, t, open);
  }

  lemma {:induction false} ListLaid(j: Json, t: string, open: string)
    requires j.Arr? && Printable(j)
    ensures Laid(Print(j, |open|, true) + t, open) == Laid(t, open)
    decreases j, 1
  {
    hide Laid, PrintItems;
    if j.items == [] {
      assert "[]" + t == "[" + ("]" + t);
      OpenList("]" + t, open);
      CloseList(t, open);
    } else {
      var u := PrintItems(j.items, |open| + 1, true) + ("]" + t);
      assert Print(j, |open|, true) + t == "[" + u;
      OpenList(u, open);
      ItemsLaid(j, j.items, t, open);
    }
  }

  lemma {:induction false} TableLaid(j: Json, t: string, open: string)
    requires j.Obj? && Printable(j)
    ensures Laid(Print(j, |open|, true) + t, open) == Laid(t, open)
    decreases j, 1
  {
    hide Laid, PrintMembers, Tabs, Members;
    var k := if |open| == 0 then 0 else |open| - 1;
    if j.members == [] {
      EmptyTable(k, t, open);
      assert Print(j, |open|, true) + t == "{\n" + (Tabs(k) + ("}" + t));
    } else {
      var u := Members(j.members, t, open);
      MembersAre(j.members, t, open);
      var p := PrintMembers(j.members, |open| + 1, true);
      assert Print(j, |open|, true) == "{" + "\n" + p + Tabs(|open|) + "}";
      Closing(p, Tabs(|open|), t);
      OpenTable(u, open);
      MembersLaid(j, j.members, t, open);
    }
  }

  lemma Closing(p: string, tabs: string, t: string)
    ensures "{" + "\n" + p + tabs + "}" + t == "{\n" + (p + tabs + "}" + t)
  {
  }

  lemma {:induction false} ItemsLaid(j: Json, items: seq<Json>, t: string, open: string)
    requires items != [] && forall i :: 0 <= i < |items| ==> Printable(items[i]) && items[i] < j
    ensures Laid(PrintItems(items, |open| + 1, true) + ("]" + t), open + "[") == Laid(t, open)
    decreases j, 0, |items|
  {
    hide Laid, Print;
    var p := Print(items[0], |open| + 1, true);
    if |items| == 1 {
      ValueLaid(items[0], "]" + t, open + "[");
      CloseList(t, open);
    } else {
      var u := PrintItems(items[1..], |open| + 1, true) + ("]" + t);
      assert PrintItems(items, |open| + 1, true) + ("]" + t) == p + (", " + u);
      ValueLaid(items[0], ", " + u, open + "[");
      CommaInList(u, open);
      ItemsLaid(j, items[1..], t, open);
    }
  }

  /** The members of an object from behind the tabs of the first on, and the closing brace. */
  function Members(members: seq<Member>, t: string, open: string): string
    requires members != []
  {
    var m := members[0];
    Quote(m.key) + (":\t" + (Print(m.value, |open| + 1, true)
      + if |members| == 1 then "\n" + (Tabs(|open|) + ("}" + t))
        else ",\n" + (Tabs(|open| + 1) + Members(members[1..], t, open))))
  }

  lemma {:induction false} MembersAre(members: seq<Member>, t: string, open: string)
    requires members != []
    ensures PrintMembers(members, |open| + 1, true) + Tabs(|open|) + "}" + t
            == Tabs(|open| + 1) + Members(members, t, open)
    ensures At(Members(members, t, open)) == '"'
    decreases |members|
  {
    hide Print, Tabs, Quote, PrintMembers;
    var n, m := |open|, members[0];
    var v, q := Print(m.value, n + 1, true), Quote(m.key);
    MembersStep(members, n + 1);
    QuoteStart(m.key);
    if |members| == 1 {
      LastJoined(Tabs(n + 1), q, v, Tabs(n), t);
    } else {
      MembersAre(members[1..], t, open);
      var p, more := PrintMembers(members[1..], n + 1, true), Members(members[1..], t, open);
      NextJoined(Tabs(n + 1), q, v, p, Tabs(n), t, more);
    }
  }

  lemma QuoteStart(s: string)
    ensures Quote(s) != "" && Quote(s)[0] == '"'
  {
  }

  lemma MembersStep(members: seq<Member>, n: nat)
    requires members != []
    ensures var m := members[0];
            var p := Tabs(n) + Quote(m.key) + ":\t" + Print(m.value, n, true);
            PrintMembers(members, n, true)
            == if |members| == 1 then p + "\n" else p + "," + "\n" + PrintMembers(members[1..], n, true)
  {
    hide Print, Tabs, Quote;
    var m := members[0];
    assert PrintMember(m, n, true) == Tabs(n) + Quote(m.key) + ":\t" + Print(m.value, n, true);
    if |members| == 1 {
      assert members[1..] == [] && PrintMembers(members[1..], n, true) == "";
    }
  }

  lemma LastJoined(tabs: string, q: string, v: string, close: string, t: string)
    ensures tabs + q + ":\t" + v + "\n" + close + "}" + t == tabs + (q + (":\t" + (v + ("\n" + (close + ("}" + t))))))
  {
  }

  lemma NextJoined(tabs: string, q: string, v: string, p: string, close: string, t: string, more: string)
    requires p + close + "}" + t == tabs + more
    ensures tabs + q + ":\t" + v + "," + "\n" + p + close + "}" + t
            == tabs + (q + (":\t" + (v + (",\n" + (tabs + more)))))
  {
    var w := p + close + "}" + t;
    assert tabs + q + ":\t" + v + "," + "\n" + p + close + "}" + t == tabs + q + ":\t" + v + ",\n" + w;
  }

  lemma {:induction false} MembersLaid(j: Json, members: seq<Member>, t: string, open: string)
    requires members != []
    requires forall i :: 0 <= i < |members| ==>
               NulFree(members[i].key) && Printable(members[i].value) && members[i].value < j
    ensures Laid(Members(members, t, open), open + "{") == Laid(t, open)
    decreases j, 0, |members|
  {
    hide Laid, Print, Tabs, Quote;
    var m := members[0];
    var more := if |members| == 1 then "\n" + (Tabs(|open|) + ("}" + t))
                else ",\n" + (Tabs(|open| + 1) + Members(members[1..], t, open));
    var v := Print(m.value, |open| + 1, true) + more;
    QuoteLaid(m.key, ":\t" + v, open + "{");
    Colon(v, open + "{");
    ValueLaid(m.value, more, open + "{");
    if |members| == 1 {
      CloseTable(t, open);
    } else {
      MembersAre(members[1..], t, open);
      NextInTable(Members(members[1..], t, open), open);
      MembersLaid(j, members[1..], t, open);
    }
  }

  /** The formatted text of every printable tree is laid out as described. */
  lemma PrettyLaid(j: Json)
    requires Printable(j)
    ensures Laid(Print(j, 0, true), "")
  {
    ValueLaid(j, "", "");
    assert Print(j, 0, true) + "" == Print(j, 0, true);
  }
}
