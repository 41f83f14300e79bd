/** JSON texts as RFC 8259 writes them, with spaces wherever they may stand, any spelling of a string and any form of
    a number; and that the parser reads each as the value it stands for. */
module CJsonGrammar {
  import opened Numerals
  import opened CJsonText
  import opened CJsonStrings
  import opened CJsonRoundTrip

  // ---------------------------------------------------------------- texts and what they stand for

  datatype Exp = NoExp | Exp(letter: char, sign: string, digits: seq<nat>)

  /** Section 6: a sign, digits before and behind the point, and an exponent. */
  datatype Numeral = Numeral(neg: bool, whole: seq<nat>, frac: seq<nat>, exp: Exp)

  datatype Doc =
    | Word(j: Json)
    | Num(n: Numeral)
    | Text(us: seq<Unit>)
    | List(blank: string, items: seq<Spaced>)        // blank: what stands in an empty one
    | Table(blank: string, members: seq<Entry>)

  datatype Spaced = Spaced(before: string, doc: Doc, after: string)

  datatype Entry = Entry(before: string, key: seq<Unit>, after: string, value: Spaced)

  ghost predicate Decimals(ds: seq<nat>) {
    forall i :: 0 <= i < |ds| ==> ds[i] < 10
  }

  ghost predicate NumeralOk(n: Numeral) {
    && Decimals(n.whole) && n.whole != [] && (n.whole[0] == 0 ==> |n.whole| == 1) && Decimals(n.frac)
    && match n.exp
       case NoExp => true
       case Exp(letter, sign, digits) =>
         && (letter == 'e' || letter == 'E') && (sign == "" || sign == "+" || sign == "-")
         && Decimals(digits) && digits != []
  }

  /** Section 2. */
  ghost predicate Blank(s: string) {
    forall i :: 0 <= i < |s| ==> s[i] == ' ' || s[i] == '\t' || s[i] == '\n' || s[i] == '\r'
  }

  ghost predicate DocOk(d: Doc) {
    match d
    case Word(j) => j == Null || j == False || j == True
    case Num(n) => NumeralOk(n)
    case Text(us) => AllWellFormed(us)
    case List(blank, items) => Blank(blank) && forall i :: 0 <= i < |items| ==> SpacedOk(items[i])
    case Table(blank, members) => Blank(blank) && forall i :: 0 <= i < |members| ==> EntryOk(members[i])
  }

  ghost predicate SpacedOk(s: Spaced) {
    Blank(s.before) && Blank(s.after) && DocOk(s.doc)
  }

  ghost predicate EntryOk(e: Entry) {
    Blank(e.before) && AllWellFormed(e.key) && Blank(e.after) && SpacedOk(e.value)
  }

  function Figure(d: nat): char {
    if d < 10 then "0123456789"[d] else '?'
  }

  function Figures(ds: seq<nat>): (s: string)
    ensures |s| == |ds|
  {
    seq(|ds|, i requires 0 <= i < |ds| => Figure(ds[i]))
  }

  function NumeralText(n: Numeral): string {
    (if n.neg then "-" else "") + Figures(n.whole) + (if n.frac == [] then "" else "." + Figures(n.frac))
    + ExpText(n.exp)
  }

  function ExpText(e: Exp): string {
    match e
    case NoExp => ""
    case Exp(letter, sign, digits) => [letter] + sign + Figures(digits)
  }

  function Written(d: Doc): string
    decreases d
  {
    match d
    case Word(j) => if j == Null then "null" else if j == False then "false" else "true"
    case Num(n) => NumeralText(n)
    case Text(us) => "\"" + SpelledAll(us) + "\""
    case List(blank, items) => "[" + (if items == [] then blank else Items(items)) + "]"
    case Table(blank, members) => "{" + (if members == [] then blank else Entries(members)) + "}"
  }

  function SpacedText(s: Spaced): string
    decreases s
  {
    s.before + Written(s.doc) + s.after
  }

  function Items(items: seq<Spaced>): string
    decreases items
  {
    if items == [] then ""
    else SpacedText(items[0]) + if |items| == 1 then "" else "," + Items(items[1..])
  }

  function EntryText(e: Entry): string
    decreases e
  {
    e.before + ("\"" + SpelledAll(e.key) + "\"") + e.after + ":" + SpacedText(e.value)
  }

  function Entries(members: seq<Entry>): string
    decreases members
  {
    if members == [] then ""
    else EntryText(members[0]) + if |members| == 1 then "" else "," + Entries(members[1..])
  }

  function Signed(neg: bool, n: nat): int {
    if neg then 0 - n else n
  }

  function ExpValue(e: Exp): int {
    match e
    case NoExp => 0
    case Exp(_, sign, digits) => Signed(sign == "-", NumberOf(10, digits))
  }

  /** The digits before and behind the point are one number; each digit behind it divides by ten. */
  function NumeralValue(n: Numeral): Json {
    Number(Signed(n.neg, NumberOf(10, n.whole + n.frac)), ExpValue(n.exp) - |n.frac|)
  }

  ghost function Stands(d: Doc): Json
    requires DocOk(d)
    decreases d
  {
    match d
    case Word(j) => j
    case Num(n) => NumeralValue(n)
    case Text(us) => Str(MeaningAll(us))
    case List(_, items) => Arr(ItemsStand(items))
    case Table(_, members) => Obj(EntriesStand(members))
  }

  ghost function ItemsStand(items: seq<Spaced>): (js: seq<Json>)
    requires forall i :: 0 <= i < |items| ==> SpacedOk(items[i])
    ensures |js| == |items|
    decreases items
  {
    if items == [] then [] else
      assert SpacedOk(items[0]);
      [Stands(items[0].doc)] + ItemsStand(items[1..])
  }

  ghost function EntriesStand(members: seq<Entry>): (ms: seq<Member>)
    requires forall i :: 0 <= i < |members| ==> EntryOk(members[i])
    ensures |ms| == |members|
    decreases members
  {
    if members == [] then [] else
      assert EntryOk(members[0]) && SpacedOk(members[0].value);
      [Member(MeaningAll(members[0].key), Stands(members[0].value.doc))] + EntriesStand(members[1..])
  }

  // ---------------------------------------------------------------- numbers

  lemma FigureIs(d: nat)
    requires d < 10
    ensures IsDigit(Figure(d)) && Figure(d) as int - '0' as int == d
    ensures Figure(d) == '0' <==> d == 0
  {
  }

  lemma Reads(acc: nat, d: nat, p: nat, rest: nat)
    ensures (acc * 10 + d) * p + rest == acc * (10 * p) + (d * p + rest)
  {
  }

  /** The digits are read as their number, behind whatever was read before. */
  lemma {:induction false} DigitsRead(acc: nat, ds: seq<nat>, t: string)
    requires Decimals(ds) && !IsDigit(At(t))
    ensures Digits(acc, Figures(ds) + t) == (acc * Pow(10, |ds|) + NumberOf(10, ds), |ds|)
    ensures Drop(Figures(ds) + t, |ds|) == t
    decreases |ds|
  {
    hide Figure, IsDigit;
    var u := Figures(ds) + t;
    assert u[|ds|..] == t;
    if ds == [] {
      assert u == t;
    } else {
      var d := ds[0];
      FigureIs(d);
      assert u[0] == Figure(d);
      assert Figures(ds)[1..] == Figures(ds[1..]);
      assert u[1..] == Figures(ds[1..]) + t;
      DigitsRead(acc * 10 + d, ds[1..], t);
      Reads(acc, d, Pow(10, |ds| - 1), NumberOf(10, ds[1..]));
      DigitsMore(acc, u);
    }
  }

  lemma DigitsMore(acc: nat, u: string)
    requires u != "" && IsDigit(u[0])
    ensures var (n, k) := Digits(acc * 10 + (u[0] as int - '0' as int), u[1..]); Digits(acc, u) == (n, k + 1)
  {
  }

  lemma FractionForm(n: nat, w: string, m: nat, k: nat, t: string)
    requires w != "" && IsDigit(w[0]) && Digits(n, w) == (m, k) && Drop(w, k) == t
    ensures Fraction(n, "." + w) == (m, 0 - k, t)
  {
    hide Digits, Drop, IsDigit;
    assert ("." + w)[1..] == w;
  }

  lemma FractionRead(n: nat, frac: seq<nat>, t: string)
    requires Decimals(frac) && !IsDigit(At(t)) && At(t) != '.'
    ensures var u := (if frac == [] then "" else "." + Figures(frac)) + t;
            Fraction(n, u) == (n * Pow(10, |frac|) + NumberOf(10, frac), 0 - |frac|, t)
  {
    hide Digits, Drop, Figure, IsDigit;
    if frac == [] {
      assert "" + t == t;
    } else {
      var w := Figures(frac) + t;
      FigureIs(frac[0]);
      assert w[0] == Figure(frac[0]);
      DigitsRead(n, frac, t);
      FractionForm(n, w, n * Pow(10, |frac|) + NumberOf(10, frac), |frac|, t);
      assert "." + Figures(frac) + t == "." + w;
    }
  }

  lemma ExponentForm(letter: char, sign: string, v: string, m: nat, k: nat, t: string)
    requires (letter == 'e' || letter == 'E') && (sign == "" || sign == "+" || sign == "-")
    requires v != "" && IsDigit(v[0]) && Digits(0, v) == (m, k) && Drop(v, k) == t
    ensures Exponent([letter] + (sign + v)) == (Signed(sign == "-", m), t)
  {
    hide Digits, Drop;
    var u := sign + v;
    assert ([letter] + u)[1..] == u;
    if sign == "" {
      assert u == v;
    } else {
      assert u[1..] == v && u[0] == sign[0];
    }
  }

  lemma ExponentRead(e: Exp, t: string)
    requires NumeralOk(Numeral(false, [0], [], e)) && NumberEnds(t)
    ensures Exponent(ExpText(e) + t) == (ExpValue(e), t)
  {
    hide Digits, Drop, Figure, Signed, Pow;
    match e
    case NoExp => assert "" + t == t;
    case Exp(letter, sign, digits) =>
      hide IsDigit;
      var v := Figures(digits) + t;
      FigureIs(digits[0]);
      assert v[0] == Figure(digits[0]);
      DigitsRead(0, digits, t);
      assert 0 * Pow(10, |digits|) == 0;
      ExponentForm(letter, sign, v, NumberOf(10, digits), |digits|, t);
      assert ExpText(e) + t == [letter] + (sign + v);
  }

  lemma ExpStart(e: Exp, t: string)
    requires NumeralOk(Numeral(false, [0], [], e)) && NumberEnds(t)
    ensures !IsDigit(At(ExpText(e) + t)) && At(ExpText(e) + t) != '.'
  {
    if e == NoExp {
      assert "" + t == t;
    }
  }

  lemma ZeroIs(t: string)
    ensures NumberOf(10, [0]) == 0 && Drop(t, 0) == t
  {
    assert [0][1..] == [];
  }

  /** The whole part: a zero, or digits that do not begin with one. */
  lemma WholeRead(whole: seq<nat>, t: string)
    requires Decimals(whole) && whole != [] && (whole[0] == 0 ==> |whole| == 1) && !IsDigit(At(t))
    ensures var t1 := Figures(whole) + t;
            var t2 := if At(t1) == '0' then t1[1..] else t1;
            var (n, k) := if '1' <= At(t2) <= '9' then Digits(0, t2) else (0, 0);
            IsDigit(At(t1)) && n == NumberOf(10, whole) && Drop(t2, k) == t
  {
    hide Digits, Drop, NumberOf, Figure, Pow;
    var t1 := Figures(whole) + t;
    FigureIs(whole[0]);
    assert t1[0] == Figure(whole[0]);
    if whole[0] == 0 {
      assert whole == [0];
      assert t1[1..] == t;
      ZeroIs(t);
    } else {
      DigitsRead(0, whole, t);
      assert 0 * Pow(10, |whole|) == 0;
    }
  }

  /** The parts of a number, put together. */
  lemma NumberForm(u: string, neg: bool, u1: string, n: nat, u2: string, m: nat, scale: int, u3: string, e: int,
                   t: string)
    requires IsDigit(At(u1)) && if neg then At(u) == '-' && u[1..] == u1 else u == u1
    requires var t2 := if At(u1) == '0' then u1[1..] else u1;
             var (w, k) := if '1' <= At(t2) <= '9' then Digits(0, t2) else (0, 0);
             w == n && Drop(t2, k) == u2
    requires Fraction(n, u2) == (m, scale, u3) && Exponent(u3) == (e, t)
    ensures (At(u) == '-' || IsDigit(At(u))) && ParseNumber(u) == Parsed(Number(Signed(neg, m), scale + e), t)
  {
    hide Digits, Drop, Fraction, Exponent;
  }

  lemma NumeralRead(n: Numeral, t: string)
    requires NumeralOk(n) && NumberEnds(t)
    ensures var u := NumeralText(n) + t;
            (At(u) == '-' || IsDigit(At(u))) && ParseNumber(u) == Parsed(NumeralValue(n), t)
  {
    hide Digits, Drop, Fraction, Exponent, ParseNumber, NumberEnds, NumberOf, Pow, ExpText, Figures, ExpValue, IsDigit;
    var u3 := ExpText(n.exp) + t;
    var u2 := (if n.frac == [] then "" else "." + Figures(n.frac)) + u3;
    var u1 := Figures(n.whole) + u2;
    var u := NumeralText(n) + t;
    ExpStart(n.exp, t);
    assert u == (if n.neg then "-" else "") + u1;
    assert if n.neg then u[1..] == u1 else u == u1;
    FractionStart(n.frac, u3);
    WholeRead(n.whole, u2);
    var whole := NumberOf(10, n.whole);
    FractionRead(whole, n.frac, u3);
    ExponentRead(n.exp, t);
    NumberConcat(10, n.whole, n.frac);
    NumberForm(u, n.neg, u1, whole, u2, NumberOf(10, n.whole + n.frac), 0 - |n.frac|, u3, ExpValue(n.exp), t);
  }

  lemma FractionStart(frac: seq<nat>, t: string)
    requires !IsDigit(At(t))
    ensures !IsDigit(At((if frac == [] then "" else "." + Figures(frac)) + t))
  {
    if frac == [] {
      assert "" + t == t;
    }
  }

  // ---------------------------------------------------------------- spaces

  lemma {:induction false} BlankSkipped(sp: string, t: string)
    requires Blank(sp)
    ensures Skip(sp + t) == Skip(t)
    decreases |sp|
  {
    if sp == "" {
      assert sp + t == t;
    } else {
      assert (sp + t)[1..] == sp[1..] + t;
      BlankSkipped(sp[1..], t);
    }
  }

  /** What a text begins with. */
  lemma WrittenStart(d: Doc, t: string)
    requires DocOk(d)
    ensures var u := Written(d) + t; u != "" && At(u) > ' ' && At(u) != ']' && At(u) != '}' && Skip(u) == u
  {
    var w := Written(d);
    if d.Num? {
      FigureIs(d.n.whole[0]);
      assert NumeralText(d.n)[0] == if d.n.neg then '-' else Figure(d.n.whole[0]);
    }
    assert w != "" && (w + t)[0] == w[0];
  }

  /** Behind a value stand spaces and then a character that is no part of a number. */
  lemma BlankEnds(sp: string, c: char, t: string)
    requires Blank(sp) && (c == ',' || c == ']' || c == '}')
    ensures NumberEnds(sp + [c] + t) && Skip(sp + [c] + t) == [c] + t && ([c] + t)[1..] == t
  {
    assert sp + [c] + t == sp + ([c] + t);
    BlankSkipped(sp, [c] + t);
    NoSkip([c] + t);
    assert (sp + [c] + t)[0] == if sp == "" then c else sp[0];
  }

  // ---------------------------------------------------------------- values

  lemma WordRead(j: Json, t: string)
    requires j == Null || j == False || j == True
    ensures ParseValue(Written(Word(j)) + t) == Parsed(j, t)
  {
    hide ParseNumber, ParseString, ParseArray, ParseObject;
    ParseWord(j, 0, false, t);
    assert Written(Word(j)) == Print(j, 0, false);
  }

  lemma NumRead(n: Numeral, t: string)
    requires NumeralOk(n) && NumberEnds(t)
    ensures ParseValue(NumeralText(n) + t) == Parsed(NumeralValue(n), t)
  {
    hide ParseNumber, ParseString, NumeralText, NumeralValue;
    NumeralRead(n, t);
    var u := NumeralText(n) + t;
    NotWords(u[0], u[1..]);
    assert u == [u[0]] + u[1..];
  }

  lemma TextRead(us: seq<Unit>, t: string)
    requires AllWellFormed(us)
    ensures ParseValue("\"" + SpelledAll(us) + "\"" + t) == Parsed(Str(MeaningAll(us)), t)
  {
    hide ParseNumber, ParseString, SpelledAll, MeaningAll;
    LiteralMeaning(us, t);
    var u := "\"" + SpelledAll(us) + "\"" + t;
    NotWords('"', u[1..]);
    assert u == ['"'] + u[1..];
  }

  /** A text, before anything that does not prolong it as a number, is read as the value it stands for, and nothing
      behind it is read. */
  lemma {:induction false} DocRead(d: Doc, t: string)
    requires DocOk(d) && (d.Num? ==> NumberEnds(t))
    ensures ParseValue(Written(d) + t) == Parsed(Stands(d), t)
    decreases d, 4
  {
    hide ParseValue, ParseArray, ParseObject, NumeralText, NumeralValue, NumberEnds, Skip, Items, Entries;
    match d
    case Word(j) => WordRead(j, t);
    case Num(n) => NumRead(n, t);
    case Text(us) => TextRead(us, t);
    case List(_, _) =>
      ListRead(d, t);
      ParseBracketed(Written(d) + t);
    case Table(_, _) =>
      TableRead(d, t);
      ParseBracketed(Written(d) + t);
  }

  lemma {:induction false} ListRead(d: Doc, t: string)
    requires d.List? && DocOk(d)
    ensures var u := Written(d) + t; At(u) == '[' && ParseArray(u) == Parsed(Stands(d), t)
    decreases d, 3
  {
    hide ParseItems, Items, Stands;
    var u := Written(d) + t;
    ListStands(d);
    if d.items == [] {
      assert u[1..] == d.blank + ("]" + t);
      BlankSkipped(d.blank, "]" + t);
      NoSkip("]" + t);
      assert ("]" + t)[1..] == t;
    } else {
      var v := Items(d.items) + "]" + t;
      assert u[1..] == v;
      ItemsRead(d, d.items, t);
      ItemsFirst(d.items, "]" + t);
      assert v == Items(d.items) + ("]" + t);
      ItemsSkip(Skip(v), v) by {
        SkipTwice(v);
      }
    }
  }

  lemma ListStands(d: Doc)
    requires d.List? && DocOk(d)
    ensures Stands(d) == Arr(ItemsStand(d.items)) && (d.items == [] ==> Stands(d) == Arr([]))
  {
  }

  lemma ItemsFirst(items: seq<Spaced>, t: string)
    requires items != [] && SpacedOk(items[0])
    ensures At(Skip(Items(items) + t)) != ']'
  {
    hide Written, Skip;
    var s := items[0];
    var more := if |items| == 1 then "" else "," + Items(items[1..]);
    var rest := s.after + more + t;
    assert Items(items) + t == s.before + (Written(s.doc) + rest);
    BlankSkipped(s.before, Written(s.doc) + rest);
    WrittenStart(s.doc, rest);
  }

  /** A value between spaces, with a character behind it that ends it. */
  lemma {:induction false} SpacedRead(d: Doc, s: Spaced, c: char, t: string)
    requires SpacedOk(s) && s.doc < d && (c == ',' || c == ']' || c == '}')
    ensures DocOk(s.doc)
    ensures ParseValue(Skip(SpacedText(s) + [c] + t)) == Parsed(Stands(s.doc), s.after + [c] + t)
    ensures Skip(s.after + [c] + t) == [c] + t && ([c] + t)[1..] == t
    decreases d, 0, 0
  {
    hide ParseValue, Written, Skip, NumberEnds;
    var rest := s.after + [c] + t;
    assert SpacedText(s) + [c] + t == s.before + (Written(s.doc) + rest);
    BlankSkipped(s.before, Written(s.doc) + rest);
    WrittenStart(s.doc, rest);
    BlankEnds(s.after, c, t);
    DocRead(s.doc, rest);
  }

  lemma ItemsLast(u: string, v: Json, w: string, t: string)
    requires ParseValue(Skip(u)) == Parsed(v, w) && Skip(w) == "]" + t
    ensures ParseItems(u) == Parsed([v], t)
  {
    hide ParseValue;
    assert ("]" + t)[1..] == t;
  }

  lemma ItemsMore(u: string, v: Json, w: string, x: string)
    requires ParseValue(Skip(u)) == Parsed(v, w) && Skip(w) == "," + x && ParseItems(x).Parsed?
    ensures ParseItems(u) == Parsed([v] + ParseItems(x).value, ParseItems(x).rest)
  {
    hide ParseValue;
    assert ("," + x)[1..] == x;
  }

  lemma {:induction false} ItemsRead(d: Doc, items: seq<Spaced>, t: string)
    requires items != [] && forall i :: 0 <= i < |items| ==> SpacedOk(items[i]) && items[i].doc < d
    ensures ParseItems(Items(items) + "]" + t) == Parsed(ItemsStand(items), t)
    decreases d, 2, |items|
  {
    hide ParseValue, ParseItems, SpacedText, Skip, Stands, SpacedOk;
    var u, s := Items(items) + "]" + t, items[0];
    if |items| == 1 {
      assert u == SpacedText(s) + "]" + t;
      SpacedRead(d, s, ']', t);
      ItemsLast(u, Stands(s.doc), s.after + "]" + t, t);
      assert ItemsStand(items) == [Stands(s.doc)];
    } else {
      var x := Items(items[1..]) + "]" + t;
      assert u == SpacedText(s) + "," + x;
      SpacedRead(d, s, ',', x);
      ItemsRead(d, items[1..], t);
      ItemsMore(u, Stands(s.doc), s.after + "," + x, x);
      assert ItemsStand(items) == [Stands(s.doc)] + ItemsStand(items[1..]);
    }
  }

  lemma {:induction false} TableRead(d: Doc, t: string)
    requires d.Table? && DocOk(d)
    ensures var u := Written(d) + t; At(u) == '{' && ParseObject(u) == Parsed(Stands(d), t)
    decreases d, 3
  {
    hide ParseMembers, Entries, Stands;
    var u := Written(d) + t;
    TableStands(d);
    if d.members == [] {
      assert u[1..] == d.blank + ("}" + t);
      BlankSkipped(d.blank, "}" + t);
      NoSkip("}" + t);
      assert ("}" + t)[1..] == t;
    } else {
      var v := Entries(d.members) + "}" + t;
      assert u[1..] == v;
      EntriesRead(d, d.members, t);
      EntriesFirst(d.members, "}" + t);
      assert v == Entries(d.members) + ("}" + t);
      MembersSkip(v);
    }
  }

  lemma TableStands(d: Doc)
    requires d.Table? && DocOk(d)
    ensures Stands(d) == Obj(EntriesStand(d.members)) && (d.members == [] ==> Stands(d) == Obj([]))
  {
  }

  lemma EntriesFirst(members: seq<Entry>, t: string)
    requires members != [] && EntryOk(members[0])
    ensures At(Skip(Entries(members) + t)) == '"'
  {
    hide SpacedText, Skip, SpelledAll;
    var e := members[0];
    var more := if |members| == 1 then "" else "," + Entries(members[1..]);
    var rest := SpelledAll(e.key) + "\"" + e.after + ":" + SpacedText(e.value) + more + t;
    assert Entries(members) + t == e.before + ("\"" + rest);
    BlankSkipped(e.before, "\"" + rest);
    NoSkip("\"" + rest);
  }

  lemma {:induction false} EntryRead(d: Doc, e: Entry, c: char, t: string)
    requires EntryOk(e) && SpacedOk(e.value) && e.value.doc < d && (c == ',' || c == '}')
    ensures AllWellFormed(e.key) && DocOk(e.value.doc)
    ensures ParseMember(EntryText(e) + [c] + t)
            == Parsed(Member(MeaningAll(e.key), Stands(e.value.doc)), e.value.after + [c] + t)
    ensures Skip(e.value.after + [c] + t) == [c] + t && ([c] + t)[1..] == t
    decreases d, 1, 0
  {
    hide ParseValue, ParseString, SpacedText, Skip, SpelledAll, MeaningAll, Stands, NumberEnds;
    var w := SpacedText(e.value) + [c] + t;
    var v := e.after + (":" + w);
    var q := "\"" + SpelledAll(e.key) + "\"" + v;
    var u := EntryText(e) + [c] + t;
    assert u == e.before + q;
    BlankSkipped(e.before, q);
    NoSkip(q);
    LiteralMeaning(e.key, v);
    BlankSkipped(e.after, ":" + w);
    NoSkip(":" + w);
    assert (":" + w)[1..] == w;
    SpacedRead(d, e.value, c, t);
  }

  lemma EntriesLast(u: string, m: Member, w: string, t: string)
    requires ParseMember(u) == Parsed(m, w) && Skip(w) == "}" + t
    ensures ParseMembers(u) == Parsed([m], t)
  {
    LastMember(u, m, w, t);
  }

  lemma EntriesMore(u: string, m: Member, w: string, x: string)
    requires ParseMember(u) == Parsed(m, w) && Skip(w) == "," + x && ParseMembers(x).Parsed?
    ensures ParseMembers(u) == Parsed([m] + ParseMembers(x).value, ParseMembers(x).rest)
  {
    hide ParseMember;
    assert ("," + x)[1..] == x;
  }

  lemma {:induction false} EntriesRead(d: Doc, members: seq<Entry>, t: string)
    requires members != [] && forall i :: 0 <= i < |members| ==> EntryOk(members[i]) && members[i].value.doc < d
    ensures ParseMembers(Entries(members) + "}" + t) == Parsed(EntriesStand(members), t)
    decreases d, 2, |members|
  {
    hide ParseMember, ParseMembers, EntryText, Skip, Stands, EntryOk, MeaningAll;
    var u, e := Entries(members) + "}" + t, members[0];
    var m := EntryStands(e);
    if |members| == 1 {
      assert u == EntryText(e) + "}" + t;
      EntryRead(d, e, '}', t);
      EntriesLast(u, m, e.value.after + "}" + t, t);
      assert EntriesStand(members) == [m];
    } else {
      var x := Entries(members[1..]) + "}" + t;
      assert u == EntryText(e) + "," + x;
      EntryRead(d, e, ',', x);
      EntriesRead(d, members[1..], t);
      EntriesMore(u, m, e.value.after + "," + x, x);
      assert EntriesStand(members) == [m] + EntriesStand(members[1..]);
    }
  }

  lemma EntryStands(e: Entry) returns (m: Member)
    requires EntryOk(e)
    ensures AllWellFormed(e.key) && SpacedOk(e.value) && DocOk(e.value.doc)
    ensures m == Member(MeaningAll(e.key), Stands(e.value.doc))
  {
    m := Member(MeaningAll(e.key), Stands(e.value.doc));
  }

  /** Every JSON text, whatever spaces it has, however its strings are spelled and its numbers written, is accepted as
      a whole and parsed to the value it stands for. */
  lemma TextParsed(s: Spaced)
    requires SpacedOk(s)
    ensures Parse(SpacedText(s), true) == Parsed(Stands(s.doc), "")
    ensures Parse(SpacedText(s), false) == Parsed(Stands(s.doc), s.after)
  {
    hide ParseValue, Written, Stands;
    assert SpacedText(s) == s.before + (Written(s.doc) + s.after);
    BlankSkipped(s.before, Written(s.doc) + s.after);
    WrittenStart(s.doc, s.after);
    DocRead(s.doc, s.after);
    assert s.after + "" == s.after;
    BlankSkipped(s.after, "");
  }
}
