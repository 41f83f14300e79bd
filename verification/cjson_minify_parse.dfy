/** Minifying keeps the meaning: what a text parses to, its minified text parses to. */
module CJsonMinifyParse {
  import opened CJsonText
  import opened CJsonRoundTrip
  import opened CJsonStrings
  import opened CJsonMinify
  import opened CJsonMinifyMeaning

  /** The minified text parses to the same value and leaves the minified rest. */
  ghost predicate SameParse<T>(a: Outcome<T>, b: Outcome<T>) {
    a.Parsed? && Minify(a.rest).Text? && b == Parsed(a.value, Minify(a.rest).s)
  }

  lemma PlainAt(u: string)
    requires Minify(u).Text? && At(u) > ' ' && At(u) != '"' && At(u) != '/'
    ensures Minify(u[1..]).Text? && Minify(u).s == [u[0]] + Minify(u[1..]).s
    ensures Minify(u).s[1..] == Minify(u[1..]).s
  {
    assert u == [u[0]] + u[1..];
    MinifyPlain(u[0], u[1..]);
  }

  /** Leading spaces may go before or after minifying. */
  lemma {:induction false} SkipKept(u: string)
    requires Minify(u).Text? && At(Skip(u)) != '/'
    ensures var v := Skip(u);
            Minify(v).Text? && Skip(Minify(u).s) == Minify(v).s && At(Minify(v).s) == At(v)
    decreases |u|
  {
    if u == "" || u[0] == '\0' {
    } else if u[0] > ' ' {
      hide CopyLiteral;
      assert u[0] != '/';
      assert Minify(u).s != "" && Minify(u).s[0] == u[0];
    } else {
      SkipKept(u[1..]) by {
        hide Skip;
        assert Skip(u) == Skip(u[1..]) by { SkipSpace(u[0], u[1..]); assert u == [u[0]] + u[1..]; }
        SpaceKept(u);
      }
      SpaceKept(u);
    }
  }

  lemma SpaceKept(u: string)
    requires Minify(u).Text? && u != "" && '\0' < u[0] <= ' '
    ensures Minify(u[1..]).Text? && Skip(Minify(u).s) == Skip(Minify(u[1..]).s)
  {
    assert u == [u[0]] + u[1..];
    if IsLayout(u[0]) {
      MinifyLayout(u[0], u[1..]);
    } else {
      assert Minify(u) == Prepend([u[0]], Minify(u[1..]));
      SkipSpace(u[0], Minify(u[1..]).s);
    }
  }

  predicate Follows(c: char) {
    c == ',' || c == ']' || c == '}' || c == '\0'
  }

  lemma StopsKept(u: string)
    requires Minify(u).Text? && Follows(At(Skip(u)))
    ensures Stops(u) && Stops(Minify(u).s)
  {
    hide Minify;
    if u == "" || u[0] == '\0' || u[0] > ' ' {
      SkipKept(u);
    } else if IsLayout(u[0]) {
      StartKept(u);
    } else {
      assert u == [u[0]] + u[1..];
      StartKept(u);
    }
  }

  lemma {:induction false} StartKept(u: string)
    requires Minify(u).Text? && Follows(At(Skip(u)))
    ensures var c := At(Minify(u).s); c <= ' ' || c == At(Skip(u))
    decreases |u|
  {
    if u != "" && u[0] != '\0' && u[0] <= ' ' && IsLayout(u[0]) {
      StartKept(u[1..]);
    }
  }

  // ---------------------------------------------------------------- values

  lemma ValueStart(t: string)
    requires ParseValue(t).Parsed?
    ensures At(t) > ' ' && At(t) != '/'
  {
    hide ParseNumber, ParseString, ParseArray, ParseObject;
  }

  lemma WordKept(t: string, word: string, j: Json)
    requires word <= t && Minify(t).Text? && (word == "null" || word == "false" || word == "true")
    ensures Minify(t[|word|..]).Text? && Minify(t).s == word + Minify(t[|word|..]).s
  {
    hide Minify;
    assert t == word + t[|word|..];
    MinifyPlains(word, t[|word|..]);
  }

  lemma NumberKept(t: string)
    requires Minify(t).Text? && (At(t) == '-' || IsDigit(At(t)))
    requires Follows(At(Skip(ParseNumber(t).rest)))
    ensures Minify(t).s != "" && Minify(t).s[0] == t[0] && SameParse(ParseNumber(t), ParseNumber(Minify(t).s))
  {
    hide ParseNumber, Minify, Stops, Skip;
    var r := ParseNumber(t).rest;
    EatsNumber(t);
    var p := t[..|t| - |r|];
    assert t == p + r;
    MinifyPlains(p, r);
    StopsKept(r);
    assert p[0] == t[0];
    NumberLocal(p, r, Minify(r).s);
  }

  lemma StringKept(t: string)
    requires Minify(t).Text? && At(t) == '"' && OutsideOk(t)
    ensures At(Minify(t).s) == '"' && SameParse(ParseString(t), ParseString(Minify(t).s))
  {
    hide ParseString;
    var c := CopyLiteral(t[1..]);
    hide CopyLiteral;
    assert c.Literal? && Minify(t) == Prepend("\"" + c.text, Minify(c.rest));
    assert t[1..][|c.text|..] == c.rest && t[1..][..|c.text|] == c.text;
    ParseStringLocal(t, c.text, Minify(c.rest).s);
    assert t[1 + |c.text|..] == c.rest;
  }

  lemma {:induction false} ValueKept(t: string)
    requires OutsideOk(t) && Minify(t).Text? && ParseValue(t).Parsed?
    requires Follows(At(Skip(ParseValue(t).rest)))
    ensures SameParse(ParseValue(t), ParseValue(Minify(t).s))
    decreases |t|, 3
  {
    hide Minify, ParseNumber, ParseString, ParseArray, ParseObject, Skip;
    if "null" <= t {
      WordKept(t, "null", Null);
      ParseWord(Null, 0, false, Minify(t[4..]).s);
    } else if "false" <= t {
      WordKept(t, "false", False);
      ParseWord(False, 0, false, Minify(t[5..]).s);
    } else if "true" <= t {
      WordKept(t, "true", True);
      ParseWord(True, 0, false, Minify(t[4..]).s);
    } else if At(t) == '"' {
      StringKept(t);
    } else if At(t) == '-' || IsDigit(At(t)) {
      NumberKept(t);
    } else if At(t) == '[' {
      ArrayKept(t);
    } else {
      ObjectKept(t);
    }
  }

  lemma {:induction false} ArrayKept(t: string)
    requires OutsideOk(t) && Minify(t).Text? && At(t) == '[' && ParseArray(t).Parsed?
    ensures At(Minify(t).s) == '[' && SameParse(ParseArray(t), ParseArray(Minify(t).s))
    decreases |t|, 2
  {
    hide Minify, ParseItems, Skip;
    PlainAt(t);
    var u := Skip(t[1..]);
    OutsideSkip(t[1..]);
    if At(u) == ']' {
      SkipKept(t[1..]);
      PlainAt(u);
    } else {
      ItemsStartKept(u);
      SkipTwice(t[1..]);
      SkipKept(t[1..]);
      ItemsKept(u);
    }
  }

  lemma ItemsStartKept(t: string)
    requires ParseItems(t).Parsed?
    ensures At(Skip(t)) != '/' && At(Skip(t)) > ' '
  {
    hide ParseValue;
    ValueStart(Skip(t));
  }

  lemma {:induction false} ItemsKept(t: string)
    requires OutsideOk(t) && Minify(t).Text? && ParseItems(t).Parsed?
    ensures SameParse(ParseItems(t), ParseItems(Minify(t).s))
    decreases |t|, 4
  {
    hide Minify, ParseValue, Skip;
    OutsideSkip(t);
    ItemsStartKept(t);
    SkipKept(t);
    var r := ParseValue(Skip(t)).rest;
    ValueDefined(Skip(t));
    ValueKept(Skip(t));
    SkipKept(r);
    OutsideSkip(r);
    var u := Skip(r);
    PlainAt(u);
    if At(u) == ',' {
      ItemsKept(u[1..]);
    }
  }

  lemma {:induction false} ObjectKept(t: string)
    requires OutsideOk(t) && Minify(t).Text? && At(t) == '{' && ParseObject(t).Parsed?
    ensures At(Minify(t).s) == '{' && SameParse(ParseObject(t), ParseObject(Minify(t).s))
    decreases |t|, 2
  {
    hide Minify, ParseMembers, Skip;
    PlainAt(t);
    var u := Skip(t[1..]);
    OutsideSkip(t[1..]);
    if At(u) == '}' {
      SkipKept(t[1..]);
      PlainAt(u);
    } else {
      MembersStartKept(u);
      SkipTwice(t[1..]);
      SkipKept(t[1..]);
      MembersKept(u);
    }
  }

  lemma MembersStartKept(t: string)
    requires ParseMembers(t).Parsed?
    ensures At(Skip(t)) == '"'
  {
    hide ParseValue;
  }

  lemma {:induction false} MemberKept(t: string)
    requires OutsideOk(t) && Minify(t).Text? && ParseMember(t).Parsed?
    requires Follows(At(Skip(ParseMember(t).rest)))
    ensures SameParse(ParseMember(t), ParseMember(Minify(t).s))
    decreases |t|, 4
  {
    hide Minify, ParseValue, ParseString, Skip;
    OutsideSkip(t);
    assert At(Skip(t)) == '"' by { MemberStart(t); }
    SkipKept(t);
    StringKept(Skip(t));
    OutsideString(Skip(t));
    var r := ParseString(Skip(t)).rest;
    SkipKept(r);
    OutsideSkip(r);
    var u := Skip(r);
    PlainAt(u);
    ValueStart(Skip(u[1..]));
    OutsideSkip(u[1..]);
    SkipKept(u[1..]);
    ValueKept(Skip(u[1..]));
  }

  lemma MemberStart(t: string)
    requires ParseMember(t).Parsed?
    ensures At(Skip(t)) == '"'
  {
    hide ParseValue;
  }

  lemma {:induction false} MembersKept(t: string)
    requires OutsideOk(t) && Minify(t).Text? && ParseMembers(t).Parsed?
    ensures SameParse(ParseMembers(t), ParseMembers(Minify(t).s))
    decreases |t|, 5
  {
    hide Minify, ParseMember, Skip;
    var r := ParseMember(t).rest;
    MemberDefined(t);
    MemberKept(t);
    SkipKept(r);
    OutsideSkip(r);
    var u := Skip(r);
    PlainAt(u);
    if At(u) == ',' {
      MembersKept(u[1..]);
    }
  }

  /** A text with complete escapes and closed comments and literals that parses whole: minifying it does
      not change the value, and nothing is left behind it. */
  lemma MinifyKeepsMeaning(t: string)
    requires OutsideOk(t) && Minify(t).Text? && Parse(t, true).Parsed?
    ensures Parse(Minify(t).s, true) == Parsed(Parse(t, true).value, "")
  {
    hide Minify, ParseValue, Skip;
    var v := Skip(t);
    OutsideSkip(t);
    ValueStart(v);
    SkipKept(t);
    ValueKept(v);
    var r := ParseValue(v).rest;
    SkipKept(r);
    EndKept(Skip(r));
  }

  lemma EndKept(t: string)
    requires At(t) == '\0'
    ensures Minify(t) == Text("")
  {
  }

  lemma OneThenTwo()
    ensures Minify("1 2") == Text("12")
  {
    hide CopyLiteral, LineComment, BlockComment;
    MinifyPlains("1", " 2");
    MinifyLayout(' ', "2");
    assert "1" + " 2" == "1 2" && [' '] + "2" == " 2";
    MinifyPlains("2", "");
    assert "2" + "" == "2";
  }

  lemma ParseSmall(n: nat, t: string)
    requires n < 100 && Stops(t)
    ensures ParseValue(Decimal(n) + t) == Parsed(Number(n, 0), t)
  {
    hide ParseValue, Decimal;
    ParsePrintedNumber(n, t);
  }

  lemma TwelveParses()
    ensures Parse("12", true) == Parsed(Number(12, 0), "")
  {
    hide ParseValue;
    ParseSmall(12, "");
    assert Decimal(12) == Decimal(1) + [Digit(2)] && Decimal(1) == [Digit(1)];
    assert Decimal(12) + "" == "12";
  }

  lemma SpacedFails()
    ensures Parse("1 2", true).Failed?
  {
    hide ParseValue;
    ParseSmall(1, " 2");
    assert Decimal(1) == [Digit(1)];
    assert Decimal(1) + " 2" == "1 2";
    assert " 2"[1..] == "2";
  }

  /** The other direction fails: minifying can turn a text that does not parse into one that does. */
  lemma MinifyAccepts()
    ensures Parse("1 2", true).Failed?
    ensures Minify("1 2") == Text("12") && Parse("12", true) == Parsed(Number(12, 0), "")
  {
    hide Minify, Parse;
    OneThenTwo();
    TwelveParses();
    SpacedFails();
  }
}
