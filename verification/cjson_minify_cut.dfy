/** When minifying keeps a text from parsing: exactly which texts parse once they are minified but not before. */
module CJsonMinifyCut {
  import opened CJsonText
  import opened CJsonRoundTrip
  import opened CJsonStrings
  import opened CJsonMinify
  import opened CJsonMinifyMeaning
  import opened CJsonMinifyParse

  /** A character that words and numbers may be made of: neither space nor structure nor the start of a
      literal or a comment. */
  predicate WordChar(c: char) {
    c > ' ' && c != '"' && c != '/' && c != ',' && c != ':' && c != '[' && c != ']' && c != '{' && c != '}'
  }

  function SkipLayout(t: string): (r: string)
    ensures |r| <= |t|
  {
    if t != "" && IsLayout(t[0]) then SkipLayout(t[1..]) else t
  }

  /** Layout stands between two characters that minifying puts side by side in one word or number. */
  predicate Splits(t: string)
    requires t != ""
  {
    WordChar(t[0]) && IsLayout(At(t[1..])) && WordChar(At(SkipLayout(t[1..])))
  }

  /** Outside literals there is no comment, and no layout inside a word or a number. */
  predicate NoCut(t: string)
    decreases |t|
  {
    if At(t) == '\0' then true
    else if IsLayout(t[0]) then NoCut(t[1..])
    else if t[0] == '/' && |t| >= 2 && (t[1] == '/' || t[1] == '*') then false
    else if t[0] == '"' then
      match CopyLiteral(t[1..])
      case Literal(_, rest) => NoCut(rest)
      case Open => false
    else !Splits(t) && NoCut(t[1..])
  }

  // ---------------------------------------------------------------- a text that parses is not cut

  lemma {:induction false} SkipCut(u: string)
    ensures NoCut(Skip(u)) == NoCut(u)
    decreases |u|
  {
    if u != "" && u[0] != '\0' && u[0] <= ' ' {
      SkipCut(u[1..]);
    }
  }

  lemma {:induction false} LayoutEnds(y: string)
    requires Follows(At(Skip(y)))
    ensures !WordChar(At(SkipLayout(y)))
    decreases |y|
  {
    if y != "" && IsLayout(y[0]) {
      LayoutEnds(y[1..]);
    }
  }

  lemma {:induction false} RunCut(p: string, y: string)
    requires (forall i :: 0 <= i < |p| ==> WordChar(p[i])) && !WordChar(At(SkipLayout(y)))
    ensures NoCut(p + y) == NoCut(y)
    decreases |p|
  {
    if p == "" {
      assert p + y == y;
    } else {
      var t := p + y;
      assert t[1..] == p[1..] + y;
      RunCut(p[1..], y);
      if |p| == 1 {
        assert t[1..] == y;
      } else {
        assert t[1..][0] == p[1];
      }
    }
  }

  lemma OneCut(t: string)
    requires At(t) > ' ' && At(t) != '"' && At(t) != '/' && !WordChar(At(t))
    ensures NoCut(t) == NoCut(t[1..])
  {
  }

  lemma WordCut(t: string, word: string)
    requires word <= t && Follows(At(Skip(t[|word|..]))) && (word == "null" || word == "false" || word == "true")
    ensures NoCut(t) == NoCut(t[|word|..])
  {
    hide NoCut, Skip, SkipLayout;
    var y := t[|word|..];
    assert t == word + y;
    LayoutEnds(y);
    RunCut(word, y);
  }

  lemma NumberCut(t: string)
    requires (At(t) == '-' || IsDigit(At(t))) && Follows(At(Skip(ParseNumber(t).rest)))
    ensures NoCut(t) == NoCut(ParseNumber(t).rest)
  {
    hide NoCut, Skip, SkipLayout, ParseNumber;
    var y := ParseNumber(t).rest;
    EatsNumber(t);
    var p := t[..|t| - |y|];
    assert t == p + y;
    LayoutEnds(y);
    RunCut(p, y);
  }

  lemma StringCut(t: string)
    requires At(t) == '"' && OutsideOk(t) && Minify(t).Text?
    ensures ParseString(t).Parsed? && NoCut(t) == NoCut(ParseString(t).rest)
    ensures Minify(ParseString(t).rest).Text?
  {
    hide ParseString;
    var c := CopyLiteral(t[1..]);
    hide CopyLiteral;
    assert c.Literal? && Minify(t) == Prepend("\"" + c.text, Minify(c.rest));
    assert t[1..][|c.text|..] == c.rest && t[1..][..|c.text|] == c.text;
    ParseStringLocal(t, c.text, "");
    assert t[1 + |c.text|..] == c.rest;
  }

  lemma {:induction false} ValueCut(t: string)
    requires OutsideOk(t) && Minify(t).Text? && ParseValue(t).Parsed?
    requires Follows(At(Skip(ParseValue(t).rest)))
    ensures NoCut(t) == NoCut(ParseValue(t).rest)
    decreases |t|, 3
  {
    hide Minify, NoCut, ParseNumber, ParseString, ParseArray, ParseObject, Skip;
    if "null" <= t {
      WordCut(t, "null");
    } else if "false" <= t {
      WordCut(t, "false");
    } else if "true" <= t {
      WordCut(t, "true");
    } else if At(t) == '"' {
      StringCut(t);
    } else if At(t) == '-' || IsDigit(At(t)) {
      NumberCut(t);
    } else if At(t) == '[' {
      ArrayCut(t);
    } else {
      ObjectCut(t);
    }
  }

  lemma {:induction false} ArrayCut(t: string)
    requires OutsideOk(t) && Minify(t).Text? && At(t) == '[' && ParseArray(t).Parsed?
    ensures NoCut(t) == NoCut(ParseArray(t).rest)
    decreases |t|, 2
  {
    hide Minify, NoCut, ParseItems, Skip;
    PlainAt(t);
    OneCut(t);
    var u := Skip(t[1..]);
    SkipCut(t[1..]);
    OutsideSkip(t[1..]);
    if At(u) == ']' {
      OneCut(u);
    } else {
      ItemsStartKept(u);
      SkipTwice(t[1..]);
      SkipKept(t[1..]);
      ItemsCut(u);
    }
  }

  lemma {:induction false} ItemsCut(t: string)
    requires OutsideOk(t) && Minify(t).Text? && ParseItems(t).Parsed?
    ensures NoCut(t) == NoCut(ParseItems(t).rest)
    decreases |t|, 4
  {
    hide Minify, NoCut, ParseValue, Skip;
    OutsideSkip(t);
    ItemsStartKept(t);
    SkipKept(t);
    SkipCut(t);
    var r := ParseValue(Skip(t)).rest;
    ValueDefined(Skip(t));
    ValueKept(Skip(t));
    ValueCut(Skip(t));
    SkipKept(r);
    SkipCut(r);
    OutsideSkip(r);
    var u := Skip(r);
    PlainAt(u);
    OneCut(u);
    if At(u) == ',' {
      ItemsCut(u[1..]);
    }
  }

  lemma {:induction false} ObjectCut(t: string)
    requires OutsideOk(t) && Minify(t).Text? && At(t) == '{' && ParseObject(t).Parsed?
    ensures NoCut(t) == NoCut(ParseObject(t).rest)
    decreases |t|, 2
  {
    hide Minify, NoCut, ParseMembers, Skip;
    PlainAt(t);
    OneCut(t);
    var u := Skip(t[1..]);
    SkipCut(t[1..]);
    OutsideSkip(t[1..]);
    if At(u) == '}' {
      OneCut(u);
    } else {
      MembersStartKept(u);
      SkipTwice(t[1..]);
      SkipKept(t[1..]);
      MembersCut(u);
    }
  }

  lemma {:induction false} MemberCut(t: string)
    requires OutsideOk(t) && Minify(t).Text? && ParseMember(t).Parsed?
    requires Follows(At(Skip(ParseMember(t).rest)))
    ensures NoCut(t) == NoCut(ParseMember(t).rest)
    decreases |t|, 4
  {
    hide Minify, NoCut, ParseValue, ParseString, Skip;
    OutsideSkip(t);
    assert At(Skip(t)) == '"' by { MemberStart(t); }
    SkipKept(t);
    SkipCut(t);
    StringKept(Skip(t));
    StringCut(Skip(t));
    OutsideString(Skip(t));
    var r := ParseString(Skip(t)).rest;
    SkipKept(r);
    SkipCut(r);
    OutsideSkip(r);
    var u := Skip(r);
    PlainAt(u);
    OneCut(u);
    ValueStart(Skip(u[1..]));
    OutsideSkip(u[1..]);
    SkipKept(u[1..]);
    SkipCut(u[1..]);
    ValueCut(Skip(u[1..]));
  }

  lemma {:induction false} MembersCut(t: string)
    requires OutsideOk(t) && Minify(t).Text? && ParseMembers(t).Parsed?
    ensures NoCut(t) == NoCut(ParseMembers(t).rest)
    decreases |t|, 5
  {
    hide Minify, NoCut, ParseMember, Skip;
    var r := ParseMember(t).rest;
    MemberDefined(t);
    MemberKept(t);
    MemberCut(t);
    SkipKept(r);
    SkipCut(r);
    OutsideSkip(r);
    var u := Skip(r);
    PlainAt(u);
    OneCut(u);
    if At(u) == ',' {
      MembersCut(u[1..]);
    }
  }

  // ---------------------------------------------------------------- a text that is not cut parses

  /** Leading spaces, when nothing is cut. */
  lemma {:induction false} SkipBack(u: string)
    requires Minify(u).Text? && NoCut(u)
    ensures var v := Skip(u);
            Minify(v).Text? && NoCut(v) && Skip(Minify(u).s) == Minify(v).s && At(Minify(v).s) == At(v)
    decreases |u|
  {
    hide CopyLiteral;
    if u == "" || u[0] == '\0' {
    } else if u[0] > ' ' {
      assert Minify(u).s != "" && Minify(u).s[0] == u[0];
    } else {
      SkipCut(u);
      SkipBack(u[1..]) by {
        SkipCut(u[1..]);
        SpaceKept(u);
      }
      SpaceKept(u);
    }
  }

  /** What the minified text begins with is what comes behind the layout. */
  lemma {:induction false} FirstWord(u: string)
    requires Minify(u).Text? && NoCut(u)
    ensures At(SkipLayout(u)) == At(Minify(u).s)
    decreases |u|
  {
    hide CopyLiteral;
    if u != "" && IsLayout(u[0]) {
      FirstWord(u[1..]);
    }
  }

  lemma FirstChar(u: string)
    requires Minify(u).Text? && NoCut(u) && !IsLayout(At(u))
    ensures At(u) == At(Minify(u).s)
  {
    FirstWord(u);
  }

  /** The characters of a word or number stand side by side in the text as well. */
  lemma {:induction false} RunBack(t: string, p: string)
    requires Minify(t).Text? && NoCut(t) && !IsLayout(At(t)) && p != "" && p <= Minify(t).s
    requires forall i :: 0 <= i < |p| ==> WordChar(p[i])
    ensures p <= t && NoCut(t[|p|..]) && Minify(t[|p|..]).Text? && Minify(t).s == p + Minify(t[|p|..]).s
    decreases |p|
  {
    hide Minify, CopyLiteral;
    FirstChar(t);
    PlainAt(t);
    var u, q := t[1..], p[1..];
    assert NoCut(u) && !Splits(t);
    if q == "" {
      assert p == [t[0]];
    } else {
      var m := Minify(t).s;
      assert q <= Minify(u).s by { assert m[1..] == Minify(u).s && m[..|p|][1..] == q; }
      FirstWord(u);
      assert At(Minify(u).s) == q[0] == p[1];
      RunBack(u, q);
      assert u[|q|..] == t[|p|..] && p == [t[0]] + q;
    }
  }

  lemma FollowBack(y: string)
    requires Minify(y).Text? && NoCut(y) && Follows(At(Skip(Minify(y).s)))
    ensures Follows(At(Skip(y))) && Stops(y) && Stops(Minify(y).s)
  {
    hide Minify, NoCut, Skip;
    SkipBack(y);
    StopsKept(y);
  }

  lemma WordBack(t: string, word: string)
    requires Minify(t).Text? && NoCut(t) && !IsLayout(At(t)) && word <= Minify(t).s
    requires (word == "null" || word == "false" || word == "true") && Follows(At(Skip(Minify(t).s[|word|..])))
    ensures word <= t && NoCut(t[|word|..]) && Follows(At(Skip(t[|word|..])))
  {
    hide Minify, NoCut, Skip;
    RunBack(t, word);
    var y := t[|word|..];
    assert Minify(t).s[|word|..] == Minify(y).s;
    FollowBack(y);
  }

  lemma NumberBack(t: string)
    requires Minify(t).Text? && NoCut(t) && !IsLayout(At(t))
    requires var m := Minify(t).s;
             (At(m) == '-' || IsDigit(At(m))) && Follows(At(Skip(ParseNumber(m).rest)))
    ensures (At(t) == '-' || IsDigit(At(t))) && NoCut(ParseNumber(t).rest) && Follows(At(Skip(ParseNumber(t).rest)))
  {
    hide Minify, NoCut, Skip, ParseNumber, Stops;
    var m := Minify(t).s;
    var x := ParseNumber(m).rest;
    EatsNumber(m);
    var p := m[..|m| - |x|];
    assert m == p + x;
    RunBack(t, p);
    var y := t[|p|..];
    assert t == p + y && Minify(y).s == x by { assert m[|p|..] == x; }
    FollowBack(y);
    assert p[0] == m[0] == t[0];
    NumberLocal(p, x, y);
  }

  lemma StringBack(t: string)
    requires Minify(t).Text? && NoCut(t) && At(t) == '"' && OutsideOk(t)
    requires ParseString(Minify(t).s).Parsed? && Follows(At(Skip(ParseString(Minify(t).s).rest)))
    ensures ParseString(t).Parsed? && NoCut(ParseString(t).rest) && Follows(At(Skip(ParseString(t).rest)))
  {
    hide Minify, NoCut, Skip, ParseString;
    StringCut(t);
    StringKept(t);
    FollowBack(ParseString(t).rest);
  }

  lemma {:induction false} ValueBack(t: string)
    requires OutsideOk(t) && Minify(t).Text? && NoCut(t) && !IsLayout(At(t))
    requires ParseValue(Minify(t).s).Parsed? && Follows(At(Skip(ParseValue(Minify(t).s).rest)))
    ensures ParseValue(t).Parsed? && NoCut(ParseValue(t).rest) && Follows(At(Skip(ParseValue(t).rest)))
    decreases |t|, 3
  {
    hide Minify, NoCut, ParseNumber, ParseString, ParseArray, ParseObject, Skip;
    var m := Minify(t).s;
    FirstChar(t);
    if "null" <= m {
      WordBack(t, "null");
    } else if "false" <= m {
      WordBack(t, "false");
    } else if "true" <= m {
      WordBack(t, "true");
    } else if At(m) == '"' {
      StringBack(t);
    } else if At(m) == '-' || IsDigit(At(m)) {
      NumberBack(t);
    } else if At(m) == '[' {
      ArrayBack(t);
      ArrayKept(t);
      FollowBack(ParseArray(t).rest);
    } else {
      ObjectBack(t);
      ObjectKept(t);
      FollowBack(ParseObject(t).rest);
    }
  }

  lemma {:induction false} ArrayBack(t: string)
    requires OutsideOk(t) && Minify(t).Text? && NoCut(t) && At(t) == '['
    requires At(Minify(t).s) == '[' && ParseArray(Minify(t).s).Parsed?
    ensures ParseArray(t).Parsed? && NoCut(ParseArray(t).rest)
    decreases |t|, 2
  {
    hide Minify, NoCut, ParseItems, Skip;
    PlainAt(t);
    OneCut(t);
    var u := Skip(t[1..]);
    OutsideSkip(t[1..]);
    SkipBack(t[1..]);
    if At(u) == ']' {
      OneCut(u);
    } else {
      ItemsBack(u);
    }
  }

  lemma {:induction false} ItemsBack(t: string)
    requires OutsideOk(t) && Minify(t).Text? && NoCut(t) && ParseItems(Minify(t).s).Parsed?
    ensures ParseItems(t).Parsed? && NoCut(ParseItems(t).rest)
    decreases |t|, 4
  {
    hide Minify, NoCut, ParseValue, Skip;
    OutsideSkip(t);
    SkipBack(t);
    var v := Skip(t);
    SkipStart(t);
    ValueBack(v);
    ValueDefined(v);
    ValueKept(v);
    var r := ParseValue(v).rest;
    SkipBack(r);
    OutsideSkip(r);
    var u := Skip(r);
    PlainAt(u);
    OneCut(u);
    if At(u) == ',' {
      ItemsBack(u[1..]);
    }
  }

  lemma {:induction false} SkipStart(t: string)
    ensures !IsLayout(At(Skip(t)))
    decreases |t|
  {
    if t != "" && t[0] != '\0' && t[0] <= ' ' {
      SkipStart(t[1..]);
    }
  }

  lemma {:induction false} ObjectBack(t: string)
    requires OutsideOk(t) && Minify(t).Text? && NoCut(t) && At(t) == '{'
    requires At(Minify(t).s) == '{' && ParseObject(Minify(t).s).Parsed?
    ensures ParseObject(t).Parsed? && NoCut(ParseObject(t).rest)
    decreases |t|, 2
  {
    hide Minify, NoCut, ParseMembers, Skip;
    PlainAt(t);
    OneCut(t);
    var u := Skip(t[1..]);
    OutsideSkip(t[1..]);
    SkipBack(t[1..]);
    if At(u) == '}' {
      OneCut(u);
    } else {
      MembersBack(u);
    }
  }

  /** The key of a member and its colon: what is left is the minified rest. */
  lemma KeyBack(t: string) returns (u: string)
    requires OutsideOk(t) && Minify(t).Text? && NoCut(t) && ParseMember(Minify(t).s).Parsed?
    ensures ParseString(Skip(t)).Parsed? && u == Skip(ParseString(Skip(t)).rest) && At(u) == ':' && |u| <= |t|
    ensures OutsideOk(u[1..]) && Minify(u[1..]).Text? && NoCut(u[1..])
    ensures var p := ParseString(Skip(Minify(t).s));
            p.Parsed? && At(Skip(p.rest)) == ':' && Skip(p.rest)[1..] == Minify(u[1..]).s
  {
    hide Minify, NoCut, ParseString, ParseValue, Skip;
    OutsideSkip(t);
    SkipBack(t);
    var v := Skip(t);
    assert At(v) == '"' by { MemberStart(Minify(t).s); }
    StringCut(v);
    StringKept(v);
    OutsideString(v);
    var r := ParseString(v).rest;
    SkipBack(r);
    OutsideSkip(r);
    u := Skip(r);
    PlainAt(u);
    OneCut(u);
  }

  lemma {:induction false} MemberBack(t: string)
    requires OutsideOk(t) && Minify(t).Text? && NoCut(t) && ParseMember(Minify(t).s).Parsed?
    requires Follows(At(Skip(ParseMember(Minify(t).s).rest)))
    ensures ParseMember(t).Parsed? && NoCut(ParseMember(t).rest) && Follows(At(Skip(ParseMember(t).rest)))
    decreases |t|, 4
  {
    hide Minify, NoCut, ParseString, ParseValue, Skip;
    var u := KeyBack(t);
    var w := u[1..];
    OutsideSkip(w);
    SkipBack(w);
    SkipStart(w);
    ValueBack(Skip(w));
  }

  lemma {:induction false} MembersBack(t: string)
    requires OutsideOk(t) && Minify(t).Text? && NoCut(t) && ParseMembers(Minify(t).s).Parsed?
    ensures ParseMembers(t).Parsed? && NoCut(ParseMembers(t).rest)
    decreases |t|, 5
  {
    hide Minify, NoCut, ParseMember, Skip;
    MemberBack(t);
    MemberDefined(t);
    MemberKept(t);
    var r := ParseMember(t).rest;
    SkipBack(r);
    OutsideSkip(r);
    var u := Skip(r);
    PlainAt(u);
    OneCut(u);
    if At(u) == ',' {
      MembersBack(u[1..]);
    }
  }

  // ---------------------------------------------------------------- exactly when

  lemma ParsedIsUncut(t: string)
    requires OutsideOk(t) && Minify(t).Text? && Parse(t, true).Parsed?
    ensures NoCut(t)
  {
    hide Minify, ParseValue, Skip;
    var v := Skip(t);
    OutsideSkip(t);
    ValueStart(v);
    SkipKept(t);
    SkipCut(t);
    ValueCut(v);
    SkipCut(ParseValue(v).rest);
  }

  lemma UncutIsParsed(t: string)
    requires OutsideOk(t) && Minify(t).Text? && NoCut(t) && Parse(Minify(t).s, true).Parsed?
    ensures Parse(t, true).Parsed?
  {
    hide Minify, NoCut, ParseValue, Skip;
    var v := Skip(t);
    OutsideSkip(t);
    SkipBack(t);
    SkipStart(t);
    ValueBack(v);
    ValueKept(v);
    SkipBack(ParseValue(v).rest);
  }

  /** A text whose escapes are complete and whose comments and literals are closed parses whole if and only if
      its minified text does and minifying takes no comment away and no layout from inside a word or a number.
      The value is then the same. */
  lemma MinifyExact(t: string)
    requires OutsideOk(t) && Minify(t).Text?
    ensures Parse(t, true).Parsed? <==> NoCut(t) && Parse(Minify(t).s, true).Parsed?
    ensures Parse(t, true).Parsed? ==> Parse(Minify(t).s, true) == Parsed(Parse(t, true).value, "")
  {
    hide Minify, NoCut, Parse;
    if Parse(t, true).Parsed? {
      ParsedIsUncut(t);
      MinifyKeepsMeaning(t);
    } else if NoCut(t) && Parse(Minify(t).s, true).Parsed? {
      UncutIsParsed(t);
    }
  }
}
