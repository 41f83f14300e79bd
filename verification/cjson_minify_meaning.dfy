/** Minifying keeps the meaning: what a text parses to, its minified text parses to. */
module CJsonMinifyMeaning {
  import opened CJsonText
  import opened CJsonRoundTrip
  import opened CJsonStrings
  import opened CJsonMinify

  // ---------------------------------------------------------------- literals

  /** A closed literal, its closing quote included: l, cut from the front of t. */
  ghost predicate Closed(t: string, l: string) {
    CopyLiteral(t) == Literal(l, Drop(t, |l|)) && |l| <= |t| && t[..|l|] == l
  }

  lemma ClosedStep(t: string, l: string, k: nat)
    requires Closed(t, l) && 1 <= k <= |t| && CopyLiteral(t) == CopyOn(t, k, CopyLiteral(t[k..]))
    ensures k < |l| && t[..k] == l[..k] && Closed(t[k..], l[k..])
  {
    hide CopyLiteral;
    var c := CopyLiteral(t[k..]);
    assert l == t[..k] + c.text;
    assert l[k..] == c.text;
    assert t[k..] == c.text + c.rest;
  }

  lemma {:induction false} ScanLocal(t: string, l: string, x: string)
    requires Closed(t, l)
    ensures ScanLength(t).Parsed? && ScanLength(l + x).Parsed? && ScanLength(l + x).value == ScanLength(t).value
    decreases |t|
  {
    if t[0] == '"' {
      assert (l + x)[0] == '"';
    } else {
      var k := if t[0] == '\\' then 2 else 1;
      ClosedStep(t, l, k);
      ScanLocal(t[k..], l[k..], x);
      assert (l + x)[k..] == l[k..] + x;
      assert (l + x)[0] == t[0];
    }
  }

  lemma ClosedOne(t: string, l: string)
    requires Closed(t, l) && InLiteral(At(t))
    ensures 1 < |l| && t[0] == l[0] && Closed(t[1..], l[1..])
  {
    CopySome(t, l);
    CopyOne(t[0], t[1..]);
    assert [t[0]] + t[1..] == t;
    ClosedStep(t, l, 1);
    assert t[..1][0] == l[..1][0];
  }

  lemma FrontSame(t: string, l: string, k: nat)
    requires 0 < k <= |t| && k <= |l| && t[0] == l[0] && t[1..][..k - 1] == l[1..][..k - 1]
    ensures t[..k] == l[..k]
  {
    forall i | 0 < i < k ensures t[i] == l[i] {
      assert t[1..][..k - 1][i - 1] == l[1..][..k - 1][i - 1];
    }
  }

  lemma {:induction false} ClosedRun(t: string, l: string, k: nat)
    requires Closed(t, l) && k <= |t| && forall i :: 0 <= i < k ==> InLiteral(t[i])
    ensures k < |l| && t[..k] == l[..k] && Closed(t[k..], l[k..])
    decreases k
  {
    if k == 0 {
      assert t[0..] == t && l[0..] == l;
      QuoteLast(t, l);
    } else {
      ClosedOne(t, l);
      var v, m := t[1..], l[1..];
      hide Closed;
      ClosedRun(v, m, k - 1);
      assert v[k - 1..] == t[k..] && m[k - 1..] == l[k..];
      FrontSame(t, l, k);
    }
  }

  lemma QuoteLast(t: string, l: string)
    requires Closed(t, l)
    ensures l != ""
  {
  }

  lemma CopySome(t: string, l: string)
    requires Closed(t, l) && InLiteral(At(t))
    ensures CopyLiteral(t[1..]).Literal?
  {
  }

  /** A backslash, a u and four digits. */
  lemma ClosedEscape(t: string, l: string)
    requires Closed(t, l) && |t| >= 6 && t[0] == '\\' && t[1] == 'u' && IsHex4(t[2..])
    ensures 6 < |l| && t[..6] == l[..6] && Closed(t[6..], l[6..])
  {
    hide IsHex4;
    ClosedStep(t, l, 2);
    var v, m := t[2..], l[2..];
    forall i | 0 <= i < 4 ensures InLiteral(v[i]) {
      PlainHex(v, i);
    }
    hide Closed;
    ClosedRun(v, m, 4);
    assert v[4..] == t[6..] && m[4..] == l[6..];
    assert t[..6] == t[..2] + v[..4] && l[..6] == l[..2] + m[..4];
  }

  lemma Hex4Same(t: string, u: string)
    requires |t| >= 4 && |u| >= 4 && t[..4] == u[..4]
    ensures IsHex4(t) == IsHex4(u) && Hex4(t) == Hex4(u)
  {
    forall i: nat | i < 4 ensures t[i] == u[i] {
      assert t[..4][i] == u[..4][i];
    }
  }

  lemma InsideEscape(t: string)
    requires InsideOk(t) && |t| >= 2 && t[0] == '\\' && t[1] == 'u'
    ensures |t| >= 6 && IsHex4(t[2..]) && InsideOk(t[6..])
  {
  }

  lemma DigitsAhead(t: string, l: string, x: string)
    requires |t| >= 6 && |l| > 6 && t[..6] == l[..6]
    ensures t[2..][..4] == (l + x)[2..][..4]
  {
    forall i: nat | i < 4 ensures t[2..][i] == (l + x)[2..][i] {
      assert t[..6][i + 2] == l[..6][i + 2];
    }
  }

  /** The four digits of an escape lie inside the literal. */
  lemma EscapeLocal(t: string, l: string, x: string)
    requires Closed(t, l) && InsideOk(t) && |t| >= 2 && t[0] == '\\' && t[1] == 'u'
    ensures 6 < |l| && |t| >= 6 && Closed(t[6..], l[6..]) && InsideOk(t[6..])
    ensures Hex4(Drop(t, 2)) == Hex4(Drop(l + x, 2))
  {
    hide Hex4, IsHex4, CopyLiteral, Closed, InsideOk;
    InsideEscape(t);
    ClosedEscape(t, l);
    DigitsAhead(t, l, x);
    Hex4Same(t[2..], (l + x)[2..]);
  }

  /** An escape in a closed literal stands for the same bytes whatever follows the literal. */
  lemma TranscodeLocal(t: string, l: string, x: string)
    requires Closed(t, l) && InsideOk(t) && |t| >= 2 && t[0] == '\\' && t[1] == 'u'
    ensures Transcode(l + x) == Transcode(t)
    ensures var k := Transcode(t).1; 1 <= k < |l| && k <= |t| && Closed(t[k..], l[k..]) && InsideOk(t[k..])
  {
    hide Hex4, IsHex4, Utf8, CopyLiteral, Closed, InsideOk;
    var y := l + x;
    EscapeLocal(t, l, x);
    var v, m := t[6..], l[6..];
    SameStart(v, m, x);
    assert y[6..] == m + x;
    assert At(Drop(t, 6)) == At(v) && At(Drop(y, 6)) == At(m + x);
    if At(v) == '\\' {
      assert At(Drop(t, 7)) == v[1] && At(Drop(y, 7)) == (m + x)[1];
      if v[1] == 'u' {
        EscapeLocal(v, m, x);
        assert v[2..] == t[8..] && (m + x)[2..] == y[8..];
        assert v[6..] == t[12..] && m[6..] == l[12..];
      }
    }
  }

  lemma SameStart(v: string, m: string, x: string)
    requires Closed(v, m)
    ensures 1 <= |m| <= |v| && v[0] != '\0' && v[0] == (m + x)[0]
    ensures v[0] == '\\' ==> |v| >= 2 && |m| >= 2 && v[1] == (m + x)[1] && v[1] != '\0'
  {
    if At(v) == '\\' {
      ClosedStep(v, m, 2);
      assert v[..2][1] == m[..2][1] == (m + x)[1];
    } else {
      assert v[..|m|][0] == m[0];
    }
  }

  /** What a closed literal stands for does not depend on what follows it. */
  lemma {:induction false} UnescapeLocal(t: string, l: string, x: string)
    requires Closed(t, l) && InsideOk(t)
    ensures Unescape(t).Parsed? && |l| <= |t| && Unescape(t).rest == t[|l|..]
    ensures Unescape(l + x) == Parsed(Unescape(t).value, x)
    decreases |t|
  {
    hide Transcode, Closed, IsHex4, InsideOk, Unescape;
    SameStart(t, l, x);
    if t[0] == '"' {
      QuoteOnly(t, l);
      UnescapeQuote(t);
      UnescapeQuote(l + x);
      assert (l + x)[1..] == x;
    } else {
      var u, k := UnescapeStep(t, l, x);
      UnescapeLocal(t[k..], l[k..], x);
      assert t[k..][|l| - k..] == t[|l|..];
    }
  }

  lemma UnescapeQuote(t: string)
    requires At(t) == '"'
    ensures Unescape(t) == Parsed("", t[1..])
  {
  }

  lemma UnescapeStep(t: string, l: string, x: string) returns (u: string, k: nat)
    requires Closed(t, l) && InsideOk(t) && At(t) != '"'
    ensures 1 <= k < |l| <= |t| && Closed(t[k..], l[k..]) && InsideOk(t[k..])
    ensures Unescape(t) == Before(u, Unescape(t[k..]))
    ensures Unescape(l + x) == Before(u, Unescape(l[k..] + x))
  {
    hide Transcode, Closed, IsHex4, InsideOk;
    var y := l + x;
    SameStart(t, l, x);
    if t[0] != '\\' {
      u, k := [t[0]], 1;
      ClosedUnit(t, l, k);
    } else if t[1] != 'u' {
      u, k := [UnescapeChar(t[1])], 2;
      ClosedUnit(t, l, k);
    } else {
      TranscodeLocal(t, l, x);
      u, k := Transcode(t).0, Transcode(t).1;
    }
    assert y[k..] == l[k..] + x;
  }

  lemma QuoteOnly(t: string, l: string)
    requires Closed(t, l) && At(t) == '"'
    ensures l == "\""
  {
  }

  lemma ClosedUnit(t: string, l: string, k: nat)
    requires Closed(t, l) && InsideOk(t) && At(t) != '"'
    requires if t[0] == '\\' then |t| >= 2 && t[1] != 'u' && k == 2 else k == 1
    ensures k < |l| && Closed(t[k..], l[k..]) && InsideOk(t[k..])
  {
    ClosedStep(t, l, k);
  }

  lemma {:induction false} ParseStringLocal(t: string, l: string, x: string)
    requires At(t) == '"' && OutsideOk(t) && Closed(t[1..], l)
    ensures ParseString(t).Parsed? && ParseString(t).rest == t[1 + |l|..] && OutsideOk(t[1 + |l|..])
    ensures ParseString("\"" + l + x) == Parsed(ParseString(t).value, x)
  {
    hide ScanLength, Unescape, CopyLiteral;
    ScanLocal(t[1..], l, x);
    UnescapeLocal(t[1..], l, x);
    LiteralDefined(t[1..]);
    assert ("\"" + l + x)[1..] == l + x;
    assert t[1..][|l|..] == t[1 + |l|..];
  }

  // ---------------------------------------------------------------- numbers

  predicate NumberChar(c: char) {
    IsDigit(c) || c == '.' || c == 'e' || c == 'E' || c == '+' || c == '-'
  }

  /** r is t behind some characters of a number. */
  ghost predicate Eats(t: string, r: string) {
    |r| <= |t| && t[|t| - |r|..] == r && forall i :: 0 <= i < |t| - |r| ==> NumberChar(t[i])
  }

  lemma EatsMore(t: string, r: string, s: string)
    requires Eats(t, r) && Eats(r, s)
    ensures Eats(t, s)
  {
    forall i | 0 <= i < |t| - |s| ensures NumberChar(t[i]) {
      if i >= |t| - |r| {
        assert t[i] == r[i - (|t| - |r|)];
      }
    }
  }

  lemma EatsOne(t: string)
    requires t != "" && NumberChar(t[0])
    ensures Eats(t, t[1..])
  {
  }

  lemma {:induction false} EatsDigits(acc: nat, t: string)
    ensures Eats(t, Drop(t, Digits(acc, t).1))
    decreases |t|
  {
    if t != "" && IsDigit(t[0]) {
      var a := acc * 10 + (t[0] as int - '0' as int);
      EatsDigits(a, t[1..]);
      EatsOne(t);
      EatsMore(t, t[1..], Drop(t[1..], Digits(a, t[1..]).1));
      assert Drop(t[1..], Digits(a, t[1..]).1) == Drop(t, Digits(acc, t).1);
    }
  }

  lemma EatsFraction(n: nat, t: string)
    ensures Eats(t, Fraction(n, t).2)
  {
    hide Eats;
    if At(t) == '.' && |t| >= 2 && IsDigit(t[1]) {
      EatsOne(t);
      EatsDigits(n, t[1..]);
      EatsMore(t, t[1..], Fraction(n, t).2);
    } else {
      EatsNothing(t);
    }
  }

  lemma EatsNothing(t: string)
    ensures Eats(t, t)
  {
  }

  lemma EatsExponent(t: string)
    ensures Eats(t, Exponent(t).1)
  {
    hide Eats;
    EatsNothing(t);
    if At(t) == 'e' || At(t) == 'E' {
      EatsOne(t);
      var u := t[1..];
      var v := if At(u) == '+' || At(u) == '-' then u[1..] else u;
      if v != u { EatsOne(u); EatsMore(t, u, v); }
      EatsDigits(0, v);
      EatsMore(t, v, Exponent(t).1);
    }
  }

  lemma EatsNumber(t: string)
    requires At(t) == '-' || IsDigit(At(t))
    ensures Eats(t, ParseNumber(t).rest)
  {
    hide Eats, Digits, Fraction, Exponent;
    EatsNothing(t);
    var t1 := if At(t) == '-' then t[1..] else t;
    if t1 != t { EatsOne(t); }
    var t2 := if At(t1) == '0' then t1[1..] else t1;
    if t2 != t1 { EatsOne(t1); EatsMore(t, t1, t2); }
    EatsDigits(0, t2);
    var (n, k) := if '1' <= At(t2) <= '9' then Digits(0, t2) else (0, 0);
    var t3 := Drop(t2, k);
    if t3 != t2 { EatsMore(t, t2, t3); }
    EatsFraction(n, t3);
    var t4 := Fraction(n, t3).2;
    EatsMore(t, t3, t4);
    EatsExponent(t4);
    EatsMore(t, t4, Exponent(t4).1);
  }

  /** The text does not go on with a character of a number. */
  predicate Stops(t: string) {
    !NumberChar(At(t))
  }

  lemma {:induction false} DigitsLocal(acc: nat, p: string, x: string, y: string)
    requires Stops(x) && Stops(y)
    ensures Digits(acc, p + x) == Digits(acc, p + y) && Digits(acc, p + x).1 <= |p|
    decreases |p|
  {
    if p == "" {
      assert p + x == x && p + y == y;
    } else {
      assert (p + x)[1..] == p[1..] + x && (p + y)[1..] == p[1..] + y;
      if IsDigit(p[0]) {
        DigitsLocal(acc * 10 + (p[0] as int - '0' as int), p[1..], x, y);
      }
    }
  }

  lemma DropLocal(p: string, k: nat, x: string)
    requires k <= |p|
    ensures Drop(p + x, k) == p[k..] + x
  {
  }

  lemma FractionLocal(n: nat, p: string, x: string, y: string) returns (q: string)
    requires Stops(x) && Stops(y)
    ensures var a, b := Fraction(n, p + x), Fraction(n, p + y);
            a.0 == b.0 && a.1 == b.1 && a.2 == q + x && b.2 == q + y
  {
    hide Digits;
    q := p;
    if p != "" && p[0] == '.' {
      assert (p + x)[1..] == p[1..] + x && (p + y)[1..] == p[1..] + y;
      DigitsLocal(n, p[1..], x, y);
      if |p| >= 2 && IsDigit(p[1]) {
        var k := Digits(n, p[1..] + x).1;
        q := p[1..][k..];
        DropLocal(p[1..], k, x);
        DropLocal(p[1..], k, y);
      }
    }
  }

  lemma SignLocal(p: string, x: string, y: string) returns (q: string)
    requires Stops(x) && Stops(y)
    ensures (if At(p + x) == '+' || At(p + x) == '-' then (p + x)[1..] else p + x) == q + x
    ensures (if At(p + y) == '+' || At(p + y) == '-' then (p + y)[1..] else p + y) == q + y
    ensures At(p + x) == '-' <==> At(p + y) == '-'
  {
    q := if p != "" && (p[0] == '+' || p[0] == '-') then p[1..] else p;
    if q != p {
      assert (p + x)[1..] == q + x && (p + y)[1..] == q + y;
    }
  }

  lemma ExponentLocal(p: string, x: string, y: string) returns (q: string)
    requires Stops(x) && Stops(y)
    ensures var a, b := Exponent(p + x), Exponent(p + y);
            a.0 == b.0 && a.1 == q + x && b.1 == q + y
  {
    hide Digits, Drop;
    q := p;
    if p != "" && (p[0] == 'e' || p[0] == 'E') {
      var u := p[1..];
      assert (p + x)[1..] == u + x && (p + y)[1..] == u + y;
      var v := SignLocal(u, x, y);
      DigitsLocal(0, v, x, y);
      var k := Digits(0, v + x).1;
      q := v[k..];
      DropLocal(v, k, x);
      DropLocal(v, k, y);
    }
  }

  lemma HeadLocal(p: string, c: char, x: string, y: string) returns (q: string)
    requires Stops(x) && Stops(y) && NumberChar(c)
    ensures (if At(p + x) == c then (p + x)[1..] else p + x) == q + x
    ensures (if At(p + y) == c then (p + y)[1..] else p + y) == q + y
    ensures At(p + x) == c <==> At(p + y) == c
  {
    q := if p != "" && p[0] == c then p[1..] else p;
    if q != p {
      assert (p + x)[1..] == q + x && (p + y)[1..] == q + y;
    }
  }

  function Lead(t: string): (nat, nat) {
    if '1' <= At(t) <= '9' then Digits(0, t) else (0, 0)
  }

  lemma LeadLocal(p: string, x: string, y: string) returns (q: string)
    requires Stops(x) && Stops(y)
    ensures Lead(p + x) == Lead(p + y)
    ensures Drop(p + x, Lead(p + x).1) == q + x && Drop(p + y, Lead(p + y).1) == q + y
  {
    hide Digits;
    DigitsLocal(0, p, x, y);
    var k := Lead(p + x).1;
    q := p[k..];
    DropLocal(p, k, x);
    DropLocal(p, k, y);
  }

  /** parse_number, from where the sign and a leading zero are read. */
  function NumberFrom(neg: bool, t: string): Outcome<Json> {
    var (n, k) := Lead(t);
    var (m, scale, t3) := Fraction(n, Drop(t, k));
    var (e, t4) := Exponent(t3);
    Parsed(Number(if neg then 0 - m else m, scale + e), t4)
  }

  lemma NumberFromLocal(neg: bool, p: string, x: string, y: string) returns (q: string)
    requires Stops(x) && Stops(y)
    ensures var a, b := NumberFrom(neg, p + x), NumberFrom(neg, p + y);
            a.Parsed? && b.Parsed? && a.value == b.value && a.rest == q + x && b.rest == q + y
  {
    hide Fraction, Exponent, Stops, Lead, Drop;
    q := LeadLocal(p, x, y);
    q := FractionLocal(Lead(p + x).0, q, x, y);
    q := ExponentLocal(q, x, y);
  }

  /** A number's text means the same before anything that does not prolong it. */
  lemma NumberLocal(p: string, x: string, y: string)
    requires Stops(x) && Stops(y) && p != "" && (p[0] == '-' || IsDigit(p[0]))
    requires ParseNumber(p + x).rest == x
    ensures ParseNumber(p + y) == Parsed(ParseNumber(p + x).value, y)
  {
    hide Digits, Fraction, Exponent, Stops, Drop;
    var neg := p[0] == '-';
    var p1 := HeadLocal(p, '-', x, y);
    var p2 := HeadLocal(p1, '0', x, y);
    assert ParseNumber(p + x) == NumberFrom(neg, p2 + x);
    assert ParseNumber(p + y) == NumberFrom(neg, p2 + y);
    hide NumberFrom, ParseNumber;
    var q := NumberFromLocal(neg, p2, x, y);
    assert q == "";
    assert q + y == y;
  }
}
