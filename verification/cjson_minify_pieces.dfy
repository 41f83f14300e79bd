/** What minifying keeps: a text is read as a row of pieces, and the pieces that are neither layout nor comments are
    what is left. */
module CJsonMinifyPieces {
  import opened CJsonText
  import opened CJsonRoundTrip
  import opened CJsonMinify

  /** A character of a literal, or a backslash and the character behind it. */
  datatype Char = One(c: char) | Escaped(c: char)

  datatype Piece =
    | Mark(c: char)               // structure, a character of a word or a number
    | Quoted(body: seq<Char>)     // a literal
    | Gap(c: char)                // layout
    | Line(s: string)             // a comment up to the line end, which is a gap
    | Block(s: string)            // a comment in slashes and stars
    | Brief                       // a block comment whose one star opens and closes it

  function CharText(k: Char): string {
    match k
    case One(c) => [c]
    case Escaped(c) => ['\\', c]
  }

  function Body(ks: seq<Char>): string {
    if ks == [] then "" else CharText(ks[0]) + Body(ks[1..])
  }

  function Written(p: Piece): string {
    match p
    case Mark(c) => [c]
    case Quoted(body) => "\"" + Body(body) + "\""
    case Gap(c) => [c]
    case Line(s) => "//" + s
    case Block(s) => "/*" + s + "*/"
    case Brief => "/*/"
  }

  /** Where a block comment ends for the program: at the first star with a slash behind it, which may share the star
      of the opening. */
  ghost predicate ClosesLast(s: string) {
    var t := "*" + s + "*/";
    forall i :: 0 <= i <= |s| ==> !(t[i] == '*' && t[i + 1] == '/')
  }

  /** Is p a piece, with this text behind it? */
  ghost predicate PieceOk(p: Piece, behind: string) {
    match p
    case Mark(c) =>
      && c != ' ' && c != '\t' && c != '\r' && c != '\n' && c != '"' && c != '\0'
      && (c == '/' ==> At(behind) != '/' && At(behind) != '*')
    case Quoted(body) =>
      forall i :: 0 <= i < |body| ==> body[i].c != '\0' && (body[i].One? ==> body[i].c != '"' && body[i].c != '\\')
    case Gap(c) => c == ' ' || c == '\t' || c == '\r' || c == '\n'
    case Line(s) =>
      (forall i :: 0 <= i < |s| ==> s[i] != '\n' && s[i] != '\0') && (At(behind) == '\n' || At(behind) == '\0')
    case Block(s) => (forall i :: 0 <= i < |s| ==> s[i] != '\0') && ClosesLast(s)
    case Brief => true
  }

  /** These pieces, one behind the other, are the text up to its terminator. */
  ghost predicate Reads(ps: seq<Piece>, t: string)
    decreases |ps|
  {
    if ps == [] then At(t) == '\0'
    else
      && Written(ps[0]) <= t
      && PieceOk(ps[0], t[|Written(ps[0])|..]) && Reads(ps[1..], t[|Written(ps[0])|..])
  }

  predicate Stays(p: Piece) {
    p.Mark? || p.Quoted?
  }

  /** The marks and literals in a row. */
  function Kept(ps: seq<Piece>): string {
    if ps == [] then "" else (if Stays(ps[0]) then Written(ps[0]) else "") + Kept(ps[1..])
  }

  // ---------------------------------------------------------------- each piece is dealt with as a whole

  lemma {:induction false} LineEnds(s: string, t: string)
    requires (forall i :: 0 <= i < |s| ==> s[i] != '\n' && s[i] != '\0') && (At(t) == '\n' || At(t) == '\0')
    ensures LineComment(s + t) == t
    decreases |s|
  {
    if s == "" {
      assert s + t == t;
    } else {
      assert (s + t)[0] == s[0] && (s + t)[1..] == s[1..] + t;
      LineEnds(s[1..], t);
    }
  }

  /** A comment up to the end of the line is gone, and what follows is minified. */
  lemma LineGone(s: string, t: string)
    requires PieceOk(Line(s), t)
    ensures Minify("//" + s + t) == Minify(t)
  {
    var u := "//" + s + t;
    assert u[2..] == s + t;
    LineEnds(s, t);
  }

  lemma {:induction false} BlockEnds(x: string, t: string)
    requires |x| >= 2 && x[|x| - 2] == '*' && x[|x| - 1] == '/' && (forall i :: 0 <= i < |x| ==> x[i] != '\0')
    requires forall i :: 0 <= i < |x| - 2 ==> !(x[i] == '*' && x[i + 1] == '/')
    ensures BlockComment(x + t) == Rest(t)
    decreases |x|
  {
    var u := x + t;
    assert u[0] == x[0] && u[1] == x[1];
    if |x| == 2 {
      assert u[2..] == t;
    } else {
      assert !(x[0] == '*' && x[1] == '/');
      assert u[1..] == x[1..] + t;
      forall i | 0 <= i < |x[1..]| - 2 ensures !(x[1..][i] == '*' && x[1..][i + 1] == '/') {
        assert !(x[i + 1] == '*' && x[i + 2] == '/');
      }
      BlockEnds(x[1..], t);
    }
  }

  /** A block comment is gone. */
  lemma BlockGone(s: string, t: string)
    requires PieceOk(Block(s), t)
    ensures Minify("/*" + s + "*/" + t) == Minify(t)
  {
    var x := "/*" + s + "*/";
    var y := "*" + s + "*/";
    assert x[1..] == y;
    forall i | 0 <= i < |x| - 2 ensures !(x[i] == '*' && x[i + 1] == '/') {
      if i > 0 {
        assert x[i] == y[i - 1] && x[i + 1] == y[i];
      }
    }
    BlockEnds(x, t);
  }

  lemma BriefGone(t: string)
    ensures Minify("/*/" + t) == Minify(t)
  {
    BlockEnds("/*/", t);
  }

  lemma QuoteCloses(t: string)
    ensures CopyLiteral("\"" + t) == Literal("\"", t)
  {
    assert ("\"" + t)[1..] == t;
  }

  lemma {:induction false} BodyCopied(ks: seq<Char>, t: string)
    requires PieceOk(Quoted(ks), t)
    ensures CopyLiteral(Body(ks) + "\"" + t) == Literal(Body(ks) + "\"", t)
    decreases |ks|
  {
    hide CopyLiteral;
    if ks == [] {
      assert Body(ks) + "\"" + t == "\"" + t;
      QuoteCloses(t);
    } else {
      var v := Body(ks[1..]) + "\"" + t;
      BodyCopied(ks[1..], t);
      assert Body(ks) + "\"" + t == CharText(ks[0]) + v;
      match ks[0]
      case One(c) => CopyOne(c, v);
      case Escaped(c) => CopyTwo(c, v);
    }
  }

  /** A literal stays as it is. */
  lemma QuotedStays(ks: seq<Char>, t: string)
    requires PieceOk(Quoted(ks), t)
    ensures Minify(Written(Quoted(ks)) + t) == Prepend(Written(Quoted(ks)), Minify(t))
  {
    hide CopyLiteral, Body;
    var u := Written(Quoted(ks)) + t;
    assert u[1..] == Body(ks) + "\"" + t;
    BodyCopied(ks, t);
    assert "\"" + (Body(ks) + "\"") == Written(Quoted(ks));
  }

  lemma MarkStays(c: char, t: string)
    requires PieceOk(Mark(c), t)
    ensures Minify([c] + t) == Prepend([c], Minify(t))
  {
    assert ([c] + t)[1..] == t;
  }

  lemma PieceMinified(p: Piece, t: string)
    requires PieceOk(p, t)
    ensures Minify(Written(p) + t) == if Stays(p) then Prepend(Written(p), Minify(t)) else Minify(t)
  {
    hide Minify, PieceOk, Body;
    match p
    case Mark(c) => MarkStays(c, t);
    case Quoted(body) => QuotedStays(body, t);
    case Gap(c) =>
      assert IsLayout(c) by { GapIs(c, t); }
      MinifyLayout(c, t);
    case Line(s) => LineGone(s, t);
    case Block(s) => BlockGone(s, t);
    case Brief => BriefGone(t);
  }

  lemma GapIs(c: char, t: string)
    requires PieceOk(Gap(c), t)
    ensures IsLayout(c)
  {
  }

  /** However a text is read as pieces, what minifying leaves is the marks and literals of it. */
  lemma {:induction false} PiecesMinified(ps: seq<Piece>, t: string)
    requires Reads(ps, t)
    ensures Minify(t) == Minified.Text(Kept(ps))
    decreases |ps|
  {
    hide Minify, PieceOk, Written;
    if ps == [] {
      NothingLeft(t);
    } else {
      var w := Written(ps[0]);
      var u := t[|w|..];
      assert t == w + u;
      PieceMinified(ps[0], u);
      PiecesMinified(ps[1..], u);
      assert "" + Kept(ps[1..]) == Kept(ps[1..]);
    }
  }

  lemma NothingLeft(t: string)
    requires At(t) == '\0'
    ensures Minify(t) == Minified.Text("")
  {
  }

  // ---------------------------------------------------------------- every text that is minified is made of pieces

  lemma {:induction false} LineFound(t: string) returns (s: string)
    ensures t == s + LineComment(t) && forall i :: 0 <= i < |s| ==> s[i] != '\n' && s[i] != '\0'
    ensures var c := At(LineComment(t)); c == '\n' || c == '\0'
    decreases |t|
  {
    if At(t) == '\0' || t[0] == '\n' {
      s := "";
    } else {
      var r := LineFound(t[1..]);
      s := [t[0]] + r;
    }
  }

  lemma {:induction false} BlockFound(t: string) returns (x: string)
    requires BlockComment(t).Rest?
    ensures t == x + BlockComment(t).t && |x| >= 2 && x[|x| - 2] == '*' && x[|x| - 1] == '/'
    ensures forall i :: 0 <= i < |x| ==> x[i] != '\0'
    ensures forall i :: 0 <= i < |x| - 2 ==> !(x[i] == '*' && x[i + 1] == '/')
    decreases |t|
  {
    if t[0] == '*' && |t| >= 2 && t[1] == '/' {
      x := t[..2];
    } else {
      var y := BlockFound(t[1..]);
      x := [t[0]] + y;
      assert t[1] == y[0];
    }
  }

  /** How a closed literal begins. */
  lemma BodyStart(t: string)
    requires CopyLiteral(t).Literal?
    ensures t != "" && t[0] != '\0'
    ensures t[0] == '"' ==> CopyLiteral(t).rest == t[1..]
    ensures t[0] != '"' && t[0] != '\\' ==>
              CopyLiteral(t[1..]).Literal? && CopyLiteral(t).rest == CopyLiteral(t[1..]).rest
    ensures t[0] == '\\' ==>
              |t| >= 2 && t[1] != '\0' && CopyLiteral(t[2..]).Literal?
              && CopyLiteral(t).rest == CopyLiteral(t[2..]).rest
  {
  }

  lemma BodyCons(k: Char, ks: seq<Char>)
    ensures Body([k] + ks) == CharText(k) + Body(ks)
  {
    assert ([k] + ks)[1..] == ks;
  }

  lemma {:induction false} BodyFound(t: string) returns (ks: seq<Char>)
    requires CopyLiteral(t).Literal?
    ensures PieceOk(Quoted(ks), CopyLiteral(t).rest) && t == Body(ks) + "\"" + CopyLiteral(t).rest
    decreases |t|
  {
    hide CopyLiteral, Body;
    BodyStart(t);
    if t[0] == '"' {
      ks := [];
      assert Body(ks) == "" by { NoBody(); }
    } else if t[0] != '\\' {
      var r := BodyFound(t[1..]);
      ks := [One(t[0])] + r;
      BodyCons(One(t[0]), r);
    } else {
      var r := BodyFound(t[2..]);
      ks := [Escaped(t[1])] + r;
      BodyCons(Escaped(t[1]), r);
    }
  }

  lemma NoBody()
    ensures Body([]) == ""
  {
  }

  /** The first piece of a text. */
  lemma FirstPiece(t: string) returns (p: Piece)
    requires Minify(t).Text? && At(t) != '\0'
    ensures Written(p) <= t && 0 < |Written(p)| && PieceOk(p, t[|Written(p)|..])
    ensures Minify(t[|Written(p)|..]).Text?
  {
    hide CopyLiteral, BlockComment, LineComment;
    var d := At(t[1..]);
    if IsLayout(t[0]) {
      p := Gap(t[0]);
    } else if t[0] == '/' && d == '/' {
      var s := LineFound(t[2..]);
      p := Line(s);
      assert t == Written(p) + LineComment(t[2..]);
    } else if t[0] == '/' && d == '*' {
      var x := BlockFound(t);
      p := BlockOf(x, BlockComment(t).t);
      assert t == Written(p) + BlockComment(t).t;
    } else if t[0] == '"' {
      var ks := BodyFound(t[1..]);
      p := Quoted(ks);
      assert t == Written(p) + CopyLiteral(t[1..]).rest;
    } else {
      p := Mark(t[0]);
    }
  }

  lemma BlockOf(x: string, t: string) returns (p: Piece)
    requires |x| >= 3 && x[0] == '/' && x[1] == '*' && x[|x| - 2] == '*' && x[|x| - 1] == '/'
    requires forall i :: 0 <= i < |x| ==> x[i] != '\0'
    requires forall i :: 0 <= i < |x| - 2 ==> !(x[i] == '*' && x[i + 1] == '/')
    ensures x == Written(p) && PieceOk(p, t) && !Stays(p)
  {
    if |x| == 3 {
      p := Brief;
    } else {
      var s := x[2..|x| - 2];
      var y := "*" + s + "*/";
      assert x[1..] == y;
      forall i | 0 <= i <= |s| ensures !(y[i] == '*' && y[i + 1] == '/') {
        assert y[i] == x[i + 1] && y[i + 1] == x[i + 2];
      }
      p := Block(s);
    }
  }

  /** Every text that is minified is a row of pieces. */
  lemma {:induction false} PiecesFound(t: string) returns (ps: seq<Piece>)
    requires Minify(t).Text?
    ensures Reads(ps, t)
    decreases |t|
  {
    hide Minify, PieceOk, Written;
    if At(t) == '\0' {
      ps := [];
    } else {
      var p := FirstPiece(t);
      var rest := PiecesFound(t[|Written(p)|..]);
      ps := [p] + rest;
      assert ps[1..] == rest;
    }
  }

  /** Minifying leaves s exactly when the text can be read as pieces of which s is what stays. */
  lemma MinifyKeeps(t: string, s: string)
    ensures Minify(t) == Minified.Text(s) <==> exists ps :: Reads(ps, t) && Kept(ps) == s
  {
    hide Minify, Reads, Kept;
    if Minify(t).Text? {
      var ps := PiecesFound(t);
      PiecesMinified(ps, t);
    }
    forall ps | Reads(ps, t) ensures Minify(t) == Minified.Text(Kept(ps)) {
      PiecesMinified(ps, t);
    }
  }
}
