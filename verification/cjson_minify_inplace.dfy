/** cJSON_Minify over the buffer that holds the text: one cursor reads, one writes behind it. */
module CJsonMinifyInPlace {
  import opened CJsonText
  import opened CJsonRoundTrip
  import opened CJsonMinify
  import Pieces = CJsonMinifyPieces

  /** The C string at the front of a buffer. */
  function CString(s: seq<char>): (t: string)
    ensures |t| <= |s| && t == s[..|t|] && NulFree(t)
    ensures '\0' in s ==> |t| < |s| && s[|t|] == '\0'
  {
    if s == [] || s[0] == '\0' then "" else [s[0]] + CString(s[1..])
  }

  lemma {:induction false} CStringOf(t: string, s: seq<char>)
    requires NulFree(t) && s != [] && s[0] == '\0'
    ensures CString(t + s) == t
    decreases |t|
  {
    if t == "" {
      assert t + s == s;
    } else {
      assert t + s == [t[0]] + (t[1..] + s);
      CStringOf(t[1..], s);
    }
  }

  /** A buffer that held this text and its terminator, rewritten up to w. */
  ghost predicate Rewritten(json: seq<char>, text: string, was: seq<char>, w: nat) {
    && w <= |text| < |was| == |json|
    && text == was[..|text|] && was[|text|] == '\0' && NulFree(text)
    && json[w..] == was[w..]
  }

  lemma ReadAt(json: seq<char>, text: string, was: seq<char>, w: nat, r: nat)
    requires Rewritten(json, text, was, w) && w <= r <= |text|
    ensures NulFree(text) && |text| < |json| && json[r] == At(text[r..]) && (json[r] == '\0' <==> r == |text|)
    ensures r < |text| ==> json[r] == text[r] && json[r + 1] == At(text[r + 1..])
  {
    assert json[w..][r - w] == was[w..][r - w];
    if r < |text| {
      assert json[w..][r + 1 - w] == was[w..][r + 1 - w];
    }
  }

  /** One character copied from the read cursor to the write cursor. */
  method CopyChar(json: array<char>, w: nat, r: nat, ghost text: string, ghost was: seq<char>)
    requires w <= r < |text| && Rewritten(json[..], text, was, w)
    modifies json
    ensures Rewritten(json[..], text, was, w + 1) && json[..w + 1] == old(json[..w]) + [text[r]]
  {
    ReadAt(json[..], text, was, w, r);
    ghost var before := json[..];
    json[w] := json[r];
    assert json[..][w + 1..] == before[w..][1..] == was[w..][1..] == was[w + 1..];
  }

  /** What a literal's loop has done after it went from r0 to r. */
  ghost predicate Inside(text: string, r0: nat, r: nat) {
    r0 <= r <= |text| && CopyLiteral(text[r0..]) == CopyOn(text[r0..], r - r0, CopyLiteral(text[r..]))
  }

  lemma InsideStart(text: string, r0: nat)
    requires r0 <= |text|
    ensures Inside(text, r0, r0)
  {
    hide CopyLiteral;
    var l := CopyLiteral(text[r0..]);
    if l.Literal? {
      assert text[r0..][..0] + l.text == l.text;
    }
  }

  lemma InsideStep(text: string, r0: nat, r: nat, k: nat)
    requires Inside(text, r0, r) && r + k <= |text|
    requires CopyLiteral(text[r..]) == CopyOn(text[r..], k, CopyLiteral(text[r + k..]))
    ensures Inside(text, r0, r + k)
  {
    hide CopyLiteral;
    var l := CopyLiteral(text[r + k..]);
    if l.Literal? {
      assert text[r0..][..r + k - r0] + l.text == text[r0..][..r - r0] + (text[r..][..k] + l.text);
    }
  }

  lemma CopyStep(text: string, r: nat)
    requires r < |text| && NulFree(text)
    ensures text[r] != '"' && text[r] != '\\' ==>
              CopyLiteral(text[r..]) == CopyOn(text[r..], 1, CopyLiteral(text[r + 1..]))
    ensures text[r] == '\\' && r + 1 < |text| ==>
              CopyLiteral(text[r..]) == CopyOn(text[r..], 2, CopyLiteral(text[r + 2..]))
    ensures text[r] == '\\' && r + 1 == |text| ==> CopyLiteral(text[r..]) == Open
    ensures text[r] == '"' ==> CopyLiteral(text[r..]) == Literal("\"", text[r + 1..])
  {
    var t := text[r..];
    assert t[1..] == text[r + 1..] && (|t| >= 2 ==> t[2..] == text[r + 2..]);
  }

  lemma InsideEnd(text: string, r0: nat, r: nat)
    requires Inside(text, r0, r) && NulFree(text)
    requires r == |text| || text[r] == '"' || (text[r] == '\\' && r + 1 == |text|)
    ensures CopyLiteral(text[r0..]) ==
            if r < |text| && text[r] == '"' then Literal(text[r0..r] + "\"", text[r + 1..]) else Open
  {
    if r == |text| {
      assert CopyLiteral(text[r..]) == Open;
    } else {
      CopyStep(text, r);
      assert text[r0..][..r - r0] == text[r0..r];
    }
  }

  lemma Joined(front: string, text: string, r0: nat, r: nat, k: nat)
    requires r0 <= r <= r + k <= |text|
    ensures front + text[r0..r] + text[r..r + k] == front + text[r0..r + k]
  {
    assert text[r0..r] + text[r..r + k] == text[r0..r + k];
  }

  /** One character of a literal, or a backslash and the character behind it. */
  method CopyUnit(json: array<char>, w: nat, r: nat, ghost text: string, ghost was: seq<char>)
    returns (k: nat)
    requires w <= r < |text| < json.Length && Rewritten(json[..], text, was, w)
    requires text[r] != '"' && (text[r] == '\\' ==> r + 1 < |text|)
    modifies json
    ensures 1 <= k <= |text| - r && Rewritten(json[..], text, was, w + k)
    ensures json[..w + k] == old(json[..w]) + text[r..r + k]
    ensures CopyLiteral(text[r..]) == CopyOn(text[r..], k, CopyLiteral(text[r + k..]))
  {
    hide CopyLiteral, NulFree, Rewritten;
    ReadAt(json[..], text, was, w, r);
    CopyStep(text, r);
    k := 0;
    if json[r] == '\\' {
      CopyChar(json, w, r, text, was);
      k := 1;
    }
    CopyChar(json, w + k, r + k, text, was);
    k := k + 1;
  }

  /** The loop over a literal went from r0 to r and wrote what it read behind front, up to w. */
  ghost predicate Copying(json: seq<char>, text: string, was: seq<char>, front: string, w: nat, r0: nat, r: nat) {
    && w <= r <= |text| < |json| && r0 <= r && Rewritten(json, text, was, w)
    && json[..w] == front + text[r0..r] && Inside(text, r0, r)
  }

  method CopyMore(json: array<char>, w: nat, r0: nat, r: nat, ghost text: string, ghost was: seq<char>,
                  ghost front: string)
    returns (k: nat)
    requires r < |text| && Copying(json[..], text, was, front, w, r0, r)
    requires text[r] != '"' && (text[r] == '\\' ==> r + 1 < |text|)
    modifies json
    ensures 1 <= k <= |text| - r && Copying(json[..], text, was, front, w + k, r0, r + k)
  {
    hide CopyLiteral, CopyOn, Inside, Rewritten, NulFree;
    k := CopyUnit(json, w, r, text, was);
    InsideStep(text, r0, r, k);
    Joined(front, text, r0, r, k);
  }

  lemma CopyingAt(json: seq<char>, text: string, was: seq<char>, front: string, w: nat, r0: nat, r: nat)
    requires Copying(json, text, was, front, w, r0, r)
    ensures NulFree(text) && w <= r <= |text| < |json| && json[r] == At(text[r..])
    ensures r < |text| ==> json[r] == text[r] != '\0' && json[r + 1] == At(text[r + 1..])
    ensures r + 1 < |text| ==> json[r + 1] != '\0'
  {
    ReadAt(json, text, was, w, r);
  }

  /** The loop over a literal, from behind its opening quote. It is false, and stops, where the C code
      would copy the terminator and go on behind it. */
  method CopyString(json: array<char>, w0: nat, r0: nat, ghost text: string, ghost was: seq<char>)
    returns (w: nat, r: nat, ok: bool)
    requires w0 <= r0 <= |text| && Rewritten(json[..], text, was, w0)
    modifies json
    ensures ok == CopyLiteral(text[r0..]).Literal?
    ensures ok ==> w <= r <= |text| && r0 < r && Rewritten(json[..], text, was, w)
    ensures ok ==> var l := CopyLiteral(text[r0..]);
              json[..w] == old(json[..w0]) + l.text && text[r..] == l.rest
  {
    hide CopyLiteral, CopyOn, Inside, Rewritten, NulFree, Copying;
    w, r := w0, r0;
    ReadAt(json[..], text, was, w0, r0);
    ghost var front := json[..w0];
    CopyStart(json[..], text, was, w0, r0);
    CopyingAt(json[..], text, was, front, w, r0, r);
    while json[r] != '\0' && json[r] != '"' && !(json[r] == '\\' && json[r + 1] == '\0')
      invariant w <= r <= |text| < json.Length && Copying(json[..], text, was, front, w, r0, r)
      invariant json[r] == '\0' <==> r == |text|
      decreases |text| - r
    {
      CopyingAt(json[..], text, was, front, w, r0, r);
      var k := CopyMore(json, w, r0, r, text, was, front);
      w, r := w + k, r + k;
      CopyingAt(json[..], text, was, front, w, r0, r);
    }
    CopyingAt(json[..], text, was, front, w, r0, r);
    ok := json[r] == '"';
    w, r := CloseString(json, w, r0, r, text, was, front);
  }

  /** The end of the loop over a literal: the closing quote is copied, when there is one. */
  method CloseString(json: array<char>, w0: nat, r0: nat, r1: nat, ghost text: string, ghost was: seq<char>,
                     ghost front: string)
    returns (w: nat, r: nat)
    requires Copying(json[..], text, was, front, w0, r0, r1) && w0 <= r1 <= |text| < json.Length
    requires r1 == |text| || text[r1] == '"' || (text[r1] == '\\' && r1 + 1 == |text|)
    requires json[r1] == At(text[r1..])
    modifies json
    ensures CopyLiteral(text[r0..]).Literal? <==> r1 < |text| && text[r1] == '"'
    ensures r1 < |text| && text[r1] == '"' ==>
              var l := CopyLiteral(text[r0..]);
              && w <= r <= |text| && r0 < r && Rewritten(json[..], text, was, w)
              && json[..w] == front + l.text && text[r..] == l.rest
  {
    hide CopyLiteral, CopyOn, Inside, Rewritten, NulFree, Copying;
    w, r := w0, r1;
    CopyingEnd(json[..], text, was, front, w, r0, r);
    if json[r] == '"' {
      CopyChar(json, w, r, text, was);
      w, r := w + 1, r + 1;
    }
  }

  lemma CopyStart(json: seq<char>, text: string, was: seq<char>, w: nat, r: nat)
    requires w <= r <= |text| < |json| && Rewritten(json, text, was, w)
    ensures Copying(json, text, was, json[..w], w, r, r)
  {
    InsideStart(text, r);
    assert json[..w] + text[r..r] == json[..w];
  }

  lemma CopyingEnd(json: seq<char>, text: string, was: seq<char>, front: string, w: nat, r0: nat, r: nat)
    requires Copying(json, text, was, front, w, r0, r)
    requires r == |text| || text[r] == '"' || (text[r] == '\\' && r + 1 == |text|)
    ensures Rewritten(json, text, was, w) && r0 <= r && json[..w] == front + text[r0..r]
    ensures CopyLiteral(text[r0..]) ==
            if r < |text| && text[r] == '"' then Literal(text[r0..r] + "\"", text[r + 1..]) else Open
  {
    InsideEnd(text, r0, r);
  }

  /** The loop over a line comment. */
  method SkipLine(json: array<char>, w: nat, r0: nat, ghost text: string, ghost was: seq<char>)
    returns (r: nat)
    requires w <= r0 <= |text| && Rewritten(json[..], text, was, w)
    ensures r0 <= r <= |text| && LineComment(text[r0..]) == text[r..]
  {
    hide Rewritten, NulFree;
    r := r0;
    ReadAt(json[..], text, was, w, r);
    while json[r] != '\0' && json[r] != '\n'
      invariant r0 <= r <= |text| < json.Length && json[r] == At(text[r..])
      invariant json[r] == '\0' <==> r == |text|
      invariant LineComment(text[r0..]) == LineComment(text[r..])
      decreases |text| - r
    {
      assert text[r..][1..] == text[r + 1..];
      r := r + 1;
      ReadAt(json[..], text, was, w, r);
    }
  }

  /** The loop over a block comment; false where the C code goes on behind the terminator. */
  method SkipBlock(json: array<char>, w: nat, r0: nat, ghost text: string, ghost was: seq<char>)
    returns (r: nat, ok: bool)
    requires w <= r0 <= |text| && Rewritten(json[..], text, was, w)
    ensures ok == BlockComment(text[r0..]).Rest?
    ensures ok ==> r0 < r <= |text| && BlockComment(text[r0..]) == Rest(text[r..])
  {
    hide Rewritten, NulFree;
    r := r0;
    ReadAt(json[..], text, was, w, r);
    while json[r] != '\0' && !(json[r] == '*' && json[r + 1] == '/')
      invariant r0 <= r <= |text| < json.Length && json[r] == At(text[r..])
      invariant json[r] == '\0' <==> r == |text|
      invariant r < |text| ==> json[r] == text[r] && json[r + 1] == At(text[r + 1..])
      invariant BlockComment(text[r0..]) == BlockComment(text[r..])
      decreases |text| - r
    {
      assert text[r..][1..] == text[r + 1..];
      r := r + 1;
      ReadAt(json[..], text, was, w, r);
    }
    ok := json[r] != '\0';
    if ok {
      assert text[r..][1..] == text[r + 1..] && (r + 1 < |text| ==> text[r..][2..] == text[r + 2..]);
      BlockEnd(text, r);
      r := r + 2;
    }
  }

  lemma BlockEnd(text: string, r: nat)
    requires r < |text| && NulFree(text) && text[r] == '*' && At(text[r + 1..]) == '/'
    ensures r + 2 <= |text| && BlockComment(text[r..]) == Rest(text[r + 2..])
  {
    assert text[r..][2..] == text[r + 2..];
  }

  /** What the main loop has done: it wrote out, and stands at r. */
  ghost predicate Done(text: string, out: string, r: nat) {
    r <= |text| && Minify(text) == Prepend(out, Minify(text[r..]))
  }

  lemma DoneStep(text: string, out: string, r: nat, p: string, q: nat)
    requires Done(text, out, r) && r <= q <= |text| && Minify(text[r..]) == Prepend(p, Minify(text[q..]))
    ensures Done(text, out + p, q)
  {
    hide Minify;
    PrependTwice(out, p, Minify(text[q..]));
  }

  lemma DoneSkip(text: string, out: string, r: nat, q: nat)
    requires Done(text, out, r) && r <= q <= |text| && Minify(text[r..]) == Minify(text[q..])
    ensures Done(text, out, q)
  {
  }

  lemma DoneStart(text: string)
    ensures Done(text, "", 0)
  {
    hide Minify;
    assert text[0..] == text;
    if Minify(text).Text? {
      assert "" + Minify(text).s == Minify(text).s;
    }
  }

  lemma DoneEnd(text: string, out: string)
    requires Done(text, out, |text|)
    ensures Minify(text) == Text(out)
  {
    assert text[|text|..] == "" && Minify("") == Text("") && out + "" == out;
  }

  /** The next character decides what the loop does. */
  lemma MinifyAt(text: string, r: nat)
    requires r < |text| && NulFree(text)
    ensures var c, d := text[r], At(text[r + 1..]);
            if IsLayout(c) then Minify(text[r..]) == Minify(text[r + 1..])
            else if c == '/' && d == '/' then Minify(text[r..]) == Minify(LineComment(text[r..]))
            else if c == '/' && d == '*' then
              Minify(text[r..]) == match BlockComment(text[r..]) case Rest(u) => Minify(u) case NoEnd => Overrun
            else if c == '"' then
              Minify(text[r..]) == match CopyLiteral(text[r + 1..])
                                   case Literal(l, u) => Prepend("\"" + l, Minify(u)) case Open => Overrun
            else Minify(text[r..]) == Prepend([c], Minify(text[r + 1..]))
  {
    hide CopyLiteral, BlockComment;
    var t := text[r..];
    assert t[1..] == text[r + 1..];
    if text[r] == '/' && |t| >= 2 && t[1] == '/' {
      assert t[1..][1..] == t[2..];
    }
  }

  lemma Stuck(text: string, out: string, r: nat)
    requires Done(text, out, r) && Minify(text[r..]) == Overrun
    ensures Minify(text) == Overrun
  {
  }

  /** One round of the main loop. */
  method Step(json: array<char>, w0: nat, r0: nat, ghost text: string, ghost was: seq<char>)
    returns (w: nat, r: nat, ok: bool)
    requires w0 <= r0 < |text| < json.Length && Rewritten(json[..], text, was, w0)
    requires Done(text, json[..w0], r0)
    modifies json
    ensures if ok then w <= r <= |text| && r0 < r && Rewritten(json[..], text, was, w) && Done(text, json[..w], r)
            else Minify(text) == Overrun
  {
    hide Minify, Done, Rewritten, NulFree, CopyLiteral, BlockComment, LineComment;
    w, r, ok := w0, r0, true;
    ReadAt(json[..], text, was, w0, r0);
    MinifyAt(text, r0);
    if json[r] == ' ' || json[r] == '\t' || json[r] == '\r' || json[r] == '\n' {
      r := r + 1;
      DoneSkip(text, json[..w], r0, r);
    } else if json[r] == '/' && json[r + 1] == '/' {
      r := SkipLine(json, w, r, text, was);
      SlashLine(text, r0);
      DoneSkip(text, json[..w], r0, r);
    } else if json[r] == '/' && json[r + 1] == '*' {
      r, ok := SkipBlock(json, w, r, text, was);
      if ok {
        DoneSkip(text, json[..w], r0, r);
      } else {
        Stuck(text, json[..w], r0);
      }
    } else if json[r] == '"' {
      w, r, ok := StepLiteral(json, w, r, text, was);
    } else {
      CopyChar(json, w, r, text, was);
      w, r := w + 1, r + 1;
      DoneStep(text, old(json[..w0]), r0, [text[r0]], r);
    }
  }

  lemma SlashLine(text: string, r: nat)
    requires r + 1 < |text| && text[r] == '/' && text[r + 1] == '/'
    ensures |LineComment(text[r..])| < |text[r..]|
  {
    assert text[r..][1..] == text[r + 1..];
  }

  method StepLiteral(json: array<char>, w0: nat, r0: nat, ghost text: string, ghost was: seq<char>)
    returns (w: nat, r: nat, ok: bool)
    requires w0 <= r0 < |text| < json.Length && Rewritten(json[..], text, was, w0)
    requires Done(text, json[..w0], r0) && text[r0] == '"'
    modifies json
    ensures if ok then w <= r <= |text| && r0 < r && Rewritten(json[..], text, was, w) && Done(text, json[..w], r)
            else Minify(text) == Overrun
  {
    hide Minify, Done, Rewritten, NulFree, CopyLiteral;
    ReadAt(json[..], text, was, w0, r0);
    MinifyAt(text, r0);
    ghost var out := json[..w0];
    CopyChar(json, w0, r0, text, was);
    w, r, ok := CopyString(json, w0 + 1, r0 + 1, text, was);
    if ok {
      ghost var l := CopyLiteral(text[r0 + 1..]).text;
      assert json[..w] == out + ("\"" + l);
      DoneStep(text, out, r0, "\"" + l, r);
    } else {
      Stuck(text, out, r0);
    }
  }

  lemma Started(was: seq<char>)
    requires '\0' in was
    ensures Rewritten(was, CString(was), was, 0)
  {
  }

  lemma Ended(json: seq<char>, text: string, was: seq<char>, w: nat)
    requires Rewritten(json, text, was, w)
    ensures w < |json| && json[w := '\0'] == json[..w] + ['\0'] + was[w + 1..]
  {
    assert json[w + 1..] == json[w..][1..] == was[w..][1..] == was[w + 1..];
  }

  /** The buffer holds s, its terminator, and what it held behind that. */
  ghost predicate Left(json: seq<char>, s: string, was: seq<char>) {
    |s| < |was| == |json| && json == s + ['\0'] + was[|s| + 1..]
  }

  /** The main loop, and the terminator behind what it wrote. */
  method MinifyLoop(json: array<char>) returns (ok: bool)
    requires '\0' in json[..]
    modifies json
    ensures var m := Minify(CString(old(json[..])));
            ok == m.Text? && (ok ==> Left(json[..], m.s, old(json[..])))
  {
    ghost var was := json[..];
    ghost var text := CString(was);
    hide Minify, Done, Rewritten, CString, NulFree, CopyLiteral, BlockComment, LineComment;
    var w: nat, r: nat := 0, 0;
    Started(was);
    DoneStart(text);
    ReadAt(json[..], text, was, w, r);
    while json[r] != '\0'
      invariant w <= r <= |text| < json.Length && Rewritten(json[..], text, was, w)
      invariant NulFree(text) && (json[r] == '\0' <==> r == |text|)
      invariant Done(text, json[..w], r)
      decreases |text| - r
    {
      w, r, ok := Step(json, w, r, text, was);
      if !ok {
        return;
      }
      ReadAt(json[..], text, was, w, r);
    }
    DoneEnd(text, json[..w]);
    Ended(json[..], text, was, w);
    json[w] := '\0';
    ok := true;
  }

  lemma InPieces(text: string)
    ensures Minify(text).Text? <==> exists ps :: Pieces.Reads(ps, text)
    ensures forall ps :: Pieces.Reads(ps, text) ==> Minify(text) == Minified.Text(Pieces.Kept(ps))
  {
    hide Minify, Pieces.Reads, Pieces.Kept;
    forall ps | Pieces.Reads(ps, text) ensures Minify(text) == Minified.Text(Pieces.Kept(ps)) {
      Pieces.PiecesMinified(ps, text);
    }
    if Minify(text).Text? {
      var ps := Pieces.PiecesFound(text);
    }
  }

  /** cJSON_Minify. On a text whose comments and literals are closed it leaves the text's marks and literals without
      its layout and comments, and a terminator, and touches nothing behind that. ok is false where the C code would
      leave the text. */
  method MinifyInPlace(json: array<char>) returns (ok: bool)
    requires '\0' in json[..]
    modifies json
    ensures ok <==> exists ps :: Pieces.Reads(ps, CString(old(json[..])))
    ensures forall ps :: Pieces.Reads(ps, CString(old(json[..]))) ==> Left(json[..], Pieces.Kept(ps), old(json[..]))
    ensures var m := Minify(CString(old(json[..])));
            ok == m.Text? && (ok ==> Left(json[..], m.s, old(json[..])))
  {
    hide Minify, CString, Pieces.Reads, Pieces.Kept;
    InPieces(CString(json[..]));
    ok := MinifyLoop(json);
  }
}
