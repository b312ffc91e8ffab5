/** How far the lines of a printed value are indented, and where the text ends. */
module JsonIndent {
  import opened Outcomes
  import opened Json
  import opened JsonText
  import opened JsonPretty

  /**
   * A scan over lines: where it is in a string, how many brackets are open, and how many spaces the line has so far,
   * -1 after the first other character.
   */
  datatype Line = Line(mode: Mode, depth: int, column: int)

  /** None at a line whose first other character does not come after four spaces for each open bracket. */
  function AfterChar(l: Line, c: char): Option<Line> {
    if l.mode != Outside then Some(l.(mode := Next(l.mode, c)))
    else if c == '\n' then Some(l.(column := 0))
    else if c == ' ' then Some(if l.column >= 0 then l.(column := l.column + 1) else l)
    else if IsSpace(c) then None
    else
      var d := if c == '}' || c == ']' then l.depth - 1 else l.depth;
      if l.column >= 0 && l.column != 4 * d then None
      else Some(Line(Next(l.mode, c), if c == '{' || c == '[' then d + 1 else d, -1))
  }

  function AfterText(l: Line, s: string): Option<Line>
    decreases s
  {
    if s == "" then Some(l)
    else
      var next := AfterChar(l, s[0]);
      if next.None? then None else AfterText(next.value, s[1..])
  }

  function AfterPieces(l: Line, ps: seq<Piece>): Option<Line>
    decreases ps
  {
    if ps == [] then Some(l)
    else
      var next := AfterText(l, PieceText(ps[0]));
      if next.None? then None else AfterPieces(next.value, ps[1..])
  }

  lemma {:induction false} AfterConcat(l: Line, s: string, t: string)
    ensures AfterText(l, s + t) ==
            if AfterText(l, s).None? then None else AfterText(AfterText(l, s).value, t)
    decreases s
  {
    hide AfterChar;
    if s == "" {
      assert s + t == t;
    } else {
      assert (s + t)[1..] == s[1..] + t;
      var next := AfterChar(l, s[0]);
      if next.Some? {
        AfterConcat(next.value, s[1..], t);
      }
    }
  }

  lemma {:induction false} AfterRender(l: Line, ps: seq<Piece>)
    ensures AfterText(l, Render(ps)) == AfterPieces(l, ps)
    decreases ps
  {
    hide AfterText, PieceText;
    if ps == [] {
      assert AfterText(l, "") == Some(l) by { AfterNothing(l); }
    } else {
      AfterConcat(l, PieceText(ps[0]), Render(ps[1..]));
      var next := AfterText(l, PieceText(ps[0]));
      if next.Some? {
        AfterRender(next.value, ps[1..]);
      }
    }
  }

  lemma AfterNothing(l: Line)
    ensures AfterText(l, "") == Some(l) && AfterPieces(l, []) == Some(l)
  {
  }

  lemma {:induction false} AfterParts(l: Line, a: seq<Piece>, b: seq<Piece>)
    ensures AfterPieces(l, a + b) ==
            if AfterPieces(l, a).None? then None else AfterPieces(AfterPieces(l, a).value, b)
    decreases a
  {
    hide AfterText, PieceText;
    if a == [] {
      assert a + b == b;
    } else {
      assert (a + b)[1..] == a[1..] + b && (a + b)[0] == a[0];
      var next := AfterText(l, PieceText(a[0]));
      if next.Some? {
        AfterParts(next.value, a[1..], b);
      }
    }
  }

  // ----- pieces -----

  /** The indent at a depth. */
  function Indent(d: nat): (s: string)
    ensures |s| == 4 * d && forall c <- s :: c == ' '
  {
    if d == 0 then "" else Indent(d - 1) + STEP
  }

  lemma {:induction false} AfterSpaces(l: Line, s: string)
    requires l.mode == Outside && l.column >= 0 && forall c <- s :: c == ' '
    ensures AfterText(l, s) == Some(l.(column := l.column + |s|))
    decreases s
  {
    if s != "" {
      assert s[0] in s && forall c <- s[1..] :: c in s;
      AfterSpaces(l.(column := l.column + 1), s[1..]);
    }
  }

  predicate IsQuiet(c: char) {
    IsPlain(c) && c != '{' && c != '}' && c != '[' && c != ']'
  }

  lemma {:induction false} AfterQuiet(l: Line, s: string)
    requires l.mode == Outside && l.column == -1 && forall c <- s :: IsQuiet(c)
    ensures AfterText(l, s) == Some(l)
    decreases s
  {
    if s != "" {
      assert s[0] in s;
      AfterQuiet(l, s[1..]);
    }
  }

  lemma {:induction false} AfterInside(l: Line, s: string)
    requires l.mode != Outside && StaysInside(s, l.mode)
    ensures AfterText(l, s) == Some(l.(mode := InString))
    decreases s
  {
    if s != "" {
      AfterInside(l.(mode := Next(l.mode, s[0])), s[1..]);
    }
  }

  /** A token may follow other text of its line, or stand at the indent of its depth. */
  predicate MayStart(l: Line, d: int) {
    l.mode == Outside && (l.column == -1 || l.column == 4 * d)
  }

  predicate IsBracket(t: Token) {
    t.LeftBrace? || t.RightBrace? || t.LeftBracket? || t.RightBracket?
  }

  lemma QuietToken(t: Token)
    requires IsToken(t) && !IsBracket(t) && !t.StringToken?
    ensures TokenText(t) != "" && forall c <- TokenText(t) :: IsQuiet(c)
  {
  }

  lemma AfterToken(l: Line, t: Token)
    requires IsToken(t) && !IsBracket(t) && MayStart(l, l.depth)
    ensures AfterText(l, TokenText(t)) == Some(l.(column := -1))
  {
    hide IsQuiet, IsBody, IsNumber;
    if t.StringToken? {
      AfterString(l, t.body);
    } else {
      QuietToken(t);
      var s := TokenText(t);
      assert s[0] in s;
      assert AfterChar(l, s[0]) == Some(l.(column := -1)) by { AfterFirstQuiet(l, s[0]); }
      AfterQuiet(l.(column := -1), s[1..]);
    }
  }

  lemma AfterFirstQuiet(l: Line, c: char)
    requires IsQuiet(c) && MayStart(l, l.depth)
    ensures AfterChar(l, c) == Some(l.(column := -1))
  {
  }

  lemma AfterString(l: Line, body: string)
    requires IsBody(body) && MayStart(l, l.depth)
    ensures AfterText(l, ['"'] + body + ['"']) == Some(l.(column := -1))
  {
    hide StaysInside, IsBody;
    var inside := Line(InString, l.depth, -1);
    assert AfterText(l, ['"']) == Some(inside) by { assert ['"'][1..] == ""; }
    assert AfterText(inside, body) == Some(inside) by { BodyStaysInside(body); AfterInside(inside, body); }
    assert AfterText(inside, ['"']) == Some(l.(column := -1)) by { assert ['"'][1..] == ""; }
    AfterConcat(l, ['"'], body);
    AfterConcat(l, ['"'] + body, ['"']);
  }

  lemma BodyStaysInside(body: string)
    requires IsBody(body)
    ensures StaysInside(body, InString)
  {
  }

  lemma AfterOneChar(l: Line, c: char)
    ensures AfterText(l, [c]) == AfterChar(l, c)
  {
    hide AfterChar;
    assert [c][1..] == "";
  }

  /** Pieces one after the other. */
  lemma AfterTwo(l: Line, a: Piece, b: Piece)
    ensures AfterPieces(l, [a]) == AfterText(l, PieceText(a))
    ensures AfterPieces(l, [a, b]) ==
            if AfterText(l, PieceText(a)).None? then None
            else AfterText(AfterText(l, PieceText(a)).value, PieceText(b))
  {
    hide AfterText, PieceText;
    assert [a][1..] == [] && [a, b][1..] == [b];
    AfterOne(l, a);
    var next := AfterText(l, PieceText(a));
    if next.Some? {
      AfterOne(next.value, b);
    }
  }

  lemma AfterOne(l: Line, a: Piece)
    ensures AfterPieces(l, [a]) == AfterText(l, PieceText(a))
  {
    hide AfterText, PieceText;
    assert [a][1..] == [];
    var next := AfterText(l, PieceText(a));
    if next.Some? {
      AfterNothing(next.value);
    }
  }

  lemma AfterOpen(l: Line, t: Token)
    requires (t.LeftBrace? || t.LeftBracket?) && MayStart(l, l.depth)
    ensures AfterPieces(l, [Tok(t), Space("\n")]) == Some(Line(Outside, l.depth + 1, 0))
  {
    hide AfterText, AfterPieces;
    AfterTwo(l, Tok(t), Space("\n"));
    AfterOneChar(l, TokenText(t)[0]);
    assert TokenText(t) == [TokenText(t)[0]];
    AfterOneChar(Line(Outside, l.depth + 1, -1), '\n');
  }

  lemma AfterClose(l: Line, t: Token, d: nat)
    requires (t.RightBrace? || t.RightBracket?) && l.mode == Outside && l.depth == d + 1
    ensures AfterPieces(l, [Space("\n"), Space(Indent(d)), Tok(t)]) == Some(Line(Outside, d, -1))
  {
    hide AfterText, AfterPieces, Indent;
    var at := Line(Outside, d + 1, 4 * d);
    assert AfterPieces(l, [Space("\n"), Space(Indent(d))]) == Some(at) by {
      AfterTwo(l, Space("\n"), Space(Indent(d)));
      AfterOneChar(l, '\n');
      AfterSpaces(Line(Outside, d + 1, 0), Indent(d));
    }
    AfterParts(l, [Space("\n"), Space(Indent(d))], [Tok(t)]);
    AfterTwo(at, Tok(t), Space(""));
    AfterOneChar(at, TokenText(t)[0]);
    assert TokenText(t) == [TokenText(t)[0]];
    assert [Space("\n"), Space(Indent(d))] + [Tok(t)] == [Space("\n"), Space(Indent(d)), Tok(t)];
  }

  lemma AfterComma(d: nat)
    ensures AfterPieces(Line(Outside, d, -1), [Tok(Comma), Space("\n")]) == Some(Line(Outside, d, 0))
    ensures AfterPieces(Line(Outside, d, -1), [Tok(Comma), Space("\n"), Space(Indent(d))])
            == Some(Line(Outside, d, 4 * d))
    ensures AfterPieces(Line(Outside, d, 0), [Space(Indent(d))]) == Some(Line(Outside, d, 4 * d))
  {
    hide AfterText, AfterPieces, Indent, TokenText;
    var l, start := Line(Outside, d, -1), Line(Outside, d, 0);
    AfterTwo(l, Tok(Comma), Space("\n"));
    AfterToken(l, Comma);
    AfterOneChar(l, '\n');
    AfterSpaces(start, Indent(d));
    AfterTwo(start, Space(Indent(d)), Space(""));
    AfterParts(l, [Tok(Comma), Space("\n")], [Space(Indent(d))]);
    assert [Tok(Comma), Space("\n")] + [Space(Indent(d))] == [Tok(Comma), Space("\n"), Space(Indent(d))];
  }

  lemma AfterKey(key: string, d: nat)
    requires IsBody(key)
    ensures AfterPieces(Line(Outside, d, 0), KeyLayout(key, Indent(d))) == Some(Line(Outside, d, -1))
  {
    hide AfterText, AfterPieces, Indent, TokenText, IsBody;
    var start, l := Line(Outside, d, 0), Line(Outside, d, -1);
    var head, middle, tail := [Space(Indent(d)), Tok(StringToken(key))], [Space(" "), Tok(Colon)], [Space(" ")];
    AfterTwo(start, Space(Indent(d)), Tok(StringToken(key)));
    AfterSpaces(start, Indent(d));
    AfterToken(Line(Outside, d, 4 * d), StringToken(key));
    AfterOneChar(l, ' ');
    AfterTwo(l, Space(" "), Tok(Colon));
    AfterToken(l, Colon);
    AfterParts(start, head, middle);
    AfterParts(start, head + middle, tail);
    assert head + middle + tail == KeyLayout(key, Indent(d));
  }

  // ----- values -----

  /** A value starts where it may and leaves the depth as it was. */
  lemma {:induction false} AfterLayout(v: Value, l: Line, d: nat)
    requires Serializable(v) && l.depth == d && MayStart(l, d)
    ensures AfterPieces(l, Layout(v, Indent(d))) == Some(Line(Outside, d, -1))
    decreases v, 1
  {
    hide AfterText, AfterPieces, Indent, TokenText, IsBody, IsNumber, MembersLayout, ElementsLayout;
    assert Indent(d) + STEP == Indent(d + 1) by { DeeperIndent(d); }
    match v
    case Object(members) =>
      var head, tail := [Tok(LeftBrace), Space("\n")], [Space("\n"), Space(Indent(d)), Tok(RightBrace)];
      var middle := MembersLayout(members, Indent(d + 1));
      AfterOpen(l, LeftBrace);
      AfterMembers(members, d + 1);
      AfterClose(Line(Outside, d + 1, if members == [] then 0 else -1), RightBrace, d);
      AfterParts(l, head, middle);
      AfterParts(l, head + middle, tail);
    case Array(elements) =>
      var head, tail := [Tok(LeftBracket), Space("\n")], [Space("\n"), Space(Indent(d)), Tok(RightBracket)];
      var middle := ElementsLayout(elements, Indent(d + 1));
      AfterOpen(l, LeftBracket);
      AfterElements(elements, d + 1);
      AfterClose(Line(Outside, d + 1, if elements == [] then 0 else -1), RightBracket, d);
      AfterParts(l, head, middle);
      AfterParts(l, head + middle, tail);
    case _ =>
      AfterToken(l, TokensOf(v)[0]);
      OneToken(l, TokensOf(v)[0]);
  }

  lemma OneToken(l: Line, t: Token)
    ensures AfterPieces(l, [Tok(t)]) == AfterText(l, TokenText(t))
  {
    hide AfterText, TokenText;
    assert [Tok(t)][1..] == [];
  }

  lemma DeeperIndent(d: nat)
    ensures Indent(d) + STEP == Indent(d + 1)
  {
  }

  lemma {:induction false} AfterMembers(ms: Members, d: nat)
    requires forall m <- ms :: IsBody(m.key) && Serializable(m.value)
    ensures AfterPieces(Line(Outside, d, 0), MembersLayout(ms, Indent(d)))
            == Some(Line(Outside, d, if ms == [] then 0 else -1))
    ensures AfterPieces(Line(Outside, d, -1), MoreMembersLayout(ms, Indent(d))) == Some(Line(Outside, d, -1))
    decreases ms
  {
    hide AfterPieces, Indent, KeyLayout, Layout, IsBody, Serializable;
    if ms == [] {
      AfterNothing(Line(Outside, d, 0));
      AfterNothing(Line(Outside, d, -1));
    } else {
      var m, ind := ms[0], Indent(d);
      assert m in ms;
      var k, v, rest := KeyLayout(m.key, ind), Layout(m.value, ind), MoreMembersLayout(ms[1..], ind);
      var start, after := Line(Outside, d, 0), Line(Outside, d, -1);
      AfterKey(m.key, d);
      AfterLayout(m.value, after, d);
      AfterMembers(ms[1..], d);
      AfterParts(start, k, v);
      AfterParts(start, k + v, rest);
      var comma := [Tok(Comma), Space("\n")];
      AfterComma(d);
      AfterParts(after, comma, k + v + rest);
      assert comma + k + v + rest == comma + (k + v + rest);
    }
  }

  lemma {:induction false} AfterElements(es: seq<Value>, d: nat)
    requires forall e <- es :: Serializable(e)
    ensures AfterPieces(Line(Outside, d, 0), ElementsLayout(es, Indent(d)))
            == Some(Line(Outside, d, if es == [] then 0 else -1))
    ensures AfterPieces(Line(Outside, d, -1), MoreElementsLayout(es, Indent(d))) == Some(Line(Outside, d, -1))
    decreases es
  {
    hide AfterPieces, Indent, Layout, Serializable;
    if es == [] {
      AfterNothing(Line(Outside, d, 0));
      AfterNothing(Line(Outside, d, -1));
    } else {
      var ind := Indent(d);
      assert es[0] in es;
      var v, rest := Layout(es[0], ind), MoreElementsLayout(es[1..], ind);
      var start, after, at := Line(Outside, d, 0), Line(Outside, d, -1), Line(Outside, d, 4 * d);
      AfterLayout(es[0], at, d);
      AfterElements(es[1..], d);
      AfterComma(d);
      AfterParts(start, [Space(ind)], v);
      AfterParts(start, [Space(ind)] + v, rest);
      var comma := [Tok(Comma), Space("\n"), Space(ind)];
      AfterParts(after, comma, v);
      AfterParts(after, comma + v, rest);
    }
  }

  // ----- the printed text -----

  /**
   * In the text of a root value every line that is not blank starts with four spaces for each bracket open before it,
   * its own closing bracket not counted, and every bracket is closed.
   */
  lemma PrettyIsIndented(v: Value)
    requires Serializable(v)
    ensures AfterText(Line(Outside, 0, 0), Pretty(v, "")) == Some(Line(Outside, 0, 0))
  {
    hide Serializable, Layout, Render, AfterPieces, MayStart;
    var l := Line(Outside, 0, 0);
    assert MayStart(l, 0) by { RootMayStart(); }
    AfterLayout(v, l, 0);
    AfterRender(l, Layout(v, Indent(0)));
    AfterConcat(l, Render(Layout(v, "")), "\n");
    assert "\n"[1..] == "";
  }

  lemma RootMayStart()
    ensures MayStart(Line(Outside, 0, 0), 0)
  {
  }

  /** The text of a root value ends with exactly one newline. */
  lemma PrettyEndsWithOneNewline(v: Value)
    requires Serializable(v)
    ensures var s := Pretty(v, ""); |s| >= 2 && s[|s| - 1] == '\n' && s[|s| - 2] != '\n'
  {
    hide Serializable, Layout, Render, AfterPieces, MayStart, AfterText;
    var l := Line(Outside, 0, 0);
    assert MayStart(l, 0) by { RootMayStart(); }
    AfterLayout(v, l, 0);
    AfterRender(l, Layout(v, Indent(0)));
    NoNewlineAtEnd(l, Render(Layout(v, "")));
  }

  lemma NoNewlineAtEnd(l: Line, s: string)
    requires AfterText(l, s).Some? && AfterText(l, s).value.mode == Outside && AfterText(l, s).value.column == -1
    requires l.column == 0
    ensures s != "" && s[|s| - 1] != '\n'
  {
    if s != "" {
      var n := |s| - 1;
      assert s == s[..n] + [s[n]];
      AfterConcat(l, s[..n], [s[n]]);
      assert [s[n]][1..] == "";
    }
  }
}
