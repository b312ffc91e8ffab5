/** The pretty printer: the compact tokens laid out over lines. */
module JsonPretty {
  import opened Json
  import opened JsonText

  const STEP := "    "

  // ----- the compact form -----

  /** The tokens of a value, as the compact serializer writes them. */
  function TokensOf(v: Value): seq<Token>
    decreases v
  {
    match v
    case Null => [NullToken]
    case Bool(b) => [if b then TrueToken else FalseToken]
    case Number(_, text) => [NumberToken(text)]
    case String(body) => [StringToken(body)]
    case Array(elements) => [LeftBracket] + ElementTokens(elements) + [RightBracket]
    case Object(members) => [LeftBrace] + MemberTokens(members) + [RightBrace]
  }

  function ElementTokens(es: seq<Value>): seq<Token>
    decreases es
  {
    if es == [] then [] else TokensOf(es[0]) + MoreElementTokens(es[1..])
  }

  // The elements after the first, each after its comma.
  function MoreElementTokens(es: seq<Value>): seq<Token>
    decreases es
  {
    if es == [] then [] else [Comma] + TokensOf(es[0]) + MoreElementTokens(es[1..])
  }

  function MemberTokens(ms: Members): seq<Token>
    decreases ms
  {
    if ms == [] then []
    else [StringToken(ms[0].key), Colon] + TokensOf(ms[0].value) + MoreMemberTokens(ms[1..])
  }

  function MoreMemberTokens(ms: Members): seq<Token>
    decreases ms
  {
    if ms == [] then []
    else [Comma, StringToken(ms[0].key), Colon] + TokensOf(ms[0].value) + MoreMemberTokens(ms[1..])
  }

  function Compact(v: Value): string {
    TokensText(TokensOf(v))
  }

  /** The texts kept for strings, keys and numbers are ones a serializer writes. */
  ghost predicate Serializable(v: Value) {
    match v
    case Number(_, text) => IsNumber(text)
    case String(body) => IsBody(body)
    case Array(elements) => forall e <- elements :: Serializable(e)
    case Object(members) => forall m <- members :: IsBody(m.key) && Serializable(m.value)
    case _ => true
  }

  // ----- the layout -----

  function Layout(v: Value, indent: string): seq<Piece>
    decreases v
  {
    match v
    case Array(elements) =>
      [Tok(LeftBracket), Space("\n")] + ElementsLayout(elements, indent + STEP)
      + [Space("\n"), Space(indent), Tok(RightBracket)]
    case Object(members) =>
      [Tok(LeftBrace), Space("\n")] + MembersLayout(members, indent + STEP)
      + [Space("\n"), Space(indent), Tok(RightBrace)]
    case Null => [Tok(NullToken)]
    case Bool(b) => [Tok(if b then TrueToken else FalseToken)]
    case Number(_, text) => [Tok(NumberToken(text))]
    case String(body) => [Tok(StringToken(body))]
  }

  function ElementsLayout(es: seq<Value>, indent: string): seq<Piece>
    decreases es
  {
    if es == [] then [] else [Space(indent)] + Layout(es[0], indent) + MoreElementsLayout(es[1..], indent)
  }

  function MoreElementsLayout(es: seq<Value>, indent: string): seq<Piece>
    decreases es
  {
    if es == [] then []
    else [Tok(Comma), Space("\n"), Space(indent)] + Layout(es[0], indent) + MoreElementsLayout(es[1..], indent)
  }

  function KeyLayout(key: string, indent: string): seq<Piece> {
    [Space(indent), Tok(StringToken(key)), Space(" "), Tok(Colon), Space(" ")]
  }

  function MembersLayout(ms: Members, indent: string): seq<Piece>
    decreases ms
  {
    if ms == [] then []
    else KeyLayout(ms[0].key, indent) + Layout(ms[0].value, indent) + MoreMembersLayout(ms[1..], indent)
  }

  function MoreMembersLayout(ms: Members, indent: string): seq<Piece>
    decreases ms
  {
    if ms == [] then []
    else
      [Tok(Comma), Space("\n")] + KeyLayout(ms[0].key, indent) + Layout(ms[0].value, indent)
      + MoreMembersLayout(ms[1..], indent)
  }

  /** What pretty_print appends: the newline at the end is the root's. */
  function Pretty(v: Value, indent: string): string {
    Render(Layout(v, indent)) + if indent == "" then "\n" else ""
  }

  // ----- the printer -----

  class Text {
    var s: string

    constructor ()
      ensures s == ""
    {
      s := "";
    }
  }

  lemma RenderPieces(a: Piece, b: Piece, c: Piece)
    ensures Render([a]) == PieceText(a)
    ensures Render([a, b]) == PieceText(a) + PieceText(b)
    ensures Render([a, b, c]) == PieceText(a) + PieceText(b) + PieceText(c)
  {
    hide PieceText;
    assert [a][1..] == [] && [a, b][1..] == [b] && [b, c][1..] == [c] && [a, b, c][1..] == [b, c];
    NoText("");
    assert Render([c]) == PieceText(c) && Render([b, c]) == PieceText(b) + PieceText(c);
    assert PieceText(a) + (PieceText(b) + PieceText(c)) == PieceText(a) + PieceText(b) + PieceText(c);
  }

  /** The indent buffer is shared with the calls for nested values; without one the call makes its own. */
  method PrettyPrint(os: Text, v: Value, indent: Text?)
    requires os != indent
    modifies os, indent
    ensures os.s == old(os.s) + Pretty(v, if indent == null then "" else old(indent.s))
    ensures indent != null ==> indent.s == old(indent.s)
    decreases v, 1
  {
    var own: Text;
    if indent == null {
      own := new Text();
    } else {
      own := indent;
    }
    PrintValue(os, v, own);
    if own.s == "" {
      os.s := os.s + "\n";
    }
  }

  method PrintValue(os: Text, v: Value, indent: Text)
    requires os != indent
    modifies os, indent
    ensures os.s == old(os.s) + Render(Layout(v, old(indent.s))) && indent.s == old(indent.s)
    decreases v, 0
  {
    hide Render, Layout;
    ghost var start, ind := os.s, indent.s;
    match v
    case Object(members) =>
      os.s := os.s + "{\n";
      indent.s := indent.s + STEP;
      PrintMembers(os, members, indent);
      os.s := os.s + "\n";
      indent.s := indent.s[..|indent.s| - 4];
      assert indent.s == ind;
      os.s := os.s + indent.s + "}";
      ObjectLayout(members, ind);
    case Array(elements) =>
      os.s := os.s + "[\n";
      indent.s := indent.s + STEP;
      PrintElements(os, elements, indent);
      os.s := os.s + "\n";
      indent.s := indent.s[..|indent.s| - 4];
      assert indent.s == ind;
      os.s := os.s + indent.s + "]";
      ArrayLayout(elements, ind);
    case String(body) =>
      os.s := os.s + ['"'] + body + ['"'];
      ScalarLayout(v, ind);
      assert os.s == start + (['"'] + body + ['"']);
    case Number(_, text) =>
      os.s := os.s + text;
      ScalarLayout(v, ind);
    case Bool(b) =>
      os.s := os.s + if b then "true" else "false";
      ScalarLayout(v, ind);
    case Null =>
      os.s := os.s + "null";
      ScalarLayout(v, ind);
  }

  lemma ScalarLayout(v: Value, indent: string)
    requires !v.Object? && !v.Array?
    ensures Render(Layout(v, indent)) == TokenText(TokensOf(v)[0])
  {
    RenderPieces(Tok(TokensOf(v)[0]), Space(""), Space(""));
  }

  lemma ObjectLayout(members: Members, indent: string)
    ensures Render(Layout(Object(members), indent)) ==
            "{\n" + Render(MembersLayout(members, indent + STEP)) + "\n" + indent + "}"
  {
    hide Render, MembersLayout;
    var head, tail := [Tok(LeftBrace), Space("\n")], [Space("\n"), Space(indent), Tok(RightBrace)];
    var middle := MembersLayout(members, indent + STEP);
    RenderConcat(head + middle, tail);
    RenderConcat(head, middle);
    RenderPieces(Tok(LeftBrace), Space("\n"), Space(""));
    RenderPieces(Space("\n"), Space(indent), Tok(RightBrace));
  }

  lemma ArrayLayout(elements: seq<Value>, indent: string)
    ensures Render(Layout(Array(elements), indent)) ==
            "[\n" + Render(ElementsLayout(elements, indent + STEP)) + "\n" + indent + "]"
  {
    hide Render, ElementsLayout;
    var head, tail := [Tok(LeftBracket), Space("\n")], [Space("\n"), Space(indent), Tok(RightBracket)];
    var middle := ElementsLayout(elements, indent + STEP);
    RenderConcat(head + middle, tail);
    RenderConcat(head, middle);
    RenderPieces(Tok(LeftBracket), Space("\n"), Space(""));
    RenderPieces(Space("\n"), Space(indent), Tok(RightBracket));
  }

  lemma KeyText(key: string, indent: string)
    ensures Render(KeyLayout(key, indent)) == indent + (['"'] + key + ['"']) + " : "
  {
    hide Render;
    var head, tail := [Space(indent), Tok(StringToken(key))], [Space(" "), Tok(Colon), Space(" ")];
    assert KeyLayout(key, indent) == head + tail;
    RenderConcat(head, tail);
    RenderPieces(Space(indent), Tok(StringToken(key)), Space(""));
    RenderPieces(Space(" "), Tok(Colon), Space(" "));
    assert " " + ":" + " " == " : ";
  }

  lemma MemberText(key: string, value: Value, rest: seq<Piece>, indent: string)
    ensures Render(KeyLayout(key, indent) + Layout(value, indent) + rest) ==
            indent + (['"'] + key + ['"']) + " : " + Render(Layout(value, indent)) + Render(rest)
    ensures Render([Tok(Comma), Space("\n")] + KeyLayout(key, indent) + Layout(value, indent) + rest) ==
            ",\n" + (indent + (['"'] + key + ['"']) + " : " + Render(Layout(value, indent)) + Render(rest))
  {
    hide Render, KeyLayout, Layout;
    var k, l := KeyLayout(key, indent), Layout(value, indent);
    var comma := [Tok(Comma), Space("\n")];
    KeyText(key, indent);
    RenderConcat(k + l, rest);
    RenderConcat(k, l);
    RenderConcat(comma, k + l + rest);
    assert comma + k + l + rest == comma + (k + l + rest);
    RenderPieces(Tok(Comma), Space("\n"), Space(""));
    assert "," + "\n" == ",\n";
  }

  function RenderMembers(ms: Members, indent: string): string {
    Render(MembersLayout(ms, indent))
  }

  function RenderElements(es: seq<Value>, indent: string): string {
    Render(ElementsLayout(es, indent))
  }

  lemma NoText(indent: string)
    ensures Render([]) == RenderMembers([], indent) == RenderElements([], indent) == ""
  {
  }

  /** One member printed: the rest of the members is still to come. */
  lemma MembersStep(was: string, ms: Members, it: nat, indent: string)
    requires it < |ms|
    ensures var done := was + (indent + (['"'] + ms[it].key + ['"']) + " : ") + Render(Layout(ms[it].value, indent));
            was + RenderMembers(ms[it..], indent) ==
            if it + 1 == |ms| then done else done + ",\n" + RenderMembers(ms[it + 1..], indent)
  {
    hide Render, Layout, KeyLayout, MoreMembersLayout;
    var m, rest := ms[it], ms[it + 1..];
    assert ms[it..][0] == m && ms[it..][1..] == rest;
    MemberText(m.key, m.value, MoreMembersLayout(rest, indent), indent);
    MoreMembersText(rest, indent);
  }

  lemma ElementsStep(was: string, es: seq<Value>, it: nat, indent: string)
    requires it < |es|
    ensures var done := was + indent + Render(Layout(es[it], indent));
            was + RenderElements(es[it..], indent) ==
            if it + 1 == |es| then done else done + ",\n" + RenderElements(es[it + 1..], indent)
  {
    hide Render, Layout, MoreElementsLayout;
    var e, rest := es[it], es[it + 1..];
    assert es[it..][0] == e && es[it..][1..] == rest;
    ElementText(e, MoreElementsLayout(rest, indent), indent);
    MoreElementsText(rest, indent);
  }

  method PrintMembers(os: Text, members: Members, indent: Text)
    requires os != indent && indent.s != ""
    modifies os, indent
    ensures os.s == old(os.s) + RenderMembers(members, old(indent.s)) && indent.s == old(indent.s)
    decreases members
  {
    hide Render, Layout, RenderMembers;
    if members != [] {
      ghost var start, ind := os.s, indent.s;
      var it := 0;
      while true
        invariant 0 <= it < |members| && indent.s == ind && ind != ""
        invariant os.s + RenderMembers(members[it..], ind) == start + RenderMembers(members, ind)
        decreases |members| - it
      {
        ghost var was := os.s;
        var m := members[it];
        assert m in members;
        os.s := os.s + (indent.s + (['"'] + m.key + ['"']) + " : ");
        PrettyPrint(os, m.value, indent);
        assert os.s == was + (ind + (['"'] + m.key + ['"']) + " : ") + Render(Layout(m.value, ind));
        MembersStep(was, members, it, ind);
        it := it + 1;
        if it == |members| {
          break;
        }
        os.s := os.s + ",\n";
      }
    } else {
      NoText(indent.s);
    }
  }

  lemma MoreMembersText(ms: Members, indent: string)
    ensures Render(MoreMembersLayout(ms, indent)) ==
            if ms == [] then "" else ",\n" + Render(MembersLayout(ms, indent))
  {
    hide KeyLayout, Layout;
    if ms != [] {
      MemberText(ms[0].key, ms[0].value, MoreMembersLayout(ms[1..], indent), indent);
    }
  }

  lemma ElementText(value: Value, rest: seq<Piece>, indent: string)
    ensures Render([Space(indent)] + Layout(value, indent) + rest) ==
            indent + Render(Layout(value, indent)) + Render(rest)
    ensures Render([Tok(Comma), Space("\n"), Space(indent)] + Layout(value, indent) + rest) ==
            ",\n" + (indent + Render(Layout(value, indent)) + Render(rest))
  {
    hide Render, Layout;
    var l := Layout(value, indent);
    RenderConcat([Space(indent)] + l, rest);
    RenderConcat([Space(indent)], l);
    RenderPieces(Space(indent), Space(""), Space(""));
    var comma := [Tok(Comma), Space("\n"), Space(indent)];
    RenderConcat(comma + l, rest);
    RenderConcat(comma, l);
    RenderPieces(Tok(Comma), Space("\n"), Space(indent));
    assert "," + "\n" == ",\n";
  }

  lemma MoreElementsText(es: seq<Value>, indent: string)
    ensures Render(MoreElementsLayout(es, indent)) ==
            if es == [] then "" else ",\n" + Render(ElementsLayout(es, indent))
  {
    hide Layout;
    if es != [] {
      ElementText(es[0], MoreElementsLayout(es[1..], indent), indent);
    }
  }

  method PrintElements(os: Text, elements: seq<Value>, indent: Text)
    requires os != indent && indent.s != ""
    modifies os, indent
    ensures os.s == old(os.s) + RenderElements(elements, old(indent.s)) && indent.s == old(indent.s)
    decreases elements
  {
    hide Render, Layout, RenderElements;
    if elements != [] {
      ghost var start, ind := os.s, indent.s;
      var it := 0;
      while true
        invariant 0 <= it < |elements| && indent.s == ind && ind != ""
        invariant os.s + RenderElements(elements[it..], ind) == start + RenderElements(elements, ind)
        decreases |elements| - it
      {
        ghost var was := os.s;
        var e := elements[it];
        assert e in elements;
        os.s := os.s + indent.s;
        PrettyPrint(os, e, indent);
        assert os.s == was + ind + Render(Layout(e, ind));
        ElementsStep(was, elements, it, ind);
        it := it + 1;
        if it == |elements| {
          break;
        }
        os.s := os.s + ",\n";
      }
    } else {
      NoText(indent.s);
    }
  }

  /** pretty_print of a root value. */
  method PrettyPrinted(v: Value) returns (res: string)
    ensures res == Pretty(v, "")
  {
    var os := new Text();
    PrettyPrint(os, v, null);
    res := os.s;
  }

  // ----- the same tokens -----

  predicate IsBlank(s: string) {
    forall c <- s :: IsSpace(c)
  }

  ghost predicate ArePieces(ps: seq<Piece>) {
    forall p <- ps :: IsPiece(p)
  }

  /** Between two parts of a layout nothing is added to the tokens. */
  lemma TokensOfParts(a: seq<Piece>, b: seq<Piece>, c: seq<Piece>)
    ensures Tokens(a + b + c) == Tokens(a) + Tokens(b) + Tokens(c)
  {
    TokensConcat(a + b, c);
    TokensConcat(a, b);
  }

  lemma TokensOfPieces(a: Piece, b: Piece, c: Piece)
    ensures var one := (p: Piece) => if p.Tok? then [p.token] else [];
            Tokens([a]) == one(a) && Tokens([a, b]) == one(a) + one(b) && Tokens([a, b, c]) == one(a) + one(b) + one(c)
  {
    assert [a][1..] == [] && [a, b][1..] == [b] && [b, c][1..] == [c] && [a, b, c][1..] == [b, c];
    assert Tokens([c]) == if c.Tok? then [c.token] else [];
  }

  lemma KeyTokens(key: string, indent: string)
    ensures Tokens(KeyLayout(key, indent)) == [StringToken(key), Colon]
  {
    var head, tail := [Space(indent), Tok(StringToken(key))], [Space(" "), Tok(Colon), Space(" ")];
    assert KeyLayout(key, indent) == head + tail;
    TokensConcat(head, tail);
    TokensOfPieces(Space(indent), Tok(StringToken(key)), Space(""));
    TokensOfPieces(Space(" "), Tok(Colon), Space(" "));
  }

  /** The layout adds only white space to the tokens. */
  lemma {:induction false} LayoutTokens(v: Value, indent: string)
    ensures Tokens(Layout(v, indent)) == TokensOf(v)
    decreases v, 1
  {
    hide Tokens, KeyLayout;
    match v
    case Object(members) =>
      MembersTokens(members, indent + STEP);
      TokensOfPieces(Tok(LeftBrace), Space("\n"), Space(""));
      TokensOfPieces(Space("\n"), Space(indent), Tok(RightBrace));
      TokensOfParts([Tok(LeftBrace), Space("\n")], MembersLayout(members, indent + STEP),
                    [Space("\n"), Space(indent), Tok(RightBrace)]);
    case Array(elements) =>
      ElementsTokens(elements, indent + STEP);
      TokensOfPieces(Tok(LeftBracket), Space("\n"), Space(""));
      TokensOfPieces(Space("\n"), Space(indent), Tok(RightBracket));
      TokensOfParts([Tok(LeftBracket), Space("\n")], ElementsLayout(elements, indent + STEP),
                    [Space("\n"), Space(indent), Tok(RightBracket)]);
    case _ =>
      TokensOfPieces(Tok(TokensOf(v)[0]), Space(""), Space(""));
  }

  lemma {:induction false} MembersTokens(ms: Members, indent: string)
    ensures Tokens(MembersLayout(ms, indent)) == MemberTokens(ms)
    ensures Tokens(MoreMembersLayout(ms, indent)) == MoreMemberTokens(ms)
    decreases ms
  {
    hide KeyLayout, Layout, TokensOf;
    if ms != [] {
      var k, l := KeyLayout(ms[0].key, indent), Layout(ms[0].value, indent);
      var rest := MoreMembersLayout(ms[1..], indent);
      var comma := [Tok(Comma), Space("\n")];
      LayoutTokens(ms[0].value, indent);
      MembersTokens(ms[1..], indent);
      KeyTokens(ms[0].key, indent);
      TokensOfParts(k, l, rest);
      TokensOfPieces(Tok(Comma), Space("\n"), Space(""));
      TokensConcat(comma, k + l + rest);
      assert comma + k + l + rest == comma + (k + l + rest);
      assert [Comma] + ([StringToken(ms[0].key), Colon] + TokensOf(ms[0].value) + MoreMemberTokens(ms[1..])) ==
             [Comma, StringToken(ms[0].key), Colon] + TokensOf(ms[0].value) + MoreMemberTokens(ms[1..]);
    }
  }

  lemma {:induction false} ElementsTokens(es: seq<Value>, indent: string)
    ensures Tokens(ElementsLayout(es, indent)) == ElementTokens(es)
    ensures Tokens(MoreElementsLayout(es, indent)) == MoreElementTokens(es)
    decreases es
  {
    hide Layout, TokensOf;
    if es != [] {
      var l, rest := Layout(es[0], indent), MoreElementsLayout(es[1..], indent);
      LayoutTokens(es[0], indent);
      ElementsTokens(es[1..], indent);
      TokensOfPieces(Space(indent), Space(""), Space(""));
      TokensOfPieces(Tok(Comma), Space("\n"), Space(indent));
      TokensOfParts([Space(indent)], l, rest);
      TokensOfParts([Tok(Comma), Space("\n"), Space(indent)], l, rest);
      assert [] + TokensOf(es[0]) + MoreElementTokens(es[1..]) == TokensOf(es[0]) + MoreElementTokens(es[1..]);
    }
  }

  lemma PiecesOfParts(a: seq<Piece>, b: seq<Piece>)
    requires ArePieces(a) && ArePieces(b)
    ensures ArePieces(a + b)
  {
    hide IsPiece;
  }

  lemma {:induction false} LayoutPieces(v: Value, indent: string)
    requires Serializable(v) && IsBlank(indent)
    ensures ArePieces(Layout(v, indent))
    decreases v, 1
  {
    hide IsBody, IsNumber, KeyLayout, MembersLayout, ElementsLayout, IsSpace;
    assert IsBlank("\n") && IsBlank(STEP) && IsBlank(indent + STEP) by { Blanks(indent); }
    match v
    case Object(members) => MembersPieces(members, indent + STEP);
    case Array(elements) => ElementsPieces(elements, indent + STEP);
    case _ =>
  }

  lemma Blanks(indent: string)
    requires IsBlank(indent)
    ensures IsBlank("\n") && IsBlank(" ") && IsBlank(STEP) && IsBlank(indent + STEP)
  {
  }

  lemma KeyPieces(key: string, indent: string)
    requires IsBody(key) && IsBlank(indent)
    ensures ArePieces(KeyLayout(key, indent))
  {
    hide IsBody;
    Blanks(indent);
  }

  lemma {:induction false} MembersPieces(ms: Members, indent: string)
    requires (forall m <- ms :: IsBody(m.key) && Serializable(m.value)) && IsBlank(indent)
    ensures ArePieces(MembersLayout(ms, indent)) && ArePieces(MoreMembersLayout(ms, indent))
    decreases ms
  {
    hide IsBody, Layout, KeyLayout, Serializable, IsBlank, ArePieces;
    if ms != [] {
      var m := ms[0];
      assert m in ms;
      LayoutPieces(m.value, indent);
      KeyPieces(m.key, indent);
      MembersPieces(ms[1..], indent);
      CommaPieces(indent);
      var k, l, rest := KeyLayout(m.key, indent), Layout(m.value, indent), MoreMembersLayout(ms[1..], indent);
      PiecesOfParts(k, l);
      PiecesOfParts(k + l, rest);
      var comma := [Tok(Comma), Space("\n")];
      PiecesOfParts(comma, k);
      PiecesOfParts(comma + k, l);
      PiecesOfParts(comma + k + l, rest);
    } else {
      assert ArePieces([]) by { NoPieces(); }
    }
  }

  lemma NoPieces()
    ensures ArePieces([])
  {
  }

  lemma CommaPieces(indent: string)
    requires IsBlank(indent)
    ensures ArePieces([Tok(Comma), Space("\n")]) && ArePieces([Space(indent)])
    ensures ArePieces([Tok(Comma), Space("\n"), Space(indent)])
  {
    Blanks(indent);
  }

  lemma {:induction false} ElementsPieces(es: seq<Value>, indent: string)
    requires (forall e <- es :: Serializable(e)) && IsBlank(indent)
    ensures ArePieces(ElementsLayout(es, indent)) && ArePieces(MoreElementsLayout(es, indent))
    decreases es
  {
    hide Layout, Serializable, IsBlank, ArePieces;
    if es != [] {
      assert es[0] in es;
      LayoutPieces(es[0], indent);
      ElementsPieces(es[1..], indent);
      CommaPieces(indent);
      var l, rest := Layout(es[0], indent), MoreElementsLayout(es[1..], indent);
      PiecesOfParts([Space(indent)], l);
      PiecesOfParts([Space(indent)] + l, rest);
      var comma := [Tok(Comma), Space("\n"), Space(indent)];
      PiecesOfParts(comma, l);
      PiecesOfParts(comma + l, rest);
    } else {
      assert ArePieces([]) by { NoPieces(); }
    }
  }

  /** What pretty_print appends, as pieces. */
  function PrettyPieces(v: Value, indent: string): (ps: seq<Piece>)
    ensures Render(ps) == Pretty(v, indent)
  {
    var end := if indent == "" then [Space("\n")] else [];
    RenderConcat(Layout(v, indent), end);
    RenderPieces(Space("\n"), Space(""), Space(""));
    NoText("");
    Layout(v, indent) + end
  }

  lemma PrettyPiecesHave(v: Value, indent: string)
    requires Serializable(v) && IsBlank(indent)
    ensures ArePieces(PrettyPieces(v, indent)) && Tokens(PrettyPieces(v, indent)) == TokensOf(v)
  {
    hide Layout, Serializable, IsPiece;
    var end := if indent == "" then [Space("\n")] else [];
    LayoutTokens(v, indent);
    LayoutPieces(v, indent);
    TokensConcat(Layout(v, indent), end);
    assert ArePieces(end) by { CommaPieces("\n"); NoPieces(); Blanks(""); }
    PiecesOfParts(Layout(v, indent), end);
    assert Tokens(end) == [] by { TokensOfPieces(Space("\n"), Space(""), Space("")); }
    assert TokensOf(v) + [] == TokensOf(v);
  }

  /** Pretty and compact text differ only by white space outside strings. */
  lemma PrettyIsCompactWithSpace(v: Value, indent: string)
    requires Serializable(v) && IsBlank(indent)
    ensures Stripped(Pretty(v, indent), Outside) == Compact(v)
  {
    hide *;
    StrippedIsCompact(PrettyPieces(v, indent), v, indent);
  }

  lemma StrippedIsCompact(ps: seq<Piece>, v: Value, indent: string)
    requires Serializable(v) && IsBlank(indent) && ps == PrettyPieces(v, indent)
    ensures Stripped(Render(ps), Outside) == Compact(v)
  {
    hide Layout, Serializable, IsPiece, Stripped, TokensOf, Render, Tokens, TokensText;
    PrettyPiecesHave(v, indent);
    StrippedRender(ps);
  }
}
