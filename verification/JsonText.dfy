/** JSON texts as tokens with white space between them, after RFC 8259, and a lexer. */
module JsonText {
  import opened Outcomes

  // ----- characters -----

  predicate IsSpace(c: char) {
    c == ' ' || c == '\t' || c == '\n' || c == '\r'
  }

  predicate IsDigit(c: char) {
    '0' <= c <= '9'
  }

  predicate IsNumberChar(c: char) {
    IsDigit(c) || c == '-' || c == '+' || c == '.' || c == 'e' || c == 'E'
  }

  predicate IsHex(c: char) {
    IsDigit(c) || 'a' <= c <= 'f' || 'A' <= c <= 'F'
  }

  predicate IsEscape(c: char) {
    c == '"' || c == '\\' || c == '/' || c == 'b' || c == 'f' || c == 'n' || c == 'r' || c == 't' || c == 'u'
  }

  /** Where a scan of a text is: outside strings, in one, after a backslash, or before the last digits of \u. */
  datatype Mode = Outside | InString | Escaped | Hex(left: nat)

  function Next(m: Mode, c: char): Mode {
    match m
    case Outside => if c == '"' then InString else Outside
    case InString => if c == '"' then Outside else if c == '\\' then Escaped else InString
    case Escaped => if c == 'u' then Hex(4) else InString
    case Hex(left) => if left <= 1 then InString else Hex(left - 1)
  }

  /** A character that RFC 8259, section 7, allows in a string. */
  predicate Allowed(m: Mode, c: char) {
    match m
    case Outside => true
    case InString => c >= ' '
    case Escaped => IsEscape(c)
    case Hex(_) => IsHex(c)
  }

  /** The text stays inside a string, and ends where the string may end. */
  predicate StaysInside(s: string, m: Mode) {
    m != Outside
    && if s == "" then m == InString else Allowed(m, s[0]) && StaysInside(s[1..], Next(m, s[0]))
  }

  predicate IsBody(s: string) {
    StaysInside(s, InString)
  }

  function DigitRun(s: string): (n: nat)
    ensures n <= |s|
  {
    if s != "" && IsDigit(s[0]) then 1 + DigitRun(s[1..]) else 0
  }

  /** number = [ "-" ] int [ frac ] [ exp ], RFC 8259, section 6. */
  predicate IsNumber(s: string) {
    && s != "" && (s[0] == '-' || IsDigit(s[0])) && (forall c <- s :: IsNumberChar(c))
    && var t := if s[0] == '-' then s[1..] else s;
    var n := DigitRun(t);
    n >= 1 && (n == 1 || t[0] != '0') && IsFraction(t[n..])
  }

  predicate IsFraction(s: string) {
    if s != "" && s[0] == '.' then
      var n := DigitRun(s[1..]);
      n >= 1 && IsExponent(s[1..][n..])
    else IsExponent(s)
  }

  predicate IsExponent(s: string) {
    s == "" ||
    ((s[0] == 'e' || s[0] == 'E') &&
     var t := if |s| > 1 && (s[1] == '+' || s[1] == '-') then s[2..] else s[1..];
     t != "" && DigitRun(t) == |t|)
  }

  // ----- tokens -----

  datatype Token =
    | LeftBrace | RightBrace | LeftBracket | RightBracket | Comma | Colon
    | StringToken(body: string)
    | NumberToken(text: string)
    | TrueToken | FalseToken | NullToken

  predicate IsToken(t: Token) {
    (t.StringToken? ==> IsBody(t.body)) && (t.NumberToken? ==> IsNumber(t.text))
  }

  function TokenText(t: Token): string {
    match t
    case LeftBrace => "{"
    case RightBrace => "}"
    case LeftBracket => "["
    case RightBracket => "]"
    case Comma => ","
    case Colon => ":"
    case StringToken(body) => ['"'] + body + ['"']
    case NumberToken(text) => text
    case TrueToken => "true"
    case FalseToken => "false"
    case NullToken => "null"
  }

  /** A token, or white space. */
  datatype Piece = Tok(token: Token) | Space(space: string)

  predicate IsPiece(p: Piece) {
    match p
    case Tok(t) => IsToken(t)
    case Space(s) => forall c <- s :: IsSpace(c)
  }

  function PieceText(p: Piece): string {
    match p
    case Tok(t) => TokenText(t)
    case Space(s) => s
  }

  function Render(ps: seq<Piece>): string {
    if ps == [] then "" else PieceText(ps[0]) + Render(ps[1..])
  }

  function Tokens(ps: seq<Piece>): seq<Token> {
    if ps == [] then []
    else match ps[0]
      case Tok(t) => [t] + Tokens(ps[1..])
      case Space(_) => Tokens(ps[1..])
  }

  function TokensText(ts: seq<Token>): string {
    if ts == [] then "" else TokenText(ts[0]) + TokensText(ts[1..])
  }

  lemma {:induction false} RenderConcat(a: seq<Piece>, b: seq<Piece>)
    ensures Render(a + b) == Render(a) + Render(b)
  {
    hide PieceText;
    if a == [] {
      assert a + b == b;
      assert Render(a) + Render(b) == Render(b);
    } else {
      RenderConcat(a[1..], b);
      assert (a + b)[1..] == a[1..] + b && (a + b)[0] == a[0];
      var text := PieceText(a[0]);
      assert text + (Render(a[1..]) + Render(b)) == (text + Render(a[1..])) + Render(b);
    }
  }

  lemma {:induction false} TokensConcat(a: seq<Piece>, b: seq<Piece>)
    ensures Tokens(a + b) == Tokens(a) + Tokens(b)
  {
    if a == [] {
      assert a + b == b;
      assert Tokens(a) + Tokens(b) == Tokens(b);
    } else {
      TokensConcat(a[1..], b);
      assert (a + b)[1..] == a[1..] + b && (a + b)[0] == a[0];
      if a[0].Tok? {
        var t := [a[0].token];
        assert t + (Tokens(a[1..]) + Tokens(b)) == (t + Tokens(a[1..])) + Tokens(b);
      }
    }
  }

  // ----- without white space -----

  /** The text without the white space outside strings. */
  function Stripped(s: string, m: Mode): string {
    if s == "" then ""
    else if m == Outside && IsSpace(s[0]) then Stripped(s[1..], m)
    else [s[0]] + Stripped(s[1..], Next(m, s[0]))
  }

  lemma {:induction false} StrippedSpace(w: string, rest: string)
    requires forall c <- w :: IsSpace(c)
    ensures Stripped(w + rest, Outside) == Stripped(rest, Outside)
  {
    if w == "" {
      assert w + rest == rest;
    } else {
      assert w[0] in w;
      assert (w + rest)[1..] == w[1..] + rest;
      StrippedSpace(w[1..], rest);
    }
  }

  predicate IsPlain(c: char) {
    !IsSpace(c) && c != '"'
  }

  lemma {:induction false} StrippedPlain(w: string, rest: string)
    requires forall c <- w :: IsPlain(c)
    ensures Stripped(w + rest, Outside) == w + Stripped(rest, Outside)
  {
    if w == "" {
      assert w + rest == rest;
    } else {
      assert w[0] in w;
      assert (w + rest)[1..] == w[1..] + rest;
      StrippedPlain(w[1..], rest);
    }
  }

  lemma {:induction false} StrippedInside(w: string, m: Mode, rest: string)
    requires StaysInside(w, m)
    ensures Stripped(w + rest, m) == w + Stripped(rest, InString)
  {
    if w == "" {
      assert w + rest == rest;
    } else {
      assert (w + rest)[1..] == w[1..] + rest;
      StrippedInside(w[1..], Next(m, w[0]), rest);
    }
  }

  lemma StrippedString(body: string, rest: string)
    requires IsBody(body)
    ensures Stripped(['"'] + body + ['"'] + rest, Outside) == ['"'] + body + ['"'] + Stripped(rest, Outside)
  {
    hide StaysInside;
    var tail := ['"'] + rest;
    assert tail[1..] == rest;
    StrippedInside(body, InString, tail);
    var all := ['"'] + (body + tail);
    assert all[1..] == body + tail;
    assert ['"'] + body + ['"'] + rest == all;
    assert Stripped(tail, InString) == ['"'] + Stripped(rest, Outside);
  }

  lemma PlainToken(t: Token)
    requires IsToken(t) && !t.StringToken?
    ensures forall c <- TokenText(t) :: IsPlain(c)
  {
  }

  /** Stripping a text leaves the texts of its tokens. */
  lemma {:induction false} StrippedRender(ps: seq<Piece>)
    requires forall p <- ps :: IsPiece(p)
    ensures Stripped(Render(ps), Outside) == TokensText(Tokens(ps))
  {
    hide Stripped, IsToken, IsSpace, IsPlain, TokenText;
    if ps == [] {
      StrippedSpace("", "");
      assert "" + "" == "";
      StrippedNothing();
    } else {
      assert ps[0] in ps;
      StrippedRender(ps[1..]);
      var rest := Render(ps[1..]);
      match ps[0]
      case Space(w) => StrippedSpace(w, rest);
      case Tok(t) => StrippedToken(t, rest);
    }
  }

  lemma StrippedNothing()
    ensures Stripped("", Outside) == ""
  {
  }

  lemma StrippedToken(t: Token, rest: string)
    requires IsToken(t)
    ensures Stripped(TokenText(t) + rest, Outside) == TokenText(t) + Stripped(rest, Outside)
  {
    hide Stripped, IsPlain;
    if t.StringToken? {
      StrippedString(t.body, rest);
    } else {
      PlainToken(t);
      StrippedPlain(TokenText(t), rest);
    }
  }

  // ----- the lexer -----

  /** Where the string that started before s ends. */
  function StringEnd(s: string, m: Mode): (r: Option<nat>)
    ensures r.Some? ==> r.value < |s|
  {
    if s == "" then None
    else if m == InString && s[0] == '"' then Some(0)
    else if !Allowed(m, s[0]) then None
    else
      var r := StringEnd(s[1..], Next(m, s[0]));
      if r.Some? then Some(r.value + 1) else None
  }

  function NumberRun(s: string): (n: nat)
    ensures n <= |s|
  {
    if s != "" && IsNumberChar(s[0]) then 1 + NumberRun(s[1..]) else 0
  }

  /** The token at the start of a text, and what follows it. */
  function FirstToken(s: string): (r: Option<(Token, string)>)
    requires s != ""
    ensures r.Some? ==> |r.value.1| < |s|
  {
    var c := s[0];
    if c == '{' then Some((LeftBrace, s[1..]))
    else if c == '}' then Some((RightBrace, s[1..]))
    else if c == '[' then Some((LeftBracket, s[1..]))
    else if c == ']' then Some((RightBracket, s[1..]))
    else if c == ',' then Some((Comma, s[1..]))
    else if c == ':' then Some((Colon, s[1..]))
    else if c == '"' then
      var n := StringEnd(s[1..], InString);
      if n.Some? then Some((StringToken(s[1..][..n.value]), s[1..][n.value + 1..])) else None
    else if c == '-' || IsDigit(c) then
      var n := NumberRun(s);
      if IsNumber(s[..n]) then Some((NumberToken(s[..n]), s[n..])) else None
    else if "true" <= s then Some((TrueToken, s[4..]))
    else if "false" <= s then Some((FalseToken, s[5..]))
    else if "null" <= s then Some((NullToken, s[4..]))
    else None
  }

  function Lex(s: string): Option<seq<Token>>
    decreases |s|
  {
    if s == "" then Some([])
    else if IsSpace(s[0]) then Lex(s[1..])
    else
      var first := FirstToken(s);
      if first.None? then None
      else
        var rest := Lex(first.value.1);
        if rest.None? then None else Some([first.value.0] + rest.value)
  }

  lemma {:induction false} StringEndsAt(body: string, m: Mode, rest: string)
    requires StaysInside(body, m)
    ensures StringEnd(body + ['"'] + rest, m) == Some(|body|)
  {
    var s := body + ['"'] + rest;
    if body != "" {
      assert s[1..] == body[1..] + ['"'] + rest;
      StringEndsAt(body[1..], Next(m, body[0]), rest);
    }
  }

  predicate StartsNumber(s: string) {
    s != "" && IsNumberChar(s[0])
  }

  lemma {:induction false} NumberRunIs(w: string, rest: string)
    requires (forall c <- w :: IsNumberChar(c)) && !StartsNumber(rest)
    ensures NumberRun(w + rest) == |w|
  {
    if w == "" {
      assert w + rest == rest;
    } else {
      assert w[0] in w;
      assert (w + rest)[1..] == w[1..] + rest;
      NumberRunIs(w[1..], rest);
    }
  }

  lemma FirstString(body: string, rest: string)
    requires IsBody(body)
    ensures FirstToken(['"'] + body + ['"'] + rest) == Some((StringToken(body), rest))
  {
    hide StaysInside, StringEnd, IsNumber, NumberRun;
    var s := ['"'] + body + ['"'] + rest;
    assert s[1..] == body + ['"'] + rest;
    StringEndsAt(body, InString, rest);
    assert (body + ['"'] + rest)[..|body|] == body;
    assert (body + ['"'] + rest)[|body| + 1..] == rest;
  }

  lemma FirstNumber(text: string, rest: string)
    requires IsNumber(text) && !StartsNumber(rest)
    ensures FirstToken(text + rest) == Some((NumberToken(text), rest))
  {
    hide NumberRun, IsFraction, DigitRun;
    NumberRunIs(text, rest);
    var s := text + rest;
    assert s[..|text|] == text && s[|text|..] == rest && s[0] == text[0];
  }

  lemma FirstTokenIs(t: Token, rest: string)
    requires IsToken(t) && (t.NumberToken? ==> !StartsNumber(rest))
    ensures TokenText(t) != "" && !IsSpace(TokenText(t)[0])
    ensures FirstToken(TokenText(t) + rest) == Some((t, rest))
  {
    var s := TokenText(t) + rest;
    match t
    case StringToken(body) => FirstString(body, rest);
    case NumberToken(text) => FirstNumber(text, rest);
    case TrueToken => assert s[..4] == "true" && s[4..] == rest;
    case FalseToken => assert s[..5] == "false" && s[5..] == rest;
    case NullToken => assert s[..4] == "null" && s[4..] == rest;
    case _ => assert s[1..] == rest;
  }

  /** Only what cannot continue a number follows a number. */
  ghost predicate NumbersEnd(ts: seq<Token>) {
    forall i: nat :: i + 1 < |ts| && ts[i].NumberToken? ==>
      ts[i + 1].Comma? || ts[i + 1].RightBrace? || ts[i + 1].RightBracket?
  }

  lemma NumbersEndAfter(t: Token, ts: seq<Token>)
    requires NumbersEnd([t] + ts)
    ensures NumbersEnd(ts)
    ensures t.NumberToken? && ts != [] ==> ts[0].Comma? || ts[0].RightBrace? || ts[0].RightBracket?
  {
    var all := [t] + ts;
    assert ts != [] ==> all[0] == t && all[0 + 1] == ts[0];
    forall i: nat | i + 1 < |ts| && ts[i].NumberToken?
      ensures ts[i + 1].Comma? || ts[i + 1].RightBrace? || ts[i + 1].RightBracket?
    {
      var k := i + 1;
      assert all[k] == ts[i] && all[k + 1] == ts[i + 1];
    }
  }

  lemma {:induction false} StartOfRender(ps: seq<Piece>)
    requires forall p <- ps :: IsPiece(p)
    requires Tokens(ps) == [] || Tokens(ps)[0].Comma? || Tokens(ps)[0].RightBrace? || Tokens(ps)[0].RightBracket?
    ensures !StartsNumber(Render(ps))
  {
    if ps != [] {
      assert ps[0] in ps;
      if ps[0].Space? {
        if ps[0].space == "" {
          StartOfRender(ps[1..]);
          assert Render(ps) == Render(ps[1..]);
        } else {
          assert ps[0].space[0] in ps[0].space;
        }
      }
    }
  }

  lemma {:induction false} LexSpace(w: string, rest: string)
    requires forall c <- w :: IsSpace(c)
    ensures Lex(w + rest) == Lex(rest)
  {
    hide FirstToken;
    if w == "" {
      assert w + rest == rest;
    } else {
      assert w[0] in w;
      assert (w + rest)[1..] == w[1..] + rest;
      LexSpace(w[1..], rest);
    }
  }

  lemma LexToken(t: Token, rest: string)
    requires IsToken(t) && (t.NumberToken? ==> !StartsNumber(rest)) && Lex(rest).Some?
    ensures Lex(TokenText(t) + rest) == Some([t] + Lex(rest).value)
  {
    hide FirstToken, TokenText, IsSpace, StartsNumber, IsToken;
    FirstTokenIs(t, rest);
    var s := TokenText(t) + rest;
    assert s[0] == TokenText(t)[0];
  }

  /** The lexer gives back the tokens of a text, whatever white space is between them. */
  lemma {:induction false} LexRender(ps: seq<Piece>)
    requires (forall p <- ps :: IsPiece(p)) && NumbersEnd(Tokens(ps))
    ensures Lex(Render(ps)) == Some(Tokens(ps))
  {
    hide Lex, IsToken, TokenText, IsSpace, StartsNumber;
    if ps == [] {
      LexNothing();
    } else {
      assert ps[0] in ps;
      var rest := ps[1..];
      match ps[0]
      case Space(w) =>
        LexRender(rest);
        LexSpace(w, Render(rest));
      case Tok(t) =>
        NumbersEndAfter(t, Tokens(rest));
        LexRender(rest);
        if t.NumberToken? {
          StartOfRender(rest);
        }
        LexToken(t, Render(rest));
    }
  }

  lemma LexNothing()
    ensures Lex("") == Some([])
  {
  }
}
