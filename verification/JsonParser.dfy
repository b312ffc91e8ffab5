/** A parser after RFC 8259, and what it makes of printed values. */
module JsonParser {
  import opened Outcomes
  import opened Json
  import opened JsonText
  import opened JsonPretty

  // ----- the parser -----

  predicate StartsWith(ts: seq<Token>, t: Token) {
    ts != [] && ts[0] == t
  }

  /** kindOf says which kind of number the parser makes of a number text. */
  function ParseValue(ts: seq<Token>, kindOf: string -> NumberKind): (r: Option<(Value, seq<Token>)>)
    ensures r.Some? ==> |r.value.1| < |ts|
    decreases |ts|, 0
  {
    if ts == [] then None
    else match ts[0]
      case NullToken => Some((Null, ts[1..]))
      case TrueToken => Some((Bool(true), ts[1..]))
      case FalseToken => Some((Bool(false), ts[1..]))
      case NumberToken(text) => Some((Number(kindOf(text), text), ts[1..]))
      case StringToken(body) => Some((String(body), ts[1..]))
      case LeftBracket =>
        if StartsWith(ts[1..], RightBracket) then Some((Array([]), ts[2..]))
        else
          var es := ParseElements(ts[1..], kindOf);
          if es.Some? && StartsWith(es.value.1, RightBracket) then Some((Array(es.value.0), es.value.1[1..])) else None
      case LeftBrace =>
        if StartsWith(ts[1..], RightBrace) then Some((Object([]), ts[2..]))
        else
          var ms := ParseMembers(ts[1..], kindOf);
          if ms.Some? && StartsWith(ms.value.1, RightBrace) then Some((Object(ms.value.0), ms.value.1[1..])) else None
      case _ => None
  }

  function ParseElements(ts: seq<Token>, kindOf: string -> NumberKind): (r: Option<(seq<Value>, seq<Token>)>)
    ensures r.Some? ==> |r.value.1| < |ts|
    decreases |ts|, 1
  {
    var first := ParseValue(ts, kindOf);
    if first.None? then None
    else if !StartsWith(first.value.1, Comma) then Some(([first.value.0], first.value.1))
    else
      var rest := ParseElements(first.value.1[1..], kindOf);
      if rest.None? then None else Some(([first.value.0] + rest.value.0, rest.value.1))
  }

  function ParseMembers(ts: seq<Token>, kindOf: string -> NumberKind): (r: Option<(Members, seq<Token>)>)
    ensures r.Some? ==> |r.value.1| < |ts|
    decreases |ts|, 1
  {
    if |ts| < 2 || !ts[0].StringToken? || ts[1] != Colon then None
    else
      var first := ParseValue(ts[2..], kindOf);
      if first.None? then None
      else
        var m := Member(ts[0].body, first.value.0);
        if !StartsWith(first.value.1, Comma) then Some(([m], first.value.1))
        else
          var rest := ParseMembers(first.value.1[1..], kindOf);
          if rest.None? then None else Some(([m] + rest.value.0, rest.value.1))
  }

  /** A text is one value, with white space around its tokens. */
  function Parse(s: string, kindOf: string -> NumberKind): Option<Value> {
    var ts := Lex(s);
    if ts.None? then None
    else
      var v := ParseValue(ts.value, kindOf);
      if v.Some? && v.value.1 == [] then Some(v.value.0) else None
  }

  // ----- what is read back -----

  /** The value with the number kinds that a parser gives the texts. */
  function Reread(v: Value, kindOf: string -> NumberKind): Value
    decreases v
  {
    match v
    case Number(_, text) => Number(kindOf(text), text)
    case Array(elements) => Array(RereadElements(elements, kindOf))
    case Object(members) => Object(RereadMembers(members, kindOf))
    case _ => v
  }

  function RereadElements(es: seq<Value>, kindOf: string -> NumberKind): (r: seq<Value>)
    ensures |r| == |es|
    decreases es
  {
    if es == [] then [] else [Reread(es[0], kindOf)] + RereadElements(es[1..], kindOf)
  }

  function RereadMembers(ms: Members, kindOf: string -> NumberKind): (r: Members)
    ensures |r| == |ms|
    decreases ms
  {
    if ms == [] then []
    else [Member(ms[0].key, Reread(ms[0].value, kindOf))] + RereadMembers(ms[1..], kindOf)
  }

  /** The parser reads doubles as doubles and integers as integers. */
  ghost predicate KindsAreKept(v: Value, kindOf: string -> NumberKind) {
    match v
    case Number(kind, text) => kindOf(text) == Double <==> kind == Double
    case Array(elements) => forall e <- elements :: KindsAreKept(e, kindOf)
    case Object(members) => forall m <- members :: KindsAreKept(m.value, kindOf)
    case _ => true
  }

  lemma {:induction false} RereadElementAt(es: seq<Value>, kindOf: string -> NumberKind, i: nat)
    requires i < |es|
    ensures RereadElements(es, kindOf)[i] == Reread(es[i], kindOf)
  {
    hide Reread;
    if i > 0 {
      RereadElementAt(es[1..], kindOf, i - 1);
    }
  }

  lemma {:induction false} RereadMemberAt(ms: Members, kindOf: string -> NumberKind, i: nat)
    requires i < |ms|
    ensures RereadMembers(ms, kindOf)[i] == Member(ms[i].key, Reread(ms[i].value, kindOf))
  {
    hide Reread;
    if i > 0 {
      RereadMemberAt(ms[1..], kindOf, i - 1);
    }
  }

  lemma {:induction false} RereadIsEqual(v: Value, kindOf: string -> NumberKind)
    requires KeysAreDistinct(v) && KindsAreKept(v, kindOf)
    ensures Equal(v, Reread(v, kindOf))
    decreases v
  {
    hide Lookup;
    match v
    case Array(elements) =>
      forall i: nat | i < |elements| ensures Equal(elements[i], RereadElements(elements, kindOf)[i]) {
        RereadElementAt(elements, kindOf, i);
        RereadIsEqual(elements[i], kindOf);
      }
    case Object(members) =>
      var again := RereadMembers(members, kindOf);
      assert DistinctKeys(again) by {
        forall i: nat | i < |members| ensures again[i].key == members[i].key {
          RereadMemberAt(members, kindOf, i);
        }
      }
      forall m <- members ensures var o := Lookup(again, m.key); o.Some? && Equal(m.value, o.value) {
        var i: nat :| i < |members| && members[i] == m;
        RereadMemberAt(members, kindOf, i);
        LookupAt(again, i);
        RereadIsEqual(m.value, kindOf);
      }
    case _ =>
  }

  // ----- the parser on the tokens of a value -----

  lemma {:induction false} ParseTokens(v: Value, kindOf: string -> NumberKind, rest: seq<Token>)
    ensures ParseValue(TokensOf(v) + rest, kindOf) == Some((Reread(v, kindOf), rest))
    decreases v, 1
  {
    hide ParseElements, ParseMembers, ElementTokens, MemberTokens;
    var ts := TokensOf(v) + rest;
    match v
    case Array(elements) =>
      var tail := [RightBracket] + rest;
      assert ts[1..] == ElementTokens(elements) + tail;
      assert tail[1..] == rest;
      if elements == [] {
        assert ElementTokens(elements) == [] by { NoTokens(); }
        assert ts[1..] == tail && ts[2..] == rest;
      } else {
        ElementsStart(elements);
        assert ts[1] == ElementTokens(elements)[0];
        ParseElementTokens(elements, kindOf, tail);
      }
    case Object(members) =>
      var tail := [RightBrace] + rest;
      assert ts[1..] == MemberTokens(members) + tail;
      assert tail[1..] == rest;
      if members == [] {
        assert MemberTokens(members) == [] by { NoTokens(); }
        assert ts[1..] == tail && ts[2..] == rest;
      } else {
        assert MemberTokens(members) != [] && MemberTokens(members)[0].StringToken? by { MembersStart(members); }
        assert ts[1] == MemberTokens(members)[0];
        ParseMemberTokens(members, kindOf, tail);
      }
    case _ =>
      assert ts[1..] == rest;
  }

  lemma NoTokens()
    ensures ElementTokens([]) == [] && MemberTokens([]) == []
    ensures MoreElementTokens([]) == [] && MoreMemberTokens([]) == []
  {
  }

  /** A value starts with a token that ends nothing. */
  lemma ElementsStart(es: seq<Value>)
    requires es != []
    ensures ElementTokens(es) != [] && ElementTokens(es)[0] != RightBracket
  {
    hide MoreElementTokens;
  }

  lemma MembersStart(ms: Members)
    requires ms != []
    ensures MemberTokens(ms) != [] && MemberTokens(ms)[0].StringToken?
  {
    hide MoreMemberTokens, TokensOf;
  }

  lemma MoreIsComma(es: seq<Value>, ms: Members)
    ensures es != [] ==> MoreElementTokens(es) == [Comma] + ElementTokens(es)
    ensures ms != [] ==> MoreMemberTokens(ms) == [Comma] + MemberTokens(ms)
  {
    hide TokensOf;
  }

  lemma {:induction false} ParseElementTokens(es: seq<Value>, kindOf: string -> NumberKind, rest: seq<Token>)
    requires es != [] && !StartsWith(rest, Comma)
    ensures ParseElements(ElementTokens(es) + rest, kindOf) == Some((RereadElements(es, kindOf), rest))
    decreases es
  {
    hide ParseValue, TokensOf, Reread, ParseElements, MoreElementTokens;
    var tokens, others := TokensOf(es[0]), MoreElementTokens(es[1..]);
    var more := others + rest;
    assert ElementTokens(es) + rest == tokens + more by { Regrouped([], tokens, others, rest); }
    ParseTokens(es[0], kindOf, more);
    ParseOneElement(tokens + more, kindOf);
    if |es| == 1 {
      NoTokens();
      assert es[1..] == [] && [] + rest == rest;
      assert RereadElements(es[1..], kindOf) == [];
      assert RereadElements(es, kindOf) == [Reread(es[0], kindOf)];
    } else {
      MoreIsComma(es[1..], []);
      AfterComma(ElementTokens(es[1..]), rest);
      ParseElementTokens(es[1..], kindOf, rest);
    }
  }

  lemma ParseOneElement(ts: seq<Token>, kindOf: string -> NumberKind)
    requires ParseValue(ts, kindOf).Some?
    ensures var (v, more) := ParseValue(ts, kindOf).value;
            ParseElements(ts, kindOf) ==
            if !StartsWith(more, Comma) then Some(([v], more))
            else
              var others := ParseElements(more[1..], kindOf);
              if others.None? then None else Some(([v] + others.value.0, others.value.1))
  {
    hide ParseValue;
  }

  lemma MembersSplit(ms: Members, rest: seq<Token>)
    requires ms != []
    ensures var value := TokensOf(ms[0].value) + (MoreMemberTokens(ms[1..]) + rest);
            && MemberTokens(ms) + rest == [StringToken(ms[0].key), Colon] + value
            && MoreMemberTokens(ms) + rest == [Comma, StringToken(ms[0].key), Colon] + value
  {
    hide TokensOf;
    var tokens, more := TokensOf(ms[0].value), MoreMemberTokens(ms[1..]);
    Regrouped([StringToken(ms[0].key), Colon], tokens, more, rest);
    Regrouped([Comma, StringToken(ms[0].key), Colon], tokens, more, rest);
  }

  lemma Regrouped(a: seq<Token>, b: seq<Token>, c: seq<Token>, d: seq<Token>)
    ensures a + b + c + d == a + (b + (c + d))
    ensures b + c + d == b + (c + d)
  {
  }

  lemma MoreEndsNumber(ms: Members, rest: seq<Token>)
    requires EndsNumber(rest)
    ensures EndsNumber(MoreMemberTokens(ms) + rest)
  {
    hide TokensOf;
    assert [] + rest == rest;
  }

  lemma ParseOneMember(key: string, value: seq<Token>, kindOf: string -> NumberKind)
    requires ParseValue(value, kindOf).Some?
    ensures var (v, more) := ParseValue(value, kindOf).value;
            ParseMembers([StringToken(key), Colon] + value, kindOf) ==
            if !StartsWith(more, Comma) then Some(([Member(key, v)], more))
            else
              var others := ParseMembers(more[1..], kindOf);
              if others.None? then None else Some(([Member(key, v)] + others.value.0, others.value.1))
  {
    hide ParseValue;
    var ts := [StringToken(key), Colon] + value;
    assert ts[2..] == value && ts[0] == StringToken(key) && ts[1] == Colon;
  }

  lemma {:induction false} ParseMemberTokens(ms: Members, kindOf: string -> NumberKind, rest: seq<Token>)
    requires ms != [] && !StartsWith(rest, Comma)
    ensures ParseMembers(MemberTokens(ms) + rest, kindOf) == Some((RereadMembers(ms, kindOf), rest))
    decreases ms
  {
    hide ParseValue, TokensOf, Reread, ParseMembers, MemberTokens, MoreMemberTokens;
    var more := MoreMemberTokens(ms[1..]) + rest;
    var value := TokensOf(ms[0].value) + more;
    MembersSplit(ms, rest);
    ParseTokens(ms[0].value, kindOf, more);
    ParseOneMember(ms[0].key, value, kindOf);
    if |ms| == 1 {
      NoTokens();
      assert ms[1..] == [] && [] + rest == rest;
      assert RereadMembers(ms[1..], kindOf) == [];
      assert RereadMembers(ms, kindOf) == [Member(ms[0].key, Reread(ms[0].value, kindOf))];
    } else {
      MoreIsComma([], ms[1..]);
      AfterComma(MemberTokens(ms[1..]), rest);
      ParseMemberTokens(ms[1..], kindOf, rest);
    }
  }

  lemma AfterComma(ts: seq<Token>, rest: seq<Token>)
    ensures StartsWith([Comma] + ts + rest, Comma) && ([Comma] + ts + rest)[1..] == ts + rest
  {
  }

  // ----- the parser on printed texts -----

  predicate EndsNumber(ts: seq<Token>) {
    ts == [] || ts[0].Comma? || ts[0].RightBrace? || ts[0].RightBracket?
  }

  lemma OneMoreToken(t: Token, ts: seq<Token>)
    requires NumbersEnd(ts) && (t.NumberToken? ==> EndsNumber(ts))
    ensures NumbersEnd([t] + ts)
  {
    var all := [t] + ts;
    forall i: nat | i + 1 < |all| && all[i].NumberToken?
      ensures all[i + 1].Comma? || all[i + 1].RightBrace? || all[i + 1].RightBracket?
    {
      if i > 0 {
        assert all[i] == ts[i - 1] && all[i + 1] == ts[i - 1 + 1];
      }
    }
  }

  lemma {:induction false} NumbersEndInValue(v: Value, rest: seq<Token>)
    requires NumbersEnd(rest) && EndsNumber(rest)
    ensures NumbersEnd(TokensOf(v) + rest)
    decreases v, 1
  {
    hide NumbersEnd, ElementTokens, MemberTokens;
    match v
    case Array(elements) =>
      OneMoreToken(RightBracket, rest);
      NumbersEndInElements(elements, [RightBracket] + rest);
      OneMoreToken(LeftBracket, ElementTokens(elements) + ([RightBracket] + rest));
      assert TokensOf(v) + rest == [LeftBracket] + (ElementTokens(elements) + ([RightBracket] + rest));
    case Object(members) =>
      OneMoreToken(RightBrace, rest);
      NumbersEndInMembers(members, [RightBrace] + rest);
      OneMoreToken(LeftBrace, MemberTokens(members) + ([RightBrace] + rest));
      assert TokensOf(v) + rest == [LeftBrace] + (MemberTokens(members) + ([RightBrace] + rest));
    case _ =>
      OneMoreToken(TokensOf(v)[0], rest);
  }

  lemma {:induction false} NumbersEndInElements(es: seq<Value>, rest: seq<Token>)
    requires NumbersEnd(rest) && EndsNumber(rest)
    ensures NumbersEnd(ElementTokens(es) + rest) && NumbersEnd(MoreElementTokens(es) + rest)
    decreases es
  {
    hide NumbersEnd, TokensOf;
    if es == [] {
      assert [] + rest == rest;
    } else {
      var more := MoreElementTokens(es[1..]) + rest;
      NumbersEndInElements(es[1..], rest);
      NumbersEndInValue(es[0], more);
      assert ElementTokens(es) + rest == TokensOf(es[0]) + more;
      OneMoreToken(Comma, TokensOf(es[0]) + more);
      assert MoreElementTokens(es) + rest == [Comma] + (TokensOf(es[0]) + more);
    }
  }

  lemma {:induction false} NumbersEndInMembers(ms: Members, rest: seq<Token>)
    requires NumbersEnd(rest) && EndsNumber(rest)
    ensures NumbersEnd(MemberTokens(ms) + rest) && NumbersEnd(MoreMemberTokens(ms) + rest)
    decreases ms
  {
    hide NumbersEnd, TokensOf, MemberTokens, MoreMemberTokens;
    if ms == [] {
      NoTokens();
      assert [] + rest == rest;
    } else {
      var more := MoreMemberTokens(ms[1..]) + rest;
      var key := StringToken(ms[0].key);
      NumbersEndInMembers(ms[1..], rest);
      MoreEndsNumber(ms[1..], rest);
      NumbersEndInValue(ms[0].value, more);
      var value := TokensOf(ms[0].value) + more;
      MembersSplit(ms, rest);
      OneMoreToken(Colon, value);
      OneMoreToken(key, [Colon] + value);
      assert [key, Colon] + value == [key] + ([Colon] + value);
      OneMoreToken(Comma, [key] + ([Colon] + value));
      assert [Comma, key, Colon] + value == [Comma] + ([key] + ([Colon] + value));
    }
  }

  /** Any text of the tokens of a value, however spaced, reads as the value. */
  lemma AnySpacingIsRead(ps: seq<Piece>, v: Value, kindOf: string -> NumberKind)
    requires ArePieces(ps) && Tokens(ps) == TokensOf(v)
    ensures Parse(Render(ps), kindOf) == Some(Reread(v, kindOf))
  {
    hide NumbersEnd, TokensOf, Lex, ParseValue, Reread, IsPiece, Render, Tokens;
    assert NumbersEnd([]) by { NothingEnds(); }
    NumbersEndInValue(v, []);
    assert TokensOf(v) + [] == TokensOf(v);
    LexRender(ps);
    ParseTokens(v, kindOf, []);
  }

  lemma NothingEnds()
    ensures NumbersEnd([])
  {
  }

  function AsPieces(ts: seq<Token>): (ps: seq<Piece>)
    ensures Tokens(ps) == ts && Render(ps) == TokensText(ts)
    ensures (forall t <- ts :: IsToken(t)) ==> ArePieces(ps)
  {
    if ts == [] then [] else [Tok(ts[0])] + AsPieces(ts[1..])
  }

  lemma {:induction false} PiecesHaveTokens(ps: seq<Piece>)
    requires ArePieces(ps)
    ensures forall t <- Tokens(ps) :: IsToken(t)
  {
    hide IsToken, IsSpace;
    if ps != [] {
      assert ps[0] in ps;
      PiecesHaveTokens(ps[1..]);
    }
  }

  /** The printed value, its compact form and the value itself are the same to a parser. */
  lemma PrettyIsRead(v: Value, indent: string, kindOf: string -> NumberKind)
    requires Serializable(v) && IsBlank(indent)
    ensures Parse(Pretty(v, indent), kindOf) == Some(Reread(v, kindOf))
    ensures Parse(Compact(v), kindOf) == Some(Reread(v, kindOf))
    ensures KeysAreDistinct(v) && KindsAreKept(v, kindOf) ==> Equal(v, Reread(v, kindOf))
  {
    hide *;
    var ps := PrettyPieces(v, indent);
    PrettyPiecesHave(v, indent);
    AnySpacingIsRead(ps, v, kindOf);
    PiecesHaveTokens(ps);
    CompactIs(v);
    AnySpacingIsRead(AsPieces(TokensOf(v)), v, kindOf);
    if KeysAreDistinct(v) && KindsAreKept(v, kindOf) {
      RereadIsEqual(v, kindOf);
    }
  }

  lemma CompactIs(v: Value)
    ensures Compact(v) == TokensText(TokensOf(v))
  {
  }
}
