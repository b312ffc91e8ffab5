/** The printed text, line by line. */
module JsonLines {
  import opened Json
  import opened JsonText
  import opened JsonPretty
  import opened JsonIndent

  /** A line and how many brackets around it are open. */
  datatype TextLine = TextLine(depth: nat, text: string)

  type Lines = seq<TextLine>

  /** The opening bracket, one line for each scalar or bracket inside, commas at the ends, the closing bracket. */
  function LinesOf(v: Value): (lines: Lines)
    ensures lines != []
    decreases v
  {
    match v
    case Null => [TextLine(0, "null")]
    case Bool(b) => [TextLine(0, if b then "true" else "false")]
    case Number(_, text) => [TextLine(0, text)]
    case String(body) => [TextLine(0, "\"" + body + "\"")]
    case Array(elements) => [TextLine(0, "[")] + Deeper(LinesOfElements(elements)) + [TextLine(0, "]")]
    case Object(members) => [TextLine(0, "{")] + Deeper(LinesOfMembers(members)) + [TextLine(0, "}")]
  }

  /** Between the brackets of an empty array there is one empty line. */
  function LinesOfElements(es: seq<Value>): (lines: Lines)
    ensures lines != []
    decreases es
  {
    if es == [] then [TextLine(0, "")]
    else if |es| == 1 then LinesOf(es[0])
    else Ended(LinesOf(es[0]), ",") + LinesOfElements(es[1..])
  }

  function LinesOfMembers(ms: Members): (lines: Lines)
    ensures lines != []
    decreases ms
  {
    if ms == [] then [TextLine(0, "")]
    else
      var lines := Started("\"" + ms[0].key + "\" : ", LinesOf(ms[0].value));
      if |ms| == 1 then lines else Ended(lines, ",") + LinesOfMembers(ms[1..])
  }

  function Deeper(lines: Lines): (r: Lines)
    ensures |r| == |lines|
  {
    seq(|lines|, i requires 0 <= i < |lines| => TextLine(lines[i].depth + 1, lines[i].text))
  }

  function Started(s: string, lines: Lines): (r: Lines)
    requires lines != []
    ensures |r| == |lines|
  {
    [TextLine(lines[0].depth, s + lines[0].text)] + lines[1..]
  }

  function Ended(lines: Lines, s: string): (r: Lines)
    requires lines != []
    ensures |r| == |lines|
  {
    var n := |lines| - 1;
    lines[..n] + [TextLine(lines[n].depth, lines[n].text + s)]
  }

  /** Four spaces for each bracket; nothing on an empty line. */
  function LineText(l: TextLine, d: nat): string {
    if l.text == "" then "" else Indent(d + l.depth) + l.text
  }

  /** The lines one after the other, each with its newline. */
  function Joined(lines: Lines): string {
    if lines == [] then "" else LineText(lines[0], 0) + "\n" + Joined(lines[1..])
  }

  /** Each line after its newline, for what stands d brackets deep. */
  function Below(lines: Lines, d: nat): string {
    if lines == [] then "" else "\n" + LineText(lines[0], d) + Below(lines[1..], d)
  }

  lemma {:induction false} BelowConcat(a: Lines, b: Lines, d: nat)
    ensures Below(a + b, d) == Below(a, d) + Below(b, d)
  {
    hide LineText;
    if a == [] {
      assert a + b == b;
    } else {
      BelowConcat(a[1..], b, d);
      assert (a + b)[1..] == a[1..] + b;
      var line := "\n" + LineText(a[0], d);
      assert line + (Below(a[1..], d) + Below(b, d)) == line + Below(a[1..], d) + Below(b, d);
    }
  }

  lemma {:induction false} BelowDeeper(lines: Lines, d: nat)
    ensures Below(Deeper(lines), d) == Below(lines, d + 1)
  {
    hide Indent, LineText;
    if lines != [] {
      BelowDeeper(lines[1..], d);
      DeeperLine(lines[0], d);
      assert Deeper(lines)[1..] == Deeper(lines[1..]);
    }
  }

  lemma DeeperLine(l: TextLine, d: nat)
    ensures LineText(TextLine(l.depth + 1, l.text), d) == LineText(l, d + 1)
  {
    assert d + (l.depth + 1) == d + 1 + l.depth;
  }

  /** The first line is not empty and not indented, the last one is not empty. */
  predicate HasEnds(lines: Lines) {
    lines != [] && lines[0].depth == 0 && lines[0].text != "" && lines[|lines| - 1].text != ""
  }

  lemma BelowStarted(s: string, lines: Lines, d: nat)
    requires HasEnds(lines)
    ensures HasEnds(Started(s, lines))
    ensures Below(Started(s, lines), d) == "\n" + (Indent(d) + s + (lines[0].text + Below(lines[1..], d)))
  {
    hide Indent;
    var started := Started(s, lines);
    assert started[1..] == lines[1..];
    var i, t := Indent(d), lines[0].text;
    assert "\n" + (i + (s + t)) + Below(lines[1..], d) == "\n" + (i + s + (t + Below(lines[1..], d)));
  }

  lemma {:induction false} BelowEnded(lines: Lines, s: string, d: nat)
    requires lines != [] && lines[|lines| - 1].text != ""
    ensures Below(Ended(lines, s), d) == Below(lines, d) + s
  {
    hide Indent, LineText;
    var n := |lines| - 1;
    BelowConcat(lines[..n], [TextLine(lines[n].depth, lines[n].text + s)], d);
    BelowConcat(lines[..n], [lines[n]], d);
    assert lines == lines[..n] + [lines[n]];
    OneBelow(lines[n], d);
    OneBelow(TextLine(lines[n].depth, lines[n].text + s), d);
    EndedLine(lines[n], s, d);
    var front, line := Below(lines[..n], d), LineText(lines[n], d);
    assert front + ("\n" + (line + s)) == front + ("\n" + line) + s;
  }

  lemma EndedLine(l: TextLine, s: string, d: nat)
    requires l.text != ""
    ensures LineText(TextLine(l.depth, l.text + s), d) == LineText(l, d) + s
  {
    hide Indent;
    assert Indent(d + l.depth) + (l.text + s) == Indent(d + l.depth) + l.text + s;
  }

  lemma OneBelow(l: TextLine, d: nat)
    ensures Below([l], d) == "\n" + LineText(l, d)
  {
    hide LineText;
    assert [l][1..] == [];
  }

  /** What the layout of a value says, its first line joined to what stands before it. */
  ghost predicate IsText(text: string, lines: Lines, d: nat) {
    HasEnds(lines) && text == lines[0].text + Below(lines[1..], d)
  }

  lemma BelowOfText(text: string, lines: Lines, d: nat)
    requires IsText(text, lines, d)
    ensures Below(lines, d) == "\n" + (Indent(d) + text)
  {
    hide Indent;
    var i, t := Indent(d), lines[0].text;
    assert "\n" + (i + t) + Below(lines[1..], d) == "\n" + (i + (t + Below(lines[1..], d)));
  }

  lemma {:induction false} LayoutLines(v: Value, d: nat)
    requires Serializable(v)
    ensures IsText(Render(Layout(v, Indent(d))), LinesOf(v), d)
    decreases v, 1
  {
    hide Render, Layout, LinesOf, Indent, IsBody, IsText;
    match v
    case Object(members) =>
      MembersLines(members, d + 1);
      ObjectLines(members, d);
    case Array(elements) =>
      ElementsLines(elements, d + 1);
      ArrayLines(elements, d);
    case _ =>
      ScalarLayout(v, Indent(d));
      ScalarLines(v, d);
  }

  lemma ObjectLines(members: Members, d: nat)
    requires Below(LinesOfMembers(members), d + 1) == "\n" + RenderMembers(members, Indent(d + 1))
    ensures IsText(Render(Layout(Object(members), Indent(d))), LinesOf(Object(members)), d)
  {
    hide Render, Layout, LinesOfMembers, Indent, IsText, Below, Deeper;
    ObjectLayout(members, Indent(d));
    DeeperIndent(d);
    BracketLines("{", LinesOfMembers(members), "}", d);
    JoinBrackets("{", RenderMembers(members, Indent(d + 1)), Indent(d), "}");
    assert "{" + "\n" == "{\n";
  }

  lemma ArrayLines(elements: seq<Value>, d: nat)
    requires Below(LinesOfElements(elements), d + 1) == "\n" + RenderElements(elements, Indent(d + 1))
    ensures IsText(Render(Layout(Array(elements), Indent(d))), LinesOf(Array(elements)), d)
  {
    hide Render, Layout, LinesOfElements, Indent, IsText, Below, Deeper;
    ArrayLayout(elements, Indent(d));
    DeeperIndent(d);
    BracketLines("[", LinesOfElements(elements), "]", d);
    JoinBrackets("[", RenderElements(elements, Indent(d + 1)), Indent(d), "]");
    assert "[" + "\n" == "[\n";
  }

  lemma ScalarLines(v: Value, d: nat)
    requires Serializable(v) && !v.Object? && !v.Array?
    ensures IsText(TokenText(TokensOf(v)[0]), LinesOf(v), d)
  {
    assert LinesOf(v)[1..] == [];
  }

  lemma BracketLines(open: string, inner: Lines, close: string, d: nat)
    requires open != "" && close != ""
    ensures var lines := [TextLine(0, open)] + Deeper(inner) + [TextLine(0, close)];
            IsText(open + Below(inner, d + 1) + ("\n" + (Indent(d) + close)), lines, d)
  {
    hide Indent;
    var lines := [TextLine(0, open)] + Deeper(inner) + [TextLine(0, close)];
    assert lines[1..] == Deeper(inner) + [TextLine(0, close)];
    BelowConcat(Deeper(inner), [TextLine(0, close)], d);
    BelowDeeper(inner, d);
    OneBelow(TextLine(0, close), d);
    var b, e := Below(inner, d + 1), "\n" + (Indent(d) + close);
    assert open + (b + e) == open + b + e;
  }

  lemma JoinBrackets(open: string, inner: string, indent: string, close: string)
    ensures open + ("\n" + inner) + ("\n" + (indent + close)) == open + "\n" + inner + "\n" + indent + close
  {
  }

  lemma {:induction false} MembersLines(ms: Members, d: nat)
    requires forall m <- ms :: IsBody(m.key) && Serializable(m.value)
    ensures Below(LinesOfMembers(ms), d) == "\n" + RenderMembers(ms, Indent(d))
    ensures ms != [] ==> HasEnds(LinesOfMembers(ms))
    decreases ms
  {
    hide Render, Layout, RenderMembers, Indent, Below, LinesOf, IsBody, Serializable, Started, Ended, HasEnds;
    if ms == [] {
      EmptyBelow(d);
      NoText(Indent(d));
    } else {
      var m, rest := ms[0], ms[1..];
      assert m in ms;
      var text, lines := Render(Layout(m.value, Indent(d))), LinesOf(m.value);
      LayoutLines(m.value, d);
      var started := Started("\"" + m.key + "\" : ", lines);
      MemberBelow(m.key, text, lines, d);
      MembersStep("", ms, 0, Indent(d));
      assert ms[0..] == ms;
      Prefixed("" + (Indent(d) + (['"'] + m.key + ['"']) + " : ") + text, RenderMembers(rest, Indent(d)),
               RenderMembers(ms, Indent(d)));
      if |ms| > 1 {
        MembersLines(rest, d);
        MoreBelow(started, LinesOfMembers(rest), RenderMembers(rest, Indent(d)), d);
      }
    }
  }

  lemma Prefixed(done: string, rest: string, all: string)
    ensures "" + all == all
    ensures "\n" + (done + ",\n" + rest) == "\n" + done + ",\n" + rest
  {
  }

  lemma EmptyBelow(d: nat)
    ensures Below([TextLine(0, "")], d) == "\n"
  {
    OneBelow(TextLine(0, ""), d);
  }

  lemma MemberBelow(key: string, text: string, lines: Lines, d: nat)
    requires IsText(text, lines, d)
    ensures HasEnds(lines)
    ensures var started := Started("\"" + key + "\" : ", lines);
            HasEnds(started)
            && Below(started, d) == "\n" + ("" + (Indent(d) + (['"'] + key + ['"']) + " : ") + text)
  {
    hide Indent, Below, HasEnds;
    HasEndsMeans(lines);
    BelowStarted("\"" + key + "\" : ", lines, d);
    assert "\"" + key + "\" : " == (['"'] + key + ['"']) + " : ";
    var i, k := Indent(d), ['"'] + key + ['"'];
    assert i + (k + " : ") + text == "" + (i + k + " : ") + text;
  }

  lemma HasEndsMeans(lines: Lines)
    ensures HasEnds(lines) ==> lines != [] && lines[|lines| - 1].text != ""
  {
  }

  /** A comma, then the lines that follow. */
  lemma MoreBelow(lines: Lines, more: Lines, text: string, d: nat)
    requires HasEnds(lines) && HasEnds(more) && Below(more, d) == "\n" + text
    ensures HasEnds(Ended(lines, ",") + more)
    ensures Below(Ended(lines, ",") + more, d) == Below(lines, d) + ",\n" + text
  {
    hide Below;
    BelowEnded(lines, ",", d);
    BelowConcat(Ended(lines, ","), more, d);
    assert Below(lines, d) + "," + ("\n" + text) == Below(lines, d) + ",\n" + text;
  }

  lemma {:induction false} ElementsLines(es: seq<Value>, d: nat)
    requires forall e <- es :: Serializable(e)
    ensures Below(LinesOfElements(es), d) == "\n" + RenderElements(es, Indent(d))
    ensures es != [] ==> HasEnds(LinesOfElements(es))
    decreases es
  {
    hide Render, Layout, RenderElements, Indent, Below, LinesOf, Serializable, Ended, HasEnds;
    if es == [] {
      EmptyBelow(d);
      NoText(Indent(d));
    } else {
      var rest := es[1..];
      assert es[0] in es;
      var text, lines := Render(Layout(es[0], Indent(d))), LinesOf(es[0]);
      LayoutLines(es[0], d);
      ElementBelow(text, lines, d);
      ElementsStep("", es, 0, Indent(d));
      assert es[0..] == es;
      Prefixed("" + Indent(d) + text, RenderElements(rest, Indent(d)), RenderElements(es, Indent(d)));
      if |es| > 1 {
        ElementsLines(rest, d);
        MoreBelow(lines, LinesOfElements(rest), RenderElements(rest, Indent(d)), d);
      }
    }
  }

  lemma ElementBelow(text: string, lines: Lines, d: nat)
    requires IsText(text, lines, d)
    ensures HasEnds(lines) && Below(lines, d) == "\n" + ("" + Indent(d) + text)
  {
    hide Indent, Below;
    BelowOfText(text, lines, d);
    assert Indent(d) + text == "" + Indent(d) + text;
  }

  /** The text of a root value is its lines, each with a newline. */
  lemma PrettyIsLines(v: Value)
    requires Serializable(v)
    ensures Pretty(v, "") == Joined(LinesOf(v))
  {
    hide Render, Layout, LinesOf;
    LayoutLines(v, 0);
    RootText(Render(Layout(v, "")), LinesOf(v));
  }

  lemma RootText(text: string, lines: Lines)
    requires IsText(text, lines, 0)
    ensures text + "\n" == Joined(lines)
  {
    JoinedIsBelow(lines[1..]);
    var t, b := lines[0].text, Below(lines[1..], 0);
    assert LineText(lines[0], 0) == t;
    assert t + b + "\n" == t + (b + "\n");
    assert t + ("\n" + Joined(lines[1..])) == t + "\n" + Joined(lines[1..]);
  }

  lemma {:induction false} JoinedIsBelow(lines: Lines)
    ensures Below(lines, 0) + "\n" == "\n" + Joined(lines)
  {
    hide LineText;
    if lines != [] {
      JoinedIsBelow(lines[1..]);
      var t := LineText(lines[0], 0);
      assert "\n" + t + Below(lines[1..], 0) + "\n" == "\n" + t + (Below(lines[1..], 0) + "\n");
      assert "\n" + t + ("\n" + Joined(lines[1..])) == "\n" + (t + "\n" + Joined(lines[1..]));
    }
  }
}
