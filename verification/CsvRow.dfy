/** Splitting a CSV row into slices by a table-driven scanner. */
module CsvRow {
  import opened Outcomes

  const SEPARATOR: nat := 0
  const ESCAPE: nat := 1
  const NEWLINE: nat := 2
  const NORMAL: nat := 3
  const END: nat := 4

  /** Rows are states, columns events; -1 ends the row, -2 is the end of the line inside quotes. */
  const DELTA: seq<seq<int>> := [
    [1, 2, -1, 0, -1],
    [1, 2, -1, 0, -1],
    [3, 4, 3, 3, -2],
    [3, 4, 3, 3, -2],
    [1, 3, -1, 0, -1]
  ]

  datatype Dialect = Dialect(separator: char, escape: char)

  /** A slice of the line, or the static empty string. */
  datatype View = EmptyView | View(from: nat, to: nat)

  function Text(line: string, v: View): string
    requires v.View? ==> v.from <= v.to <= |line|
  {
    if v.EmptyView? then "" else line[v.from..v.to]
  }

  /** QStringView::mid: a negative or too long count takes the rest. */
  function Mid(line: string, pos: nat, count: int): (v: View)
    requires pos <= |line|
    ensures v.View? && v.from <= v.to <= |line|
  {
    if count < 0 || count > |line| - pos then View(pos, |line|) else View(pos, pos + count)
  }

  function EventAt(line: string, d: Dialect, pos: nat): (e: nat)
    ensures e <= END && (e == END <==> pos >= |line|)
  {
    if pos >= |line| then END
    else if line[pos] == d.separator then SEPARATOR
    else if line[pos] == d.escape then ESCAPE
    else if line[pos] == '\n' then NEWLINE
    else NORMAL
  }

  predicate IsEscape(line: string, d: Dialect, pos: nat) {
    EventAt(line, d, pos) == ESCAPE
  }

  function Delta(state: nat, event: nat): int
    requires state <= 4 && event <= END
  {
    DELTA[state][event]
  }

  lemma DeltaValues(state: nat, event: nat)
    requires state <= 4 && event <= END
    ensures -2 <= Delta(state, event) <= 4
    ensures event == END ==> Delta(state, event) < 0
    ensures event == ESCAPE ==> Delta(state, event) == if state <= 1 then 2 else if state == 4 then 3 else 4
    ensures event != ESCAPE && event != END && 2 <= state <= 3 ==> Delta(state, event) == 3
    ensures event == END && 2 <= state <= 3 ==> Delta(state, event) == -2
    ensures (state <= 1 || state == 4) && event == SEPARATOR ==> Delta(state, event) == 1
    ensures (state <= 1 || state == 4) && event == NORMAL ==> Delta(state, event) == 0
    ensures (state <= 1 || state == 4) && (event == NEWLINE || event == END) ==> Delta(state, event) == -1
  {
    assert DELTA[0] == [1, 2, -1, 0, -1] && DELTA[1] == [1, 2, -1, 0, -1] && DELTA[2] == [3, 4, 3, 3, -2];
    assert DELTA[3] == [3, 4, 3, 3, -2] && DELTA[4] == [1, 3, -1, 0, -1];
    assert event == 0 || event == 1 || event == 2 || event == 3 || event == 4;
  }

  // ----- the scanner -----

  datatype Scan = Scan(pos: nat, state: int, start: int, blockEnd: int, parts: seq<View>)

  const START := Scan(0, 0, -1, 0, [])

  predicate InRange(line: string, s: Scan) {
    && -2 <= s.state <= 4 && (s.state >= 0 ==> s.pos <= |line|) && s.pos <= |line| + 1
    && -1 <= s.start <= |line|
    && forall v <- s.parts :: v.View? ==> v.from <= v.to <= |line|
  }

  /** One turn of the loop. */
  function Turn(line: string, d: Dialect, s: Scan): (r: Scan)
    requires InRange(line, s) && s.state >= 0
    ensures InRange(line, r) && r.pos == s.pos + 1
  {
    var event := EventAt(line, d, s.pos);
    DeltaValues(s.state, event);
    var next := Delta(s.state, event);
    if next == 4 then s.(pos := s.pos + 1, state := next, blockEnd := s.pos)
    else if next == 0 || next == 3 then
      s.(pos := s.pos + 1, state := next, start := if s.start == -1 then s.pos else s.start)
    else if next == 1 || next == -1 then
      var blockEnd := if s.blockEnd == 0 then s.pos else s.blockEnd;
      var part := if s.start == -1 then EmptyView else Mid(line, s.start, blockEnd - s.start);
      Scan(s.pos + 1, next, -1, 0, s.parts + [part])
    else s.(pos := s.pos + 1, state := next)
  }

  /** The loop: it takes at most one turn more than the line has characters. */
  function Scanned(line: string, d: Dialect, s: Scan): (r: Scan)
    requires InRange(line, s)
    ensures InRange(line, r) && r.state < 0 && r.pos <= |line| + 1
    decreases |line| + 1 - s.pos
  {
    if s.state < 0 then s else Scanned(line, d, Turn(line, d, s))
  }

  function Parsed(line: string, d: Dialect): Result<seq<View>> {
    if line == "" then Ok([])
    else
      var last := Scanned(line, d, START);
      if last.state == -2 then Err(QuotesNotClosed) else Ok(last.parts)
  }

  method ReadCsvRow(line: string, d: Dialect) returns (r: Result<seq<View>>)
    ensures r == Parsed(line, d)
  {
    hide Mid, Delta;
    var part: seq<View> := [];
    if line == "" {
      return Ok(part);
    }
    var actualState, pos, currentBlockStart, blockEnd := 0, 0, -1, 0;
    while actualState >= 0
      invariant 0 <= pos && InRange(line, Scan(pos, actualState, currentBlockStart, blockEnd, part))
      invariant Scanned(line, d, Scan(pos, actualState, currentBlockStart, blockEnd, part)) == Scanned(line, d, START)
      decreases |line| + 1 - pos, actualState
    {
      ghost var before := Scan(pos, actualState, currentBlockStart, blockEnd, part);
      var event;
      if pos >= |line| {
        event := END;
      } else {
        var ch := line[pos];
        if ch == d.separator {
          event := SEPARATOR;
        } else if ch == d.escape {
          event := ESCAPE;
        } else if ch == '\n' {
          event := NEWLINE;
        } else {
          event := NORMAL;
        }
      }
      pos := pos + 1;
      DeltaValues(actualState, event);
      actualState := Delta(actualState, event);
      if actualState == 4 {
        blockEnd := pos - 1;
      } else if actualState == 0 || actualState == 3 {
        if currentBlockStart == -1 {
          currentBlockStart := pos - 1;
        }
      } else if actualState == -1 || actualState == 1 {
        if blockEnd == 0 {
          blockEnd := pos - 1;
        }
        if currentBlockStart == -1 {
          part := part + [EmptyView];
          blockEnd := 0;
        } else {
          part := part + [Mid(line, currentBlockStart, blockEnd - currentBlockStart)];
          blockEnd := 0;
          currentBlockStart := -1;
        }
      }
      assert Scan(pos, actualState, currentBlockStart, blockEnd, part) == Turn(line, d, before);
    }
    if actualState == -2 {
      return Err(QuotesNotClosed);
    }
    return Ok(part);
  }

  // ----- what a row is -----

  /** Whether an odd number of the characters b..i are quotes. */
  function Inside(line: string, d: Dialect, b: nat, i: nat): bool
    requires b <= i <= |line|
    decreases i
  {
    if i == b then false
    else if IsEscape(line, d, i - 1) then !Inside(line, d, b, i - 1)
    else Inside(line, d, b, i - 1)
  }

  /** The last quote of b..i that closes, 0 without one. */
  function LastClose(line: string, d: Dialect, b: nat, i: nat): (c: nat)
    requires b <= i <= |line|
    ensures c == 0 || b < c < i
    decreases i
  {
    if i == b then 0
    else if IsEscape(line, d, i - 1) && Inside(line, d, b, i - 1) then i - 1
    else LastClose(line, d, b, i - 1)
  }

  /** How many quotes the field starts with, counting up to two. */
  function Leading(line: string, d: Dialect, b: nat, i: nat): (q: nat)
    requires b <= i <= |line|
    ensures q <= 2 && b + q <= i
  {
    if b < i && IsEscape(line, d, b) then
      if b + 1 < i && IsEscape(line, d, b + 1) then 2 else 1
    else 0
  }

  /** A field of the line, up to the separator or the end of the row. */
  datatype Span = Span(from: nat, to: nat)

  /** What the caller gets for a field: its text from after the leading quotes to the last closing quote. */
  function FieldView(line: string, d: Dialect, f: Span): View
    requires f.from <= f.to <= |line|
  {
    var start := f.from + Leading(line, d, f.from, f.to);
    var close := LastClose(line, d, f.from, f.to);
    if start == f.to then EmptyView
    else Mid(line, start, (if close == 0 then f.to else close) - start)
  }

  /** The fields of a row, and whether its last quote was closed. */
  datatype Row = Row(fields: seq<Span>, closed: bool)

  /** Separators and newlines count only outside quotes. i is in the field that starts at b. */
  function RowFrom(line: string, d: Dialect, b: nat, i: nat): (r: Row)
    requires b <= i <= |line|
    ensures |r.fields| > 0 && SpansInLine(line, r.fields)
    decreases |line| - i
  {
    if i == |line| then Row([Span(b, i)], !Inside(line, d, b, i))
    else if Inside(line, d, b, i) then RowFrom(line, d, b, i + 1)
    else if EventAt(line, d, i) == NEWLINE then Row([Span(b, i)], true)
    else if EventAt(line, d, i) == SEPARATOR then
      var rest := RowFrom(line, d, i + 1, i + 1);
      Row([Span(b, i)] + rest.fields, rest.closed)
    else RowFrom(line, d, b, i + 1)
  }

  function RowOf(line: string, d: Dialect): Row {
    RowFrom(line, d, 0, 0)
  }

  /** The views are slices of the line. */
  predicate AllInLine(line: string, views: seq<View>) {
    forall v <- views :: v.View? ==> v.from <= v.to <= |line|
  }

  predicate SpansInLine(line: string, fields: seq<Span>) {
    forall f <- fields :: f.from <= f.to <= |line|
  }

  function Views(line: string, d: Dialect, fields: seq<Span>): (r: seq<View>)
    requires SpansInLine(line, fields)
    ensures AllInLine(line, r) && |r| == |fields|
  {
    if fields == [] then [] else [FieldView(line, d, fields[0])] + Views(line, d, fields[1..])
  }

  /** The scanner inside the field that starts at b. */
  ghost predicate InField(line: string, d: Dialect, b: nat, s: Scan) {
    && b <= s.pos <= |line|
    && (if Inside(line, d, b, s.pos) then 2 <= s.state <= 3
        else if s.pos == b then 0 <= s.state <= 1
        else s.state == if IsEscape(line, d, s.pos - 1) then 4 else 0)
    && s.start == (if b + Leading(line, d, b, s.pos) < s.pos then b + Leading(line, d, b, s.pos) else -1)
    && s.blockEnd == LastClose(line, d, b, s.pos)
  }

  lemma LeadingQuotes(line: string, d: Dialect, b: nat, i: nat)
    requires b <= i <= |line|
    ensures i == b + 1 && Leading(line, d, b, i) == 1 ==> Inside(line, d, b, i)
    ensures i == b + 2 && Leading(line, d, b, i) == 2 ==> !Inside(line, d, b, i)
  {
    assert !Inside(line, d, b, b);
    if b < i {
      assert Inside(line, d, b, b + 1) == IsEscape(line, d, b);
    }
  }

  /** A character that does not end the field keeps the scanner in it. */
  lemma TurnInField(line: string, d: Dialect, b: nat, s: Scan)
    requires InRange(line, s) && s.state >= 0 && InField(line, d, b, s) && s.pos < |line|
    requires Inside(line, d, b, s.pos) || EventAt(line, d, s.pos) == ESCAPE || EventAt(line, d, s.pos) == NORMAL
    ensures InField(line, d, b, Turn(line, d, s)) && Turn(line, d, s).parts == s.parts
  {
    hide Delta, EventAt, Mid;
    DeltaValues(s.state, EventAt(line, d, s.pos));
    var t := Turn(line, d, s);
    LeadingQuotes(line, d, b, s.pos);
    assert t.start == (if b + Leading(line, d, b, t.pos) < t.pos then b + Leading(line, d, b, t.pos) else -1);
  }

  /** The end of the field appends its slice. */
  lemma TurnEndsField(line: string, d: Dialect, b: nat, s: Scan)
    requires InRange(line, s) && s.state >= 0 && InField(line, d, b, s) && !Inside(line, d, b, s.pos)
    requires EventAt(line, d, s.pos) in {SEPARATOR, NEWLINE, END}
    ensures var next := if EventAt(line, d, s.pos) == SEPARATOR then 1 else -1;
            Turn(line, d, s) == Scan(s.pos + 1, next, -1, 0, s.parts + [FieldView(line, d, Span(b, s.pos))])
  {
    hide Delta, EventAt, Mid;
    DeltaValues(s.state, EventAt(line, d, s.pos));
  }

  lemma {:induction false} ScanIsRowFrom(line: string, d: Dialect, b: nat, s: Scan)
    requires InRange(line, s) && s.state >= 0 && InField(line, d, b, s)
    ensures var r := RowFrom(line, d, b, s.pos);
            var last := Scanned(line, d, s);
            && (last.state == -2 <==> !r.closed)
            && (r.closed ==> last.parts == s.parts + Views(line, d, r.fields))
    decreases |line| - s.pos
  {
    hide Delta, EventAt, FieldView, Leading, LastClose;
    var t := Turn(line, d, s);
    var event := EventAt(line, d, s.pos);
    if s.pos == |line| && Inside(line, d, b, s.pos) {
      DeltaValues(s.state, event);
    } else if Inside(line, d, b, s.pos) || event == ESCAPE || event == NORMAL {
      TurnInField(line, d, b, s);
      ScanIsRowFrom(line, d, b, t);
    } else {
      TurnEndsField(line, d, b, s);
      if event == SEPARATOR {
        assert InField(line, d, s.pos + 1, t) by { FieldStarts(line, d, t); }
        ScanIsRowFrom(line, d, s.pos + 1, t);
      }
    }
  }

  lemma FieldStarts(line: string, d: Dialect, s: Scan)
    requires s.pos <= |line| && 0 <= s.state <= 1 && s.start == -1 && s.blockEnd == 0
    ensures InField(line, d, s.pos, s)
  {
  }

  /** A non-empty line fails exactly when its quotes are not closed; otherwise there is one slice for each field. */
  lemma ParsedIsRow(line: string, d: Dialect)
    requires line != ""
    ensures Parsed(line, d) ==
            if RowOf(line, d).closed then Ok(Views(line, d, RowOf(line, d).fields)) else Err(QuotesNotClosed)
  {
    hide RowFrom, Scanned, FieldView;
    FieldStarts(line, d, START);
    ScanIsRowFrom(line, d, 0, START);
    assert [] + Views(line, d, RowOf(line, d).fields) == Views(line, d, RowOf(line, d).fields);
  }

  // ----- parity along the line -----

  /** The scan can end here: the number of quotes before is even, and a newline or the end of the line follows. */
  predicate EndsRow(line: string, d: Dialect, e: nat)
    requires e <= |line|
  {
    !Inside(line, d, 0, e) && (EventAt(line, d, e) == NEWLINE || EventAt(line, d, e) == END)
  }

  /** The first place from i on where the row can end. */
  function RowEnd(line: string, d: Dialect, i: nat): (r: Option<nat>)
    requires i <= |line|
    ensures r.Some? ==> i <= r.value <= |line| && EndsRow(line, d, r.value)
    ensures forall e: nat :: i <= e <= |line| && EndsRow(line, d, e) ==> r.Some? && r.value <= e
    decreases |line| - i
  {
    if EndsRow(line, d, i) then Some(i)
    else if i == |line| then None
    else RowEnd(line, d, i + 1)
  }

  /** The number of separators before e that follow an even number of quotes of the line. */
  function Separators(line: string, d: Dialect, e: nat): nat
    requires e <= |line|
    decreases e
  {
    if e == 0 then 0
    else
      Separators(line, d, e - 1)
      + if EventAt(line, d, e - 1) == SEPARATOR && !Inside(line, d, 0, e - 1) then 1 else 0
  }

  /** Behind an even number of quotes it does not matter whether parity is counted from there. */
  lemma {:induction false} ParityFrom(line: string, d: Dialect, b: nat, i: nat)
    requires b <= i <= |line| && !Inside(line, d, 0, b)
    ensures Inside(line, d, b, i) == Inside(line, d, 0, i)
    decreases i
  {
    if b < i {
      ParityFrom(line, d, b, i - 1);
    }
  }

  lemma {:induction false} RowCounts(line: string, d: Dialect, b: nat, i: nat)
    requires b <= i <= |line| && !Inside(line, d, 0, b)
    ensures var r, e := RowFrom(line, d, b, i), RowEnd(line, d, i);
            && (r.closed <==> e.Some?)
            && (e.Some? ==> |r.fields| + Separators(line, d, i) == 1 + Separators(line, d, e.value))
    decreases |line| - i
  {
    hide EventAt;
    ParityFrom(line, d, b, i);
    if i < |line| {
      if !Inside(line, d, b, i) && EventAt(line, d, i) == SEPARATOR {
        RowCounts(line, d, i + 1, i + 1);
      } else if !EndsRow(line, d, i) {
        RowCounts(line, d, b, i + 1);
      }
    }
  }

  /**
   * A non-empty line fails exactly when its quotes are odd in number and no newline follows an even number of them.
   * Otherwise there is one slice more than separators, before the end of the row, that follow an even number of quotes.
   */
  lemma ParsedCounts(line: string, d: Dialect)
    requires line != ""
    ensures Parsed(line, d) == Err(QuotesNotClosed) <==>
            Inside(line, d, 0, |line|)
            && forall e: nat :: e < |line| && EventAt(line, d, e) == NEWLINE ==> Inside(line, d, 0, e)
    ensures forall e: nat :: RowEnd(line, d, 0) == Some(e) ==>
              Parsed(line, d).Ok? && |Parsed(line, d).value| == 1 + Separators(line, d, e)
  {
    hide RowFrom, Parsed, Views, EventAt, Inside, Separators, RowEnd;
    assert !Inside(line, d, 0, 0) by { EvenAtStart(line, d); }
    RowCounts(line, d, 0, 0);
    ParsedIsRow(line, d);
    assert Separators(line, d, 0) == 0 by { EvenAtStart(line, d); }
    assert EndsRow(line, d, |line|) <==> !Inside(line, d, 0, |line|);
    forall e: nat | e < |line|
      ensures EndsRow(line, d, e) <==> !Inside(line, d, 0, e) && EventAt(line, d, e) == NEWLINE
    {
    }
  }

  lemma EvenAtStart(line: string, d: Dialect)
    ensures !Inside(line, d, 0, 0) && Separators(line, d, 0) == 0
  {
  }

  // ----- the fields of a row -----

  /** A field holds no separator and no newline outside quotes. */
  ghost predicate Unbroken(line: string, d: Dialect, b: nat, i: nat)
    requires b <= i <= |line|
  {
    forall j: nat :: b <= j < i && !Inside(line, d, b, j) ==>
      EventAt(line, d, j) == ESCAPE || EventAt(line, d, j) == NORMAL
  }

  /** The fields follow each other with one separator between two; the last ends with the row. */
  ghost predicate Tiles(line: string, d: Dialect, b: nat, fields: seq<Span>)
    decreases |fields|
  {
    && fields != [] && fields[0].from == b <= fields[0].to <= |line|
    && Unbroken(line, d, b, fields[0].to) && !Inside(line, d, b, fields[0].to)
    && (if |fields| == 1 then EventAt(line, d, fields[0].to) in {NEWLINE, END}
        else EventAt(line, d, fields[0].to) == SEPARATOR && Tiles(line, d, fields[0].to + 1, fields[1..]))
  }

  /** A closed row is cut at every separator outside quotes and nowhere else, up to the first newline outside quotes. */
  lemma {:induction false} RowTiles(line: string, d: Dialect, b: nat, i: nat)
    requires b <= i <= |line| && Unbroken(line, d, b, i) && RowFrom(line, d, b, i).closed
    ensures Tiles(line, d, b, RowFrom(line, d, b, i).fields)
    decreases |line| - i
  {
    hide Inside, EventAt;
    if i < |line| {
      if Inside(line, d, b, i) || (EventAt(line, d, i) != NEWLINE && EventAt(line, d, i) != SEPARATOR) {
        RowTiles(line, d, b, i + 1);
      } else if EventAt(line, d, i) == SEPARATOR {
        RowTiles(line, d, i + 1, i + 1);
        var rest := RowFrom(line, d, i + 1, i + 1).fields;
        assert ([Span(b, i)] + rest)[1..] == rest;
      }
    }
  }

  lemma ClosedRowIsTiled(line: string, d: Dialect)
    requires RowOf(line, d).closed
    ensures Tiles(line, d, 0, RowOf(line, d).fields)
  {
    RowTiles(line, d, 0, 0);
  }

  /** There is only one way to cut a row. */
  lemma {:induction false} TilesAreUnique(line: string, d: Dialect, b: nat, fs: seq<Span>, gs: seq<Span>)
    requires Tiles(line, d, b, fs) && Tiles(line, d, b, gs)
    ensures fs == gs
    decreases |fs|
  {
    hide Inside;
    if fs[0].to < gs[0].to {
      FieldEndsOnce(line, d, b, fs[0].to, gs[0].to);
    } else if gs[0].to < fs[0].to {
      FieldEndsOnce(line, d, b, gs[0].to, fs[0].to);
    }
    if |fs| > 1 && |gs| > 1 {
      TilesAreUnique(line, d, fs[0].to + 1, fs[1..], gs[1..]);
      assert fs == [fs[0]] + fs[1..] && gs == [gs[0]] + gs[1..];
    }
  }

  lemma FieldEndsOnce(line: string, d: Dialect, b: nat, i: nat, j: nat)
    requires b <= i <= j <= |line| && Unbroken(line, d, b, j) && !Inside(line, d, b, i)
    requires EventAt(line, d, i) in {SEPARATOR, NEWLINE, END}
    ensures i == j
  {
  }

  /** No quotes from i to j: nothing changes. */
  lemma {:induction false} PlainRun(line: string, d: Dialect, b: nat, i: nat, j: nat)
    requires b <= i <= j <= |line| && forall k: nat :: i <= k < j ==> !IsEscape(line, d, k)
    ensures Inside(line, d, b, j) == Inside(line, d, b, i) && LastClose(line, d, b, j) == LastClose(line, d, b, i)
    decreases j
  {
    if i < j {
      PlainRun(line, d, b, i, j - 1);
    }
  }

  lemma {:induction false} CloseOfEmptyQuotes(line: string, d: Dialect, b: nat, i: nat)
    requires b + 2 <= i <= |line| && !Inside(line, d, b, i) && LastClose(line, d, b, i) == b + 1
    ensures forall k: nat :: b + 2 <= k < i ==> !IsEscape(line, d, k)
    decreases i
  {
    if i > b + 2 {
      CloseOfEmptyQuotes(line, d, b, i - 1);
    }
  }

  /** A field that starts with two quotes, goes on and has no other quote. */
  ghost predicate StartsWithEmptyQuotes(line: string, d: Dialect, f: Span)
    requires f.from <= f.to <= |line|
  {
    && f.from + 2 < f.to
    && Leading(line, d, f.from, f.to) == 2
    && forall k: nat :: f.from + 2 <= k < f.to ==> !IsEscape(line, d, k)
  }

  /** Text after an empty pair of quotes makes the slice the rest of the line; any other slice lies in its field. */
  lemma SliceOfField(line: string, d: Dialect, f: Span)
    requires f.from <= f.to <= |line| && !Inside(line, d, f.from, f.to)
    ensures FieldView(line, d, f).View? ==>
              var v := FieldView(line, d, f);
              && f.from <= v.from
              && (if StartsWithEmptyQuotes(line, d, f) then v == View(f.from + 2, |line|) else v.to <= f.to)
    ensures FieldView(line, d, f).EmptyView? ==> !StartsWithEmptyQuotes(line, d, f)
  {
    hide EventAt, Inside;
    var b, i := f.from, f.to;
    var q := Leading(line, d, b, i);
    if q == 2 {
      assert LastClose(line, d, b, b + 2) == b + 1 by { OpenAfterOne(line, d, b); }
      if forall k: nat :: b + 2 <= k < i ==> !IsEscape(line, d, k) {
        PlainRun(line, d, b, b + 2, i);
      } else if LastClose(line, d, b, i) == b + 1 {
        CloseOfEmptyQuotes(line, d, b, i);
      } else {
        CloseOnlyGrows(line, d, b, b + 2, i);
      }
    } else if q == 1 && b + 1 < i {
      CloseAfterText(line, d, b, i);
    }
  }

  predicate Within(v: View, f: Span) {
    v.View? ==> f.from <= v.from <= v.to <= f.to
  }

  /** What makes a slice leave its field. */
  ghost predicate RunsPast(line: string, d: Dialect, f: Span)
    requires f.from <= f.to <= |line|
  {
    StartsWithEmptyQuotes(line, d, f) && f.to < |line|
  }

  /** A slice leaves its field exactly when text follows an empty pair of quotes and the line goes on after it. */
  lemma SliceLeavesField(line: string, d: Dialect, f: Span)
    requires f.from <= f.to <= |line| && !Inside(line, d, f.from, f.to)
    ensures Within(FieldView(line, d, f), f) <==> !RunsPast(line, d, f)
  {
    hide FieldView, Inside, EventAt, Leading;
    SliceOfField(line, d, f);
    FieldViewIsSlice(line, d, f);
  }

  lemma FieldViewIsSlice(line: string, d: Dialect, f: Span)
    requires f.from <= f.to <= |line|
    ensures var v := FieldView(line, d, f); v.View? ==> v.from <= v.to <= |line|
  {
    hide Leading, LastClose;
  }

  lemma {:induction false} TiledFieldsAreEven(line: string, d: Dialect, b: nat, fields: seq<Span>, k: nat)
    requires Tiles(line, d, b, fields) && k < |fields|
    ensures fields[k].from <= fields[k].to <= |line| && !Inside(line, d, fields[k].from, fields[k].to)
    decreases |fields|
  {
    hide Inside, EventAt, Unbroken;
    if k > 0 {
      TiledFieldsAreEven(line, d, fields[0].to + 1, fields[1..], k - 1);
    }
  }

  lemma {:induction false} ViewAt(line: string, d: Dialect, fields: seq<Span>, k: nat)
    requires SpansInLine(line, fields) && k < |fields|
    ensures Views(line, d, fields)[k] == FieldView(line, d, fields[k])
  {
    hide FieldView;
    if k > 0 {
      ViewAt(line, d, fields[1..], k - 1);
    }
  }

  /** Slice k of a row leaves field k exactly under that condition, so all slices stay in their fields if and only if
      no field has it. */
  lemma SlicesStayInFields(line: string, d: Dialect)
    requires line != "" && RowOf(line, d).closed
    ensures var r, fields := Parsed(line, d), RowOf(line, d).fields;
            && r.Ok? && |r.value| == |fields|
            && (forall k: nat :: k < |fields| ==> (Within(r.value[k], fields[k]) <==> !RunsPast(line, d, fields[k])))
            && ((forall k: nat :: k < |fields| ==> Within(r.value[k], fields[k]))
                <==> (forall f <- fields :: !RunsPast(line, d, f)))
  {
    hide Parsed, RowFrom, Tiles, Views, FieldView, Within, RunsPast, Inside;
    var r, fields := Parsed(line, d), RowOf(line, d).fields;
    ParsedIsRow(line, d);
    ClosedRowIsTiled(line, d);
    forall k: nat | k < |fields| ensures Within(r.value[k], fields[k]) <==> !RunsPast(line, d, fields[k]) {
      TiledFieldsAreEven(line, d, 0, fields, k);
      ViewAt(line, d, fields, k);
      SliceLeavesField(line, d, fields[k]);
    }
  }

  /** The shortest such line: the first slice is not its field `""x` without quotes but `x,y`. */
  lemma SliceRunsPastSeparator()
    ensures var line, d := "\"\"x,y", Dialect(',', '"');
            && Parsed(line, d) == Ok([View(2, 5), View(4, 5)])
            && RowOf(line, d) == Row([Span(0, 3), Span(4, 5)], true)
            && RunsPast(line, d, Span(0, 3))
  {
    var line, d := "\"\"x,y", Dialect(',', '"');
    assert EventAt(line, d, 0) == ESCAPE && EventAt(line, d, 1) == ESCAPE && EventAt(line, d, 2) == NORMAL;
    assert EventAt(line, d, 3) == SEPARATOR && EventAt(line, d, 4) == NORMAL && EventAt(line, d, 5) == END;
    ScanOfSample(line, d);
    RowOfSample(line, d);
  }

  ghost predicate IsSample(line: string, d: Dialect) {
    && |line| == 5
    && EventAt(line, d, 0) == ESCAPE && EventAt(line, d, 1) == ESCAPE && EventAt(line, d, 2) == NORMAL
    && EventAt(line, d, 3) == SEPARATOR && EventAt(line, d, 4) == NORMAL && EventAt(line, d, 5) == END
  }

  lemma ScanOfSample(line: string, d: Dialect)
    requires IsSample(line, d)
    ensures Parsed(line, d) == Ok([View(2, 5), View(4, 5)])
  {
    hide EventAt, Delta;
    DeltaValues(0, ESCAPE);
    DeltaValues(2, ESCAPE);
    DeltaValues(4, NORMAL);
    DeltaValues(0, SEPARATOR);
    DeltaValues(1, NORMAL);
    DeltaValues(0, END);
    var s1 := Turn(line, d, START);
    assert s1 == Scan(1, 2, -1, 0, []);
    var s2 := Turn(line, d, s1);
    assert s2 == Scan(2, 4, -1, 1, []);
    var s3 := Turn(line, d, s2);
    assert s3 == Scan(3, 0, 2, 1, []);
    var s4 := Turn(line, d, s3);
    assert s4 == Scan(4, 1, -1, 0, [View(2, 5)]);
    var s5 := Turn(line, d, s4);
    assert s5 == Scan(5, 0, 4, 0, [View(2, 5)]);
    var s6 := Turn(line, d, s5);
    assert s6 == Scan(6, -1, -1, 0, [View(2, 5), View(4, 5)]);
    assert Scanned(line, d, s6) == s6;
    assert Scanned(line, d, s5) == s6;
    assert Scanned(line, d, s4) == s6;
    assert Scanned(line, d, s3) == s6;
    assert Scanned(line, d, s2) == s6;
    assert Scanned(line, d, s1) == s6;
    assert Scanned(line, d, START) == s6;
  }

  lemma RowOfSample(line: string, d: Dialect)
    requires IsSample(line, d)
    ensures RowOf(line, d) == Row([Span(0, 3), Span(4, 5)], true)
    ensures RunsPast(line, d, Span(0, 3))
  {
    hide EventAt;
    assert !Inside(line, d, 0, 0);
    assert Inside(line, d, 0, 1);
    assert !Inside(line, d, 0, 2);
    assert !Inside(line, d, 0, 3);
    assert !Inside(line, d, 4, 4) && !Inside(line, d, 4, 5);
    assert RowFrom(line, d, 4, 5) == Row([Span(4, 5)], true);
    assert RowFrom(line, d, 4, 4) == Row([Span(4, 5)], true);
    assert RowFrom(line, d, 0, 3) == Row([Span(0, 3), Span(4, 5)], true);
    assert RowFrom(line, d, 0, 2) == RowFrom(line, d, 0, 3);
    assert RowFrom(line, d, 0, 1) == RowFrom(line, d, 0, 2);
  }

  lemma OpenAfterOne(line: string, d: Dialect, b: nat)
    requires b + 2 <= |line| && IsEscape(line, d, b) && IsEscape(line, d, b + 1)
    ensures LastClose(line, d, b, b + 2) == b + 1
  {
    assert !Inside(line, d, b, b);
    assert Inside(line, d, b, b + 1);
  }

  lemma {:induction false} CloseOnlyGrows(line: string, d: Dialect, b: nat, i: nat, j: nat)
    requires b <= i <= j <= |line|
    ensures LastClose(line, d, b, i) <= LastClose(line, d, b, j)
    ensures LastClose(line, d, b, j) == LastClose(line, d, b, i) || LastClose(line, d, b, j) >= i
    decreases j
  {
    if i < j {
      CloseOnlyGrows(line, d, b, i, j - 1);
    }
  }

  lemma CloseAfterText(line: string, d: Dialect, b: nat, i: nat)
    requires b + 2 <= i <= |line| && IsEscape(line, d, b) && !IsEscape(line, d, b + 1)
    ensures LastClose(line, d, b, i) == 0 || LastClose(line, d, b, i) >= b + 2
  {
    assert !Inside(line, d, b, b);
    assert LastClose(line, d, b, b + 1) == 0;
    assert LastClose(line, d, b, b + 2) == 0;
    CloseOnlyGrows(line, d, b, b + 2, i);
  }

  // ----- the round trip with a printer -----

  predicate NeedsQuotes(field: string, d: Dialect) {
    d.separator in field || '\n' in field
  }

  function PrintedField(field: string, d: Dialect): string {
    if NeedsQuotes(field, d) then [d.escape] + field + [d.escape] else field
  }

  function Printed(fields: seq<string>, d: Dialect): string
    requires fields != []
  {
    if |fields| == 1 then PrintedField(fields[0], d)
    else PrintedField(fields[0], d) + [d.separator] + Printed(fields[1..], d)
  }

  function Texts(line: string, views: seq<View>): seq<string>
    requires AllInLine(line, views)
  {
    if views == [] then [] else [Text(line, views[0])] + Texts(line, views[1..])
  }

  /** Where the fields of a printed row lie, from b on. */
  function PrintedSpans(fields: seq<string>, d: Dialect, b: nat): (r: seq<Span>)
    requires fields != []
    ensures |r| == |fields|
    ensures forall f <- r :: f.from <= f.to <= b + |Printed(fields, d)|
  {
    var e := b + |PrintedField(fields[0], d)|;
    if |fields| == 1 then [Span(b, e)] else [Span(b, e)] + PrintedSpans(fields[1..], d, e + 1)
  }

  lemma PlainFieldIsRead(line: string, d: Dialect, b: nat, e: nat)
    requires b <= e <= |line| && forall k: nat :: b <= k < e ==> EventAt(line, d, k) == NORMAL
    ensures Unbroken(line, d, b, e) && !Inside(line, d, b, e)
    ensures FieldView(line, d, Span(b, e)) == if b == e then EmptyView else View(b, e)
  {
    hide EventAt;
    PlainRun(line, d, b, b, e);
    assert !Inside(line, d, b, b) && LastClose(line, d, b, b) == 0;
    assert b < e ==> EventAt(line, d, b) == NORMAL;
  }

  lemma QuotedRun(line: string, d: Dialect, b: nat, e: nat)
    requires b + 3 <= e <= |line| && IsEscape(line, d, b) && IsEscape(line, d, e - 1)
    requires forall k: nat :: b + 1 <= k < e - 1 ==> !IsEscape(line, d, k)
    ensures Unbroken(line, d, b, e) && !Inside(line, d, b, e) && LastClose(line, d, b, e) == e - 1
    ensures Leading(line, d, b, e) == 1
  {
    assert !Inside(line, d, b, b);
    assert Inside(line, d, b, b + 1);
    forall k: nat | b + 1 <= k < e ensures Inside(line, d, b, k) {
      PlainRun(line, d, b, b + 1, k);
    }
  }

  lemma QuotedFieldIsRead(line: string, d: Dialect, b: nat, e: nat)
    requires b + 3 <= e <= |line| && IsEscape(line, d, b) && IsEscape(line, d, e - 1)
    requires forall k: nat :: b + 1 <= k < e - 1 ==> !IsEscape(line, d, k)
    ensures Unbroken(line, d, b, e) && !Inside(line, d, b, e)
    ensures FieldView(line, d, Span(b, e)) == View(b + 1, e - 1)
  {
    hide EventAt, Inside, LastClose, Leading, IsEscape;
    QuotedRun(line, d, b, e);
  }

  /** A printed field at b..e of the line reads as one field, and its slice is the field. */
  lemma PrintedFieldIsRead(line: string, d: Dialect, field: string, b: nat, e: nat)
    requires d.separator != d.escape && d.escape !in field
    requires b <= e <= |line| && line[b..e] == PrintedField(field, d)
    ensures Unbroken(line, d, b, e) && !Inside(line, d, b, e)
    ensures var v := FieldView(line, d, Span(b, e)); AllInLine(line, [v]) && Text(line, v) == field
  {
    hide Unbroken, Inside, FieldView;
    if NeedsQuotes(field, d) {
      assert field != "";
      hide NeedsQuotes;
      QuotedCharacters(line, d, field, b, e);
      QuotedFieldIsRead(line, d, b, e);
    } else {
      PlainCharacters(line, d, field, b, e);
      PlainFieldIsRead(line, d, b, e);
    }
  }

  lemma PlainCharacters(line: string, d: Dialect, field: string, b: nat, e: nat)
    requires !NeedsQuotes(field, d) && d.escape !in field
    requires b <= e <= |line| && line[b..e] == field
    ensures forall k: nat :: b <= k < e ==> EventAt(line, d, k) == NORMAL
  {
    forall k: nat | b <= k < e ensures EventAt(line, d, k) == NORMAL {
      assert line[k] == line[b..e][k - b] && field[k - b] in field;
    }
  }

  lemma QuotedCharacters(line: string, d: Dialect, field: string, b: nat, e: nat)
    requires field != "" && d.escape !in field && d.separator != d.escape
    requires b <= e <= |line| && line[b..e] == [d.escape] + field + [d.escape]
    ensures b + 3 <= e && IsEscape(line, d, b) && IsEscape(line, d, e - 1) && line[b + 1..e - 1] == field
    ensures forall k: nat :: b + 1 <= k < e - 1 ==> !IsEscape(line, d, k)
  {
    assert forall k: nat :: b <= k < e ==> line[k] == line[b..e][k - b];
    assert line[b] == d.escape && line[e - 1] == d.escape;
    assert line[b + 1..e - 1] == line[b..e][1..|field| + 1] == field;
    forall k: nat | b + 1 <= k < e - 1 ensures !IsEscape(line, d, k) {
      assert line[k] == field[k - b - 1] && field[k - b - 1] in field;
    }
  }

  /** The printed spans cut the line as the row is cut, and their slices are the fields. */
  lemma {:induction false} PrintedRowIsRead(line: string, d: Dialect, fields: seq<string>, b: nat)
    requires d.separator != d.escape && fields != [] && forall f <- fields :: d.escape !in f
    requires b <= |line| && line[b..] == Printed(fields, d)
    ensures var spans := PrintedSpans(fields, d, b);
            Tiles(line, d, b, spans) && SpansInLine(line, spans) && Texts(line, Views(line, d, spans)) == fields
    decreases |fields|
  {
    hide Unbroken, Inside, FieldView, PrintedField, Printed, Text, Tiles, Views, Texts, SpansInLine, AllInLine, EventAt;
    var e := b + |PrintedField(fields[0], d)|;
    PrintedStart(line, d, fields, b);
    PrintedFieldIsRead(line, d, fields[0], b, e);
    if |fields| > 1 {
      PrintedRowIsRead(line, d, fields[1..], e + 1);
      MoreFields(line, d, fields, b, e, PrintedSpans(fields[1..], d, e + 1));
    } else {
      LastField(line, d, fields, b, e);
    }
  }

  lemma MoreFields(line: string, d: Dialect, fields: seq<string>, b: nat, e: nat, rest: seq<Span>)
    requires b <= e < |line| && Unbroken(line, d, b, e) && !Inside(line, d, b, e) && line[e] == d.separator
    requires fields != []
    requires var v := FieldView(line, d, Span(b, e)); AllInLine(line, [v]) && Text(line, v) == fields[0]
    requires Tiles(line, d, e + 1, rest) && SpansInLine(line, rest) && Texts(line, Views(line, d, rest)) == fields[1..]
    ensures var spans := [Span(b, e)] + rest;
            Tiles(line, d, b, spans) && SpansInLine(line, spans) && Texts(line, Views(line, d, spans)) == fields
  {
    hide *;
    TilesCons(line, d, b, e, rest);
    TextsOfCons(line, d, Span(b, e), rest);
    assert fields == [fields[0]] + fields[1..];
  }

  lemma LastField(line: string, d: Dialect, fields: seq<string>, b: nat, e: nat)
    requires b <= e == |line| && Unbroken(line, d, b, e) && !Inside(line, d, b, e)
    requires |fields| == 1
    requires var v := FieldView(line, d, Span(b, e)); AllInLine(line, [v]) && Text(line, v) == fields[0]
    ensures var spans := [Span(b, e)];
            Tiles(line, d, b, spans) && SpansInLine(line, spans) && Texts(line, Views(line, d, spans)) == fields
  {
    hide *;
    assert [Span(b, e)] + [] == [Span(b, e)];
    TilesLast(line, d, b, e);
    NoTexts(line, d);
    TextsOfCons(line, d, Span(b, e), []);
    assert fields == [fields[0]];
  }

  lemma NoTexts(line: string, d: Dialect)
    ensures SpansInLine(line, []) && Texts(line, Views(line, d, [])) == []
  {
  }

  lemma TilesCons(line: string, d: Dialect, b: nat, e: nat, rest: seq<Span>)
    requires b <= e < |line| && Unbroken(line, d, b, e) && !Inside(line, d, b, e) && line[e] == d.separator
    requires Tiles(line, d, e + 1, rest)
    ensures Tiles(line, d, b, [Span(b, e)] + rest)
  {
    hide Unbroken, Inside;
    assert ([Span(b, e)] + rest)[1..] == rest;
  }

  lemma TilesLast(line: string, d: Dialect, b: nat, e: nat)
    requires b <= e == |line| && Unbroken(line, d, b, e) && !Inside(line, d, b, e)
    ensures Tiles(line, d, b, [Span(b, e)])
  {
  }

  lemma TextsOfCons(line: string, d: Dialect, f: Span, rest: seq<Span>)
    requires f.from <= f.to <= |line| && SpansInLine(line, rest)
    ensures SpansInLine(line, [f] + rest)
    ensures var v := FieldView(line, d, f);
            AllInLine(line, [v])
            && Texts(line, Views(line, d, [f] + rest)) == [Text(line, v)] + Texts(line, Views(line, d, rest))
  {
    hide FieldView, Text;
    assert ([f] + rest)[1..] == rest;
    var views := Views(line, d, [f] + rest);
    assert views == [FieldView(line, d, f)] + Views(line, d, rest);
    assert views[1..] == Views(line, d, rest);
  }

  /** What the first field and the separator after it are. */
  lemma PrintedStart(line: string, d: Dialect, fields: seq<string>, b: nat)
    requires fields != [] && b <= |line| && line[b..] == Printed(fields, d)
    ensures var e := b + |PrintedField(fields[0], d)|;
            && e <= |line| && line[b..e] == PrintedField(fields[0], d)
            && (if |fields| == 1 then e == |line|
                else e < |line| && line[e] == d.separator && line[e + 1..] == Printed(fields[1..], d))
  {
    hide PrintedField;
    var field := PrintedField(fields[0], d);
    var e := b + |field|;
    assert line[b..e] == line[b..][..|field|] == field;
    if |fields| > 1 {
      assert line[e] == line[b..][|field|] == d.separator;
      assert line[e + 1..] == line[b..][|field| + 1..] == Printed(fields[1..], d);
    }
  }

  lemma {:induction false} TiledRowIsRow(line: string, d: Dialect, b: nat, i: nat, fields: seq<Span>)
    requires Tiles(line, d, b, fields) && b <= i <= fields[0].to
    ensures RowFrom(line, d, b, i) == Row(fields, true)
    decreases |line| - i
  {
    hide Inside, EventAt;
    if i < fields[0].to {
      TiledRowIsRow(line, d, b, i + 1, fields);
    } else if |fields| > 1 {
      TiledRowIsRow(line, d, i + 1, i + 1, fields[1..]);
      assert fields == [fields[0]] + fields[1..];
    } else {
      assert fields == [fields[0]];
    }
  }

  /** Reading a printed row gives back its fields. */
  lemma CsvRoundTrip(d: Dialect, fields: seq<string>)
    requires d.separator != d.escape && fields != [] && (forall f <- fields :: d.escape !in f)
    requires Printed(fields, d) != ""
    ensures Parsed(Printed(fields, d), d).Ok?
    ensures var views := Parsed(Printed(fields, d), d).value;
            AllInLine(Printed(fields, d), views) && Texts(Printed(fields, d), views) == fields
  {
    hide Parsed, Printed, Tiles, RowFrom, Views, Texts;
    var line := Printed(fields, d);
    assert line[0..] == line;
    PrintedRowIsRead(line, d, fields, 0);
    TiledRowIsRow(line, d, 0, 0, PrintedSpans(fields, d, 0));
    ParsedIsRow(line, d);
  }
}
