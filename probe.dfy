/** The terminal capability probe: the cursor position query and the column count. */
module Probe {
  import opened Common
  import opened Text
  import opened Os

  const ESC: char := 27 as char
  /** At most this many bytes of a cursor position reply are read. */
  const REPLY_MAX: nat := 32
  const DEFAULT_COLS: int := 80

  /** Device status report 6: asks the terminal where the cursor is. */
  const CursorQuery: string := [ESC, '[', '6', 'n']
  /** Cursor forward by 999: the terminal stops it at the right margin. */
  const ToRightMargin: string := [ESC, '[', '9', '9', '9', 'C']

  /** Cursor backward by n columns. */
  function CursorLeft(n: nat): (r: string)
    ensures |r| >= 4 && r[..2] == [ESC, '['] && r[|r| - 1] == 'D'
    // the parameter is n in decimal
    ensures AllDigits(r[2..|r| - 1]) && DigitsValue(r[2..|r| - 1]) == n
  {
    var r := [ESC, '['] + Decimal(n) + ['D'];
    assert r[2..|r| - 1] == Decimal(n);
    r
  }

  /** The bytes of a cursor position report ESC [ rows ; cols R (section 8.3.14 of ECMA-48). */
  function Report(rows: string, cols: string): string {
    [ESC, '['] + rows + [';'] + cols + ['R']
  }

  /** How many reads the reply loop of get_cursor_position performs on input: up to and including the
      first 'R', and at most REPLY_MAX (reads at end of input count too). */
  function ReplyReads(input: seq<char>): (n: nat)
    ensures 1 <= n <= REPLY_MAX
    ensures forall j :: 0 <= j < n - 1 && j < |input| ==> input[j] != 'R'
    ensures n < REPLY_MAX ==> n <= |input| && input[n - 1] == 'R'
  {
    var k := IndexOf(input, 'R');
    if k < |input| && k < REPLY_MAX then k + 1 else REPLY_MAX
  }

  /** The j-th read of os.read(ifd, 1) on input: a byte, or None (Python's '') past the end. */
  function ReadAt(input: seq<char>, j: nat): Option<char> {
    if j < |input| then Some(input[j]) else None
  }

  /** The list buf the reply loop builds from input. */
  function Collect(input: seq<char>): (buf: seq<Option<char>>)
    ensures forall j :: 0 <= j < |buf| ==> buf[j] == ReadAt(input, j)
    // the loop stops after the first 'R', or after REPLY_MAX reads
    ensures 1 <= |buf| <= REPLY_MAX
    ensures forall j :: 0 <= j < |buf| - 1 ==> buf[j] != Some('R')
    ensures |buf| < REPLY_MAX ==> buf[|buf| - 1] == Some('R')
  {
    seq(ReplyReads(input), j requires 0 <= j => ReadAt(input, j))
  }

  /** The reads of the reply loop are the only list with its stopping rule. */
  lemma CollectDetermined(input: seq<char>, buf: seq<Option<char>>)
    requires 1 <= |buf| <= REPLY_MAX
    requires forall j :: 0 <= j < |buf| ==> buf[j] == ReadAt(input, j)
    requires forall j :: 0 <= j < |buf| - 1 ==> buf[j] != Some('R')
    requires |buf| < REPLY_MAX ==> buf[|buf| - 1] == Some('R')
    ensures buf == Collect(input)
  {
    var k := IndexOf(input, 'R');
    var n := ReplyReads(input);
    assert k < |input| ==> ReadAt(input, k) == Some('R');
    assert n < REPLY_MAX ==> ReadAt(input, n - 1) == Some('R');
    assert |buf| == n;
  }

  /** ''.join(buf); a read at end of input contributed Python's ''. */
  function Concat(buf: seq<Option<char>>): (r: string)
    ensures |r| <= |buf|
    ensures forall i :: 0 <= i < |r| ==> Some(r[i]) in buf
    ensures (forall j :: 0 <= j < |buf| ==> buf[j].Some?) ==> |r| == |buf|
    decreases |buf|
  {
    if buf == [] then ""
    else (if buf[0].Some? then [buf[0].value] else "") + Concat(buf[1..])
  }

  /** The first n bytes of s gone (all of them when s is shorter). */
  function Drop(s: seq<char>, n: nat): seq<char> {
    if n <= |s| then s[n..] else []
  }

  /** buf is framed as ESC [ ... R. */
  predicate Framed(buf: seq<Option<char>>) {
    |buf| >= 2 && buf[0] == Some(ESC) && buf[1] == Some('[') && buf[|buf| - 1] == Some('R')
  }

  /** The parse at the end of get_cursor_position, on the collected reply. */
  function ParseReply(buf: seq<Option<char>>): (r: Outcome<int>)
    // buf[0] or buf[1] is out of range
    ensures r == Raised(IndexError) <==> buf == [] || (|buf| == 1 && buf[0] == Some(ESC))
    ensures buf != [] && !Framed(buf) && !(|buf| == 1 && buf[0] == Some(ESC)) ==> r == Returned(-1)
    ensures Framed(buf) ==> |buf| >= 3 && r == ParseBody(Concat(buf[2..|buf| - 1]))
  {
    if |buf| == 0 then Raised(IndexError)
    else if buf[0] != Some(ESC) then Returned(-1)
    else if |buf| == 1 then Raised(IndexError)
    else if buf[1] != Some('[') || buf[|buf| - 1] != Some('R') then Returned(-1)
    else ParseBody(Concat(buf[2..|buf| - 1]))
  }

  /** (rows, cols) = body.split(';') and then int(cols, 10). */
  function ParseBody(body: string): (r: Outcome<int>)
    ensures r.Raised? ==> r.error == ValueError
    // both the unpacking and int() need exactly one ';', and the value is the field after it
    ensures ';' !in body ==> r == Raised(ValueError)
  {
    var fields := Split(body, ';');
    if |fields| != 2 then Raised(ValueError)
    else
      var v := ParseInt(fields[1]);
      if v.None? then Raised(ValueError) else Returned(v.value)
  }

  /** A parsed body has exactly one ';', and its value is int() of the text after it. */
  lemma ParseBodyField(body: string)
    requires ParseBody(body).Returned?
    ensures var k := IndexOf(body, ';');
      k < |body| && ';' !in body[k + 1..] && ParseInt(body[k + 1..]) == Some(ParseBody(body).value)
  {
    SplitTwo(body, ';');
  }

  /** get_cursor_position: the returned column (-1 when the query cannot be written or the reply is not
      framed as ESC [ ... R), or the exception split or int raise, and the device afterwards. */
  function CursorPosition(d: Device): (res: (Outcome<int>, Device))
    ensures SameTerminal(d, res.1)
    // the query is all it writes
    ensures res.1.output == WriteBytes(d, CursorQuery).1.output && res.1.room == WriteBytes(d, CursorQuery).1.room
    ensures |res.1.input| <= |d.input| <= |res.1.input| + REPLY_MAX
    ensures res.1.input == d.input[|d.input| - |res.1.input|..]
    // it stops at the first 'R'
    ensures forall j :: 0 <= j < |d.input| - |res.1.input| - 1 ==> d.input[j] != 'R'
    ensures d.room < |CursorQuery| ==> res.0 == Returned(-1) && res.1.input == d.input
    ensures res.0 != Raised(IndexError)
    // anything but -1 needs a reply framed as ESC [ ... R
    ensures res.0 != Returned(-1) ==>
      var k := |d.input| - |res.1.input|;
      3 <= k && d.input[0] == ESC && d.input[1] == '[' && d.input[k - 1] == 'R'
  {
    var w := WriteBytes(d, CursorQuery);
    var d1 := w.1;
    if w.0 != |CursorQuery| then (Returned(-1), d1)
    else
      var buf := Collect(d1.input);
      assert |buf| == 1 ==> buf[0] == Some('R');
      (ParseReply(buf), d1.(input := Drop(d1.input, |buf|)))
  }

  /** The loop of get_cursor_position, reading the reply byte by byte. */
  method GetCursorPosition(d: Device) returns (r: Outcome<int>, d': Device)
    ensures (r, d') == CursorPosition(d)
  {
    var w := WriteBytes(d, CursorQuery);
    d' := w.1;
    if w.0 != |CursorQuery| {
      return Returned(-1), d';
    }
    ghost var d1 := d';
    var buf: seq<Option<char>> := [];
    while |buf| < REPLY_MAX
      invariant |buf| <= REPLY_MAX
      invariant forall j :: 0 <= j < |buf| ==> buf[j] == ReadAt(d1.input, j) && buf[j] != Some('R')
      invariant d' == d1.(input := Drop(d1.input, |buf|))
    {
      ReadNext(d1, |buf|);
      var rd := ReadByte(d');
      d' := rd.1;
      buf := buf + [rd.0];
      if rd.0 == Some('R') {
        break;
      }
    }
    CollectDetermined(d1.input, buf);
    CursorPositionRead(d);
    r := ParseReply(buf);
  }

  /** The next read after n of them yields the n-th byte and leaves the input after it. */
  lemma ReadNext(d: Device, n: nat)
    ensures var rd := ReadByte(d.(input := Drop(d.input, n)));
      rd.0 == ReadAt(d.input, n) && rd.1 == d.(input := Drop(d.input, n + 1))
  {
    if n < |d.input| {
      assert d.input[n..][1..] == d.input[n + 1..];
    }
  }

  /** Once the query is written whole, get_cursor_position parses what the reply loop collects. */
  lemma CursorPositionRead(d: Device)
    requires d.room >= |CursorQuery|
    ensures var d1 := WriteBytes(d, CursorQuery).1;
      var buf := Collect(d1.input);
      CursorPosition(d) == (ParseReply(buf), d1.(input := Drop(d1.input, |buf|)))
  {
  }

  lemma {:induction false} ConcatSomes(buf: seq<Option<char>>, s: string)
    requires |buf| == |s|
    requires forall j :: 0 <= j < |buf| ==> buf[j] == Some(s[j])
    ensures Concat(buf) == s
  {
    if buf != [] {
      ConcatSomes(buf[1..], s[1..]);
      assert s == [s[0]] + s[1..];
    }
  }

  /** A report is framed as ESC [ ... R and its only 'R' is the last byte. */
  predicate GoodReport(rows: string, cols: string) {
    ';' !in rows && 'R' !in rows && cols != [] && AllDigits(cols) && |Report(rows, cols)| <= REPLY_MAX
  }

  function Somes(s: string): (buf: seq<Option<char>>)
    ensures |buf| == |s| && forall j :: 0 <= j < |s| ==> buf[j] == Some(s[j])
  {
    seq(|s|, j requires 0 <= j < |s| => Some(s[j]))
  }

  /** The reply loop reads a well-formed report and nothing after it. */
  lemma CollectReport(rows: string, cols: string, rest: seq<char>)
    requires GoodReport(rows, cols)
    ensures Collect(Report(rows, cols) + rest) == Somes(Report(rows, cols))
  {
    var rep := Report(rows, cols);
    var input := rep + rest;
    var k := |rep|;
    forall j | 0 <= j < k - 1
      ensures input[j] != 'R'
    {
      assert input[j] == rep[j];
      if 2 <= j < 2 + |rows| {
        assert rep[j] == rows[j - 2];
      } else if 2 + |rows| < j {
        assert rep[j] == cols[j - 3 - |rows|];
      }
    }
    assert input[k - 1] == 'R';
    assert IndexOf(input, 'R') == k - 1;
    assert ReplyReads(input) == k;
  }

  /** The parse of a well-formed report is the decimal value of its column field. */
  lemma ParseReport(rows: string, cols: string)
    requires GoodReport(rows, cols)
    ensures ParseReply(Somes(Report(rows, cols))) == Returned(DigitsValue(cols) as int)
  {
    var rep := Report(rows, cols);
    var buf := Somes(rep);
    var k := |rep|;
    var text := rows + [';'] + cols;
    assert rep[2..k - 1] == text;
    FramedReply(buf);
    ConcatSomes(buf[2..k - 1], text);
    ParseFields(rows, cols);
  }

  lemma FramedReply(buf: seq<Option<char>>)
    requires |buf| >= 3 && buf[0] == Some(ESC) && buf[1] == Some('[') && buf[|buf| - 1] == Some('R')
    ensures ParseReply(buf) == ParseBody(Concat(buf[2..|buf| - 1]))
  {
  }

  lemma ParseFields(rows: string, cols: string)
    requires ';' !in rows && cols != [] && AllDigits(cols)
    ensures ParseBody(rows + [';'] + cols) == Returned(DigitsValue(cols) as int)
  {
    assert ';' !in cols by {
      forall i | 0 <= i < |cols| ensures cols[i] != ';' {
        assert IsDigit(cols[i]);
      }
    }
    ParseTwoFields(rows, cols);
    ParseIntDigits(cols);
  }

  /** A well-formed report, answered to a query that could be written, yields its column field in
      decimal and consumes exactly the report. */
  lemma WellFormedReport(d: Device, rows: string, cols: string, rest: seq<char>)
    requires d.room >= |CursorQuery|
    requires d.input == Report(rows, cols) + rest
    requires GoodReport(rows, cols)
    ensures CursorPosition(d).0 == Returned(DigitsValue(cols) as int)
    ensures CursorPosition(d).1 == d.(input := rest, output := d.output + CursorQuery, room := d.room - |CursorQuery|)
  {
    assert CursorQuery[..|CursorQuery|] == CursorQuery;
    CollectReport(rows, cols, rest);
    ParseReport(rows, cols);
    assert d.input[|Report(rows, cols)|..] == rest;
  }

  /** get_columns: the ioctl column count when it is nonzero; otherwise the difference the two cursor
      queries around a move to the right margin measure, restoring the cursor; 80 when a step fails. */
  function Columns(d: Device): (res: (Outcome<int>, Device))
    ensures SameTerminal(d, res.1)
    // never a negative width
    ensures res.0.Returned? ==> res.0.value >= 0
  {
    if d.winCols != 0 then (Returned(d.winCols), d)
    else
      var q1 := CursorPosition(d);
      var start := q1.0;
      if start.Raised? then q1
      else if start.value < 0 then (Returned(DEFAULT_COLS), q1.1)
      else
        var w := WriteBytes(q1.1, ToRightMargin);
        if w.0 != |ToRightMargin| then (Returned(DEFAULT_COLS), w.1)
        else
          var q2 := CursorPosition(w.1);
          var cols := q2.0;
          if cols.Raised? then q2
          else if cols.value < 0 then (Returned(DEFAULT_COLS), q2.1)
          else (cols, RestoreColumn(q2.1, start.value, cols.value))
  }

  /** Moves the cursor back from column cols to column start, when it moved right. */
  function RestoreColumn(d: Device, start: int, cols: int): (d': Device)
    ensures SameTerminal(d, d') && d'.input == d.input
    ensures cols <= start ==> d' == d
    ensures cols > start && d.room >= |CursorLeft(cols - start)| ==> d'.output == d.output + CursorLeft(cols - start)
  {
    if cols > start then WriteBytes(d, CursorLeft(cols - start)).1 else d
  }

  method GetColumns(d: Device) returns (cols: Outcome<int>, d': Device)
    ensures (cols, d') == Columns(d)
  {
    if d.winCols != 0 {
      return Returned(d.winCols), d;
    }
    var start;
    start, d' := GetCursorPosition(d);
    if start.Raised? {
      return start, d';
    }
    if start.value < 0 {
      return Returned(DEFAULT_COLS), d';
    }
    var w := WriteBytes(d', ToRightMargin);
    d' := w.1;
    if w.0 != |ToRightMargin| {
      return Returned(DEFAULT_COLS), d';
    }
    cols, d' := GetCursorPosition(d');
    if cols.Raised? {
      return;
    }
    if cols.value < 0 {
      return Returned(DEFAULT_COLS), d';
    }
    d' := RestoreColumn(d', start.value, cols.value);
  }

  /** A nonzero ioctl column count is the answer, and nothing is read or written. */
  lemma ColumnsFromIoctl(d: Device)
    requires d.winCols != 0
    ensures Columns(d) == (Returned(d.winCols as int), d)
  {
  }

  /** Each failing step of the fallback yields the default width. */
  lemma ColumnsFallback(d: Device)
    requires d.winCols == 0
    ensures var (start, d1) := CursorPosition(d);
      start.Returned? && start.value < 0 ==> Columns(d) == (Returned(DEFAULT_COLS), d1)
    ensures var (start, d1) := CursorPosition(d);
      start.Returned? && start.value >= 0 && d1.room < |ToRightMargin| ==>
        Columns(d).0 == Returned(DEFAULT_COLS)
    ensures var (start, d1) := CursorPosition(d);
      var d2 := WriteBytes(d1, ToRightMargin).1;
      start.Returned? && start.value >= 0 && d1.room >= |ToRightMargin| &&
      CursorPosition(d2).0.Returned? && CursorPosition(d2).0.value < 0 ==>
        Columns(d) == (Returned(DEFAULT_COLS), CursorPosition(d2).1)
  {
  }

  /** An exception from either cursor query of the fallback propagates out of get_columns unchanged. */
  lemma ColumnsRaises(d: Device)
    requires d.winCols == 0
    ensures CursorPosition(d).0.Raised? ==> Columns(d) == CursorPosition(d)
    ensures var (start, d1) := CursorPosition(d);
      var d2 := WriteBytes(d1, ToRightMargin).1;
      start.Returned? && start.value >= 0 && d1.room >= |ToRightMargin| && CursorPosition(d2).0.Raised? ==>
        Columns(d) == CursorPosition(d2)
  {
  }

  /** int() accepts blanks after the sign, so a reply body rows ; - digits parses as minus the digits'
      value (and get_columns then falls back to the default width). */
  lemma SpacedSignBody(rows: string, digits: string)
    requires ';' !in rows && digits != [] && AllDigits(digits)
    ensures ParseBody(rows + [';', '-', ' '] + digits) == Returned(-(DigitsValue(digits) as int))
  {
    var cols := ['-', ' '] + digits;
    assert rows + [';', '-', ' '] + digits == rows + [';'] + cols;
    SpacedSignInt(cols, digits);
    ParseTwoFields(rows, cols);
  }

  lemma SpacedSignInt(cols: string, digits: string)
    requires digits != [] && AllDigits(digits) && cols == ['-', ' '] + digits
    ensures ';' !in cols
    ensures ParseInt(cols) == Some(-(DigitsValue(digits) as int))
  {
    assert cols[|cols| - 1] == digits[|digits| - 1];
    forall i | 2 <= i < |cols| ensures IsDigit(cols[i]) {
      assert cols[i] == digits[i - 2];
    }
    StripTrimmed(cols);
    assert cols[1..2] == [' '] && cols[2..] == digits;
    ParseIntSigned(cols, 2);
  }

  /** A body with one ';' parses as int() of the field after it. */
  lemma ParseTwoFields(rows: string, cols: string)
    requires ';' !in rows && ';' !in cols
    ensures ParseBody(rows + [';'] + cols) == if ParseInt(cols).Some? then Returned(ParseInt(cols).value) else Raised(ValueError)
  {
    assert Join([rows, cols], ';') == rows + [';'] + cols;
    SplitJoin([rows, cols], ';');
  }

  /** With no ioctl answer and two well-formed reports, the width is the second report's column, and the
      output is the two queries around the move to the right margin, then a cursor-left of the measured
      distance only when the column moved right. */
  lemma ColumnsMeasured(d: Device, r1: string, c1: string, r2: string, c2: string, rest: seq<char>)
    requires d.winCols == 0
    requires d.room >= 2 * |CursorQuery| + |ToRightMargin|
    requires d.input == Report(r1, c1) + Report(r2, c2) + rest
    requires GoodReport(r1, c1) && GoodReport(r2, c2)
    ensures Columns(d).0 == Returned(DigitsValue(c2) as int)
    ensures var d3 := d.(input := rest, output := d.output + CursorQuery + ToRightMargin + CursorQuery,
                         room := d.room - (2 * |CursorQuery| + |ToRightMargin|));
      Columns(d).1 == RestoreColumn(d3, DigitsValue(c1), DigitsValue(c2))
  {
    MeasuredQueries(d, r1, c1, r2, c2, rest);
    ColumnsBothQueries(d, DigitsValue(c1), DigitsValue(c2));
  }

  /** The two queries of the fallback read the two reports, around a margin move written whole. */
  lemma MeasuredQueries(d: Device, r1: string, c1: string, r2: string, c2: string, rest: seq<char>)
    requires d.room >= 2 * |CursorQuery| + |ToRightMargin|
    requires d.input == Report(r1, c1) + Report(r2, c2) + rest
    requires GoodReport(r1, c1) && GoodReport(r2, c2)
    ensures CursorPosition(d).0 == Returned(DigitsValue(c1) as int)
    ensures CursorPosition(d).1.room >= |ToRightMargin|
    ensures var d2 := WriteBytes(CursorPosition(d).1, ToRightMargin).1;
      && CursorPosition(d2).0 == Returned(DigitsValue(c2) as int)
      && CursorPosition(d2).1 == d.(input := rest, output := d.output + CursorQuery + ToRightMargin + CursorQuery,
                                    room := d.room - (2 * |CursorQuery| + |ToRightMargin|))
  {
    var t := Report(r2, c2) + rest;
    assert d.input == Report(r1, c1) + t;
    QueryThenMargin(d, r1, c1, t);
    SecondReport(d, WriteBytes(CursorPosition(d).1, ToRightMargin).1, r2, c2, rest);
  }

  /** The second query of the fallback reads its report, after the first query and the margin move. */
  lemma SecondReport(d: Device, d2: Device, rows: string, cols: string, rest: seq<char>)
    requires d.room >= 2 * |CursorQuery| + |ToRightMargin|
    requires d2 == d.(input := Report(rows, cols) + rest, output := d.output + CursorQuery + ToRightMargin,
                      room := d.room - (|CursorQuery| + |ToRightMargin|))
    requires GoodReport(rows, cols)
    ensures CursorPosition(d2).0 == Returned(DigitsValue(cols) as int)
    ensures CursorPosition(d2).1 == d.(input := rest, output := d.output + CursorQuery + ToRightMargin + CursorQuery,
                                       room := d.room - (2 * |CursorQuery| + |ToRightMargin|))
  {
    WellFormedReport(d2, rows, cols, rest);
  }

  /** The first query reads its report; the margin move after it is written whole. */
  lemma QueryThenMargin(d: Device, rows: string, cols: string, t: seq<char>)
    requires d.room >= |CursorQuery| + |ToRightMargin|
    requires d.input == Report(rows, cols) + t
    requires GoodReport(rows, cols)
    ensures CursorPosition(d).0 == Returned(DigitsValue(cols) as int)
    ensures CursorPosition(d).1.room >= |ToRightMargin|
    ensures WriteBytes(CursorPosition(d).1, ToRightMargin).1 ==
      d.(input := t, output := d.output + CursorQuery + ToRightMargin, room := d.room - (|CursorQuery| + |ToRightMargin|))
  {
    WellFormedReport(d, rows, cols, t);
    assert ToRightMargin[..|ToRightMargin|] == ToRightMargin;
  }

  /** When both cursor queries answer a column and the move to the margin is written whole, the width is
      the second answer and the cursor is moved back to the first. */
  lemma ColumnsBothQueries(d: Device, start: int, cols: int)
    requires d.winCols == 0 && start >= 0 && cols >= 0
    requires CursorPosition(d).0 == Returned(start)
    requires CursorPosition(d).1.room >= |ToRightMargin|
    requires CursorPosition(WriteBytes(CursorPosition(d).1, ToRightMargin).1).0 == Returned(cols)
    ensures Columns(d) == (Returned(cols),
      RestoreColumn(CursorPosition(WriteBytes(CursorPosition(d).1, ToRightMargin).1).1, start, cols))
  {
  }
}
