/** The linenoise object: the history it keeps, the raw-mode switch, and the line-edit loop. */
module Linenoise {
  import opened Common
  import opened Text
  import opened Termios
  import opened Os
  import opened Probe
  import opened History

  // The key codes edit acts on; every other byte is appended to the line.
  const ENTER: char := 13 as char
  const CTRL_C: char := 3 as char

  /** A byte that ends the edit loop. */
  predicate IsStop(c: char) {
    c == ENTER || c == CTRL_C
  }

  /** Where the first ENTER or CTRL_C is in s, or |s| when there is none. */
  function StopIndex(s: seq<char>): (k: nat)
    ensures k <= |s|
    ensures forall j :: 0 <= j < k ==> !IsStop(s[j])
    ensures k < |s| ==> IsStop(s[k])
  {
    if s == [] || IsStop(s[0]) then 0 else 1 + StopIndex(s[1..])
  }

  /** The while loop of edit from the line buffer buf: the line on ENTER, None on CTRL_C, and the
      TypeError ord('') raises when the input ends; every other byte is appended and echoed. */
  function EditLoop(d: Device, buf: string): (res: (Outcome<Option<string>>, Device))
    ensures SameTerminal(d, res.1)
    ensures |res.1.input| < |d.input| || (res.1.input == [] && res.0 == Raised(TypeError))
    decreases |d.input|
  {
    var (b, d1) := ReadByte(d);
    match b
    case None => (Raised(TypeError), d1)
    case Some(c) =>
      if c == ENTER then (Returned(Some(buf)), d1)
      else if c == CTRL_C then (Returned(None), d1)
      else EditLoop(WriteBytes(d1, [c]).1, buf + [c])
  }

  /** What the loop from buf on d yields, per the first stop byte k of the input: the bytes before it
      after buf on ENTER, None on CTRL_C, TypeError when there is none; the input after it remains; those
      bytes are echoed as far as the output has room. */
  predicate ReadsToStop(d: Device, buf: string, res: (Outcome<Option<string>>, Device)) {
    EchoedToStop(d, res.1) && RestAfterStop(d, res.1) && AnswerAtStop(d, buf, res.0)
  }

  /** The bytes before the first stop byte are echoed as far as the output has room. */
  predicate EchoedToStop(d: Device, d': Device) {
    var k := StopIndex(d.input);
    var n := if k <= d.room then k else d.room;
    d'.output == d.output + d.input[..n] && d'.room == d.room - n
  }

  /** The input after the first stop byte is what remains. */
  predicate RestAfterStop(d: Device, d': Device) {
    var k := StopIndex(d.input);
    d'.input == if k < |d.input| then d.input[k + 1..] else []
  }

  /** The line on ENTER, None on CTRL_C, TypeError when the input has no stop byte. */
  predicate AnswerAtStop(d: Device, buf: string, r: Outcome<Option<string>>) {
    var k := StopIndex(d.input);
    r == if k == |d.input| then Raised(TypeError)
         else if d.input[k] == ENTER then Returned(Some(buf + d.input[..k]))
         else Returned(None)
  }

  /** The loop reads up to and including the first stop byte and yields what ReadsToStop says. */
  lemma {:induction false} EditReadsToStop(d: Device, buf: string)
    ensures ReadsToStop(d, buf, EditLoop(d, buf))
    decreases |d.input|
  {
    if d.input != [] && !IsStop(d.input[0]) {
      var c := d.input[0];
      var d1 := WriteBytes(d.(input := d.input[1..]), [c]).1;
      assert EditLoop(d, buf) == EditLoop(d1, buf + [c]);
      EditReadsToStop(d1, buf + [c]);
      EchoStep(d, buf, EditLoop(d1, buf + [c]));
    } else {
      assert buf + d.input[..0] == buf;
    }
  }

  /** Echoing one ordinary byte, then going on as ReadsToStop says, is what ReadsToStop says. */
  lemma EchoStep(d: Device, buf: string, res: (Outcome<Option<string>>, Device))
    requires d.input != [] && !IsStop(d.input[0])
    requires ReadsToStop(WriteBytes(d.(input := d.input[1..]), [d.input[0]]).1, buf + [d.input[0]], res)
    ensures ReadsToStop(d, buf, res)
  {
    var d1 := WriteBytes(d.(input := d.input[1..]), [d.input[0]]).1;
    assert StopIndex(d1.input) == StopIndex(d.input) - 1;
    EchoStepOutput(d, d1, res.1);
    EchoStepRest(d, d1, res.1);
    EchoStepAnswer(d, d1, buf, res.0);
  }

  lemma EchoStepOutput(d: Device, d1: Device, d': Device)
    requires d.input != [] && d1 == WriteBytes(d.(input := d.input[1..]), [d.input[0]]).1
    requires StopIndex(d1.input) == StopIndex(d.input) - 1
    requires EchoedToStop(d1, d')
    ensures EchoedToStop(d, d')
  {
    var k := StopIndex(d.input);
    if d.room > 0 {
      var n := if k <= d.room then k else d.room;
      assert d.input[..n] == [d.input[0]] + d1.input[..n - 1];
    }
  }

  lemma EchoStepRest(d: Device, d1: Device, d': Device)
    requires d.input != [] && d1 == WriteBytes(d.(input := d.input[1..]), [d.input[0]]).1
    requires StopIndex(d1.input) == StopIndex(d.input) - 1
    requires RestAfterStop(d1, d')
    ensures RestAfterStop(d, d')
  {
  }

  lemma EchoStepAnswer(d: Device, d1: Device, buf: string, r: Outcome<Option<string>>)
    requires d.input != [] && d1 == WriteBytes(d.(input := d.input[1..]), [d.input[0]]).1
    requires StopIndex(d1.input) == StopIndex(d.input) - 1
    requires AnswerAtStop(d1, buf + [d.input[0]], r)
    ensures AnswerAtStop(d, buf, r)
  {
    var k := StopIndex(d.input);
    assert k < |d.input| ==> d.input[k] == d1.input[k - 1];
    assert buf + [d.input[0]] + d1.input[..k - 1] == buf + d.input[..k] by {
      assert d.input[..k] == [d.input[0]] + d.input[1..][..k - 1];
    }
  }

  /** edit after the columns are known (line_state's constructor calls get_columns): write the prompt,
      giving up with None on a short write, then run the loop from an empty buffer. */
  function EditSession(d: Device, prompt: string): (res: (Outcome<Option<string>>, Device))
    ensures SameTerminal(d, res.1)
    ensures Columns(d).0.Raised? ==> res == (Raised(Columns(d).0.error), Columns(d).1)
    ensures Columns(d).0.Returned? && Columns(d).1.room < |prompt| ==>
      res.0 == Returned(None) && res.1.input == Columns(d).1.input
  {
    var (cols, d1) := Columns(d);
    if cols.Raised? then (Raised(cols.error), d1)
    else
      var (n, d2) := WriteBytes(d1, prompt);
      if n != |prompt| then (Returned(None), d2)
      else EditLoop(d2, [])
  }

  /** Once the width is known without an exception and the prompt fits, edit returns the bytes before the
      first ENTER, None when CTRL_C comes first, and raises at the end of input; the prompt and the echoed
      bytes are the output, and the input after the stop byte is left unread. */
  lemma EditedLine(d: Device, prompt: string)
    requires Columns(d).0.Returned? && Columns(d).1.room >= |prompt|
    ensures var d1 := Columns(d).1;
      var k := StopIndex(d1.input);
      var n := if k <= d1.room - |prompt| then k else d1.room - |prompt|;
      var (r, d') := EditSession(d, prompt);
      && d'.output == d1.output + prompt + d1.input[..n]
      && d'.input == (if k < |d1.input| then d1.input[k + 1..] else [])
      && r == (if k == |d1.input| then Raised(TypeError)
               else if d1.input[k] == ENTER then Returned(Some(d1.input[..k]))
               else Returned(None))
  {
    var d1 := Columns(d).1;
    var d2 := WriteBytes(d1, prompt).1;
    assert prompt[..|prompt|] == prompt;
    EditReadsToStop(d2, []);
    assert [] + d1.input[..StopIndex(d1.input)] == d1.input[..StopIndex(d1.input)];
  }

  /** unsupported_term: whether TERM (absent: '') names a terminal known not to work. */
  predicate UnsupportedTerm(term: Option<string>)
    ensures UnsupportedTerm(term) <==> term == Some("dumb") || term == Some("cons25") || term == Some("emacs")
  {
    var t := if term.Some? then term.value else "";
    assert "" != "dumb" && "" != "cons25" && "" != "emacs";
    t in ["dumb", "cons25", "emacs"]
  }

  /** read_no_tty's answer for the line readline returned: the line without its newlines, or None when
      nothing is left. */
  function NoTtyResult(line: string): (r: Option<string>)
    ensures r == None <==> forall i :: 0 <= i < |line| ==> line[i] == '\n'
    ensures r.Some? ==> r.value != [] && r.value[0] != '\n' && r.value[|r.value| - 1] != '\n'
    // nothing but newlines is removed, and only from the ends
    ensures r.Some? ==> SliceOf(line, r.value, x => x == '\n')
  {
    var s := StripChar(line, '\n');
    StripCharSlice(line, '\n');
    if s == "" then None else Some(s)
  }

  /** A line read from a pipe comes back without its newline; an empty line reads as the end. */
  lemma NoTtyLine(s: string)
    requires s != [] && '\n' !in s
    ensures NoTtyResult(s + ['\n']) == Some(s)
    ensures NoTtyResult(['\n']) == None && NoTtyResult([]) == None
  {
    var t := s + ['\n'];
    assert t[|t| - 1] == '\n' && t[..|t| - 1] == s;
    assert t[0] == s[0];
    StripOneNewline(s);
  }

  /** Stripping '\n' from a newline-free nonempty s followed by one newline gives s. */
  lemma StripOneNewline(s: string)
    requires s != [] && '\n' !in s
    ensures StripChar(s + ['\n'], '\n') == s
  {
    var t := s + ['\n'];
    var r := StripChar(t, '\n');
    assert t[0] == s[0] && t[|t| - 1] == '\n';
    assert r == TrimRight(TrimLeft(t, c => c == '\n'), c => c == '\n');
    assert TrimLeft(t, c => c == '\n') == t by {
      assert t[0] != '\n';
    }
    assert r == s by {
      var tr := TrimRight(t, c => c == '\n');
      assert |tr| <= |t| - 1;
      assert |tr| >= |s|;
      assert tr == t[..|s|];
    }
  }

  /** The edit state of one line: the buffer, the prompt, the cursor and the terminal width. */
  class LineState {
    var buf: seq<char>
    var prompt: string
    var pos: nat
    var oldpos: nat
    var cols: int
    var maxrows: nat
    var historyIndex: nat

    /** line_state's fields once get_columns has answered cols: an empty buffer with the cursor at 0. */
    constructor (prompt: string, cols: int)
      ensures this.buf == [] && this.prompt == prompt && this.pos == 0 && this.oldpos == 0
      ensures this.cols == cols && this.maxrows == 0 && this.historyIndex == 0
    {
      this.buf := [];
      this.prompt := prompt;
      this.pos := 0;
      this.oldpos := 0;
      this.cols := cols;
      this.maxrows := 0;
      this.historyIndex := 0;
    }
  }

  /** A linenoise object: the history, its bound, and whether the terminal is in raw mode. */
  class Linenoise {
    var history: seq<string>
    var historyMaxlen: nat
    var rawmode: bool
    var atexitRegistered: bool
    /** The attributes enable_rawmode saved; None until it first succeeds. */
    var origTermios: Option<Attrs>
    /** How many times the exit hook has been registered. */
    ghost var registrations: nat

    /** Raw mode has attributes to restore, and the exit hook is registered exactly when the flag says so. */
    ghost predicate Valid()
      reads this
    {
      && (rawmode ==> origTermios.Some? && atexitRegistered)
      && (origTermios.Some? ==> |origTermios.value.cc| == NCCS)
      && registrations == (if atexitRegistered then 1 else 0)
    }

    /** The history has no repeated entry and keeps within its bound. */
    predicate HistoryValid()
      reads this
    {
      Distinct(history) && |history| <= historyMaxlen
    }

    constructor ()
      ensures Valid() && HistoryValid()
      ensures history == [] && historyMaxlen == DEFAULT_HISTORY_MAX_LEN
      ensures !rawmode && !atexitRegistered && origTermios == None
    {
      history := [];
      historyMaxlen := DEFAULT_HISTORY_MAX_LEN;
      rawmode := false;
      atexitRegistered := false;
      origTermios := None;
      registrations := 0;
    }

    /** history_add: nothing when the bound is 0 or the line is already there; otherwise the line goes
        last, after dropping the oldest entry when the history is at its bound. */
    method HistoryAdd(line: string)
      modifies this`history
      ensures history == Added(old(history), historyMaxlen, line)
      ensures old(HistoryValid()) ==> HistoryValid()
    {
      if old(HistoryValid()) {
        AddedKeepsInvariant(history, historyMaxlen, line);
      }
      if historyMaxlen == 0 {
        return;
      }
      for i := 0 to |history|
        invariant line !in history[..i]
      {
        if line == history[i] {
          return;
        }
      }
      assert history[..|history|] == history;
      if |history| == historyMaxlen {
        history := history[1..];
      }
      history := history + [line];
    }

    /** history_set_maxlen: a negative n changes nothing; otherwise n becomes the bound and the newest n
        entries are kept. */
    method HistorySetMaxlen(n: int)
      modifies this`history, this`historyMaxlen
      ensures n < 0 ==> history == old(history) && historyMaxlen == old(historyMaxlen)
      ensures n >= 0 ==> historyMaxlen == n && history == Newest(old(history), n)
      ensures n >= 0 && Distinct(old(history)) ==> HistoryValid()
    {
      if n < 0 {
        return;
      }
      if Distinct(history) {
        NewestKeepsInvariant(history, n);
      }
      historyMaxlen := n;
      var currentLength := |history|;
      if currentLength > historyMaxlen {
        history := history[currentLength - historyMaxlen..];
      }
    }

    /** history_save: the text written to the file, which history_load turns back into this history
        exactly when the history is storable. */
    method HistorySave() returns (text: string)
      ensures text == SaveText(history)
      ensures LoadEntries(text) == history <==> Storable(history)
    {
      text := Join(history, '\n');
      SaveLoadRoundTrip(history);
    }

    /** history_load: the history becomes the stripped lines of the file's text, or empty when there is no
        such file. */
    method HistoryLoad(file: Option<string>)
      modifies this`history
      ensures history == if file.Some? then LoadEntries(file.value) else []
    {
      history := [];
      if file.Some? {
        history := LoadEntries(file.value);
      }
    }

    /** enable_rawmode: -1 on a device that is not a terminal; otherwise the exit hook is registered once,
        the current attributes are saved and the raw ones put in place. */
    method EnableRawmode(d: Device) returns (r: int, d': Device)
      requires Valid() && d.Valid()
      modifies this`rawmode, this`atexitRegistered, this`origTermios, this`registrations
      ensures Valid()
      ensures !d.tty ==> r == -1 && d' == d && unchanged(this)
      ensures d.tty ==> r == 0 && d' == d.(attrs := RawAttrs(d.attrs))
      ensures d.tty ==> rawmode && atexitRegistered && origTermios == Some(d.attrs)
      ensures registrations == old(registrations) + (if d.tty && !old(atexitRegistered) then 1 else 0)
    {
      if !d.tty {
        return -1, d;
      }
      if !atexitRegistered {
        registrations := registrations + 1;
        atexitRegistered := true;
      }
      origTermios := Some(d.attrs);
      d' := d.(attrs := RawAttrs(d.attrs));
      rawmode := true;
      r := 0;
    }

    /** disable_rawmode: nothing unless in raw mode; then the saved attributes come back. */
    method DisableRawmode(d: Device) returns (d': Device)
      requires Valid()
      modifies this`rawmode
      ensures Valid() && !rawmode
      ensures !old(rawmode) ==> d' == d
      ensures old(rawmode) ==> d' == d.(attrs := origTermios.value)
    {
      if rawmode {
        d' := d.(attrs := origTermios.value);
        rawmode := false;
      } else {
        d' := d;
      }
    }

    /** edit_insert: with the cursor at the end, the byte is appended, the cursor advances and the byte is
        echoed; elsewhere nothing happens. */
    method EditInsert(l: LineState, c: char, d: Device) returns (d': Device)
      modifies l`buf, l`pos
      ensures old(l.pos) == |old(l.buf)| ==>
        l.buf == old(l.buf) + [c] && l.pos == old(l.pos) + 1 && d' == WriteBytes(d, [c]).1
      ensures old(l.pos) != |old(l.buf)| ==> l.buf == old(l.buf) && l.pos == old(l.pos) && d' == d
    {
      d' := d;
      if |l.buf| == l.pos {
        l.buf := l.buf + [c];
        l.pos := l.pos + 1;
        d' := WriteBytes(d, [c]).1;
      }
    }

    /** edit: measure the width, add the empty placeholder entry to the history, write the prompt and read
        bytes until ENTER or CTRL_C. */
    method Edit(d: Device, prompt: string) returns (r: Outcome<Option<string>>, d': Device)
      modifies this`history
      ensures (r, d') == EditSession(d, prompt)
      ensures history == if Columns(d).0.Raised? then old(history) else Added(old(history), historyMaxlen, "")
      ensures old(HistoryValid()) ==> HistoryValid()
    {
      var cols;
      cols, d' := GetColumns(d);
      if cols.Raised? {
        return Raised(cols.error), d';
      }
      var l := new LineState(prompt, cols.value);
      HistoryAdd("");
      var w := WriteBytes(d', prompt);
      d' := w.1;
      if w.0 != |prompt| {
        return Returned(None), d';
      }
      while true
        invariant l.pos == |l.buf|
        invariant EditLoop(d', l.buf) == EditSession(d, prompt)
        invariant history == Added(old(history), historyMaxlen, "")
        invariant old(HistoryValid()) ==> HistoryValid()
        decreases |d'.input|
      {
        var rd := ReadByte(d');
        if rd.0.None? {
          return Raised(TypeError), rd.1;
        }
        d' := rd.1;
        var c := rd.0.value;
        if c == ENTER {
          break;
        } else if c == CTRL_C {
          return Returned(None), d';
        }
        d' := EditInsert(l, c, d');
      }
      r := Returned(Some(l.buf));
    }

    /** What read_raw does on a terminal: the attributes it found are saved and the raw ones put in place,
        the exit hook is registered once, edit's placeholder entry is added when the width was measured,
        and the saved attributes come back exactly when the edit returns. */
    twostate predicate RawRead(d: Device, prompt: string, new r: Outcome<Option<string>>, new d': Device)
      requires |d.attrs.cc| == NCCS
      reads this
    {
      var raw := d.(attrs := RawAttrs(d.attrs));
      var e := EditSession(raw, prompt);
      && r == e.0
      && origTermios == Some(d.attrs)
      && atexitRegistered
      && registrations == old(registrations) + (if old(atexitRegistered) then 0 else 1)
      && historyMaxlen == old(historyMaxlen)
      && history == (if Columns(raw).0.Raised? then old(history) else Added(old(history), historyMaxlen, ""))
      && (r.Returned? ==> !rawmode && d' == e.1.(attrs := d.attrs))
      && (r.Raised? ==> rawmode && d' == e.1)
    }

    /** read_raw: None when raw mode cannot be entered; otherwise edit in raw mode, then restore the saved
        attributes. When edit raises, the exception leaves the terminal raw. */
    method ReadRaw(d: Device, prompt: string) returns (r: Outcome<Option<string>>, d': Device)
      requires Valid() && d.Valid()
      modifies this
      ensures Valid() && historyMaxlen == old(historyMaxlen)
      ensures !d.tty ==> r == Returned(None) && d' == d && unchanged(this)
      ensures d.tty ==> RawRead(d, prompt, r, d')
      // once raw mode is entered, a read that returns leaves the terminal as it found it
      ensures d.tty && r.Returned? ==> !rawmode && d'.attrs == d.attrs
      ensures old(HistoryValid()) ==> HistoryValid()
    {
      var e;
      e, d' := EnableRawmode(d);
      if e == -1 {
        return Returned(None), d';
      }
      r, d' := Edit(d', prompt);
      if r.Raised? {
        return;
      }
      d' := DisableRawmode(d');
    }

    /** read: from a pipe or file the line readline returned; on an unsupported terminal what raw_input
        returned; otherwise an edit in raw mode. */
    method Read(d: Device, prompt: string, term: Option<string>, pipedLine: string, plainLine: Option<string>)
      returns (r: Outcome<Option<string>>, d': Device)
      requires Valid() && d.Valid()
      modifies this
      ensures Valid()
      ensures !d.tty ==> r == Returned(NoTtyResult(pipedLine)) && d' == d && unchanged(this)
      ensures d.tty && UnsupportedTerm(term) ==> r == Returned(plainLine) && d' == d && unchanged(this)
      ensures d.tty && !UnsupportedTerm(term) ==> RawRead(d, prompt, r, d')
      ensures d.tty && !UnsupportedTerm(term) && r.Returned? ==> !rawmode && d'.attrs == d.attrs
      ensures old(HistoryValid()) ==> HistoryValid()
    {
      if !d.tty {
        return Returned(NoTtyResult(pipedLine)), d;
      } else if UnsupportedTerm(term) {
        return Returned(plainLine), d;
      } else {
        r, d' := ReadRaw(d, prompt);
      }
    }
  }
}
