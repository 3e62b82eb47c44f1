/** What the line editor sees of its process's standard input and output, as a value. */
module Os {
  import opened Common
  import opened Termios

  /** tty: whether os.isatty(STDIN_FILENO) holds. attrs: what tcgetattr reports. winCols: the column count
      the TIOCGWINSZ ioctl reports, 0 when it fails. input: the bytes os.read will deliver, in order.
      output: the bytes os.write has accepted so far. room: how many more bytes os.write accepts;
      a write beyond it is short. */
  datatype Device = Device(tty: bool, attrs: Attrs, winCols: nat,
                           input: seq<char>, output: seq<char>, room: nat)
  {
    /** tcgetattr reports NCCS control characters; the ioctl field is an unsigned 16-bit number. */
    predicate Valid() {
      |attrs.cc| == NCCS && winCols < 0x1_0000
    }
  }

  /** The terminal itself (tty flag, attributes, window size) is the same in both. */
  predicate SameTerminal(d: Device, d': Device) {
    d'.tty == d.tty && d'.attrs == d.attrs && d'.winCols == d.winCols
  }

  /** os.read(fd, 1): the next byte, or None (Python's '') at end of input. */
  function ReadByte(d: Device): (r: (Option<char>, Device))
    ensures SameTerminal(d, r.1) && r.1.output == d.output && r.1.room == d.room
    ensures r.0 == None <==> d.input == []
    ensures r.0 == None ==> r.1 == d
    // the byte is taken from the front of the input
    ensures r.0.Some? ==> d.input == [r.0.value] + r.1.input
  {
    if d.input == [] then (None, d) else (Some(d.input[0]), d.(input := d.input[1..]))
  }

  /** os.write(fd, s): accepts as much of s as there is room for and returns how many bytes that was. */
  function WriteBytes(d: Device, s: string): (r: (nat, Device))
    ensures SameTerminal(d, r.1) && r.1.input == d.input
    // the write is whole exactly when there is room for it; a short one fills the room
    ensures r.0 <= |s| && (r.0 == |s| <==> |s| <= d.room)
    ensures r.0 < |s| ==> r.1.room == 0
    ensures r.1.output == d.output + s[..r.0] && r.1.room + r.0 == d.room
  {
    var n := if |s| <= d.room then |s| else d.room;
    (n, d.(output := d.output + s[..n], room := d.room - n))
  }
}
