/** Terminal attribute sets as tcgetattr reports them, and the raw set enable_rawmode derives from one. */
module Termios {

  type Flags = bv32

  // The Linux values of the termios module's constants.
  const BRKINT: Flags := 0x2
  const ICRNL: Flags := 0x100
  const INPCK: Flags := 0x10
  const ISTRIP: Flags := 0x20
  const IXON: Flags := 0x400
  const OPOST: Flags := 0x1
  const CS8: Flags := 0x30
  const ECHO: Flags := 0x8
  const ICANON: Flags := 0x2
  const IEXTEN: Flags := 0x8000
  const ISIG: Flags := 0x1

  /** Indices into the control-character list. */
  const VTIME: nat := 5
  const VMIN: nat := 6
  const NCCS: nat := 32

  /** Input modes turned off: no break, no CR to NL, no parity check, no strip, no start/stop control. */
  const RAW_IFLAG_OFF: Flags := BRKINT | ICRNL | INPCK | ISTRIP | IXON
  /** Output modes turned off: no post-processing. */
  const RAW_OFLAG_OFF: Flags := OPOST
  /** Control modes turned on: 8-bit characters. */
  const RAW_CFLAG_ON: Flags := CS8
  /** Local modes turned off: no echo, not canonical, no extended functions, no signal characters. */
  const RAW_LFLAG_OFF: Flags := ECHO | ICANON | IEXTEN | ISIG

  /** The list [iflag, oflag, cflag, lflag, ispeed, ospeed, cc] of tcgetattr, as a record. */
  datatype Attrs = Attrs(iflag: Flags, oflag: Flags, cflag: Flags, lflag: Flags,
                         ispeed: int, ospeed: int, cc: seq<int>)

  /** x &= ~mask */
  function ClearBits(x: Flags, mask: Flags): (r: Flags)
    ensures r & mask == 0
    ensures r & !mask == x & !mask
  {
    x & !mask
  }

  /** x |= mask */
  function SetBits(x: Flags, mask: Flags): (r: Flags)
    ensures r & mask == mask
    ensures r & !mask == x & !mask
  {
    x | mask
  }

  /** The attribute set enable_rawmode installs, built from the current one. */
  function RawAttrs(a: Attrs): (raw: Attrs)
    requires |a.cc| == NCCS
    ensures raw.iflag & RAW_IFLAG_OFF == 0 && raw.iflag & !RAW_IFLAG_OFF == a.iflag & !RAW_IFLAG_OFF
    ensures raw.oflag & RAW_OFLAG_OFF == 0 && raw.oflag & !RAW_OFLAG_OFF == a.oflag & !RAW_OFLAG_OFF
    ensures raw.cflag & RAW_CFLAG_ON == RAW_CFLAG_ON && raw.cflag & !RAW_CFLAG_ON == a.cflag & !RAW_CFLAG_ON
    ensures raw.lflag & RAW_LFLAG_OFF == 0 && raw.lflag & !RAW_LFLAG_OFF == a.lflag & !RAW_LFLAG_OFF
    ensures raw.ispeed == a.ispeed && raw.ospeed == a.ospeed
    ensures |raw.cc| == NCCS && raw.cc[VMIN] == 1 && raw.cc[VTIME] == 0
    ensures forall i :: 0 <= i < NCCS && i != VMIN && i != VTIME ==> raw.cc[i] == a.cc[i]
  {
    Attrs(ClearBits(a.iflag, RAW_IFLAG_OFF), ClearBits(a.oflag, RAW_OFLAG_OFF),
          SetBits(a.cflag, RAW_CFLAG_ON), ClearBits(a.lflag, RAW_LFLAG_OFF),
          a.ispeed, a.ospeed, a.cc[VMIN := 1][VTIME := 0])
  }

  /** In the raw set, every flag the terminal needs off for byte-at-a-time input is off. */
  lemma RawModeFlags(a: Attrs)
    requires |a.cc| == NCCS
    ensures var raw := RawAttrs(a);
      raw.iflag & BRKINT == 0 && raw.iflag & ICRNL == 0 && raw.iflag & INPCK == 0 &&
      raw.iflag & ISTRIP == 0 && raw.iflag & IXON == 0 && raw.oflag & OPOST == 0 &&
      raw.cflag & CS8 == CS8 &&
      raw.lflag & ECHO == 0 && raw.lflag & ICANON == 0 && raw.lflag & IEXTEN == 0 && raw.lflag & ISIG == 0
  {
  }

  /** Deriving the raw set from a raw set changes nothing. */
  lemma RawAttrsIdempotent(a: Attrs)
    requires |a.cc| == NCCS
    ensures RawAttrs(RawAttrs(a)) == RawAttrs(a)
  {
    var raw := RawAttrs(a);
    ClearTwice(a.iflag, RAW_IFLAG_OFF);
    ClearTwice(a.oflag, RAW_OFLAG_OFF);
    SetTwice(a.cflag, RAW_CFLAG_ON);
    ClearTwice(a.lflag, RAW_LFLAG_OFF);
    assert raw.cc[VMIN := 1][VTIME := 0] == raw.cc;
  }

  lemma ClearTwice(x: Flags, mask: Flags)
    ensures ClearBits(ClearBits(x, mask), mask) == ClearBits(x, mask)
  {
  }

  lemma SetTwice(x: Flags, mask: Flags)
    ensures SetBits(SetBits(x, mask), mask) == SetBits(x, mask)
  {
  }
}
