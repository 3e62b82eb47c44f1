/** The few Python 2 string operations the line editor relies on: strip, split, join, int() and '%d'. */
module Text {
  import opened Common

  /** The characters Python 2's str.strip() and int() treat as whitespace. */
  predicate IsSpace(c: char) {
    c == ' ' || c == '\t' || c == '\n' || c == '\r' || c as int == 0x0B || c as int == 0x0C
  }

  /** Drops the longest prefix of characters satisfying drop. */
  function TrimLeft(s: string, drop: char -> bool): (r: string)
    ensures |r| <= |s| && r == s[|s| - |r|..]
    ensures forall i :: 0 <= i < |s| - |r| ==> drop(s[i])
    ensures r == [] || !drop(r[0])
    decreases |s|
  {
    if s != [] && drop(s[0]) then TrimLeft(s[1..], drop) else s
  }

  /** Drops the longest suffix of characters satisfying drop. */
  function TrimRight(s: string, drop: char -> bool): (r: string)
    ensures |r| <= |s| && r == s[..|r|]
    ensures forall i :: |r| <= i < |s| ==> drop(s[i])
    ensures r == [] || !drop(r[|r| - 1])
    decreases |s|
  {
    if s != [] && drop(s[|s| - 1]) then TrimRight(s[..|s| - 1], drop) else s
  }

  predicate IsTrimmed(s: string) {
    s == [] || (!IsSpace(s[0]) && !IsSpace(s[|s| - 1]))
  }

  /** r is a slice of s, and every character of s outside the slice satisfies drop. */
  ghost predicate SliceOf(s: string, r: string, drop: char -> bool) {
    exists i, j :: 0 <= i <= j <= |s| && r == s[i..j] && forall k :: 0 <= k < i || j <= k < |s| ==> drop(s[k])
  }

  /** Python's s.strip(): s without leading and trailing whitespace. */
  function Strip(s: string): (r: string)
    ensures IsTrimmed(r)
    ensures |r| <= |s|
  {
    TrimLeft(TrimRight(s, IsSpace), IsSpace)
  }

  /** s.strip() is a slice of s, and only whitespace surrounds it. */
  lemma StripSlice(s: string)
    ensures SliceOf(s, Strip(s), IsSpace)
  {
    TrimBoth(s, IsSpace);
  }

  /** Trimming both ends keeps a slice of s and drops only characters satisfying drop. */
  lemma TrimBoth(s: string, drop: char -> bool)
    ensures SliceOf(s, TrimLeft(TrimRight(s, drop), drop), drop)
  {
    var t := TrimRight(s, drop);
    var r := TrimLeft(t, drop);
    assert r == s[|t| - |r|..|t|];
    forall k | 0 <= k < |t| - |r| ensures drop(s[k]) {
      assert s[k] == t[k];
    }
  }

  /** strip() adds no character: one missing from s is missing from s.strip(). */
  lemma StripKeepsOut(s: string, c: char)
    requires c !in s
    ensures c !in Strip(s)
  {
    var t := TrimRight(s, IsSpace);
    var r := Strip(s);
    forall i | 0 <= i < |r| ensures r[i] != c {
      assert r[i] == t[|t| - |r| + i] == s[|t| - |r| + i];
    }
  }

  /** Python's s.strip(c) for one character c. */
  function StripChar(s: string, c: char): (r: string)
    ensures r == [] <==> forall i :: 0 <= i < |s| ==> s[i] == c
    ensures r != [] ==> r[0] != c && r[|r| - 1] != c
  {
    TrimBothEnds(s, x => x == c);
    TrimLeft(TrimRight(s, x => x == c), x => x == c)
  }

  /** s.strip(c) is a slice of s, and only copies of c surround it. */
  lemma StripCharSlice(s: string, c: char)
    ensures SliceOf(s, StripChar(s, c), x => x == c)
  {
    TrimBoth(s, x => x == c);
  }

  /** Trimming both ends leaves nothing exactly when every character satisfies drop, and otherwise
      leaves ends that do not. */
  lemma TrimBothEnds(s: string, drop: char -> bool)
    ensures var r := TrimLeft(TrimRight(s, drop), drop);
      && (r == [] <==> forall i :: 0 <= i < |s| ==> drop(s[i]))
      && (r != [] ==> !drop(r[0]) && !drop(r[|r| - 1]))
  {
    var t := TrimRight(s, drop);
    var r := TrimLeft(t, drop);
    if r != [] {
      assert r[|r| - 1] == t[|t| - 1] && r[0] == s[|t| - |r|];
    } else {
      forall i | 0 <= i < |s| ensures drop(s[i]) {
        if i < |t| {
          assert s[i] == t[i];
        }
      }
    }
  }

  lemma StripTrimmed(s: string)
    requires IsTrimmed(s)
    ensures Strip(s) == s
  {
  }

  /** A trailing newline makes no difference to strip(). */
  lemma StripNewlineEnd(s: string)
    ensures Strip(s + ['\n']) == Strip(s)
  {
    var t := s + ['\n'];
    assert t[..|t| - 1] == s;
    assert TrimRight(t, IsSpace) == TrimRight(s, IsSpace);
  }

  predicate IsDigit(c: char) { '0' <= c <= '9' }

  predicate AllDigits(s: string) { forall i :: 0 <= i < |s| ==> IsDigit(s[i]) }

  function DigitValue(c: char): nat
    requires IsDigit(c)
  {
    c as int - '0' as int
  }

  /** The value of a string of decimal digits, most significant first. */
  function DigitsValue(s: string): nat
    requires AllDigits(s)
    decreases |s|
  {
    if s == [] then 0 else DigitsValue(s[..|s| - 1]) * 10 + DigitValue(s[|s| - 1])
  }

  /** Python's '%d' % n for n >= 0: the decimal digits of n, without leading zeros. */
  function Decimal(n: nat): (s: string)
    ensures s != [] && AllDigits(s) && DigitsValue(s) == n
    ensures s[0] == '0' ==> s == "0"
    decreases n
  {
    var d := ((n % 10) + '0' as int) as char;
    if n < 10 then [d]
    else
      var p := Decimal(n / 10);
      assert (p + [d])[..|p|] == p;
      p + [d]
  }

  predicate IsSign(c: char) { c == '+' || c == '-' }

  predicate AllSpace(s: string) { forall i :: 0 <= i < |s| ==> IsSpace(s[i]) }

  /** t is a sign, then blanks before index m, then decimal digits from m on. */
  predicate SignedDigitsAt(t: string, m: nat) {
    && 1 <= m < |t| && IsSign(t[0])
    && (forall i :: 1 <= i < m ==> IsSpace(t[i]))
    && (forall i :: m <= i < |t| ==> IsDigit(t[i]))
  }

  /** The stripped texts Python 2's int(t, 10) accepts: decimal digits, or a sign, then blanks, then
      decimal digits. */
  ghost predicate IntText(t: string) {
    (t != [] && AllDigits(t)) || exists m :: SignedDigitsAt(t, m)
  }

  /** The value of digits of value v after the sign character sign. */
  function Signed(sign: char, v: nat): int {
    if sign == '-' then -(v as int) else v
  }

  /** Python 2's int(s, 10): optional surrounding whitespace, an optional sign and blanks after it, then
      decimal digits. None stands for the ValueError Python raises on anything else. */
  function ParseInt(s: string): (r: Option<int>)
    // anything else fails
    ensures r.Some? ==> IntText(Strip(s))
    ensures Strip(s) != [] && AllDigits(Strip(s)) ==> r == Some(DigitsValue(Strip(s)))
    ensures r.Some? && r.value < 0 ==> Strip(s)[0] == '-'
  {
    var t := Strip(s);
    if t != [] && IsSign(t[0]) then
      SignedInt(t)
    else if t != [] && AllDigits(t) then
      Some(DigitsValue(t))
    else
      None
  }

  /** What int() makes of a stripped text that starts with a sign: the blanks after the sign are skipped,
      and digits must follow. */
  function SignedInt(t: string): (r: Option<int>)
    requires t != [] && IsSign(t[0])
    ensures r.Some? ==> IntText(t)
    ensures r.Some? && r.value < 0 ==> t[0] == '-'
  {
    var u := TrimLeft(t[1..], IsSpace);
    if u != [] && AllDigits(u) then
      SignedText(t);
      Some(Signed(t[0], DigitsValue(u)))
    else
      None
  }

  /** A sign, blanks and digits read as the signed value of the digits. */
  lemma ParseIntSigned(s: string, m: nat)
    requires SignedDigitsAt(Strip(s), m)
    ensures ParseInt(s) == Some(Signed(Strip(s)[0], DigitsValue(Strip(s)[m..])))
  {
    SignedIntGap(Strip(s), m);
  }

  lemma SignedIntGap(t: string, m: nat)
    requires SignedDigitsAt(t, m)
    ensures SignedInt(t) == Some(Signed(t[0], DigitsValue(t[m..])))
  {
    var digits := t[m..];
    var gap := t[1..m];
    assert t[1..] == gap + digits;
    assert AllSpace(gap) by {
      forall i | 0 <= i < |gap| ensures IsSpace(gap[i]) {
        assert gap[i] == t[i + 1];
      }
    }
    assert AllDigits(digits) && IsDigit(digits[0]);
    TrimLeftGap(gap, digits);
    assert TrimLeft(t[1..], IsSpace) == digits;
  }

  /** A sign followed by blanks and then digits only is text int() accepts. */
  lemma SignedText(t: string)
    requires t != [] && IsSign(t[0])
    requires TrimLeft(t[1..], IsSpace) != [] && AllDigits(TrimLeft(t[1..], IsSpace))
    ensures IntText(t)
  {
    var u := TrimLeft(t[1..], IsSpace);
    GapSpaces(t);
    TailDigits(t, u);
    assert SignedDigitsAt(t, |t| - |u|);
  }

  /** What TrimLeft drops after the first character of t is blanks. */
  lemma GapSpaces(t: string)
    requires t != []
    ensures forall i :: 1 <= i < |t| - |TrimLeft(t[1..], IsSpace)| ==> IsSpace(t[i])
  {
    var s1 := t[1..];
    forall i | 1 <= i < |t| - |TrimLeft(s1, IsSpace)| ensures IsSpace(t[i]) {
      assert t[i] == s1[i - 1];
    }
  }

  /** A suffix of digits puts digits at the end of t. */
  lemma TailDigits(t: string, u: string)
    requires |u| <= |t| && u == t[|t| - |u|..] && AllDigits(u)
    ensures forall i :: |t| - |u| <= i < |t| ==> IsDigit(t[i])
  {
    forall i | |t| - |u| <= i < |t| ensures IsDigit(t[i]) {
      assert t[i] == u[i - (|t| - |u|)];
    }
  }

  /** Leading blanks before a character that is not one are exactly what TrimLeft drops. */
  lemma {:induction false} TrimLeftGap(gap: string, rest: string)
    requires AllSpace(gap) && rest != [] && !IsSpace(rest[0])
    ensures TrimLeft(gap + rest, IsSpace) == rest
    decreases |gap|
  {
    var s := gap + rest;
    if gap != [] {
      assert s[0] == gap[0] && IsSpace(gap[0]);
      assert s[1..] == gap[1..] + rest;
      assert AllSpace(gap[1..]) by {
        forall i | 0 <= i < |gap| - 1 ensures IsSpace(gap[1..][i]) {
          assert gap[1..][i] == gap[i + 1];
        }
      }
      TrimLeftGap(gap[1..], rest);
      assert TrimLeft(s, IsSpace) == TrimLeft(s[1..], IsSpace);
    } else {
      assert s == rest;
    }
  }

  /** A plain string of digits reads as its decimal value. */
  lemma ParseIntDigits(s: string)
    requires s != [] && AllDigits(s)
    ensures ParseInt(s) == Some(DigitsValue(s))
  {
    StripTrimmed(s);
  }

  /** The index of the first c in s, or |s| if there is none. */
  function IndexOf(s: string, c: char): (k: nat)
    ensures k <= |s|
    ensures forall j :: 0 <= j < k ==> s[j] != c
    ensures k < |s| ==> s[k] == c
    decreases |s|
  {
    if s == [] || s[0] == c then 0 else 1 + IndexOf(s[1..], c)
  }

  /** Python's s.split(sep) for a one-character separator. */
  function Split(s: string, sep: char): (parts: seq<string>)
    ensures |parts| >= 1
    ensures forall i :: 0 <= i < |parts| ==> sep !in parts[i]
    decreases |s|
  {
    var k := IndexOf(s, sep);
    if k == |s| then [s] else [s[..k]] + Split(s[k + 1..], sep)
  }

  /** Python's sep.join(parts) for a one-character separator. */
  function Join(parts: seq<string>, sep: char): (r: string)
    ensures |parts| >= 1 ==> |parts[0]| <= |r| && r[..|parts[0]|] == parts[0]
    ensures |parts| >= 2 ==> |parts[0]| < |r| && r[|parts[0]|] == sep
    // one separator between each two parts
    ensures |parts| >= 1 ==> |r| + 1 == |Flatten(parts)| + |parts|
    decreases |parts|
  {
    if parts == [] then ""
    else if |parts| == 1 then parts[0]
    else parts[0] + [sep] + Join(parts[1..], sep)
  }

  /** Two fields are the text before the only separator and the text after it. */
  lemma SplitTwo(s: string, sep: char)
    requires |Split(s, sep)| == 2
    ensures IndexOf(s, sep) < |s|
    ensures Split(s, sep)[0] == s[..IndexOf(s, sep)] && Split(s, sep)[1] == s[IndexOf(s, sep) + 1..]
    ensures sep !in s[IndexOf(s, sep) + 1..]
  {
    var k := IndexOf(s, sep);
    var rest := s[k + 1..];
    assert |Split(rest, sep)| == 1;
    assert IndexOf(rest, sep) == |rest|;
  }

  /** Python's ''.join(parts). */
  function Flatten(parts: seq<string>): string
    decreases |parts|
  {
    if parts == [] then "" else parts[0] + Flatten(parts[1..])
  }

  /** In a string made of a, the separator and b, the first separator is the one after a. */
  lemma IndexOfAfter(a: string, sep: char, b: string)
    requires sep !in a
    ensures IndexOf(a + [sep] + b, sep) == |a|
  {
    var s := a + [sep] + b;
    var k := IndexOf(s, sep);
    assert s[|a|] == sep;
  }

  /** split undoes join when no part contains the separator. */
  lemma {:induction false} SplitJoin(parts: seq<string>, sep: char)
    requires |parts| >= 1
    requires forall i :: 0 <= i < |parts| ==> sep !in parts[i]
    ensures Split(Join(parts, sep), sep) == parts
  {
    if |parts| == 1 {
      assert IndexOf(parts[0], sep) == |parts[0]|;
    } else {
      SplitAt(parts[0], sep, Join(parts[1..], sep));
      SplitJoin(parts[1..], sep);
      assert parts == [parts[0]] + parts[1..];
    }
  }

  /** Split takes the piece before the first separator, then splits what follows it. */
  lemma SplitAt(a: string, sep: char, b: string)
    requires sep !in a
    ensures Split(a + [sep] + b, sep) == [a] + Split(b, sep)
  {
    var s := a + [sep] + b;
    IndexOfAfter(a, sep, b);
    assert s[..|a|] == a;
    assert s[|a| + 1..] == b;
  }
}
