/** The history list as values: adding a line, resizing, and the text form written and read back. */
module History {
  import opened Text

  const DEFAULT_HISTORY_MAX_LEN: nat := 100

  predicate Distinct(h: seq<string>) {
    forall i, j :: 0 <= i < j < |h| ==> h[i] != h[j]
  }

  /** The history after history_add(line) under the bound maxlen. */
  function Added(h: seq<string>, maxlen: nat, line: string): (r: seq<string>)
    // no entry is invented, at most one is added, and a new line goes last
    ensures forall x :: x in r ==> x in h || x == line
    ensures |r| <= |h| + 1
    ensures maxlen > 0 ==> line in r
    ensures maxlen > 0 && line !in h ==> r[|r| - 1] == line
  {
    if maxlen == 0 || line in h then h
    else if |h| == maxlen then h[1..] + [line]
    else h + [line]
  }

  /** A history that is distinct and within its bound stays so, and a new line goes last, evicting the
      oldest entry when the history is full. */
  lemma AddedKeepsInvariant(h: seq<string>, maxlen: nat, line: string)
    requires Distinct(h) && |h| <= maxlen
    ensures Distinct(Added(h, maxlen, line)) && |Added(h, maxlen, line)| <= maxlen
    ensures maxlen > 0 ==> line in Added(h, maxlen, line)
    ensures maxlen > 0 && line !in h ==>
      Added(h, maxlen, line) == (if |h| == maxlen then h[1..] else h) + [line]
  {
    var r := Added(h, maxlen, line);
    if maxlen > 0 && line !in h {
      var kept := if |h| == maxlen then h[1..] else h;
      assert r == kept + [line];
      forall i, j | 0 <= i < j < |r| ensures r[i] != r[j] {
        if j == |r| - 1 {
          assert r[i] == kept[i] && kept[i] in h;
        } else {
          assert r[i] == kept[i] && r[j] == kept[j];
        }
      }
    }
  }

  /** Nothing is added when the bound is 0 or the line is already there. */
  lemma AddedUnchanged(h: seq<string>, maxlen: nat, line: string)
    requires maxlen == 0 || line in h
    ensures Added(h, maxlen, line) == h
  {
  }

  /** Eviction only happens at exactly the bound: a history already past it (as history_load can leave
      it) grows by one with each new line. */
  lemma OverfullHistoryGrows(h: seq<string>, maxlen: nat, line: string)
    requires 0 < maxlen < |h| && line !in h
    ensures Added(h, maxlen, line) == h + [line]
    ensures |Added(h, maxlen, line)| > maxlen + 1
  {
  }

  /** The newest n entries of h in their order: what history_set_maxlen(n) keeps. */
  function Newest(h: seq<string>, n: nat): (r: seq<string>)
    ensures |r| == if |h| < n then |h| else n
    ensures forall i :: 0 <= i < |r| ==> r[i] == h[|h| - |r| + i]
  {
    if |h| > n then h[|h| - n..] else h
  }

  /** Keeping the newest entries keeps them distinct and brings the history within the new bound. */
  lemma NewestKeepsInvariant(h: seq<string>, n: nat)
    requires Distinct(h)
    ensures Distinct(Newest(h, n)) && |Newest(h, n)| <= n
  {
    var r := Newest(h, n);
    assert r == h[|h| - |r|..];
    DistinctSuffix(h, |h| - |r|);
  }

  /** Dropping a prefix keeps entries distinct. */
  lemma DistinctSuffix(h: seq<string>, lo: nat)
    requires Distinct(h) && lo <= |h|
    ensures Distinct(h[lo..])
  {
    var r := h[lo..];
    forall i, j | 0 <= i < j < |r| ensures r[i] != r[j] {
      assert r[i] == h[lo + i] && r[j] == h[lo + j];
    }
  }

  /** The text history_save writes: the entries joined by newlines, oldest first. */
  function SaveText(h: seq<string>): (r: string)
    ensures h == [] ==> r == ""
    // newline-free entries are the newline-separated fields of the text
    ensures h != [] && (forall i :: 0 <= i < |h| ==> '\n' !in h[i]) ==> Split(r, '\n') == h
  {
    if h != [] && (forall i :: 0 <= i < |h| ==> '\n' !in h[i]) then
      SplitJoin(h, '\n');
      Join(h, '\n')
    else
      Join(h, '\n')
  }

  /** Python's f.readlines() on text t: each line keeps its '\n'; a last piece without one is a line when
      it is not empty. */
  function ReadLines(t: string): (lines: seq<string>)
    ensures Flatten(lines) == t
    ensures forall i :: 0 <= i < |lines| ==> lines[i] != [] && '\n' !in lines[i][..|lines[i]| - 1]
    // every line but the last ends in its newline
    ensures forall i :: 0 <= i < |lines| - 1 ==> lines[i][|lines[i]| - 1] == '\n'
    decreases |t|
  {
    if t == [] then []
    else
      var k := IndexOf(t, '\n');
      if k == |t| then
        assert Flatten([t]) == t + Flatten([]);
        [t]
      else
        var line := t[..k + 1];
        var rest := ReadLines(t[k + 1..]);
        assert '\n' !in line[..k] && line[k] == '\n';
        assert ([line] + rest)[1..] == rest;
        assert line + t[k + 1..] == t;
        [line] + rest
  }

  /** The history history_load builds from the text of the file: every line stripped. */
  function LoadEntries(t: string): (h: seq<string>)
    ensures |h| == |ReadLines(t)|
    ensures forall i :: 0 <= i < |h| ==> h[i] == Strip(ReadLines(t)[i])
    // whatever the file held, every entry is newline-free and stripped
    ensures forall i :: 0 <= i < |h| ==> '\n' !in h[i] && IsTrimmed(h[i])
  {
    var lines := ReadLines(t);
    StrippedLinesClean(lines);
    var h := seq(|lines|, i requires 0 <= i < |lines| => Strip(lines[i]));
    assert forall i :: 0 <= i < |h| ==> h[i] == Strip(lines[i]);
    h
  }

  /** Entries that survive the round trip: no newline inside, no surrounding whitespace, and a last
      entry that is not empty (save writes no newline after it, so an empty one is lost). */
  predicate Storable(h: seq<string>) {
    (forall i :: 0 <= i < |h| ==> '\n' !in h[i] && IsTrimmed(h[i])) && (h == [] || h[|h| - 1] != "")
  }

  /** A line with no newline but possibly its last character strips to a newline-free entry. */
  lemma StrippedLinesClean(lines: seq<string>)
    requires forall i :: 0 <= i < |lines| ==> lines[i] != [] && '\n' !in lines[i][..|lines[i]| - 1]
    ensures forall i :: 0 <= i < |lines| ==> '\n' !in Strip(lines[i]) && IsTrimmed(Strip(lines[i]))
  {
    forall i | 0 <= i < |lines| ensures '\n' !in Strip(lines[i]) {
      var l := lines[i];
      var x := l[..|l| - 1];
      if l[|l| - 1] == '\n' {
        assert l == x + ['\n'];
        StripNewlineEnd(x);
      } else {
        assert '\n' !in l by {
          assert l == x + [l[|l| - 1]];
        }
        StripKeepsOut(l, '\n');
      }
    }
  }

  /** The lines readlines finds in joined newline-free entries: one per entry with its newline, the last
      without, and none for an empty last entry. */
  lemma {:induction false} ReadLinesOfJoin(h: seq<string>)
    requires |h| >= 1
    requires forall i :: 0 <= i < |h| ==> '\n' !in h[i]
    ensures |ReadLines(SaveText(h))| == |h| - (if h[|h| - 1] == "" then 1 else 0)
    ensures forall i :: 0 <= i < |h| - 1 ==> ReadLines(SaveText(h))[i] == h[i] + ['\n']
    ensures h[|h| - 1] != "" ==> ReadLines(SaveText(h))[|h| - 1] == h[|h| - 1]
  {
    if |h| == 1 {
      assert IndexOf(h[0], '\n') == |h[0]|;
    } else {
      assert SaveText(h) == h[0] + ['\n'] + SaveText(h[1..]);
      ReadLinesAt(h[0], SaveText(h[1..]));
      ReadLinesOfJoin(h[1..]);
      LinesOfJoinStep(h, h[1..], ReadLines(SaveText(h)), ReadLines(SaveText(h[1..])));
    }
  }

  /** The lines of the joined entries are the first entry with its newline, then the lines of the rest. */
  lemma LinesOfJoinStep(h: seq<string>, t: seq<string>, lines: seq<string>, rest: seq<string>)
    requires |h| >= 2 && t == h[1..] && lines == [h[0] + ['\n']] + rest
    requires |rest| == |t| - (if t[|t| - 1] == "" then 1 else 0)
    requires forall i :: 0 <= i < |t| - 1 ==> rest[i] == t[i] + ['\n']
    requires t[|t| - 1] != "" ==> rest[|t| - 1] == t[|t| - 1]
    ensures |lines| == |h| - (if h[|h| - 1] == "" then 1 else 0)
    ensures forall i :: 0 <= i < |h| - 1 ==> lines[i] == h[i] + ['\n']
    ensures h[|h| - 1] != "" ==> lines[|h| - 1] == h[|h| - 1]
  {
    forall i | 1 <= i < |h| - 1 ensures lines[i] == h[i] + ['\n'] {
      assert lines[i] == rest[i - 1];
    }
  }

  /** readlines takes the line up to and including the first newline, then reads what follows it. */
  lemma ReadLinesAt(a: string, b: string)
    requires '\n' !in a
    ensures ReadLines(a + ['\n'] + b) == [a + ['\n']] + ReadLines(b)
  {
    var t := a + ['\n'] + b;
    IndexOfAfter(a, '\n', b);
    assert t[..|a| + 1] == a + ['\n'];
    assert t[|a| + 1..] == b;
  }

  /** Saving then loading returns the history exactly when its entries are storable. */
  lemma SaveLoadRoundTrip(h: seq<string>)
    ensures LoadEntries(SaveText(h)) == h <==> Storable(h)
  {
    if Storable(h) {
      SaveLoadStorable(h);
    }
    if LoadEntries(SaveText(h)) == h {
      if h != [] {
        ReadLinesOfJoin(h);
      }
    }
  }

  lemma SaveLoadStorable(h: seq<string>)
    requires Storable(h)
    ensures LoadEntries(SaveText(h)) == h
  {
    if h != [] {
      var t := SaveText(h);
      ReadLinesOfJoin(h);
      assert forall i :: 0 <= i < |h| ==> IsTrimmed(h[i]);
      assert forall i :: 0 <= i < |h| ==> ReadLines(t)[i] == h[i] || ReadLines(t)[i] == h[i] + ['\n'];
      LoadStoredLines(t, h);
    }
  }

  /** Text whose lines are the entries, each with or without its newline, loads back as the entries. */
  lemma LoadStoredLines(t: string, h: seq<string>)
    requires forall i :: 0 <= i < |h| ==> IsTrimmed(h[i])
    requires |ReadLines(t)| == |h|
    requires forall i :: 0 <= i < |h| ==> ReadLines(t)[i] == h[i] || ReadLines(t)[i] == h[i] + ['\n']
    ensures LoadEntries(t) == h
  {
    var lines := ReadLines(t);
    var loaded := LoadEntries(t);
    forall i | 0 <= i < |h| ensures loaded[i] == h[i] {
      StripStored(h[i], lines[i]);
    }
  }

  /** A stored entry, read back with or without its newline, strips to itself. */
  lemma StripStored(entry: string, line: string)
    requires IsTrimmed(entry)
    requires line == entry || line == entry + ['\n']
    ensures Strip(line) == entry
  {
    StripTrimmed(entry);
    StripNewlineEnd(entry);
  }

  /** With room for two, adding "x", "y" and "z" leaves ["y", "z"]. */
  lemma OldestEvicted()
    ensures Added(Added(Added([], 2, "x"), 2, "y"), 2, "z") == ["y", "z"]
  {
  }

  /** Adding "a" twice keeps one "a". */
  lemma DuplicateSuppressed()
    ensures Added(Added([], DEFAULT_HISTORY_MAX_LEN, "a"), DEFAULT_HISTORY_MAX_LEN, "a") == ["a"]
  {
  }

  /** ["a", "b", "c"] survives the round trip. */
  lemma ThreeEntriesRoundTrip()
    ensures LoadEntries(SaveText(["a", "b", "c"])) == ["a", "b", "c"]
  {
    var h := ["a", "b", "c"];
    assert Storable(h);
    SaveLoadStorable(h);
  }
}
