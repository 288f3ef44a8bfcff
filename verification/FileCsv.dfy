/** The CSV file of FileSystem/FileCsv.hpp and FileCsv.cpp: records are appended, and lines are read from
    the last to the first through a buffer of fixed size. */
module FileCsvs {
  import opened Basics

  const SEPARATOR := ';'
  const NEWLINE := '\n'

  // ---- What a read does, whatever the buffer holds ----------------------------------------------

  /** read() returns a line, returns false, or throws; an assertion stops the program at text that does
      not end with a newline. */
  datatype Outcome = Line(entry: string) | End | TooSmall | Corrupted | ShortRead | Crash

  /** The last newline before "end". */
  function LastNewline(s: string, end: nat): (pos: Option<nat>)
    requires end <= |s|
    ensures pos.Some? ==> pos.value < end && s[pos.value] == NEWLINE
    ensures forall k | (if pos.Some? then pos.value + 1 else 0) <= k < end :: s[k] != NEWLINE
  {
    if end == 0 then None else if s[end - 1] == NEWLINE then Some(end - 1) else LastNewline(s, end - 1)
  }

  /** Where the last line of a text starts, its own newline aside. */
  function LineStart(unread: string): (start: nat)
    requires unread != []
    ensures start < |unread|
  {
    var pos := LastNewline(unread, |unread| - 1);
    if pos.None? then 0 else pos.value + 1
  }

  /** The last line can be read if it fits with the newline before it, or everything fits. */
  predicate Fits(unread: string, bufferSize: nat)
    requires unread != []
  {
    Min(|unread| - LineStart(unread) + 1, |unread|) <= bufferSize
  }

  function ReadOutcome(unread: string, bufferSize: nat): Outcome {
    if unread == [] || bufferSize == 0 then End
    else if |unread| == 1 || bufferSize == 1 then Corrupted
    else if !Fits(unread, bufferSize) then TooSmall
    else if unread[|unread| - 1] != NEWLINE then Crash
    else Line(unread[LineStart(unread)..|unread| - 1])
  }

  /** Only a line that is returned is consumed. */
  function Remaining(unread: string, bufferSize: nat): string {
    if ReadOutcome(unread, bufferSize).Line? then unread[..LineStart(unread)] else unread
  }

  // ---- What a read does to the buffer --------------------------------------------------------------

  /** The fields of the reader. */
  datatype Reader = Reader(seek: nat, buffer: string)

  /** One look at the buffer: a definite outcome, or None where more data is needed. */
  function Look(r: Reader): Option<(Outcome, Reader)>
    requires |r.buffer| > 1
  {
    var size, pos := |r.buffer|, LastNewline(r.buffer, |r.buffer| - 1);
    var beginPos := if pos.Some? then pos.value + 1 else 0;
    if pos.None? && r.seek > 0 then None
    else if r.buffer[size - 1] != NEWLINE then Some((Crash, r))
    else Some((Line(r.buffer[beginPos..size - 1]), r.(buffer := r.buffer[..beginPos])))
  }

  /** updateReadBufferNoLock: the last bytes in front of "seek", None where the stream ends before. */
  function FetchAt(content: string, bufferSize: nat, seek: nat): Option<Reader> {
    var size := Min(seek, bufferSize);
    if size == 0 then Some(Reader(seek, []))
    else if seek > |content| then None
    else Some(Reader(seek - size, content[seek - size..seek]))
  }

  function AfterFetch(r: Reader): (Outcome, Reader) {
    if |r.buffer| == 0 then (End, r)
    else if |r.buffer| == 1 then (Corrupted, r)
    else match Look(r) case None => (TooSmall, r) case Some(found) => found
  }

  /** read(), whatever the fields hold; after a short read they are of no use. */
  function ReadStep(content: string, bufferSize: nat, r: Reader): (Outcome, Reader) {
    if |r.buffer| > 1 && Look(r).Some? then Look(r).value
    else match FetchAt(content, bufferSize, r.seek + |r.buffer|)
      case None => (ShortRead, r)
      case Some(fetched) => AfterFetch(fetched)
  }

  /** The buffer is a window of the file. */
  predicate IsWindow(content: string, bufferSize: nat, r: Reader) {
    && r.seek + |r.buffer| <= |content| && |r.buffer| <= bufferSize
    && r.buffer == content[r.seek..r.seek + |r.buffer|]
  }

  /** What the reader has not returned yet. */
  function UnreadOf(content: string, r: Reader): string
    requires r.seek + |r.buffer| <= |content|
  {
    content[..r.seek + |r.buffer|]
  }

  /** As long as the buffer is a window of the file, a read depends on what is unread and on the size of
      the buffer alone. */
  lemma {:induction false} ReadStepMeans(content: string, bufferSize: nat, r: Reader)
    requires IsWindow(content, bufferSize, r)
    ensures var unread, (outcome, r') := UnreadOf(content, r), ReadStep(content, bufferSize, r);
            && IsWindow(content, bufferSize, r')
            && outcome == ReadOutcome(unread, bufferSize) && UnreadOf(content, r') == Remaining(unread, bufferSize)
  {
    if |r.buffer| > 1 { LookMeans(content, bufferSize, r); }
    if |r.buffer| <= 1 || Look(r).None? {
      var fetched := FetchAt(content, bufferSize, r.seek + |r.buffer|).value;
      FetchIsWindow(content, bufferSize, r);
      AfterFetchMeans(content, bufferSize, fetched);
    }
  }

  lemma {:induction false} FetchIsWindow(content: string, bufferSize: nat, r: Reader)
    requires IsWindow(content, bufferSize, r)
    ensures var fetched := FetchAt(content, bufferSize, r.seek + |r.buffer|);
            && fetched.Some? && IsWindow(content, bufferSize, fetched.value)
            && UnreadOf(content, fetched.value) == UnreadOf(content, r)
            && |fetched.value.buffer| == Min(|UnreadOf(content, r)|, bufferSize)
  {
  }

  lemma {:induction false} AfterFetchMeans(content: string, bufferSize: nat, r: Reader)
    requires IsWindow(content, bufferSize, r) && |r.buffer| == Min(|UnreadOf(content, r)|, bufferSize)
    ensures var unread, (outcome, r') := UnreadOf(content, r), AfterFetch(r);
            && IsWindow(content, bufferSize, r')
            && outcome == ReadOutcome(unread, bufferSize) && UnreadOf(content, r') == Remaining(unread, bufferSize)
  {
    if |r.buffer| > 1 { LookMeans(content, bufferSize, r); }
  }

  /** A look at a window decides the read, unless the last line starts in front of the window. */
  lemma {:induction false} LookMeans(content: string, bufferSize: nat, r: Reader)
    requires IsWindow(content, bufferSize, r) && |r.buffer| > 1
    ensures var unread := UnreadOf(content, r);
            if Look(r).None? then LineStart(unread) <= r.seek && r.seek > 0
            else
              var (outcome, r') := Look(r).value;
              && IsWindow(content, bufferSize, r')
              && outcome == ReadOutcome(unread, bufferSize) && UnreadOf(content, r') == Remaining(unread, bufferSize)
  {
    var unread, pos := UnreadOf(content, r), LastNewline(r.buffer, |r.buffer| - 1);
    WindowShrinks(content, r.seek, |r.buffer|, 0);
    WindowShowsLine(unread, r.seek);
    if pos.Some? || r.seek == 0 {
      LookDecides(content, bufferSize, r, unread, if pos.Some? then pos.value + 1 else 0);
    }
  }

  lemma {:induction false} LookDecides(content: string, bufferSize: nat, r: Reader, unread: string, beginPos: nat)
    requires IsWindow(content, bufferSize, r) && |r.buffer| > 1 && beginPos < |r.buffer| && unread == UnreadOf(content, r)
    requires LineStart(unread) == r.seek + beginPos && (beginPos > 0 || r.seek == 0)
    requires Look(r) == Some(if r.buffer[|r.buffer| - 1] != NEWLINE then (Crash, r)
                             else (Line(r.buffer[beginPos..|r.buffer| - 1]), r.(buffer := r.buffer[..beginPos])))
    ensures var (outcome, r') := Look(r).value;
            && IsWindow(content, bufferSize, r')
            && outcome == ReadOutcome(unread, bufferSize) && UnreadOf(content, r') == Remaining(unread, bufferSize)
  {
    WindowEnds(content, r.seek, r.buffer);
    LineInWindow(unread, bufferSize, r.seek, beginPos);
    WindowKeeps(content, bufferSize, r, beginPos);
  }

  lemma {:induction false} WindowEnds(content: string, seek: nat, buffer: string)
    requires seek + |buffer| <= |content| && buffer == content[seek..seek + |buffer|] && buffer != []
    ensures var unread := content[..seek + |buffer|];
            unread[seek..] == buffer && unread[|unread| - 1] == buffer[|buffer| - 1]
  {
    assert content[..seek + |buffer|][seek..] == buffer;
  }

  /** A window that is cut is a window. */
  lemma {:induction false} WindowKeeps(content: string, bufferSize: nat, r: Reader, k: nat)
    requires IsWindow(content, bufferSize, r) && k <= |r.buffer|
    ensures IsWindow(content, bufferSize, r.(buffer := r.buffer[..k]))
    ensures UnreadOf(content, r.(buffer := r.buffer[..k])) == UnreadOf(content, r)[..r.seek + k]
  {
    WindowShrinks(content, r.seek, |r.buffer|, k);
  }

  /** After seekEnd with text left in the buffer, a read goes on in that text as long as it shows where its
      last line starts, and finds the end of the stream otherwise. */
  lemma {:induction false} StaleRead(content: string, bufferSize: nat, buffer: string)
    requires buffer != [] && bufferSize > 0
    ensures var shown, r := |buffer| > 1 && LastNewline(buffer, |buffer| - 1).Some?, Reader(|content|, buffer);
            var (outcome, r') := ReadStep(content, bufferSize, r);
            if !shown && (content != [] || |buffer| == 1) then outcome == ShortRead
            else if buffer[|buffer| - 1] != NEWLINE then outcome == Crash
            else outcome == Line(buffer[LineStart(buffer)..|buffer| - 1]) && r' == Reader(|content|, buffer[..LineStart(buffer)])
  {
  }

  /** Whether text[from..] holds the newline that ends the line before the last. */
  lemma {:induction false} WindowShowsNewline(text: string, from: nat, end: nat)
    requires from <= end <= |text|
    ensures var inside, outside := LastNewline(text[from..], end - from), LastNewline(text, end);
            && (inside.Some? ==> outside == Some(from + inside.value))
            && (inside.None? && outside.Some? ==> outside.value < from)
    decreases end
  {
    if from < end && text[end - 1] != NEWLINE {
      WindowShowsNewline(text, from, end - 1);
    } else if from == end && end > 0 {
      assert LastNewline(text, end).Some? ==> LastNewline(text, end).value < end;
    }
  }

  /** A buffer that starts at "from" shows where the last line starts, or that it starts further back. */
  lemma {:induction false} WindowShowsLine(unread: string, from: nat)
    requires from + 1 < |unread|
    ensures var pos, start := LastNewline(unread[from..], |unread| - from - 1), LineStart(unread);
            if pos.Some? then start == from + pos.value + 1
            else if from == 0 then start == 0
            else start <= from
  {
    WindowShowsNewline(unread, from, |unread| - 1);
  }

  /** What a buffer that shows where the last line starts says about the read. */
  lemma {:induction false} LineInWindow(unread: string, bufferSize: nat, from: nat, beginPos: nat)
    requires from + 1 < |unread| <= from + bufferSize && LineStart(unread) == from + beginPos
    requires beginPos > 0 || from == 0
    ensures Fits(unread, bufferSize)
    ensures ReadOutcome(unread, bufferSize) ==
            if unread[|unread| - 1] != NEWLINE then Crash else Line(unread[from..][beginPos..|unread| - from - 1])
    ensures unread[..from + beginPos][from..] == unread[from..][..beginPos]
  {
    assert unread[from..][beginPos..|unread| - from - 1] == unread[from + beginPos..|unread| - 1];
  }

  lemma {:induction false} WindowShrinks(content: string, seek: nat, size: nat, k: nat)
    requires seek + size <= |content| && k <= size
    ensures content[seek..seek + size][..k] == content[seek..seek + k]
    ensures content[..seek + size][..seek + k] == content[..seek + k]
    ensures content[..seek + size][seek..] == content[seek..seek + size]
  {
  }

  class FileCsv {
    var content: string
    var readBuffer: string
    var readSeek: nat
    const readBufferSize: nat

    function Fields(): Reader
      reads this
    {
      Reader(readSeek, readBuffer)
    }

    predicate Valid()
      reads this
    {
      IsWindow(content, readBufferSize, Fields())
    }

    function Unread(): string
      requires Valid()
      reads this
    {
      UnreadOf(content, Fields())
    }

    constructor (content: string, readBufferSize: nat)
      ensures Valid() && this.content == content && this.readBufferSize == readBufferSize
      ensures readBuffer == [] && readSeek == 0
    {
      this.content := content;
      this.readBuffer := [];
      this.readSeek := 0;
      this.readBufferSize := readBufferSize;
    }

    /** The reader is at the end of the file exactly when nothing was left in the buffer, which is not
        dropped. */
    method SeekEnd()
      modifies this`readSeek
      ensures Fields() == Reader(|content|, old(readBuffer))
      ensures Valid() <==> readBuffer == []
      ensures Valid() ==> Unread() == content
    {
      readSeek := |content|;
    }

    /** Records are appended; what has not been read stays as it is, and a buffer with stale text too. */
    method Write(fields: seq<string>)
      requires fields != []
      modifies this`content
      ensures content == old(content) + Record(fields) && Fields() == old(Fields())
      ensures old(Valid()) ==> Valid() && Unread() == old(Unread())
    {
      var i := 0;
      while i < |fields| - 1
        invariant i < |fields|
        invariant content == old(content) + Joined(fields[..i])
      {
        content := content + fields[i] + [SEPARATOR];
        JoinedSnoc(fields, i);
        i := i + 1;
      }
      content := content + fields[i] + [SEPARATOR] + [NEWLINE];
      JoinedSnoc(fields, i);
      assert fields[..i + 1] == fields;
    }

    /** The window moves to the last bytes in front of "readSeek"; it throws when the stream gives less. */
    method UpdateReadBuffer() returns (ok: bool)
      modifies this`readBuffer, this`readSeek
      ensures FetchAt(content, readBufferSize, old(readSeek)) == if ok then Some(Fields()) else None
    {
      var seek := if readSeek > readBufferSize then readSeek - readBufferSize else 0;
      var nbDataExpected := if readSeek > readBufferSize then readBufferSize else readSeek;
      if nbDataExpected == 0 {
        readBuffer := [];
        return true;
      }
      var from, end := Min(seek, |content|), Min(seek + nbDataExpected, |content|);
      readBuffer := content[from..end];
      if end - from != nbDataExpected { return false; }
      readSeek := seek;
      return true;
    }

    method LookAtBuffer() returns (outcome: Option<Outcome>)
      requires |readBuffer| > 1
      modifies this`readBuffer
      ensures Look(old(Fields())) == if outcome.Some? then Some((outcome.value, Fields())) else None
      ensures outcome.None? ==> readBuffer == old(readBuffer)
    {
      var pos := LastNewline(readBuffer, |readBuffer| - 1);
      if pos.Some? || readSeek == 0 {
        if readBuffer[|readBuffer| - 1] != NEWLINE { return Some(Crash); }
        var beginPos := if pos.Some? then pos.value + 1 else 0;
        outcome := Some(Line(readBuffer[beginPos..|readBuffer| - 1]));
        readBuffer := readBuffer[..beginPos];
      } else {
        outcome := None;
      }
    }

    /** For any fields, what the read function says; for a window of the file, what the unread text and
        the size of the buffer say. */
    method Read() returns (outcome: Outcome)
      modifies this`readBuffer, this`readSeek
      ensures outcome == ReadStep(content, readBufferSize, old(Fields())).0
      ensures outcome != ShortRead ==> Fields() == ReadStep(content, readBufferSize, old(Fields())).1
      ensures old(Valid()) ==>
                && Valid() && outcome == ReadOutcome(old(Unread()), readBufferSize)
                && Unread() == Remaining(old(Unread()), readBufferSize)
    {
      if Valid() { ReadStepMeans(content, readBufferSize, Fields()); }
      outcome := ReadNoLock();
    }

    method ReadNoLock() returns (outcome: Outcome)
      modifies this`readBuffer, this`readSeek
      ensures outcome == ReadStep(content, readBufferSize, old(Fields())).0
      ensures outcome != ShortRead ==> Fields() == ReadStep(content, readBufferSize, old(Fields())).1
    {
      ghost var was, goal := Fields(), ReadStep(content, readBufferSize, Fields());
      var needFetch := |readBuffer| <= 1;
      var fetched := false;
      while true
        invariant !fetched ==> Fields() == was
        invariant !fetched && needFetch ==> |was.buffer| <= 1 || Look(was).None?
        invariant !fetched && !needFetch ==> |was.buffer| > 1
        invariant fetched && !needFetch ==> goal == AfterFetch(Fields())
        invariant fetched && needFetch ==> goal == (TooSmall, Fields())
        decreases !fetched, !needFetch
      {
        if needFetch {
          if fetched { return TooSmall; }
          readSeek := readSeek + |readBuffer|;
          var ok := UpdateReadBuffer();
          if !ok { return ShortRead; }
          needFetch := false;
          fetched := true;
        }
        if |readBuffer| == 0 { return End; }
        if |readBuffer| <= 1 { return Corrupted; }
        var found := LookAtBuffer();
        if found.Some? { return found.value; }
        needFetch := true;
      }
      assert false;
    }
  }

  // ---- Lines ------------------------------------------------------------------------------------------

  /** A file of lines. */
  function Text(lines: seq<string>): string {
    if lines == [] then [] else Text(lines[..|lines| - 1]) + lines[|lines| - 1] + [NEWLINE]
  }

  predicate IsLine(line: string) { forall k | 0 <= k < |line| :: line[k] != NEWLINE }

  predicate AreLines(lines: seq<string>) { forall i | 0 <= i < |lines| :: IsLine(lines[i]) }

  /** The buffer is larger than the longest line with its newline. */
  predicate AllFit(lines: seq<string>, bufferSize: nat) {
    forall i | 0 <= i < |lines| :: |lines[i]| + 1 < bufferSize
  }

  lemma {:induction false} NewlineBefore(s: string, start: nat, end: nat)
    requires start <= end <= |s| && IsLine(s[start..end])
    requires start > 0 ==> s[start - 1] == NEWLINE
    ensures LastNewline(s, end) == if start == 0 then None else Some(start - 1)
    decreases end
  {
    if start < end {
      assert s[start..end][end - 1 - start] == s[end - 1];
      assert s[start..end - 1] == s[start..end][..end - 1 - start];
      NewlineBefore(s, start, end - 1);
    }
  }

  lemma {:induction false} LastLine(lines: seq<string>)
    requires lines != [] && IsLine(lines[|lines| - 1])
    ensures var text, before := Text(lines), Text(lines[..|lines| - 1]);
            && text != [] && LineStart(text) == |before| && text[..|before|] == before
            && text[|before|..|text| - 1] == lines[|lines| - 1] && text[|text| - 1] == NEWLINE
  {
    var text, before := Text(lines), Text(lines[..|lines| - 1]);
    assert text[|before|..|text| - 1] == lines[|lines| - 1];
    NewlineBefore(text, |before|, |text| - 1);
  }

  /** Each read returns the whole last line or throws; a line is never cut. It is returned exactly when
      it is not an empty line at the start of the file, and it fits into the buffer together with the
      newline before it, if there is one. */
  lemma {:induction false} ReadsLastLine(lines: seq<string>, bufferSize: nat)
    requires lines != [] && IsLine(lines[|lines| - 1]) && bufferSize > 0
    ensures var line, before := lines[|lines| - 1], lines[..|lines| - 1];
            var fits := Text(lines) != "\n" && |line| + (if before == [] then 1 else 2) <= bufferSize;
            && (ReadOutcome(Text(lines), bufferSize).Line? <==> fits)
            && (fits ==> ReadOutcome(Text(lines), bufferSize) == Line(line) && Remaining(Text(lines), bufferSize) == Text(before))
            && (!fits ==> Remaining(Text(lines), bufferSize) == Text(lines)
                          && ReadOutcome(Text(lines), bufferSize) == if Text(lines) == "\n" || bufferSize == 1 then Corrupted else TooSmall)
  {
    LastLine(lines);
  }

  /** Behind the last newline there must be nothing: a text that is not ended there trips an assertion as soon as a
      read gets to it. */
  lemma {:induction false} UnendedText(lines: seq<string>, last: string, bufferSize: nat)
    requires IsLine(last) && last != "" && bufferSize > 1
    ensures var fits := |last| + (if lines == [] then 0 else 1) <= bufferSize;
            ReadOutcome(Text(lines) + last, bufferSize)
            == if lines == [] && |last| == 1 then Corrupted else if fits then Crash else TooSmall
  {
    var text, before := Text(lines) + last, Text(lines);
    if lines != [] { assert before[|before| - 1] == NEWLINE; }
    assert text[|before|..|text| - 1] == last[..|last| - 1];
    NewlineBefore(text, |before|, |text| - 1);
  }

  /** A file that fits into the buffer: the first read takes its last line. */
  lemma {:induction false} ReadsWhole(lines: seq<string>, bufferSize: nat)
    requires |lines| > 1 && AreLines(lines) && |Text(lines)| <= bufferSize
    ensures ReadStep(Text(lines), bufferSize, Reader(|Text(lines)|, []))
            == (Line(lines[|lines| - 1]), Reader(0, Text(lines[..|lines| - 1])))
  {
    var text, before := Text(lines), Text(lines[..|lines| - 1]);
    LastLine(lines);
    TextIsLonger(lines[..|lines| - 1]);
    WholeIsFetched(text, bufferSize);
    WholeShows(text, before, lines[|lines| - 1]);
  }

  lemma {:induction false} WholeIsFetched(text: string, bufferSize: nat)
    requires text != [] && |text| <= bufferSize
    ensures ReadStep(text, bufferSize, Reader(|text|, [])) == AfterFetch(Reader(0, text))
  {
    assert text[0..|text|] == text;
  }

  lemma {:induction false} WholeShows(text: string, before: string, line: string)
    requires |text| > 1 && LineStart(text) == |before| && text[..|before|] == before
    requires text[|before|..|text| - 1] == line && text[|text| - 1] == NEWLINE
    ensures AfterFetch(Reader(0, text)) == (Line(line), Reader(0, before))
  {
  }

  /** seekEnd does not go back to the end: after one read of such a file, and a second seekEnd, the next
      read returns the line before the last. */
  lemma {:induction false} SeekEndGoesOn(lines: seq<string>, bufferSize: nat)
    requires |lines| > 2 && AreLines(lines) && |Text(lines)| <= bufferSize
    ensures var text, (first, r) := Text(lines), ReadStep(Text(lines), bufferSize, Reader(|Text(lines)|, []));
            && first == Line(lines[|lines| - 1])
            && ReadStep(text, bufferSize, Reader(|text|, r.buffer)).0 == Line(lines[|lines| - 2])
  {
    var before := lines[..|lines| - 1];
    ReadsWhole(lines, bufferSize);
    LastLine(before);
    TextIsLonger(before[..|before| - 1]);
    StaleRead(Text(lines), bufferSize, Text(before));
  }

  lemma {:induction false} TextSnoc(lines: seq<string>, line: string)
    ensures Text(lines + [line]) == Text(lines) + line + [NEWLINE]
  {
    assert (lines + [line])[..|lines|] == lines;
  }

  /** Three lines: the second read does not return the last of them. */
  lemma {:induction false} SeekEndExample(lines: seq<string>)
    requires lines == ["a", "b", "c"]
    ensures var text, (first, r) := Text(lines), ReadStep(Text(lines), 6, Reader(|Text(lines)|, []));
            first == Line("c") && ReadStep(text, 6, Reader(|text|, r.buffer)).0 == Line("b")
  {
    TextSnoc([], "a");
    TextSnoc(["a"], "b");
    TextSnoc(["a", "b"], "c");
    assert [] + ["a"] == ["a"] && ["a"] + ["b"] == ["a", "b"] && ["a", "b"] + ["c"] == lines;
    SeekEndGoesOn(lines, 6);
  }

  // ---- Any number of reads --------------------------------------------------------------------------

  /** The outcomes of "n" steps. */
  function Repeat<S>(step: S -> (Outcome, S), s: S, n: nat): (outcomes: seq<Outcome>)
    ensures |outcomes| == n
  {
    if n == 0 then [] else [step(s).0] + Repeat(step, step(s).1, n - 1)
  }

  lemma {:induction false} RepeatKeeps<S>(step: S -> (Outcome, S), inv: S -> bool, ok: Outcome -> bool, s: S, n: nat)
    requires inv(s) && forall t | inv(t) :: ok(step(t).0) && inv(step(t).1)
    ensures forall outcome | outcome in Repeat(step, s, n) :: ok(outcome)
    decreases n
  {
    if n > 0 { RepeatKeeps(step, inv, ok, step(s).1, n - 1); }
  }

  lemma {:induction false} RepeatAgrees<S, T>(
    f: S -> (Outcome, S), g: T -> (Outcome, T), same: (S, T) -> bool, s: S, t: T, n: nat)
    requires same(s, t) && forall a, b | same(a, b) :: f(a).0 == g(b).0 && same(f(a).1, g(b).1)
    ensures Repeat(f, s, n) == Repeat(g, t, n)
    decreases n
  {
    if n > 0 { RepeatAgrees(f, g, same, f(s).1, g(t).1, n - 1); }
  }

  function ReadOf(bufferSize: nat): string -> (Outcome, string) {
    unread => (ReadOutcome(unread, bufferSize), Remaining(unread, bufferSize))
  }

  function Reads(unread: string, bufferSize: nat, n: nat): seq<Outcome> {
    Repeat(ReadOf(bufferSize), unread, n)
  }

  function StepOf(content: string, bufferSize: nat): Reader -> (Outcome, Reader) {
    r => ReadStep(content, bufferSize, r)
  }

  /** From a window of the file, any number of reads gives what the unread text and the size of the buffer
      say. */
  lemma {:induction false} StepsAreReads(content: string, bufferSize: nat, r: Reader, n: nat)
    requires IsWindow(content, bufferSize, r)
    ensures Repeat(StepOf(content, bufferSize), r, n) == Reads(UnreadOf(content, r), bufferSize, n)
  {
    var same := (q: Reader, unread: string) => IsWindow(content, bufferSize, q) && unread == UnreadOf(content, q);
    forall q, unread | same(q, unread)
      ensures var (outcome, q') := ReadStep(content, bufferSize, q);
              outcome == ReadOutcome(unread, bufferSize) && same(q', Remaining(unread, bufferSize))
    {
      ReadStepMeans(content, bufferSize, q);
    }
    RepeatAgrees(StepOf(content, bufferSize), ReadOf(bufferSize), same, r, UnreadOf(content, r), n);
  }

  /** A read of lines from last to first, and then the end for ever. */
  function Back(lines: seq<string>): (Outcome, seq<string>) {
    if lines == [] then (End, []) else (Line(lines[|lines| - 1]), lines[..|lines| - 1])
  }

  function Backwards(lines: seq<string>, n: nat): seq<Outcome> {
    Repeat(Back, lines, n)
  }

  /** The same, except that an empty first line is never returned. */
  function BackOrThrow(lines: seq<string>): (Outcome, seq<string>) {
    if lines == [""] then (Corrupted, lines) else Back(lines)
  }

  lemma {:induction false} ReadIsBack(lines: seq<string>, bufferSize: nat)
    requires AreLines(lines) && AllFit(lines, bufferSize)
    ensures var (outcome, before) := BackOrThrow(lines);
            && outcome == ReadOutcome(Text(lines), bufferSize) && Text(before) == Remaining(Text(lines), bufferSize)
            && AreLines(before) && AllFit(before, bufferSize)
  {
    if lines == [""] {
      FirstLineFails(bufferSize);
    } else if lines != [] {
      ReadsOne(lines, bufferSize);
    }
  }

  /** What a file of lines gives, through any buffer that is larger than the longest line with its newline. */
  lemma {:induction false} ReadsAreBack(lines: seq<string>, bufferSize: nat, n: nat)
    requires AreLines(lines) && AllFit(lines, bufferSize)
    ensures Reads(Text(lines), bufferSize, n) == Repeat(BackOrThrow, lines, n)
  {
    var same := (unread, ls: seq<string>) => unread == Text(ls) && AreLines(ls) && AllFit(ls, bufferSize);
    forall unread, ls | same(unread, ls)
      ensures ReadOutcome(unread, bufferSize) == BackOrThrow(ls).0 && same(Remaining(unread, bufferSize), BackOrThrow(ls).1)
    {
      ReadIsBack(ls, bufferSize);
    }
    RepeatAgrees(ReadOf(bufferSize), BackOrThrow, same, Text(lines), lines, n);
  }

  /** A file whose first line is not empty is read completely. */
  lemma {:induction false} ReadsBackwards(lines: seq<string>, bufferSize: nat, n: nat)
    requires AreLines(lines) && AllFit(lines, bufferSize)
    requires lines != [] ==> lines[0] != ""
    ensures Reads(Text(lines), bufferSize, n) == Backwards(lines, n)
  {
    ReadsAreBack(lines, bufferSize, n);
    RepeatAgrees(BackOrThrow, Back, (a, b) => a == b && (a == [] || a[0] != ""), lines, lines, n);
  }

  lemma {:induction false} EmptyLineThrows(lines: seq<string>, n: nat)
    requires n >= |lines| > 0 && lines[0] == ""
    ensures Corrupted in Repeat(BackOrThrow, lines, n)
    decreases n
  {
    if lines == [""] {
      assert Repeat(BackOrThrow, lines, n)[0] == Corrupted;
    } else {
      assert lines == [lines[0]] + lines[1..];
      EmptyLineThrows(lines[..|lines| - 1], n - 1);
    }
  }

  /** And only such a file: an empty first line is not returned. */
  lemma {:induction false} ReadsBackwardsExactly(lines: seq<string>, bufferSize: nat, n: nat)
    requires AreLines(lines) && AllFit(lines, bufferSize) && n >= |lines|
    ensures Reads(Text(lines), bufferSize, n) == Backwards(lines, n) <==> lines == [] || lines[0] != ""
  {
    if lines == [] || lines[0] != "" {
      ReadsBackwards(lines, bufferSize, n);
    } else {
      ReadsAreBack(lines, bufferSize, n);
      EmptyLineThrows(lines, n);
      RepeatKeeps(Back, _ => true, outcome => outcome != Corrupted, lines, n);
    }
  }

  lemma {:induction false} FirstLineFails(bufferSize: nat)
    requires bufferSize > 0
    ensures ReadOutcome(Text([""]), bufferSize) == Corrupted
  {
    assert [""][..0] == [];
  }

  lemma {:induction false} ReadsOne(lines: seq<string>, bufferSize: nat)
    requires lines != [] && IsLine(lines[|lines| - 1]) && |lines[|lines| - 1]| + 1 < bufferSize
    requires |lines| > 1 || lines[0] != ""
    ensures ReadOutcome(Text(lines), bufferSize) == Line(lines[|lines| - 1])
    ensures Remaining(Text(lines), bufferSize) == Text(lines[..|lines| - 1])
  {
    ReadsLastLine(lines, bufferSize);
    if |lines| > 1 { TextIsLonger(lines[..|lines| - 1]); }
  }

  lemma {:induction false} TextIsLonger(lines: seq<string>)
    requires lines != []
    ensures |Text(lines)| >= 1
  {
  }

  /** A read that throws throws again, for ever. */
  lemma {:induction false} ThrowsForEver(unread: string, bufferSize: nat, n: nat)
    requires ReadOutcome(unread, bufferSize) in {TooSmall, Corrupted}
    ensures forall outcome | outcome in Reads(unread, bufferSize, n) :: outcome == ReadOutcome(unread, bufferSize)
  {
    RepeatKeeps(ReadOf(bufferSize), u => u == unread, outcome => outcome == ReadOutcome(unread, bufferSize), unread, n);
  }

  // ---- Reading after seekEnd -------------------------------------------------------------------------

  predicate IsFailure(outcome: Outcome) { outcome in {ShortRead, Crash} }

  /** Some read, after reads that return lines, finds the end of the stream or an assertion that fails. */
  ghost predicate Fails(content: string, bufferSize: nat, r: Reader) {
    exists n: nat, outcomes: seq<Outcome> ::
      && outcomes == Repeat(StepOf(content, bufferSize), r, n + 1)
      && IsFailure(outcomes[n]) && forall i | 0 <= i < n :: outcomes[i].Line?
  }

  lemma {:induction false} StaleFails(content: string, bufferSize: nat, buffer: string) returns (n: nat)
    requires content != [] && bufferSize > 0 && buffer != []
    ensures var outcomes := Repeat(StepOf(content, bufferSize), Reader(|content|, buffer), n + 1);
            IsFailure(outcomes[n]) && n < |buffer| && forall i | 0 <= i < n :: outcomes[i].Line?
    decreases |buffer|
  {
    StaleRead(content, bufferSize, buffer);
    if ReadStep(content, bufferSize, Reader(|content|, buffer)).0.Line? {
      n := StaleFails(content, bufferSize, buffer[..LineStart(buffer)]);
      n := n + 1;
    } else {
      n := 0;
    }
  }

  /** A file of lines does not fail, whether they fit into the buffer or not. */
  lemma {:induction false} LinesDoNotFail(lines: seq<string>, bufferSize: nat, n: nat)
    requires AreLines(lines)
    ensures forall outcome | outcome in Reads(Text(lines), bufferSize, n) :: !IsFailure(outcome)
  {
    var inv := unread => HoldsLines(unread);
    forall unread | inv(unread)
      ensures !IsFailure(ReadOutcome(unread, bufferSize)) && inv(Remaining(unread, bufferSize))
    {
      LinesAreLeft(unread, bufferSize);
    }
    RepeatKeeps(ReadOf(bufferSize), inv, outcome => !IsFailure(outcome), Text(lines), n);
  }

  ghost predicate HoldsLines(unread: string) {
    exists lines :: AreLines(lines) && unread == Text(lines)
  }

  lemma {:induction false} LinesAreLeft(unread: string, bufferSize: nat)
    requires HoldsLines(unread)
    ensures !IsFailure(ReadOutcome(unread, bufferSize)) && HoldsLines(Remaining(unread, bufferSize))
  {
    var lines :| AreLines(lines) && unread == Text(lines);
    if lines != [] && bufferSize > 0 {
      ReadsLastLine(lines, bufferSize);
      assert AreLines(lines[..|lines| - 1]);
    }
  }

  lemma {:induction false} AllIsUnread(content: string, bufferSize: nat)
    ensures IsWindow(content, bufferSize, Reader(|content|, [])) && UnreadOf(content, Reader(|content|, [])) == content
  {
  }

  lemma {:induction false} EmptyDoesNotFail(lines: seq<string>, bufferSize: nat, n: nat)
    requires AreLines(lines)
    ensures !IsFailure(Repeat(StepOf(Text(lines), bufferSize), Reader(|Text(lines)|, []), n + 1)[n])
  {
    AllIsUnread(Text(lines), bufferSize);
    StepsAreReads(Text(lines), bufferSize, Reader(|Text(lines)|, []), n + 1);
    LinesDoNotFail(lines, bufferSize, n + 1);
  }

  /** After seekEnd, a reader of lines fails sooner or later exactly when text was left in its buffer. */
  lemma {:induction false} SeekEndFailsExactly(lines: seq<string>, bufferSize: nat, buffer: string)
    requires AreLines(lines) && lines != [] && bufferSize > 0
    ensures Fails(Text(lines), bufferSize, Reader(|Text(lines)|, buffer)) <==> buffer != []
  {
    TextIsLonger(lines);
    if buffer != [] {
      var n := StaleFails(Text(lines), bufferSize, buffer);
      var outcomes := Repeat(StepOf(Text(lines), bufferSize), Reader(|Text(lines)|, buffer), n + 1);
      assert IsFailure(outcomes[n]);
    } else if Fails(Text(lines), bufferSize, Reader(|Text(lines)|, buffer)) {
      var n: nat, outcomes :|
        outcomes == Repeat(StepOf(Text(lines), bufferSize), Reader(|Text(lines)|, buffer), n + 1) && IsFailure(outcomes[n]);
      EmptyDoesNotFail(lines, bufferSize, n);
    }
  }

  // ---- Records ------------------------------------------------------------------------------------------

  function Joined(fields: seq<string>): string {
    if fields == [] then [] else Joined(fields[..|fields| - 1]) + fields[|fields| - 1] + [SEPARATOR]
  }

  function Record(fields: seq<string>): string { Joined(fields) + [NEWLINE] }

  lemma {:induction false} JoinedSnoc(fields: seq<string>, i: nat)
    requires i < |fields|
    ensures Joined(fields[..i + 1]) == Joined(fields[..i]) + fields[i] + [SEPARATOR]
  {
    assert fields[..i + 1][..i] == fields[..i];
  }

  /** The fields of a line, each ended by a semicolon. */
  function Cells(line: string): seq<string> {
    var i := FirstSemicolon(line, 0);
    if i == |line| then [] else [line[..i]] + Cells(line[i + 1..])
  }

  function FirstSemicolon(line: string, from: nat): (i: nat)
    requires from <= |line|
    ensures from <= i <= |line| && (i < |line| ==> line[i] == ';')
    ensures forall k | from <= k < i :: line[k] != ';'
    decreases |line| - from
  {
    if from == |line| || line[from] == ';' then from else FirstSemicolon(line, from + 1)
  }

  lemma {:induction false} JoinedCons(field: string, fields: seq<string>)
    ensures Joined([field] + fields) == field + ";" + Joined(fields)
  {
    var all := [field] + fields;
    if fields == [] {
      assert all[..0] == [];
    } else {
      assert all[..|all| - 1] == [field] + fields[..|fields| - 1];
      JoinedCons(field, fields[..|fields| - 1]);
    }
  }

  /** A record is a line with the fields that were written, for fields without a semicolon. */
  lemma {:induction false} RecordIsRead(fields: seq<string>)
    requires forall field | field in fields :: ';' !in field
    ensures Record(fields) == Joined(fields) + "\n" && Cells(Joined(fields)) == fields
  {
    if fields != [] {
      var field, rest := fields[0], fields[1..];
      assert fields == [field] + rest;
      JoinedCons(field, rest);
      var line := Joined(fields);
      assert line == field + ";" + Joined(rest) && line[|field|] == ';';
      assert forall k | 0 <= k < |field| :: line[k] == field[k] && field[k] in field;
      assert line[..|field|] == field && line[|field| + 1..] == Joined(rest);
      RecordIsRead(rest);
    }
  }

  /** What a series of writes leaves in an empty file. */
  function Written(records: seq<seq<string>>): string {
    if records == [] then [] else Written(records[..|records| - 1]) + Record(records[|records| - 1])
  }

  function LinesOf(records: seq<seq<string>>): seq<string> {
    seq(|records|, i requires 0 <= i < |records| => Joined(records[i]))
  }

  lemma {:induction false} JoinedIsLine(fields: seq<string>)
    requires AreLines(fields)
    ensures IsLine(Joined(fields)) && (fields != [] ==> Joined(fields) != "")
  {
    if fields != [] {
      JoinedIsLine(fields[..|fields| - 1]);
    }
  }

  lemma {:induction false} WrittenIsText(records: seq<seq<string>>)
    ensures Written(records) == Text(LinesOf(records))
  {
    if records != [] {
      var before := records[..|records| - 1];
      WrittenIsText(before);
      assert LinesOf(records)[..|records| - 1] == LinesOf(before);
    }
  }

  /** Records written to an empty file come back from last to first, fields joined, and then the end. */
  lemma {:induction false} WrittenIsReadBack(records: seq<seq<string>>, bufferSize: nat, n: nat)
    requires forall r | r in records :: r != [] && |Joined(r)| + 1 < bufferSize && AreLines(r)
    ensures Reads(Written(records), bufferSize, n) == Backwards(LinesOf(records), n)
  {
    WrittenIsText(records);
    forall i | 0 <= i < |records|
      ensures IsLine(Joined(records[i])) && |Joined(records[i])| + 1 < bufferSize && Joined(records[i]) != ""
    {
      assert records[i] in records;
      JoinedIsLine(records[i]);
    }
    ReadsBackwards(LinesOf(records), bufferSize, n);
  }
}
