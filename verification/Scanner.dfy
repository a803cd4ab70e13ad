// The line scanner of bufio: a growing, sliding buffer filled from a reader that hands
// out its input in arbitrary pieces.

module Scanner {

  import opened Bytes
  import opened Wrappers

  const NEWLINE: Byte := 10
  const RETURN: Byte := 13

  datatype Error = NoError | EOF | TooLong | NoProgress

  // ----- Lines of a text -----

  function DropCR(s: seq<Byte>): seq<Byte> {
    if s != [] && s[|s| - 1] == RETURN then s[..|s| - 1] else s
  }

  function FirstLine(s: seq<Byte>): seq<Byte> {
    DropCR(s[..IndexByte(s, NEWLINE)])
  }

  // What follows the first line and its terminator, if it has one.
  function AfterLine(s: seq<Byte>): seq<Byte> {
    var i := IndexByte(s, NEWLINE);
    if i < |s| then s[i + 1..] else []
  }

  // Split at newlines, dropping one carriage return per line and an empty last piece.
  function Lines(s: seq<Byte>): seq<seq<Byte>>
    decreases |s|
  {
    if s == [] then [] else [FirstLine(s)] + Lines(AfterLine(s))
  }

  // A plain line: no newline inside, no carriage return at the end.
  predicate Plain(line: seq<Byte>) {
    (forall k :: 0 <= k < |line| ==> line[k] != NEWLINE) && (line != [] ==> line[|line| - 1] != RETURN)
  }

  // Lines written with any mix of "\n" and "\r\n" terminators.
  function Unlines(lines: seq<seq<Byte>>, crlf: seq<bool>): seq<Byte>
    requires |lines| == |crlf|
  {
    if lines == [] then []
    else lines[0] + Terminator(crlf[0]) + Unlines(lines[1..], crlf[1..])
  }

  function Terminator(cr: bool): seq<Byte> {
    if cr then [RETURN, NEWLINE] else [NEWLINE]
  }

  lemma FirstOfText(line: seq<Byte>, cr: bool, tail: seq<Byte>)
    requires Plain(line)
    ensures FirstLine(line + Terminator(cr) + tail) == line
    ensures AfterLine(line + Terminator(cr) + tail) == tail
  {
    hide IndexByte;
    var text := line + Terminator(cr) + tail;
    var i := if cr then |line| + 1 else |line|;
    assert forall k :: 0 <= k < |line| ==> text[k] == line[k];
    IndexByteIs(text, NEWLINE, i);
    assert text[i + 1..] == tail;
    assert text[..i] == if cr then line + [RETURN] else line;
    if cr {
      assert (line + [RETURN])[..|line|] == line;
    }
  }

  lemma LastAlone(last: seq<Byte>)
    requires Plain(last)
    ensures Lines(last) == if last == [] then [] else [last]
  {
    if last != [] {
      IndexByteIs(last, NEWLINE, |last|);
      assert last[..|last|] == last;
      assert Lines([]) == [];
    }
  }

  // Reading back what was written line by line, an unterminated last line included.
  lemma {:induction false} LinesOfUnlines(lines: seq<seq<Byte>>, crlf: seq<bool>, last: seq<Byte>)
    requires |lines| == |crlf| && Plain(last)
    requires forall i :: 0 <= i < |lines| ==> Plain(lines[i])
    ensures Lines(Unlines(lines, crlf) + last) == lines + (if last == [] then [] else [last])
    decreases |lines|
  {
    hide Plain, FirstLine, AfterLine;
    var end := if last == [] then [] else [last];
    if lines == [] {
      assert Unlines(lines, crlf) + last == last;
      LastAlone(last);
      assert lines + end == end;
    } else {
      var head, tail := lines[0] + Terminator(crlf[0]), Unlines(lines[1..], crlf[1..]);
      Regroup(head, tail, last);
      assert Unlines(lines, crlf) == head + tail;
      FirstOfText(lines[0], crlf[0], tail + last);
      LinesOfUnlines(lines[1..], crlf[1..], last);
      assert [lines[0]] + (lines[1..] + end) == lines + end;
    }
  }

  // ----- The split function -----

  function ScanLines(data: seq<Byte>, atEOF: bool): (int, Option<seq<Byte>>) {
    if atEOF && |data| == 0 then (0, None)
    else
      var i := IndexByte(data, NEWLINE);
      if i < |data| then (i + 1, Some(DropCR(data[..i])))
      else if atEOF then (|data|, Some(DropCR(data)))
      else (0, None)
  }

  // A token cut from the window is the first line of everything still to come.
  lemma TokenIsLine(window: seq<Byte>, rest: seq<Byte>, atEOF: bool)
    requires atEOF ==> rest == []
    ensures var (adv, token) := ScanLines(window, atEOF);
            && 0 <= adv <= |window|
            && (token.Some? ==>
                  && adv > 0
                  && token.value == FirstLine(window + rest)
                  && window[adv..] + rest == AfterLine(window + rest))
            && (token.None? ==>
                  && adv == 0
                  && (if atEOF then window == [] else IndexByte(window, NEWLINE) == |window|))
  {
    hide IndexByte;
    var all := window + rest;
    var i := IndexByte(window, NEWLINE);
    if i < |window| {
      IndexByteIs(all, NEWLINE, i);
      assert all[..i] == window[..i];
      assert all[i + 1..] == window[i + 1..] + rest;
    } else if atEOF {
      assert all == window;
      assert window[..|window|] == window;
    }
  }

  // ----- The reader -----

  const MAX_EMPTY_READS := 100

  // A reader delivers its input in order, in pieces of any size, possibly empty, and
  // reports the end with or after the last piece. idle counts empty reads in a row; an
  // honest reader makes at most 100 of them.
  class Source {
    const honest: bool
    var rest: seq<Byte>
    var idle: nat

    constructor (input: seq<Byte>, honest: bool)
      ensures rest == input && idle == 0 && this.honest == honest
    {
      this.honest := honest;
      rest, idle := input, 0;
    }

    method Read(space: nat) returns (data: seq<Byte>, eof: bool)
      requires space > 0
      modifies this
      ensures |data| <= space && data + rest == old(rest)
      ensures eof ==> rest == []
      ensures idle == if data != [] || eof then 0 else old(idle) + 1
      ensures honest && old(idle) <= MAX_EMPTY_READS ==> idle <= MAX_EMPTY_READS
    {
      var most := if |rest| < space then |rest| else space;
      var n: nat :| n <= most;
      var patient: bool := *;
      if honest && idle >= MAX_EMPTY_READS && n == 0 {
        n, patient := if most > 0 then 1 else 0, false;
      }
      data, rest := rest[..n], rest[n..];
      eof := rest == [] && !patient;
      idle := if n > 0 || eof then 0 else idle + 1;
    }
  }

  // ----- How far the buffer may grow -----

  const START_SIZE := 4096
  const MAX_INT := 0x7FFF_FFFF_FFFF_FFFF

  // A full buffer may be replaced while it is below the maximum and doubling cannot overflow.
  predicate MayGrow(size: nat, maxTokenSize: int) {
    size < maxTokenSize && size <= MAX_INT / 2
  }

  function Grown(size: nat, maxTokenSize: int): (r: nat)
    requires size < maxTokenSize
    ensures size < r <= maxTokenSize
  {
    var double := if size == 0 then START_SIZE else 2 * size;
    if double < maxTokenSize then double else maxTokenSize
  }

  // The size at which growing ends.
  ghost function Reach(size: nat, maxTokenSize: int): (r: nat)
    ensures size <= r
    decreases if maxTokenSize > size then maxTokenSize - size else 0
  {
    if MayGrow(size, maxTokenSize) then Reach(Grown(size, maxTokenSize), maxTokenSize) else size
  }

  // For maxima that an int can double, that is the maximum, or a larger size to start with.
  lemma {:induction false} ReachIsMaximum(size: nat, maxTokenSize: int)
    requires maxTokenSize <= MAX_INT / 2 + 1
    ensures Reach(size, maxTokenSize) == if size >= maxTokenSize then size else maxTokenSize
    decreases if maxTokenSize > size then maxTokenSize - size else 0
  {
    if size < maxTokenSize {
      ReachIsMaximum(Grown(size, maxTokenSize), maxTokenSize);
    }
  }

  // ----- The scanner -----

  class LineScanner {
    const source: Source
    const maxTokenSize: int
    var token: Option<seq<Byte>>
    var buf: array<Byte>
    var start: nat
    var end: nat
    var err: Error

    ghost predicate Valid()
      reads this, buf, source
    {
      && start <= end <= buf.Length
      && (err.EOF? ==> source.rest == [])
      && (err.NoError? ==> source.idle == 0)
      && (err.NoProgress? ==> !source.honest)
    }

    // The bytes read but not yet consumed.
    ghost function Window(): seq<Byte>
      requires start <= end <= buf.Length
      reads this, buf
    {
      buf[start..end]
    }

    // All input still to be turned into tokens. A reader that makes no progress is given
    // up, and what it has not delivered by then is lost.
    ghost function Pending(): seq<Byte>
      requires start <= end <= buf.Length
      reads this, buf, source
    {
      if err == NoProgress then Window() else Window() + source.rest
    }

    // The size the buffer may reach.
    ghost function Limit(): nat
      reads this
    {
      Reach(buf.Length, maxTokenSize)
    }

    // initial is the capacity of the buffer a client supplies, 0 for none.
    constructor (source: Source, initial: nat, maxTokenSize: int)
      requires source.idle == 0
      ensures this.source == source && this.maxTokenSize == maxTokenSize
      ensures Valid() && fresh(buf) && err == NoError && token == None
      ensures Pending() == source.rest
      ensures Limit() == Reach(initial, maxTokenSize)
    {
      this.source, this.maxTokenSize := source, maxTokenSize;
      token := None;
      buf := new Byte[initial];
      start, end, err := 0, 0, NoError;
    }

    // Move the unread bytes to the front of the buffer.
    method Slide()
      requires Valid()
      modifies buf, this`start, this`end
      ensures Valid() && start == 0 && Window() == old(Window())
    {
      var n := end - start;
      ghost var window := Window();
      forall i | 0 <= i < n {
        buf[i] := buf[start + i];
      }
      assert forall i :: 0 <= i < n ==> buf[i] == window[i];
      assert buf[..n] == window;
      start, end := 0, n;
    }

    // Replace the full buffer by a larger one; false when it may not grow any more.
    method Grow() returns (ok: bool)
      requires Valid() && end == buf.Length
      modifies this`buf, this`start, this`end
      ensures Valid() && Window() == old(Window()) && Limit() == old(Limit())
      ensures ok <==> MayGrow(old(buf.Length), maxTokenSize)
      ensures ok ==> fresh(buf) && end < buf.Length
      ensures !ok ==> buf == old(buf) && start == old(start) && end == old(end)
    {
      if buf.Length >= maxTokenSize || buf.Length > MAX_INT / 2 {
        return false;
      }
      var newSize := buf.Length * 2;
      if newSize == 0 {
        newSize := START_SIZE;
      }
      newSize := if newSize < maxTokenSize then newSize else maxTokenSize;
      var newBuf := new Byte[newSize];
      ghost var window := Window();
      var n := end - start;
      forall i | 0 <= i < n {
        newBuf[i] := buf[start + i];
      }
      assert forall i :: 0 <= i < n ==> newBuf[i] == window[i];
      assert newBuf[..n] == window;
      buf := newBuf;
      start, end := 0, n;
      assert Window() == window;
      return true;
    }

    // The window moves to the front when the buffer is full to the end or more than half
    // consumed, and the buffer is replaced only when it is full of unread bytes.
    static predicate RoomRule(kept: bool, start: nat, end: nat, length: nat, start': nat) {
      if kept then start' == if end == length || start > length / 2 then 0 else start
      else start == 0 && end == length
    }

    // Before reading: slide when there is room to gain, replace a full buffer.
    method MakeRoom() returns (ok: bool)
      requires Valid()
      modifies buf, this`buf, this`start, this`end
      ensures Valid() && Window() == old(Window()) && Limit() == old(Limit()) && (buf == old(buf) || fresh(buf))
      ensures ok ==> end < buf.Length
      ensures !ok ==> |Window()| == buf.Length == Limit()
      ensures RoomRule(buf == old(buf), old(start), old(end), old(buf.Length), start)
    {
      if start > 0 && (end == buf.Length || start > buf.Length / 2) {
        Slide();
      }
      ok := true;
      if end == buf.Length {
        ok := Grow();
      }
    }

    method Append(data: seq<Byte>)
      requires start <= end && end + |data| <= buf.Length
      modifies this`end, buf
      ensures end == old(end) + |data| && start <= end <= buf.Length
      ensures Window() == old(Window()) + data
    {
      ghost var bytes := buf[..];
      forall k | end <= k < end + |data| {
        buf[k] := data[k - end];
      }
      Appended(bytes, buf[..], start, end, data);
      end := end + |data|;
    }

    // Read until some bytes or the end arrive, or there is no hope of either.
    method Fill()
      requires Valid() && err.NoError? && end < buf.Length
      modifies this`end, this`err, buf, source
      ensures Valid()
      ensures err == NoError || err == EOF ==> Pending() == old(Pending())
      ensures err == NoError || err == EOF || err == NoProgress
      ensures err == NoProgress ==> source.idle > 100 && Pending() == old(Window())
      ensures err == NoError ==> |source.rest| < |old(source.rest)|
    {
      var loop := 0;
      ghost var pending, before := Pending(), Window();
      while true
        invariant err.NoError? && start <= end < buf.Length
        invariant Pending() == pending && Window() == before
        invariant source.idle == loop <= MAX_EMPTY_READS
        invariant |source.rest| == |old(source.rest)|
        decreases MAX_EMPTY_READS - loop
      {
        var data, eof := source.Read(buf.Length - end);
        var n := |data|;
        Append(data);
        Regroup(before, data, source.rest);
        if eof {
          err := EOF;
          break;
        }
        if n > 0 {
          break;
        }
        loop := loop + 1;
        if loop > MAX_EMPTY_READS {
          err := NoProgress;
          break;
        }
      }
    }

    // Try to cut a token from the window.
    method Cut() returns (ok: bool)
      requires Valid() && err != TooLong
      modifies this`start, this`token
      ensures Valid()
      ensures ok ==>
        && old(Pending()) != []
        && token == Some(FirstLine(old(Pending())))
        && Pending() == AfterLine(old(Pending()))
        && LineSize(old(Pending())) <= buf.Length
      ensures !ok ==> start == old(start)
      ensures !ok ==> if err == NoError then IndexByte(Window(), NEWLINE) == |Window()| else Window() == []
    {
      hide FirstLine, AfterLine, IndexByte, ScanLines;
      ghost var window := Window();
      ghost var rest := if err == NoProgress then [] else source.rest;
      assert window + rest == Pending();
      if end == start && err == NoError {
        EmptyWindow(window);
        return false;
      }
      var (advance, tok) := ScanLines(buf[start..end], err != NoError);
      TokenIsLine(window, rest, err != NoError);
      token := tok;
      if tok.None? {
        return false;
      }
      SizeInWindow(window, rest, err != NoError);
      start := start + advance;
      assert Window() == window[advance..];
      assert Window() + rest == Pending();
      return true;
    }

    // text is the input as this call sees it: all that was pending, or the part delivered
    // before the reader was given up.
    method Scan() returns (ok: bool, ghost text: seq<Byte>)
      requires Valid() && err != TooLong
      modifies this, buf, source
      ensures Valid() && Limit() == old(Limit()) && (buf == old(buf) || fresh(buf))
      ensures text <= old(Pending()) && (err != NoProgress ==> text == old(Pending()))
      ensures old(err) == NoProgress ==> text == old(Pending()) && err == NoProgress
      ensures old(err) != NoProgress && err == NoProgress ==> source.idle > 100
      ensures ok ==>
        && text != []
        && token == Some(FirstLine(text))
        && Pending() == AfterLine(text)
        && LineSize(text) <= Limit()
        && err != TooLong
      ensures !ok ==> err != NoError && if err == TooLong then Overlong(text, Limit()) else text == []
    {
      hide FirstLine, AfterLine, IndexByte, ScanLines, LineSize, Overlong, Reach, RoomRule;
      text := Pending();
      while true
        invariant Valid() && Limit() == old(Limit()) && err != TooLong
        invariant Pending() == text <= old(Pending())
        invariant err != NoProgress ==> text == old(Pending())
        invariant old(err) == NoProgress ==> err == NoProgress && text == old(Pending())
        invariant old(err) != NoProgress && err == NoProgress ==> source.idle > MAX_EMPTY_READS
        invariant buf == old(buf) || fresh(buf)
        decreases err.NoError?, |source.rest|
      {
        ok := Cut();
        if ok {
          return;
        }
        if err != NoError {
          start, end := 0, 0;
          return;
        }
        ok := MakeRoom();
        if !ok {
          NoNewlineIn(Window(), source.rest);
          err := TooLong;
          return;
        }
        Fill();
        text := Pending();
      }
    }
  }

  lemma EmptyWindow(window: seq<Byte>)
    requires window == []
    ensures IndexByte(window, NEWLINE) == |window|
  {
  }

  // ----- Reading everything, as a client does: until Scan first says false -----

  // Every terminated line fits the limit with its terminator, an unterminated last line
  // leaves at least one byte free. An empty text needs a buffer that may hold a byte.
  predicate AllFit(s: seq<Byte>, limit: nat)
    decreases |s|
  {
    !Overlong(s, limit) && (s == [] || AllFit(AfterLine(s), limit))
  }

  predicate AllWithin(s: seq<Byte>, limit: nat)
    decreases |s|
  {
    s == [] || (LineSize(s) <= limit && AllWithin(AfterLine(s), limit))
  }

  method ScanAll(scanner: LineScanner) returns (tokens: seq<seq<Byte>>, ghost left: seq<Byte>)
    requires scanner.Valid() && scanner.err == NoError
    modifies scanner, scanner.buf, scanner.source
    ensures scanner.err != NoError
    // All lines delivered, and then each was within the limit.
    ensures scanner.err == EOF ==>
      tokens == Lines(old(scanner.Pending())) && AllWithin(old(scanner.Pending()), scanner.Limit())
    // All lines before the first that is too long.
    ensures scanner.err == TooLong ==>
      Lines(old(scanner.Pending())) == tokens + Lines(left) && Overlong(left, old(scanner.Limit()))
    // Which of the three happens.
    ensures AllFit(old(scanner.Pending()), old(scanner.Limit())) ==> scanner.err != TooLong
    ensures scanner.source.honest ==> scanner.err != NoProgress
  {
    hide FirstLine, AfterLine, LineSize, Overlong;
    tokens := [];
    left := scanner.Pending();
    var ok: bool;
    ghost var text: seq<Byte>;
    while true
      invariant scanner.Valid() && scanner.err != TooLong && scanner.Limit() == old(scanner.Limit())
      invariant scanner.buf == old(scanner.buf) || fresh(scanner.buf)
      invariant left == scanner.Pending()
      invariant scanner.err != NoProgress ==>
        && Lines(old(scanner.Pending())) == tokens + Lines(left)
        && (AllWithin(left, scanner.Limit()) ==> AllWithin(old(scanner.Pending()), scanner.Limit()))
        && (AllFit(old(scanner.Pending()), scanner.Limit()) ==> AllFit(left, scanner.Limit()))
      decreases |left|
    {
      ok, text := scanner.Scan();
      if !ok {
        NotOverlong(text, scanner.Limit());
        break;
      }
      LineShrinks(text);
      assert tokens + ([scanner.token.value] + Lines(AfterLine(text)))
          == (tokens + [scanner.token.value]) + Lines(AfterLine(text));
      tokens := tokens + [scanner.token.value];
      left := scanner.Pending();
    }
    if scanner.err == TooLong {
      left := text;
    }
  }

  lemma LineShrinks(s: seq<Byte>)
    requires s != []
    ensures |AfterLine(s)| < |s|
  {
  }

  lemma NotOverlong(s: seq<Byte>, limit: nat)
    ensures AllFit(s, limit) ==> !Overlong(s, limit)
  {
  }

  // Bytes of the first line with its terminator.
  function LineSize(s: seq<Byte>): nat {
    var i := IndexByte(s, NEWLINE);
    if i < |s| then i + 1 else |s|
  }

  lemma LineSizeTaken(s: seq<Byte>)
    ensures LineSize(s) <= |s| && AfterLine(s) == s[LineSize(s)..]
  {
  }

  // No line ends within the limit, and there are at least that many bytes.
  predicate Overlong(s: seq<Byte>, limit: nat) {
    |s| >= limit && IndexByte(s, NEWLINE) >= limit
  }

  lemma SizeInWindow(window: seq<Byte>, rest: seq<Byte>, atEOF: bool)
    requires atEOF ==> rest == []
    requires ScanLines(window, atEOF).1.Some?
    ensures LineSize(window + rest) <= |window|
  {
    var i := IndexByte(window, NEWLINE);
    if i < |window| {
      IndexByteIs(window + rest, NEWLINE, i);
    } else {
      assert window + rest == window;
    }
  }

  lemma NoNewlineIn(window: seq<Byte>, rest: seq<Byte>)
    requires IndexByte(window, NEWLINE) == |window|
    ensures Overlong(window + rest, |window|)
  {
    var i := IndexByte(window + rest, NEWLINE);
    assert forall k :: 0 <= k < |window| ==> (window + rest)[k] == window[k];
  }
}
