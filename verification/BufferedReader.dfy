// The buffered reader of bufio: no byte taken from the source is lost, repeated or
// reordered, in any sequence of calls.

module BufferedReader {
  import opened Bytes
  import opened Wrappers

  const MIN_BUFFER := 16
  const MAX_EMPTY_READS := 100

  datatype Error = EOF | NoProgress | BufferFull | NegativeCount | InvalidUnreadByte | Other(code: nat)

  // One read of the source: the room offered, the bytes and the error it gave.
  datatype Reading = Reading(space: nat, data: seq<Byte>, err: Option<Error>) {
    predicate Empty() { data == [] && err.None? }
  }

  // A source hands out its bytes in order, in pieces of any size, and may report an
  // error with or without bytes, as often as it likes. The log is history: all reads so far.
  class Source {
    var rest: seq<Byte>
    ghost var log: seq<Reading>

    constructor (input: seq<Byte>)
      ensures rest == input && log == []
    {
      rest, log := input, [];
    }

    method Read(space: nat) returns (data: seq<Byte>, err: Option<Error>)
      modifies this
      ensures |data| <= space && data + rest == old(rest)
      ensures log == old(log) + [Reading(space, data, err)]
    {
      var n: nat :| n <= space && n <= |rest|;
      data, rest := rest[..n], rest[n..];
      err := *;
      log := log + [Reading(space, data, err)];
    }
  }

  // ----- Where errors come from -----

  // The reads since the log was this.
  ghost function Since(log: seq<Reading>, was: seq<Reading>): seq<Reading> {
    if was <= log then log[|was|..] else []
  }

  // The reads of one fill: empty ones without an error up to the last, which brings bytes
  // or an error; or 100 empty ones, and then the error is NoProgress.
  ghost predicate OneFill(news: seq<Reading>, space: nat, was: Option<Error>, now: Option<Error>) {
    && 0 < |news| <= 100
    && (forall i :: 0 <= i < |news| ==> news[i].space == space)
    && (forall i :: 0 <= i < |news| - 1 ==> news[i].Empty())
    && var last := news[|news| - 1];
       if last.err.Some? then now == last.err
       else if last.data != [] then now == was
       else |news| == 100 && now == Some(NoProgress)
  }

  ghost predicate AllEmpty(news: seq<Reading>) {
    forall i :: 0 <= i < |news| ==> news[i].Empty()
  }

  // The error is the one of the last of these reads, or they ended in 100 empty ones.
  ghost predicate Reported(news: seq<Reading>, e: Option<Error>) {
    && e.Some? && news != []
    && (|| news[|news| - 1].err == e
        || (|news| >= 100 && e == Some(NoProgress) && AllEmpty(news[|news| - 100..])))
  }

  // After some reads the error is still the one on hold before, or one they reported.
  ghost predicate OnHold(news: seq<Reading>, was: Option<Error>, now: Option<Error>) {
    now == was || Reported(news, now)
  }

  // Only empty reads, each with this room, from one log to the other.
  ghost predicate Idle(log: seq<Reading>, mid: seq<Reading>, space: nat) {
    log <= mid && forall k :: |log| <= k < |mid| ==> mid[k] == Reading(space, [], None)
  }

  lemma IdleAtFirst(log: seq<Reading>, space: nat)
    ensures Idle(log, log, space)
  {
  }

  lemma IdleOn(log: seq<Reading>, mid: seq<Reading>, now: seq<Reading>, space: nat)
    requires Idle(log, mid, space) && mid <= now && |now| == |mid| + 1 && now[|mid|] == Reading(space, [], None)
    ensures Idle(log, now, space)
  {
  }

  lemma FillEnds(log: seq<Reading>, mid: seq<Reading>, now: seq<Reading>, space: nat, was: Option<Error>,
                 err: Option<Error>)
    requires Idle(log, mid, space) && mid <= now && |now| == |mid| + 1 && |now| <= |log| + MAX_EMPTY_READS
    requires now[|mid|].space == space
    requires if now[|mid|].err.Some? then err == now[|mid|].err else now[|mid|].data != [] && err == was
    ensures log < now && OneFill(Since(now, log), space, was, err)
  {
    var news := Since(now, log);
    assert news[|news| - 1] == now[|mid|];
    assert forall i :: 0 <= i < |news| - 1 ==> news[i] == now[|log| + i] == mid[|log| + i];
  }

  lemma FillGivesUp(log: seq<Reading>, now: seq<Reading>, space: nat, was: Option<Error>)
    requires Idle(log, now, space) && |now| == |log| + MAX_EMPTY_READS
    ensures log < now && OneFill(Since(now, log), space, was, Some(NoProgress)) && now[|now| - 1].data == []
  {
    var news := Since(now, log);
    assert forall i :: 0 <= i < |news| ==> news[i] == now[|log| + i];
  }

  lemma NothingRead(log: seq<Reading>, err: Option<Error>)
    ensures Since(log, log) == [] && OnHold([], err, err)
  {
  }

  lemma FillReports(news: seq<Reading>, space: nat, was: Option<Error>, now: Option<Error>)
    requires OneFill(news, space, was, now)
    ensures OnHold(news, was, now)
    ensures was.None? && now.Some? ==> Reported(news, now)
  {
    if news[|news| - 1].Empty() {
      assert news[|news| - MAX_EMPTY_READS..] == news;
    }
  }

  lemma ReportedLater(before: seq<Reading>, news: seq<Reading>, e: Option<Error>)
    requires Reported(news, e)
    ensures Reported(before + news, e)
  {
    var all := before + news;
    assert all[|all| - 1] == news[|news| - 1];
    if |news| >= MAX_EMPTY_READS {
      assert all[|all| - MAX_EMPTY_READS..] == news[|news| - MAX_EMPTY_READS..];
    }
  }

  // One more fill with no error on hold, or still the one from the start.
  lemma FilledOn(log: seq<Reading>, mid: seq<Reading>, now: seq<Reading>, space: nat, was: Option<Error>,
                 held: Option<Error>, err: Option<Error>)
    requires log <= mid <= now && OnHold(Since(mid, log), was, held) && (held.None? || held == was)
    requires OneFill(Since(now, mid), space, held, err)
    ensures log <= now && OnHold(Since(now, log), was, err)
    ensures held.None? && err.Some? ==> Reported(Since(now, log), err)
  {
    FillReports(Since(now, mid), space, held, err);
    assert Since(now, log) == Since(mid, log) + Since(now, mid);
    hide OneFill, Since;
    if Reported(Since(now, mid), err) {
      ReportedLater(Since(mid, log), Since(now, mid), err);
    }
  }

  class Reader {
    const source: Source
    const buf: array<Byte>
    var r: nat
    var w: nat
    var err: Option<Error>
    var lastByte: int
    // History: all the source had at first, and what was read or skipped and not unread.
    ghost const stream: seq<Byte>
    ghost var delivered: seq<Byte>

    ghost predicate Valid()
      reads this, buf, source
    {
      && r <= w <= buf.Length && 0 < buf.Length
      && delivered + Pending() == stream
      && LastKnown()
    }

    // The byte kept for UnreadByte is the last one delivered.
    ghost predicate LastKnown()
      reads this
    {
      -1 <= lastByte < 256 && (lastByte >= 0 ==> delivered != [] && delivered[|delivered| - 1] == lastByte)
    }

    ghost function Window(): seq<Byte>
      requires r <= w <= buf.Length
      reads this, buf
    {
      buf[r..w]
    }

    // What is still to be delivered.
    ghost function Pending(): seq<Byte>
      requires r <= w <= buf.Length
      reads this, buf, source
    {
      Window() + source.rest
    }

    function Buffered(): int
      reads this
    {
      w - r
    }

    predicate CanUnread()
      reads this
    {
      lastByte >= 0 && !(r == 0 && w > 0)
    }

    constructor (source: Source, size: int)
      ensures Valid() && this.source == source && fresh(buf)
      ensures buf.Length == if size > 16 then size else 16
      ensures delivered == [] && stream == source.rest && Window() == []
      ensures err == None && lastByte == -1
    {
      this.source := source;
      buf := new Byte[if size > MIN_BUFFER then size else MIN_BUFFER];
      r, w, err, lastByte := 0, 0, None, -1;
      stream, delivered := source.rest, [];
    }

    // Slide the unread bytes to the front.
    method Slide()
      requires r <= w <= buf.Length
      modifies this`r, this`w, buf
      ensures r == 0 && w == old(w - r) && w <= buf.Length && Window() == old(Window())
    {
      ghost var window := Window();
      var n := w - r;
      if r > 0 {
        forall i | 0 <= i < n {
          buf[i] := buf[r + i];
        }
        assert forall i :: 0 <= i < n ==> buf[i] == window[i];
        r, w := 0, n;
      }
      assert buf[..n] == window;
    }

    // One read into the free end of the buffer.
    method Append() returns (n: nat, e: Option<Error>)
      requires r <= w <= buf.Length
      modifies this`w, buf, source
      ensures r <= w <= buf.Length && w == old(w) + n
      ensures Pending() == old(Pending()) && old(Window()) <= Window()
      ensures |source.log| == |old(source.log)| + 1 && old(source.log) <= source.log
      ensures var read := source.log[|old(source.log)|];
              read.space == buf.Length - old(w) && |read.data| == n && read.err == e
    {
      ghost var window := Window();
      ghost var rest := source.rest;
      var data;
      data, e := source.Read(buf.Length - w);
      n := |data|;
      ghost var bytes := buf[..];
      forall k | w <= k < w + n {
        buf[k] := data[k - w];
      }
      Appended(bytes, buf[..], r, w, data);
      w := w + n;
      assert Window() == window + data;
      Regroup(window, data, source.rest);
    }

    // Read until some bytes or an error arrive, 100 times at most.
    method Fill()
      requires Valid() && w - r < buf.Length
      modifies this`r, this`w, this`err, buf, source
      ensures Valid() && r == 0
      ensures Pending() == old(Pending()) && old(Window()) <= Window()
      ensures w > old(w - r) || err.Some?
      ensures old(err).Some? ==> err.Some?
      ensures old(source.log) < source.log
      ensures OneFill(Since(source.log, old(source.log)), buf.Length - old(w - r), old(err), err)
      ensures w > old(w - r) <==> source.log[|source.log| - 1].data != []
    {
      hide OneFill, Since;
      Slide();
      ReadMore();
    }

    // The reads themselves, behind what is buffered.
    method ReadMore()
      requires r == 0 && w < buf.Length
      modifies this`w, this`err, buf, source
      ensures r <= w <= buf.Length && Pending() == old(Pending()) && old(Window()) <= Window()
      ensures w > old(w) || err.Some?
      ensures old(err).Some? ==> err.Some?
      ensures old(source.log) < source.log
      ensures OneFill(Since(source.log, old(source.log)), buf.Length - old(w), old(err), err)
      ensures w > old(w) <==> source.log[|source.log| - 1].data != []
    {
      hide OneFill, Idle, Since;
      ghost var n0, log := w, source.log;
      IdleAtFirst(log, buf.Length - n0);
      var i := MAX_EMPTY_READS;
      while i > 0
        invariant i >= 0 && r == 0 && w == n0 <= buf.Length
        invariant Pending() == old(Pending()) && old(Window()) <= Window()
        invariant err == old(err)
        invariant Idle(log, source.log, buf.Length - n0) && |source.log| == |log| + MAX_EMPTY_READS - i
      {
        ghost var mid := source.log;
        var n, e := Append();
        if e.Some? {
          err := e;
          FillEnds(log, mid, source.log, buf.Length - n0, old(err), err);
          return;
        }
        if n > 0 {
          FillEnds(log, mid, source.log, buf.Length - n0, old(err), err);
          return;
        }
        IdleOn(log, mid, source.log, buf.Length - n0);
        i := i - 1;
      }
      err := Some(NoProgress);
      FillGivesUp(log, source.log, buf.Length - n0, old(err));
    }

    // A fill in the course of a longer call, which began with this log and this error.
    method FillMore(ghost log: seq<Reading>, ghost was: Option<Error>)
      requires Valid() && w - r < buf.Length
      requires log <= source.log && OnHold(Since(source.log, log), was, err) && (err.None? || err == was)
      modifies this`r, this`w, this`err, buf, source
      ensures Valid() && r == 0 && r <= w
      ensures Pending() == old(Pending()) && old(Window()) <= Window()
      ensures w > old(w - r) || err.Some?
      ensures log < source.log && OnHold(Since(source.log, log), was, err)
    {
      hide OneFill, OnHold, Since;
      ghost var mid, space, held := source.log, buf.Length - (w - r), err;
      Fill();
      FilledOn(log, mid, source.log, space, was, held, err);
    }

    method ReadErr() returns (e: Option<Error>)
      modifies this`err
      ensures e == old(err) && err == None && (old(Valid()) ==> Valid())
    {
      e := err;
      err := None;
    }

    // The next n bytes, without taking them.
    method Peek(n: int) returns (line: seq<Byte>, e: Option<Error>)
      requires Valid()
      modifies this, buf, source
      ensures Valid() && delivered == old(delivered) && Pending() == old(Pending())
      ensures n < 0 ==> line == [] && e == Some(NegativeCount) && lastByte == old(lastByte)
      ensures n >= 0 ==> line <= Pending() && |line| <= n && (e.None? <==> |line| == n) && lastByte == -1
      ensures n > buf.Length ==> e == Some(BufferFull) && (|line| == buf.Length || err.Some?)
      ensures old(source.log) <= source.log
      ensures n <= old(Buffered()) || old(err).Some? || old(Buffered()) == buf.Length ==> source.log == old(source.log)
      ensures if |line| < n <= buf.Length then OnHold(Since(source.log, old(source.log)), old(err), e) && err == None
              else OnHold(Since(source.log, old(source.log)), old(err), err)
    {
      hide OneFill, OnHold, Since;
      ghost var log := source.log;
      NothingRead(log, err);
      if n < 0 {
        return [], Some(NegativeCount);
      }
      lastByte := -1;
      while w - r < n && w - r < buf.Length && err.None?
        invariant Valid() && delivered == old(delivered) && Pending() == old(Pending()) && lastByte == -1
        invariant w - r >= old(w - r) && (source.log == log ==> err == old(err))
        invariant log <= source.log && OnHold(Since(source.log, log), old(err), err)
        invariant n <= old(Buffered()) || old(err).Some? || old(Buffered()) == buf.Length ==> source.log == log
        decreases buf.Length - (w - r), err.None?
      {
        FillMore(log, old(err));
      }
      if n > buf.Length {
        return buf[r..w], Some(BufferFull);
      }
      var m := n;
      if w - r < n {
        m := w - r;
        e := ReadErr();
        if e.None? {
          e := Some(BufferFull);
        }
      } else {
        e := None;
      }
      line := buf[r..r + m];
      SlicePrefix(buf[..], r, w, m);
      assert line <= Window();
    }

    // Deliver the first k bytes of the window.
    method Advance(k: nat)
      requires Valid() && k <= w - r
      modifies this`r, this`delivered, this`lastByte
      ensures Valid() && r == old(r) + k && lastByte == -1
      ensures delivered == old(delivered) + old(buf[r..r + k])
      ensures old(buf[r..r + k]) + Pending() == old(Pending())
    {
      ghost var taken := buf[r..r + k];
      assert buf[r..w] == taken + buf[r + k..w];
      assert taken + (buf[r + k..w] + source.rest) == Pending();
      assert delivered + (taken + (buf[r + k..w] + source.rest)) == (delivered + taken) + (buf[r + k..w] + source.rest);
      delivered := delivered + taken;
      r := r + k;
      lastByte := -1;
    }

    // The same, where only the number of bytes matters.
    method Skip(k: nat)
      requires Valid() && k <= w - r
      modifies this`r, this`delivered, this`lastByte
      ensures Valid() && r == old(r) + k <= w && lastByte == -1 && |delivered| == |old(delivered)| + k
    {
      Advance(k);
    }

    // Skip the next n bytes.
    method Discard(n: int) returns (discarded: int, e: Option<Error>)
      requires Valid()
      modifies this, buf, source
      ensures Valid() && delivered + Pending() == old(delivered) + old(Pending())
      ensures if n <= 0 then discarded == 0 && delivered == old(delivered) && lastByte == old(lastByte)
              else 0 <= discarded <= n && |delivered| == |old(delivered)| + discarded && lastByte == -1
      ensures n < 0 ==> e == Some(NegativeCount)
      ensures n >= 0 ==> (e.None? <==> discarded == n) && (e.Some? ==> Buffered() == 0)
      ensures old(source.log) <= source.log
      ensures n <= old(Buffered()) ==>
        source.rest == old(source.rest) && source.log == old(source.log) && err == old(err)
      ensures n > old(Buffered()) ==>
        && OnHold(Since(source.log, old(source.log)), old(err), if e.Some? then e else err)
        && (e.Some? ==> err == None)
        && (old(Buffered()) == 0 ==> source.log != old(source.log))
        && (old(Buffered()) > 0 && old(err).Some? ==> source.log == old(source.log) && e == old(err))
    {
      hide OneFill, OnHold, Since;
      ghost var log := source.log;
      NothingRead(log, err);
      if n < 0 {
        return 0, Some(NegativeCount);
      }
      if n == 0 {
        return 0, None;
      }
      lastByte := -1;
      discarded, e := SkipUpTo(n);
    }

    // One round: fill an empty buffer, then skip what is buffered, but no more than asked.
    method SkipOnce(remain: nat, ghost log: seq<Reading>, ghost was: Option<Error>) returns (skip: nat)
      requires Valid() && lastByte == -1 && remain > 0
      requires log <= source.log && OnHold(Since(source.log, log), was, err) && (err.None? || err == was)
      modifies this`r, this`w, this`err, this`delivered, this`lastByte, buf, source
      ensures Valid() && r <= w && lastByte == -1 && skip <= remain && |delivered| == |old(delivered)| + skip
      ensures skip < remain ==> Buffered() == 0
      ensures log <= source.log && OnHold(Since(source.log, log), was, err)
      ensures if old(Buffered()) > 0
              then skip == (if old(Buffered()) > remain then remain else old(Buffered()))
                && source.log == old(source.log) && source.rest == old(source.rest) && err == old(err)
              else log < source.log && (skip > 0 || err.Some?)
    {
      hide OneFill, OnHold, Since;
      skip := Buffered();
      if skip == 0 {
        FillMore(log, was);
        skip := Buffered();
      }
      if skip > remain {
        skip := remain;
      }
      Skip(skip);
    }

    // Skip what is buffered, fill, and so on, until n bytes are gone or an error is on hold.
    method SkipUpTo(n: nat) returns (discarded: nat, e: Option<Error>)
      requires Valid() && n > 0 && lastByte == -1
      modifies this, buf, source
      ensures Valid() && lastByte == -1
      ensures discarded <= n && |delivered| == |old(delivered)| + discarded
      ensures (e.None? <==> discarded == n) && (e.Some? ==> Buffered() == 0)
      ensures old(source.log) <= source.log
      ensures n <= old(Buffered()) ==>
        source.rest == old(source.rest) && source.log == old(source.log) && err == old(err)
      ensures n > old(Buffered()) ==>
        && OnHold(Since(source.log, old(source.log)), old(err), if e.Some? then e else err)
        && (e.Some? ==> err == None)
        && (old(Buffered()) == 0 ==> source.log != old(source.log))
        && (old(Buffered()) > 0 && old(err).Some? ==> source.log == old(source.log) && e == old(err))
    {
      assert r <= w && 0 < buf.Length;
      hide OneFill, OnHold, Since, Valid;
      ghost var log := source.log;
      NothingRead(log, err);
      var remain := n;
      while true
        invariant Valid() && r <= w && lastByte == -1 && 0 < remain <= n
        invariant |delivered| == |old(delivered)| + n - remain
        invariant log <= source.log && OnHold(Since(source.log, log), old(err), err) && (err.None? || err == old(err))
        invariant remain == n ==>
          source.log == log && source.rest == old(source.rest) && err == old(err) && Buffered() == old(Buffered())
        invariant remain < n ==>
          && n > old(Buffered()) && err.None? && Buffered() == 0
          && (if old(Buffered()) == 0 then source.log != log else old(err).None?)
        decreases remain
      {
        var skip := SkipOnce(remain, log, old(err));
        remain := remain - skip;
        if remain == 0 {
          return n, None;
        }
        if err.Some? {
          e := ReadErr();
          return n - remain, e;
        }
      }
    }

    // Read into p, with at most one read of the source.
    method Read(p: array<Byte>) returns (n: nat, e: Option<Error>)
      requires Valid() && p != buf
      modifies this, buf, p, source
      ensures Valid() && n <= p.Length
      ensures delivered == old(delivered) + p[..n] && p[..n] + Pending() == old(Pending())
      ensures e.Some? ==> Buffered() == 0
      ensures old(Buffered()) > 0 ==>
        && n == (if p.Length < old(Buffered()) then p.Length else old(Buffered()))
        && e == None && err == old(err)
        && source.rest == old(source.rest) && source.log == old(source.log)
      ensures old(Buffered()) == 0 && (p.Length == 0 || old(err).Some?) ==>
        n == 0 && e == old(err) && err == None && source.log == old(source.log)
      ensures old(Buffered()) == 0 && p.Length > 0 && old(err).None? ==>
        && |source.log| == |old(source.log)| + 1 && old(source.log) <= source.log
        && var read := source.log[|old(source.log)|];
           && read.space == (if p.Length >= buf.Length then p.Length else buf.Length)
           && n == (if p.Length < |read.data| then p.Length else |read.data|)
           && (if p.Length >= buf.Length || read.data == [] then e == read.err && err == None
               else e == None && err == read.err)
      ensures if n > 0 then CanUnread() else lastByte == old(lastByte)
    {
      if p.Length == 0 {
        assert p[..0] + Pending() == Pending();
        if Buffered() > 0 {
          return 0, None;
        }
        e := ReadErr();
        return 0, e;
      }
      if r == w {
        if err.Some? {
          assert p[..0] + Pending() == Pending();
          e := ReadErr();
          return 0, e;
        }
        if p.Length >= buf.Length {
          n := ReadThrough(p);
          e := ReadErr();
          return;
        }
        r, w := 0, 0;
        n, err := Append();
        if n == 0 {
          assert p[..0] + Pending() == Pending();
          e := ReadErr();
          return;
        }
      }
      n := CopyOut(p);
      e := None;
    }

    // A large read with an empty buffer goes straight into p.
    method ReadThrough(p: array<Byte>) returns (n: nat)
      requires Valid() && p != buf && r == w
      modifies this`err, this`lastByte, this`delivered, p, source
      ensures Valid() && n <= p.Length && (if n > 0 then CanUnread() else lastByte == old(lastByte))
      ensures delivered == old(delivered) + p[..n] && p[..n] + Pending() == old(Pending())
      ensures |source.log| == |old(source.log)| + 1 && old(source.log) <= source.log
      ensures var read := source.log[|old(source.log)|];
              read.space == p.Length && n == |read.data| && err == read.err
    {
      var data;
      data, err := source.Read(p.Length);
      n := |data|;
      forall i | 0 <= i < n {
        p[i] := data[i];
      }
      assert p[..n] == data;
      assert (delivered + data) + Pending() == delivered + (data + Pending());
      delivered := delivered + data;
      if n > 0 {
        lastByte := p[n - 1];
      }
    }

    // Copy as much of the window as fits.
    method CopyOut(p: array<Byte>) returns (n: nat)
      requires Valid() && p != buf && r < w && p.Length > 0
      modifies this`r, this`lastByte, this`delivered, p
      ensures Valid() && n == (if p.Length < old(Buffered()) then p.Length else old(Buffered())) && CanUnread()
      ensures delivered == old(delivered) + p[..n] && p[..n] + Pending() == old(Pending())
    {
      n := if p.Length < w - r then p.Length else w - r;
      forall i | 0 <= i < n {
        p[i] := buf[r + i];
      }
      assert forall i :: 0 <= i < n ==> p[..n][i] == buf[r..r + n][i];
      assert p[..n] == buf[r..r + n];
      Advance(n);
      lastByte := buf[r - 1];
    }

    method ReadByte() returns (c: Byte, e: Option<Error>)
      requires Valid()
      modifies this, buf, source
      ensures Valid()
      ensures e.None? ==> delivered == old(delivered) + [c] && [c] + Pending() == old(Pending()) && CanUnread()
      ensures e.Some? ==> delivered == old(delivered) && Pending() == old(Pending()) && Buffered() == 0
      ensures e.Some? ==> c == 0 && lastByte == old(lastByte)
      ensures old(Buffered()) > 0 ==> e == None && source.log == old(source.log) && err == old(err)
      ensures old(Buffered()) == 0 && old(err).Some? ==> e == old(err) && source.log == old(source.log) && err == None
      ensures old(Buffered()) == 0 && old(err).None? ==>
        && old(source.log) < source.log
        && OneFill(Since(source.log, old(source.log)), buf.Length, None, if e.Some? then e else err)
        && (e.Some? ==> err == None)
        && (e.None? <==> source.log[|source.log| - 1].data != [])
    {
      hide OneFill, Since;
      ghost var log := source.log;
      while r == w
        invariant Valid() && delivered == old(delivered) && Pending() == old(Pending()) && lastByte == old(lastByte)
        invariant source.log == log ==> err == old(err) && Buffered() == old(Buffered())
        invariant source.log != log ==>
          && log < source.log && old(Buffered()) == 0 && old(err).None?
          && OneFill(Since(source.log, log), buf.Length, None, err)
          && (r < w <==> source.log[|source.log| - 1].data != [])
          && (r < w || err.Some?)
        decreases r == w, err.None?
      {
        if err.Some? {
          e := ReadErr();
          return 0, e;
        }
        Fill();
      }
      c := buf[r];
      assert buf[r..r + 1] == [c];
      Advance(1);
      lastByte := c;
      e := None;
    }

    // Put the last byte back in front.
    method UnreadByte() returns (e: Option<Error>)
      requires Valid()
      modifies this`r, this`w, this`lastByte, this`delivered, buf
      ensures Valid() && lastByte == (if e.None? then -1 else old(lastByte))
      ensures e.None? <==> old(CanUnread())
      ensures e.None? ==>
        && old(delivered) != []
        && delivered == old(delivered[..|delivered| - 1])
        && Pending() == [old(delivered[|delivered| - 1])] + old(Pending())
      ensures e.Some? ==> delivered == old(delivered) && Pending() == old(Pending()) && e == Some(InvalidUnreadByte)
    {
      if lastByte < 0 || (r == 0 && w > 0) {
        return Some(InvalidUnreadByte);
      }
      ghost var window, back := Window(), delivered[..|delivered| - 1];
      if r > 0 {
        r := r - 1;
      } else {
        w := 1;
      }
      buf[r] := lastByte;
      assert Window() == [lastByte] + window;
      assert Pending() == [lastByte] + (window + source.rest);
      assert delivered == back + [lastByte];
      assert (back + [lastByte]) + (window + source.rest) == back + ([lastByte] + (window + source.rest));
      delivered := back;
      lastByte := -1;
      e := None;
    }

    // The first k bytes of the window, taken; with k > 0 the last of them can be unread.
    method Take(k: nat) returns (line: seq<Byte>)
      requires Valid() && k <= w - r
      modifies this`r, this`delivered, this`lastByte
      ensures Valid() && r == old(r) + k && line == old(buf[r..r + k])
      ensures delivered == old(delivered) + line && line + Pending() == old(Pending())
      ensures if k > 0 then CanUnread() else lastByte == old(lastByte)
    {
      line := buf[r..r + k];
      var last := lastByte;
      assert k == 0 ==> line == [];
      Advance(k);
      lastByte := if k > 0 then line[k - 1] else last;
    }

    // The rest of the window.
    method TakeAll() returns (line: seq<Byte>)
      requires Valid()
      modifies this`r, this`delivered, this`lastByte
      ensures Valid() && line == old(Window()) && r == w
      ensures delivered == old(delivered) + line && line + Pending() == old(Pending())
      ensures if line != [] then CanUnread() else lastByte == old(lastByte)
    {
      line := Take(w - r);
    }

    // Fill until the window holds delim, or an error is on hold, or the buffer is full.
    method Search(delim: Byte) returns (i: int)
      requires Valid()
      modifies this`r, this`w, this`err, buf, source
      ensures Valid() && Pending() == old(Pending()) && i < w - r
      ensures if i >= 0 then IndexByte(Pending(), delim) == i && Window()[i] == delim
              else delim !in Window() && (err.Some? || w - r == buf.Length)
      ensures old(source.log) <= source.log && OnHold(Since(source.log, old(source.log)), old(err), err)
      ensures if delim in old(Window()) || old(err).Some? || old(Buffered()) >= buf.Length
              then source.log == old(source.log) && err == old(err)
              else source.log != old(source.log)
    {
      hide IndexByte, OneFill, OnHold, Since;
      ghost var log := source.log;
      NothingRead(log, err);
      var s := 0;
      while true
        invariant Valid() && Pending() == old(Pending())
        invariant s <= w - r && delim !in Window()[..s]
        invariant log <= source.log && OnHold(Since(source.log, log), old(err), err)
        invariant if source.log == log then Window() == old(Window()) && err == old(err)
                  else delim !in old(Window()) && old(err).None? && old(Buffered()) < buf.Length
        decreases buf.Length - (w - r), err.None?
      {
        i := IndexByte(buf[r + s..w], delim);
        assert buf[r + s..w] == Window()[s..];
        if i < w - r - s {
          FirstInWindow(Window(), s, source.rest, delim);
          return s + i;
        }
        NoneInWindow(Window(), s, delim);
        if err.Some? || Buffered() >= buf.Length {
          return -1;
        }
        s := w - r;
        ghost var window := Window();
        FillMore(log, old(err));
        assert Window()[..s] == window;
      }
    }

    // Read up to the first delim; with an error, everything buffered.
    method ReadSlice(delim: Byte) returns (line: seq<Byte>, e: Option<Error>)
      requires Valid()
      modifies this, buf, source
      ensures Valid() && |line| <= buf.Length
      ensures delivered == old(delivered) + line && line + Pending() == old(Pending())
      ensures e.None? ==> IndexByte(old(Pending()), delim) == |line| - 1
      ensures e.Some? ==> delim !in line && Buffered() == 0
      ensures if line != [] then CanUnread() else lastByte == old(lastByte)
      ensures old(source.log) <= source.log
      ensures delim in old(Window()) || old(err).Some? || old(Buffered()) >= buf.Length ==>
        source.log == old(source.log)
      ensures e.None? ==> OnHold(Since(source.log, old(source.log)), old(err), err)
      ensures e.Some? ==>
        && err == None
        && (|| OnHold(Since(source.log, old(source.log)), old(err), e)
            || (old(err).None? && e == Some(BufferFull) && |line| == buf.Length))
    {
      hide IndexByte, OneFill, OnHold, Since;
      var i := Search(delim);
      if i >= 0 {
        line := Take(i + 1);
        return line, None;
      }
      line := TakeAll();
      if err.Some? {
        e := ReadErr();
      } else {
        e := Some(BufferFull);
      }
    }
  }

  lemma FirstInWindow(window: seq<Byte>, s: nat, rest: seq<Byte>, delim: Byte)
    requires s <= |window| && delim !in window[..s] && IndexByte(window[s..], delim) < |window| - s
    ensures IndexByte(window + rest, delim) == s + IndexByte(window[s..], delim)
  {
    var i := IndexByte(window[s..], delim);
    assert window[s + i] == window[s..][i];
    assert forall k :: 0 <= k < s ==> window[k] == window[..s][k];
    assert forall k :: s <= k < s + i ==> window[k] == window[s..][k - s];
    IndexByteIs(window + rest, delim, s + i);
  }

  lemma NoneInWindow(window: seq<Byte>, s: nat, delim: Byte)
    requires s <= |window| && delim !in window[..s]
    ensures IndexByte(window[s..], delim) == |window| - s ==> delim !in window
  {
    assert window == window[..s] + window[s..];
  }

  // ----- Any sequence of calls -----

  datatype Op =
    | Read(size: nat)
    | ReadByte
    | UnreadByte
    | Peek(n: int)
    | Discard(n: int)
    | ReadSlice(delim: Byte)

  // What a client knows of the stream so far: the bytes the calls returned to it, in
  // order, a gap for every byte they reported skipped, and without what it has put back.
  function Known(data: seq<Byte>): (k: seq<Option<Byte>>)
    ensures |k| == |data|
  {
    seq(|data|, i requires 0 <= i < |data| => Some(data[i]))
  }

  function Gaps(n: nat): (k: seq<Option<Byte>>)
    ensures |k| == n
  {
    seq(n, i => None)
  }

  // What a call answers: the bytes it returned, the number it reported, its error.
  datatype Answer = Answer(data: seq<Byte>, count: nat, err: Option<Error>)

  function Noted(held: seq<Option<Byte>>, op: Op, answer: Answer): seq<Option<Byte>> {
    match op
    case Read(_) => held + Known(answer.data)
    case ReadByte => if answer.err.None? then held + Known(answer.data) else held
    case UnreadByte => if answer.err.None? && held != [] then held[..|held| - 1] else held
    case Peek(_) => held
    case Discard(_) => held + Gaps(answer.count)
    case ReadSlice(_) => held + Known(answer.data)
  }

  // The record kept from the first n answers.
  function RecordOf(ops: seq<Op>, answers: seq<Answer>, n: nat): seq<Option<Byte>>
    requires n <= |ops| && n <= |answers|
  {
    if n == 0 then [] else Noted(RecordOf(ops, answers, n - 1), ops[n - 1], answers[n - 1])
  }

  lemma {:induction false} RecordPrefix(ops: seq<Op>, answers: seq<Answer>, more: Answer, n: nat)
    requires n <= |ops| && n <= |answers|
    ensures RecordOf(ops, answers + [more], n) == RecordOf(ops, answers, n)
  {
    if n > 0 {
      RecordPrefix(ops, answers, more, n - 1);
    }
  }

  // The client's record agrees with a stream, of which the rest follows it.
  ghost predicate Agrees(held: seq<Option<Byte>>, rest: seq<Byte>, stream: seq<Byte>) {
    && |held| <= |stream|
    && stream[|held|..] == rest
    && forall i :: 0 <= i < |held| && held[i].Some? ==> held[i].value == stream[i]
  }

  ghost predicate NoGap(held: seq<Option<Byte>>) {
    forall i :: 0 <= i < |held| ==> held[i].Some?
  }

  lemma KnownHasNoGap(held: seq<Option<Byte>>, data: seq<Byte>)
    requires NoGap(held)
    ensures NoGap(held + Known(data))
  {
  }

  lemma PrefixHasNoGap(held: seq<Option<Byte>>)
    requires NoGap(held) && held != []
    ensures NoGap(held[..|held| - 1])
  {
  }

  lemma AgreesMore(held: seq<Option<Byte>>, rest: seq<Byte>, stream: seq<Byte>, data: seq<Byte>, rest': seq<Byte>)
    requires Agrees(held, rest, stream) && data + rest' == rest
    ensures Agrees(held + Known(data), rest', stream)
    ensures Agrees(held + Gaps(|data|), rest', stream)
  {
    var n := |held|;
    assert forall i :: n <= i < n + |data| ==> stream[i] == stream[n..][i - n] == (data + rest')[i - n];
    assert stream[n + |data|..] == stream[n..][|data|..] == (data + rest')[|data|..];
  }

  lemma AgreesLess(held: seq<Option<Byte>>, rest: seq<Byte>, stream: seq<Byte>, c: Byte, rest': seq<Byte>)
    requires Agrees(held, rest, stream) && held != [] && rest' == [c] + rest
    requires stream[|held| - 1] == c
    ensures Agrees(held[..|held| - 1], rest', stream)
  {
    var n := |held| - 1;
    assert stream[n..] == [stream[n]] + stream[n + 1..];
  }

  // The prefix of the stream up to the record is what was delivered since the start.
  lemma LastOfStream(before: seq<Byte>, stream: seq<Byte>, delivered: seq<Byte>, rest: seq<Byte>, n: nat)
    requires delivered + rest == before + stream && |delivered| == |before| + n && 0 < n <= |stream|
    ensures stream[n - 1] == delivered[|delivered| - 1]
  {
    assert (delivered + rest)[|delivered| - 1] == delivered[|delivered| - 1];
    assert (before + stream)[|before| + n - 1] == stream[n - 1];
  }

  lemma RestAfter(d0: seq<Byte>, r0: seq<Byte>, d1: seq<Byte>, r1: seq<Byte>, n: nat)
    requires d1 + r1 == d0 + r0 && |d1| == |d0| + n
    ensures n <= |r0| && r0[..n] + r1 == r0
  {
    assert r1 == (d1 + r1)[|d1|..] == (d0 + r0)[|d0| + n..] == r0[n..];
  }

  // Over any sequence of calls the record a client keeps from their answers alone agrees
  // with what was pending at first, and what is pending now is exactly the rest. Without
  // a skip the record has no gap.
  method Session(reader: Reader, ops: seq<Op>) returns (answers: seq<Answer>)
    requires reader.Valid() && reader.lastByte == -1
    modifies reader, reader.buf, reader.source
    ensures reader.Valid() && |answers| == |ops|
    ensures Agrees(RecordOf(ops, answers, |ops|), reader.Pending(), old(reader.Pending()))
    ensures (forall i :: 0 <= i < |ops| ==> !ops[i].Discard?) ==> NoGap(RecordOf(ops, answers, |ops|))
  {
    hide NoGap, Agrees, Noted, IndexByte, Reader.LastKnown;
    ghost var before, stream := reader.delivered, reader.Pending();
    ghost var held: seq<Option<Byte>> := [];
    answers := [];
    AgreesAtFirst(stream);
    while |answers| < |ops|
      invariant |answers| <= |ops| && held == RecordOf(ops, answers, |answers|)
      invariant reader.Valid() && Agrees(held, reader.Pending(), stream)
      invariant |reader.delivered| == |before| + |held| && reader.stream == before + stream
      invariant reader.lastByte >= 0 ==> held != []
      invariant (forall k :: 0 <= k < |answers| ==> !ops[k].Discard?) ==> NoGap(held)
    {
      var n := |answers|;
      var answer := Call(reader, ops[n], held, before, stream);
      RecordPrefix(ops, answers, answer, n);
      held := Noted(held, ops[n], answer);
      answers := answers + [answer];
    }
  }

  lemma AgreesAtFirst(stream: seq<Byte>)
    ensures Agrees([], stream, stream) && NoGap([])
  {
  }

  lemma AgreesBounds(held: seq<Option<Byte>>, rest: seq<Byte>, stream: seq<Byte>)
    requires Agrees(held, rest, stream)
    ensures |held| + |rest| == |stream|
  {
  }

  // One call, and what the client notes of its answer.
  method Call(reader: Reader, op: Op, ghost held: seq<Option<Byte>>, ghost before: seq<Byte>, ghost stream: seq<Byte>)
    returns (answer: Answer)
    requires reader.Valid() && Agrees(held, reader.Pending(), stream)
    requires |reader.delivered| == |before| + |held| && reader.stream == before + stream
    requires reader.lastByte >= 0 ==> held != []
    modifies reader, reader.buf, reader.source
    ensures reader.Valid() && Agrees(Noted(held, op, answer), reader.Pending(), stream)
    ensures |reader.delivered| == |before| + |Noted(held, op, answer)| && reader.stream == before + stream
    ensures reader.lastByte >= 0 ==> Noted(held, op, answer) != []
    ensures !op.Discard? && NoGap(held) ==> NoGap(Noted(held, op, answer))
  {
    hide NoGap, Agrees, Known, Gaps, IndexByte, Reader.LastKnown;
    ghost var rest := reader.Pending();
    match op {
      case Read(size) =>
        var p := new Byte[size];
        var n, e := reader.Read(p);
        AgreesMore(held, rest, stream, p[..n], reader.Pending());
        if NoGap(held) {
          KnownHasNoGap(held, p[..n]);
        }
        answer := Answer(p[..n], n, e);
      case ReadByte =>
        var c, e := reader.ReadByte();
        if e.None? {
          AgreesMore(held, rest, stream, [c], reader.Pending());
          if NoGap(held) {
            KnownHasNoGap(held, [c]);
          }
        }
        answer := Answer([c], 1, e);
      case UnreadByte =>
        AgreesBounds(held, rest, stream);
        ghost var delivered := reader.delivered;
        var e := reader.UnreadByte();
        if e.None? {
          LastOfStream(before, stream, delivered, rest, |held|);
          AgreesLess(held, rest, stream, delivered[|delivered| - 1], reader.Pending());
          if NoGap(held) {
            PrefixHasNoGap(held);
          }
        }
        answer := Answer([], 0, e);
      case Peek(n) =>
        var line, e := reader.Peek(n);
        answer := Answer(line, |line|, e);
      case Discard(n) =>
        ghost var delivered := reader.delivered;
        var d, e := reader.Discard(n);
        RestAfter(delivered, rest, reader.delivered, reader.Pending(), d);
        AgreesMore(held, rest, stream, rest[..d], reader.Pending());
        answer := Answer([], d, e);
      case ReadSlice(delim) =>
        var line, e := reader.ReadSlice(delim);
        AgreesMore(held, rest, stream, line, reader.Pending());
        if NoGap(held) {
          KnownHasNoGap(held, line);
        }
        answer := Answer(line, |line|, e);
    }
  }
}
