// The buffered writer of bufio: every byte reported written is in the sink or in the
// buffer, once and in order, whatever fails and however short the sink writes.

module BufferedWriter {
  import opened Bytes
  import opened Wrappers

  const DEFAULT_SIZE := 4096

  datatype Error = ShortWrite | Other(code: nat)

  // One write to the sink: what it was given, how much it took, and its error.
  datatype Sent = Sent(p: seq<Byte>, m: nat, err: Option<Error>) {
    // What a flush makes of it.
    function Outcome(): Option<Error> {
      if err.None? && m < |p| then Some(ShortWrite) else err
    }
  }

  // A sink takes a beginning of what it is given. It may fail, also after taking bytes, and
  // may fall short without an error. It may even take nothing without one, as often in a
  // row as its patience says; forever is the one case in which the code does not return.
  // The log is history: all writes so far.
  class Sink {
    var taken: seq<Byte>
    var patience: nat
    ghost var log: seq<Sent>

    constructor (patience: nat)
      ensures taken == [] && this.patience == patience && log == []
    {
      taken, this.patience, log := [], patience, [];
    }

    method Write(p: seq<Byte>) returns (m: nat, e: Option<Error>)
      modifies this
      ensures m <= |p| && taken == old(taken) + p[..m]
      ensures log == old(log) + [Sent(p, m, e)]
      ensures p != [] && m == 0 && e.None? ==> patience < old(patience)
    {
      m :| m <= |p|;
      var failure: Error := *;
      var fails: bool := *;
      var more: nat := *;
      e := if fails then Some(failure) else None;
      if p != [] && m == 0 && !fails {
        if patience == 0 {
          m := 1;
        } else {
          more :| more < patience;
        }
      }
      patience := more;
      taken := taken + p[..m];
      log := log + [Sent(p, m, e)];
    }
  }

  // ----- Where errors come from -----

  // No error among the writes from one log to the other, nor a short flush of a full buffer.
  ghost predicate Clean(log: seq<Sent>, now: seq<Sent>, size: nat) {
    log <= now && forall k :: |log| <= k < |now| ==> now[k].err.None? && (|now[k].p| == size ==> now[k].m == size)
  }

  // A clean run of writes, then one that gave this error: its own, or, where a full buffer
  // was flushed and the sink fell short without one, ShortWrite.
  ghost predicate FailedLast(log: seq<Sent>, now: seq<Sent>, size: nat, e: Option<Error>) {
    && |log| < |now| && e.Some?
    && Clean(log, now[..|now| - 1], size)
    && var last := now[|now| - 1]; e == if |last.p| == size then last.Outcome() else last.err
  }

  ghost predicate Told(log: seq<Sent>, now: seq<Sent>, size: nat, e: Option<Error>) {
    if e.None? then Clean(log, now, size) else FailedLast(log, now, size, e)
  }

  lemma NothingTold(log: seq<Sent>, size: nat)
    ensures Told(log, log, size, None)
  {
  }

  lemma ToldMore(log: seq<Sent>, mid: seq<Sent>, now: seq<Sent>, size: nat, e: Option<Error>)
    requires Told(log, mid, size, None) && mid <= now && |now| == |mid| + 1
    requires var last := now[|mid|]; e == if |last.p| == size then last.Outcome() else last.err
    requires now[|mid|].m <= |now[|mid|].p|
    ensures Told(log, now, size, e)
  {
    assert now[..|now| - 1] == mid;
  }

  // What is left of a window when its first m bytes are gone.
  lemma LeftOver(bytes: seq<Byte>, window: seq<Byte>, m: nat)
    requires m <= |window| <= |bytes|
    requires if 0 < m < |window| then bytes[..|window| - m] == window[m..] else bytes[..|window|] == window
    ensures bytes[..|window| - m] == window[m..]
  {
  }

  class Writer {
    const sink: Sink
    const buf: array<Byte>
    var n: nat
    var err: Option<Error>
    // History: the bytes of all calls that were reported written.
    ghost var accepted: seq<Byte>

    ghost predicate Valid()
      reads this, buf, sink
    {
      0 < buf.Length && n <= buf.Length && sink.taken + buf[..n] == accepted
    }

    function Available(): int
      reads this
    {
      buf.Length - n
    }

    constructor (sink: Sink, size: int)
      ensures Valid() && fresh(buf) && this.sink == sink && n == 0 && err == None
      ensures accepted == sink.taken && buf.Length == if size <= 0 then 4096 else size
    {
      this.sink := sink;
      buf := new Byte[if size <= 0 then DEFAULT_SIZE else size];
      n, err, accepted := 0, None, sink.taken;
    }

    // The buffered bytes from m on, moved to the front.
    method MoveDown(m: nat)
      requires m < n <= buf.Length
      modifies buf
      ensures buf[..n - m] == old(buf[m..n])
    {
      forall i | 0 <= i < n - m {
        buf[i] := buf[m + i];
      }
    }

    // Hand the buffer to the sink; what it leaves moves to the front.
    method Flush() returns (e: Option<Error>)
      requires Valid()
      modifies this`n, this`err, buf, sink
      ensures Valid() && e == err && n <= old(n)
      ensures old(err).Some? ==> err == old(err) && n == old(n) && sink.taken == old(sink.taken)
      ensures e.None? ==> n == 0 && sink.taken == accepted
      ensures old(err).Some? || old(n) == 0 ==> sink.log == old(sink.log) && err == old(err)
      ensures old(err).None? && old(n) > 0 ==>
        && |sink.log| == |old(sink.log)| + 1 && old(sink.log) <= sink.log
        && var sent := sink.log[|old(sink.log)|];
           sent.p == old(buf[..n]) && sent.m <= |sent.p| && e == sent.Outcome()
    {
      if err.Some? {
        return err;
      }
      if n == 0 {
        assert sink.taken + buf[..0] == sink.taken;
        return None;
      }
      ghost var before, window := sink.taken, buf[..n];
      var m;
      m, e := sink.Write(buf[..n]);
      if m < n && e.None? {
        e := Some(ShortWrite);
      }
      if e.Some? {
        if m > 0 && m < n {
          MoveDown(m);
        }
        LeftOver(buf[..], window, m);
        n := n - m;
        err := e;
        assert (before + window[..m]) + window[m..] == before + window;
        return;
      }
      n := 0;
      assert before + window[..m] == before + window;
    }

    // Copy as much of p as fits behind what is buffered.
    method Fill(p: seq<Byte>) returns (k: nat)
      requires Valid()
      modifies this`n, this`accepted, buf
      ensures Valid() && k == (if |p| < old(Available()) then |p| else old(Available())) && n == old(n) + k
      ensures buf[..n] == old(buf[..n]) + p[..k]
      ensures accepted == old(accepted) + p[..k]
    {
      k := if |p| < Available() then |p| else Available();
      ghost var window, bytes := buf[..n], buf[..];
      forall i | n <= i < n + k {
        buf[i] := p[i - n];
      }
      Appended(bytes, buf[..], 0, n, p[..k]);
      n := n + k;
      assert buf[..n] == window + p[..k];
      Regroup(sink.taken, window, p[..k]);
      accepted := accepted + p[..k];
    }

    // A large write with an empty buffer goes straight to the sink.
    method WriteThrough(p: seq<Byte>) returns (m: nat)
      requires Valid() && n == 0 && p != []
      modifies this`err, this`accepted, sink
      ensures Valid() && m <= |p| && (m == 0 && err.None? ==> sink.patience < old(sink.patience))
      ensures accepted == old(accepted) + p[..m]
      ensures |sink.log| == |old(sink.log)| + 1 && old(sink.log) <= sink.log
      ensures sink.log[|old(sink.log)|] == Sent(p, m, err)
    {
      assert buf[..0] == [];
      m, err := sink.Write(p);
      accepted := accepted + p[..m];
    }

    // What the sink is given first by a write that does not fit: all of it when nothing is
    // buffered, otherwise the buffer, filled up.
    ghost function Given(p: seq<Byte>): seq<Byte>
      requires n <= buf.Length && |p| > Available()
      reads this, buf
    {
      if n == 0 then p else buf[..n] + p[..Available()]
    }

    // One round of a write that does not fit: exactly one write to the sink.
    method Push(p: seq<Byte>) returns (k: nat)
      requires Valid() && |p| > Available() && err.None?
      modifies this, buf, sink
      ensures Valid() && k <= |p| && accepted == old(accepted) + p[..k]
      ensures |sink.log| == |old(sink.log)| + 1 && old(sink.log) <= sink.log
      ensures var sent := sink.log[|old(sink.log)|];
              && sent.p == old(Given(p))
              && sent.m <= |sent.p|
              && err == if |sent.p| == buf.Length then sent.Outcome() else sent.err
      ensures k == 0 && err.None? ==> n < old(n) || (n == old(n) && sink.patience < old(sink.patience))
    {
      if n == 0 {
        k := WriteThrough(p);
      } else {
        k := Fill(p);
        var _ := Flush();
      }
    }

    method Write(p: seq<Byte>) returns (nn: nat, e: Option<Error>)
      requires Valid()
      modifies this, buf, sink
      ensures Valid() && nn <= |p| && accepted == old(accepted) + p[..nn]
      ensures e == err && (e.None? ==> nn == |p|)
      ensures old(err).Some? ==>
        nn == 0 && err == old(err) && sink.taken == old(sink.taken) && sink.log == old(sink.log)
      ensures old(err).None? && |p| <= old(Available()) ==> e.None? && sink.log == old(sink.log)
      ensures old(err).None? ==> Told(old(sink.log), sink.log, buf.Length, e)
      ensures old(err).None? && |p| > old(Available()) ==>
        |old(sink.log)| < |sink.log| && sink.log[|old(sink.log)|].p == old(Given(p))
    {
      hide Told, Given, Sent.Outcome;
      ghost var log := sink.log;
      NothingTold(log, buf.Length);
      nn := 0;
      while |p| - nn > Available() && err.None?
        invariant Valid() && nn <= |p| && accepted == old(accepted) + p[..nn]
        invariant |p| <= old(Available()) || old(err).Some? ==>
          sink.taken == old(sink.taken) && sink.log == log
        invariant log <= sink.log && (old(err).None? ==> Told(log, sink.log, buf.Length, err))
        invariant sink.log == log ==>
          && nn == 0 && n == old(n) && err == old(err)
          && (|p| > Available() ==> Given(p) == old(Given(p)))
        invariant sink.log != log ==> |p| > old(Available()) && sink.log[|log|].p == old(Given(p))
        decreases |p| - nn, if err.None? then n + 1 else 0, sink.patience
      {
        ghost var mid := sink.log;
        assert nn == 0 ==> p[nn..] == p;
        var k := Push(p[nn..]);
        ToldMore(log, mid, sink.log, buf.Length, err);
        assert p[..nn] + p[nn..][..k] == p[..nn + k];
        nn := nn + k;
      }
      if err.Some? {
        return nn, err;
      }
      var k := Fill(p[nn..]);
      assert p[..nn] + p[nn..][..k] == p[..nn + k];
      nn := nn + k;
      e := None;
    }

    method WriteByte(c: Byte) returns (e: Option<Error>)
      requires Valid()
      modifies this, buf, sink
      ensures Valid() && e == err
      ensures accepted == if e.None? then old(accepted) + [c] else old(accepted)
      ensures old(err).Some? ==> err == old(err) && sink.taken == old(sink.taken)
      ensures old(err).Some? || old(Available()) > 0 ==> sink.log == old(sink.log) && err == old(err)
      ensures old(err).None? && old(Available()) == 0 ==>
        && |sink.log| == |old(sink.log)| + 1 && old(sink.log) <= sink.log
        && var sent := sink.log[|old(sink.log)|]; sent.p == old(buf[..]) && e == sent.Outcome()
    {
      if err.Some? {
        return err;
      }
      if Available() <= 0 {
        assert buf[..n] == buf[..];
        e := Flush();
        if e.Some? {
          return;
        }
      }
      ghost var window := buf[..n];
      buf[n] := c;
      n := n + 1;
      assert buf[..n] == window + [c];
      assert sink.taken + (window + [c]) == (sink.taken + window) + [c];
      accepted := accepted + [c];
      e := None;
    }
  }

  // ----- Any sequence of calls -----

  datatype Op = Write(p: seq<Byte>) | WriteByte(c: Byte) | Flush

  // What a call answers: the number of bytes it reported written, and its error.
  datatype Answer = Answer(nn: nat, err: Option<Error>)

  // The bytes the first n calls reported written, as the client counts them.
  function Reported(ops: seq<Op>, answers: seq<Answer>, n: nat): seq<Byte>
    requires n <= |ops| && n <= |answers|
  {
    if n == 0 then []
    else Reported(ops, answers, n - 1) + ReportedBy(ops[n - 1], answers[n - 1])
  }

  function ReportedBy(op: Op, answer: Answer): seq<Byte> {
    match op
    case Write(p) => if answer.nn <= |p| then p[..answer.nn] else p
    case WriteByte(c) => if answer.err.None? then [c] else []
    case Flush => []
  }

  lemma {:induction false} ReportedPrefix(ops: seq<Op>, answers: seq<Answer>, more: Answer, n: nat)
    requires n <= |ops| && n <= |answers|
    ensures Reported(ops, answers + [more], n) == Reported(ops, answers, n)
  {
    if n > 0 {
      ReportedPrefix(ops, answers, more, n - 1);
    }
  }

  lemma ReportedNext(ops: seq<Op>, answers: seq<Answer>, more: Answer)
    requires |answers| < |ops|
    ensures Reported(ops, answers + [more], |answers| + 1)
         == Reported(ops, answers, |answers|) + ReportedBy(ops[|answers|], more)
  {
    hide ReportedBy;
    ReportedPrefix(ops, answers, more, |answers|);
  }

  lemma ReportedNothing(ops: seq<Op>)
    ensures Reported(ops, [], 0) == []
  {
  }

  method Call(writer: Writer, op: Op) returns (answer: Answer)
    requires writer.Valid()
    modifies writer, writer.buf, writer.sink
    ensures writer.Valid() && writer.accepted == old(writer.accepted) + ReportedBy(op, answer)
    ensures old(writer.err).Some? ==>
      ReportedBy(op, answer) == [] && writer.err == old(writer.err) && answer.err == old(writer.err)
  {
    match op {
      case Write(p) =>
        var nn, e := writer.Write(p);
        answer := Answer(nn, e);
      case WriteByte(c) =>
        var e := writer.WriteByte(c);
        answer := Answer(if e.None? then 1 else 0, e);
      case Flush =>
        var e := writer.Flush();
        answer := Answer(0, e);
    }
  }

  // The bytes reported written are in the sink or in the buffer, once and in order.
  method Session(writer: Writer, ops: seq<Op>) returns (answers: seq<Answer>)
    requires writer.Valid()
    modifies writer, writer.buf, writer.sink
    ensures writer.Valid() && |answers| == |ops|
    ensures writer.sink.taken + writer.buf[..writer.n]
         == old(writer.sink.taken + writer.buf[..writer.n]) + Reported(ops, answers, |ops|)
    ensures old(writer.err).Some? ==>
      forall i :: 0 <= i < |ops| ==> ReportedBy(ops[i], answers[i]) == [] && answers[i].err == old(writer.err)
  {
    hide ReportedBy, Reported;
    answers := [];
    ReportedNothing(ops);
    while |answers| < |ops|
      invariant |answers| <= |ops|
      invariant writer.Valid() && writer.accepted == old(writer.accepted) + Reported(ops, answers, |answers|)
      invariant old(writer.err).Some? ==> writer.err == old(writer.err)
      invariant old(writer.err).Some? ==>
        forall i :: 0 <= i < |answers| ==> ReportedBy(ops[i], answers[i]) == [] && answers[i].err == old(writer.err)
    {
      var n := |answers|;
      var answer := Call(writer, ops[n]);
      ReportedNext(ops, answers, answer);
      answers := answers + [answer];
    }
  }

  // A successful last flush leaves exactly the bytes reported written in the sink.
  method SessionFlushed(writer: Writer, ops: seq<Op>) returns (answers: seq<Answer>, e: Option<Error>)
    requires writer.Valid() && writer.n == 0
    modifies writer, writer.buf, writer.sink
    ensures |answers| == |ops|
    ensures e.None? ==> writer.sink.taken == old(writer.sink.taken) + Reported(ops, answers, |ops|)
    ensures e.Some? ==> writer.sink.taken <= old(writer.sink.taken) + Reported(ops, answers, |ops|)
  {
    hide Reported;
    answers := Session(writer, ops);
    e := writer.Flush();
    assert old(writer.sink.taken + writer.buf[..0]) == old(writer.sink.taken);
  }
}
