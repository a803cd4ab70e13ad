// The synchronous in-memory pipe of io/pipe.go as a protocol: calls of read and write
// run side by side, each moving by the atomic steps of its code. Every call has its own
// number. The channels are unbuffered, so a send and its receive are one step.

module Pipe {
  import opened Bytes
  import opened Wrappers

  // nil is None. Closed is ErrClosedPipe.
  datatype Error = EOF | Closed | Custom(code: int)

  // ----- Where a call stands -----

  // b is the slice of the call, n how many of its bytes have been consumed.
  datatype Writer =
    | WStart(b: seq<Byte>)
    | WLock(b: seq<Byte>)
    | WLoop(b: seq<Byte>, n: nat, once: bool)
    | WAck(b: seq<Byte>, n: nat)
    | WClosed(b: seq<Byte>, n: nat, locked: bool)
    | WLoaded(b: seq<Byte>, n: nat, locked: bool, werr: Option<Error>)
    | WDone(b: seq<Byte>, n: nat, err: Option<Error>)
  {
    function Count(): nat { if WStart? || WLock? then 0 else n }

    predicate HoldsLock() {
      WLoop? || WAck? || (WClosed? && locked) || (WLoaded? && locked)
    }
  }

  datatype Reader =
    | RStart(size: nat)
    | RSelect(size: nat)
    | RGot(size: nat, bw: seq<Byte>)
    | RClosed
    | RLoaded(rerr: Option<Error>)
    | RDone(data: seq<Byte>, err: Option<Error>)

  // One completed handshake: writer, reader and the bytes handed over.
  datatype Handover = Handover(w: nat, r: nat, data: seq<Byte>)

  // The last three fields are history: the pair between its two handshakes, the
  // completed handovers, and the writers in the order they took the lock.
  datatype State = State(
    writers: map<nat, Writer>,
    readers: map<nat, Reader>,
    lock: Option<nat>,
    done: bool,
    rerr: Option<Error>,
    werr: Option<Error>,
    pair: Option<(nat, nat)>,
    log: seq<Handover>,
    order: seq<nat>)

  const INITIAL := State(map[], map[], None, false, None, None, None, [], [])

  // ----- The steps -----

  datatype Step =
    | StartWrite(w: nat, b: seq<Byte>)
    | CheckWrite(w: nat)
    | TakeLock(w: nat)
    | Send(w: nat, r: nat)
    | Acknowledge(w: nat, r: nat)
    | FinishWrite(w: nat)
    | SeeClosedWrite(w: nat)
    | LoadWerr(w: nat)
    | ReturnWriteError(w: nat)
    | StartRead(r: nat, size: nat)
    | CheckRead(r: nat)
    | SeeClosedRead(r: nat)
    | LoadRerr(r: nat)
    | ReturnReadError(r: nat)
    | StoreRerr(e: Option<Error>)
    | StoreWerr(e: Option<Error>)
    | CloseDone

  function Copied(size: nat, bw: seq<Byte>): (data: seq<Byte>)
    ensures data <= bw
  {
    if |bw| <= size then bw else bw[..size]
  }

  predicate Sending(x: Writer) {
    x.WLoop? && x.n <= |x.b| && (x.once || x.n < |x.b|)
  }

  predicate Can(s: State, step: Step) {
    match step
    case StartWrite(w, b) => w !in s.writers
    case CheckWrite(w) => w in s.writers && s.writers[w].WStart?
    case TakeLock(w) => w in s.writers && s.writers[w].WLock? && s.lock.None?
    case Send(w, r) => w in s.writers && Sending(s.writers[w]) && r in s.readers && s.readers[r].RSelect?
    case Acknowledge(w, r) => w in s.writers && s.writers[w].WAck? && r in s.readers && s.readers[r].RGot?
    case FinishWrite(w) =>
      w in s.writers && s.writers[w].WLoop? && !s.writers[w].once && s.writers[w].n >= |s.writers[w].b|
    case SeeClosedWrite(w) => w in s.writers && Sending(s.writers[w]) && s.done
    case LoadWerr(w) => w in s.writers && s.writers[w].WClosed?
    case ReturnWriteError(w) => w in s.writers && s.writers[w].WLoaded?
    case StartRead(r, size) => r !in s.readers
    case CheckRead(r) => r in s.readers && s.readers[r].RStart?
    case SeeClosedRead(r) => r in s.readers && s.readers[r].RSelect? && s.done
    case LoadRerr(r) => r in s.readers && s.readers[r].RClosed?
    case ReturnReadError(r) => r in s.readers && s.readers[r].RLoaded?
    case StoreRerr(e) => true
    case StoreWerr(e) => true
    case CloseDone => s.rerr.Some? || s.werr.Some?
  }

  function SetW(s: State, w: nat, x: Writer): State {
    s.(writers := s.writers[w := x])
  }

  function SetR(s: State, r: nat, x: Reader): State {
    s.(readers := s.readers[r := x])
  }

  function Do(s: State, step: Step): State
    requires Can(s, step)
  {
    match step
    case StartWrite(w, b) => SetW(s, w, WStart(b))
    case CheckWrite(w) =>
      var b := s.writers[w].b;
      SetW(s, w, if s.done then WClosed(b, 0, false) else WLock(b))
    case TakeLock(w) =>
      SetW(s, w, WLoop(s.writers[w].b, 0, true)).(lock := Some(w), order := s.order + [w])
    case Send(w, r) =>
      var x := s.writers[w];
      SetR(SetW(s, w, WAck(x.b, x.n)), r, RGot(s.readers[r].size, x.b[x.n..])).(pair := Some((w, r)))
    case Acknowledge(w, r) =>
      var x, y := s.writers[w], s.readers[r];
      var data := Copied(y.size, y.bw);
      SetR(SetW(s, w, WLoop(x.b, x.n + |data|, false)), r, RDone(data, None))
        .(pair := None, log := s.log + [Handover(w, r, data)])
    case FinishWrite(w) =>
      SetW(s, w, WDone(s.writers[w].b, s.writers[w].n, None)).(lock := None)
    case SeeClosedWrite(w) =>
      SetW(s, w, WClosed(s.writers[w].b, s.writers[w].n, true))
    case LoadWerr(w) =>
      var x := s.writers[w];
      SetW(s, w, WLoaded(x.b, x.n, x.locked, s.werr))
    case ReturnWriteError(w) =>
      var x := s.writers[w];
      var err := if x.werr.None? && s.rerr.Some? then s.rerr.value else Closed;
      var t := SetW(s, w, WDone(x.b, x.n, Some(err)));
      if x.locked then t.(lock := None) else t
    case StartRead(r, size) => SetR(s, r, RStart(size))
    case CheckRead(r) => SetR(s, r, if s.done then RClosed else RSelect(s.readers[r].size))
    case SeeClosedRead(r) => SetR(s, r, RClosed)
    case LoadRerr(r) => SetR(s, r, RLoaded(s.rerr))
    case ReturnReadError(r) =>
      var err := if s.readers[r].rerr.None? && s.werr.Some? then s.werr.value else Closed;
      SetR(s, r, RDone([], Some(err)))
    case StoreRerr(e) => if s.rerr.None? then s.(rerr := Some(if e.None? then Closed else e.value)) else s
    case StoreWerr(e) => if s.werr.None? then s.(werr := Some(if e.None? then EOF else e.value)) else s
    case CloseDone => s.(done := true)
  }

  // ----- What has been delivered -----

  function Delivered(log: seq<Handover>): seq<Byte> {
    if log == [] then [] else Delivered(log[..|log| - 1]) + log[|log| - 1].data
  }

  // The bytes of one writer that were delivered.
  function DeliveredFrom(log: seq<Handover>, w: nat): seq<Byte> {
    if log == [] then []
    else DeliveredFrom(log[..|log| - 1], w) + (if log[|log| - 1].w == w then log[|log| - 1].data else [])
  }

  function Consumed(s: State, w: nat): seq<Byte> {
    if w in s.writers && s.writers[w].Count() <= |s.writers[w].b| then s.writers[w].b[..s.writers[w].Count()] else []
  }

  // Consumed prefixes of the first n writers in lock order.
  function InLockOrder(s: State, n: nat): seq<Byte>
    requires n <= |s.order|
  {
    if n == 0 then [] else InLockOrder(s, n - 1) + Consumed(s, s.order[n - 1])
  }

  // ----- The invariant -----

  // One lock holder, the last in lock order; counts within the slices.
  ghost predicate LockInv(s: State) {
    && (forall w :: w in s.writers ==> (s.writers[w].HoldsLock() <==> s.lock == Some(w)))
    && (s.lock.Some? ==> s.lock.value in s.writers && s.order != [] && s.order[|s.order| - 1] == s.lock.value)
    && (forall i, j :: 0 <= i < j < |s.order| ==> s.order[i] != s.order[j])
    && (forall w :: w in s.writers ==> s.writers[w].Count() <= |s.writers[w].b|)
    && (forall i :: 0 <= i < |s.order| ==>
          s.order[i] in s.writers && !s.writers[s.order[i]].WStart? && !s.writers[s.order[i]].WLock?)
    && (forall w :: w in s.writers && w !in s.order ==> s.writers[w].Count() == 0)
  }

  // A writer waits for an acknowledgement exactly when one reader owes it, and that
  // reader holds the rest of that writer's slice.
  ghost predicate PairInv(s: State) {
    && (forall w :: w in s.writers && s.writers[w].WAck? ==> s.pair.Some? && s.pair.value.0 == w)
    && (forall r :: r in s.readers && s.readers[r].RGot? ==> s.pair.Some? && s.pair.value.1 == r)
    && (s.pair.Some? ==>
          var (w, r) := s.pair.value;
          && w in s.writers && s.writers[w].WAck? && s.writers[w].n <= |s.writers[w].b|
          && r in s.readers && s.readers[r].RGot?
          && s.readers[r].bw == s.writers[w].b[s.writers[w].n..])
  }

  ghost predicate PerWriter(s: State) {
    && (forall w :: w in s.writers ==> DeliveredFrom(s.log, w) == Consumed(s, w))
    && (forall i :: 0 <= i < |s.log| ==> s.log[i].w in s.writers)
  }

  // Each handover went to one read call, which returned exactly its bytes.
  ghost predicate PerReader(s: State) {
    && (forall i :: 0 <= i < |s.log| ==> s.log[i].r in s.readers && s.readers[s.log[i].r] == RDone(s.log[i].data, None))
    && (forall i, j :: 0 <= i < j < |s.log| ==> s.log[i].r != s.log[j].r)
  }

  ghost predicate DataInv(s: State) {
    Delivered(s.log) == InLockOrder(s, |s.order|) && PerWriter(s) && PerReader(s)
  }

  // A write without error has consumed its whole slice; nothing closes without an error stored.
  ghost predicate Finished(s: State) {
    && (forall w :: w in s.writers && s.writers[w].WDone? && s.writers[w].err.None? ==>
          s.writers[w].n == |s.writers[w].b|)
    && (s.done ==> s.rerr.Some? || s.werr.Some?)
  }

  ghost predicate ResultInv(s: State) {
    Finished(s) && Logged(s)
  }

  ghost predicate Inv(s: State) {
    LockInv(s) && PairInv(s) && DataInv(s) && ResultInv(s)
  }

  lemma InitInv()
    ensures Inv(INITIAL)
  {
  }

  // ----- Every step keeps it -----

  // Steps of readers and closers touch neither writers nor lock.
  predicate WriterStep(step: Step) {
    step.StartWrite? || step.CheckWrite? || step.TakeLock? || step.Send? || step.Acknowledge? || step.FinishWrite?
    || step.SeeClosedWrite? || step.LoadWerr? || step.ReturnWriteError?
  }

  lemma OtherStep(s: State, step: Step)
    requires Can(s, step) && !WriterStep(step)
    ensures var t := Do(s, step);
            && t.writers == s.writers && t.lock == s.lock && t.order == s.order && t.log == s.log && t.pair == s.pair
            && forall r :: r in s.readers && (s.readers[r].RDone? || s.readers[r].RGot?) ==>
                 r in t.readers && t.readers[r] == s.readers[r]
    ensures forall r :: r in Do(s, step).readers && Do(s, step).readers[r].RGot? ==>
              r in s.readers && s.readers[r].RGot?
  {
  }

  // One writer past the lock moves on: it keeps its hold, or lets go.
  lemma LockMoves(s: State, t: State, w: nat)
    requires LockInv(s) && w in s.writers && w in t.writers
    requires t.writers == s.writers[w := t.writers[w]] && t.order == s.order
    requires var x, y := s.writers[w], t.writers[w];
             && (!x.WStart? && !x.WLock? ==> !y.WStart? && !y.WLock?)
             && y.Count() <= |y.b|
             && (x.HoldsLock() || y.Count() == x.Count())
             && (if x.HoldsLock() && !y.HoldsLock() then t.lock == None
                 else t.lock == s.lock && y.HoldsLock() == x.HoldsLock())
    ensures LockInv(t)
  {
    assert s.writers[w].HoldsLock() <==> s.lock == Some(w);
  }

  lemma LockKept(s: State, step: Step)
    requires LockInv(s) && Can(s, step)
    requires step.CheckWrite? || step.Send? || step.SeeClosedWrite? || step.LoadWerr?
    ensures LockInv(Do(s, step))
  {
    assert s.writers[step.w].Count() <= |s.writers[step.w].b|;
    hide LockInv;
    LockMoves(s, Do(s, step), step.w);
  }

  lemma LockStarted(s: State, w: nat, b: seq<Byte>)
    requires LockInv(s) && Can(s, StartWrite(w, b))
    ensures LockInv(Do(s, StartWrite(w, b)))
  {
  }

  lemma LockTaken(s: State, w: nat)
    requires LockInv(s) && Can(s, TakeLock(w))
    ensures LockInv(Do(s, TakeLock(w)))
  {
  }

  lemma LockReleased(s: State, step: Step)
    requires LockInv(s) && Can(s, step) && (step.FinishWrite? || step.ReturnWriteError?)
    ensures LockInv(Do(s, step))
  {
    assert s.writers[step.w].Count() <= |s.writers[step.w].b|;
    hide LockInv;
    LockMoves(s, Do(s, step), step.w);
  }

  lemma LockAcknowledged(s: State, w: nat, r: nat)
    requires LockInv(s) && PairInv(s) && Can(s, Acknowledge(w, r))
    ensures LockInv(Do(s, Acknowledge(w, r)))
  {
    HandAgrees(s, w, r);
    hide LockInv, PairInv, Copied;
    LockMoves(s, Do(s, Acknowledge(w, r)), w);
  }

  lemma LockStep(s: State, step: Step)
    requires LockInv(s) && PairInv(s) && Can(s, step)
    ensures LockInv(Do(s, step))
  {
    hide Do, PairInv, Can;
    if !WriterStep(step) {
      OtherStep(s, step);
    } else {
      hide LockInv;
      match step
      case StartWrite(w, b) => LockStarted(s, w, b);
      case TakeLock(w) => LockTaken(s, w);
      case Acknowledge(w, r) => LockAcknowledged(s, w, r);
      case FinishWrite(_) => LockReleased(s, step);
      case ReturnWriteError(_) => LockReleased(s, step);
      case _ => LockKept(s, step);
    }
  }

  // The acknowledged pair is the waiting one, and its bytes lie within the slice.
  lemma HandAgrees(s: State, w: nat, r: nat)
    requires PairInv(s) && Can(s, Acknowledge(w, r))
    ensures s.pair == Some((w, r)) && s.writers[w].n <= |s.writers[w].b|
    ensures s.readers[r].bw == s.writers[w].b[s.writers[w].n..]
    ensures s.writers[w].n + |Copied(s.readers[r].size, s.readers[r].bw)| <= |s.writers[w].b|
  {
  }

  // While a writer stands in its loop, no handshake is under way.
  lemma NoPairYet(s: State, w: nat)
    requires LockInv(s) && PairInv(s) && w in s.writers && s.writers[w].WLoop?
    ensures s.pair == None
    ensures forall v :: v in s.writers ==> !s.writers[v].WAck?
    ensures forall r :: r in s.readers ==> !s.readers[r].RGot?
  {
    assert s.writers[w].HoldsLock();
    assert forall v :: v in s.writers && s.writers[v].WAck? ==> s.writers[v].HoldsLock();
  }

  lemma PairOther(s: State, step: Step)
    requires PairInv(s) && Can(s, step) && WriterStep(step) && !step.Send? && !step.Acknowledge?
    ensures PairInv(Do(s, step))
  {
  }

  lemma PairMade(s: State, w: nat, r: nat)
    requires LockInv(s) && PairInv(s) && Can(s, Send(w, r))
    ensures PairInv(Do(s, Send(w, r)))
  {
    NoPairYet(s, w);
  }

  lemma PairEnded(s: State, w: nat, r: nat)
    requires PairInv(s) && Can(s, Acknowledge(w, r))
    ensures PairInv(Do(s, Acknowledge(w, r)))
  {
  }

  lemma PairStep(s: State, step: Step)
    requires LockInv(s) && PairInv(s) && Can(s, step)
    ensures PairInv(Do(s, step))
  {
    hide Do, LockInv, Can;
    if !WriterStep(step) {
      OtherStep(s, step);
    } else {
      hide PairInv;
      match step
      case Send(w, r) => PairMade(s, w, r);
      case Acknowledge(w, r) => PairEnded(s, w, r);
      case _ => PairOther(s, step);
    }
  }

  lemma {:induction false} SameOrder(s: State, t: State, n: nat)
    requires n <= |s.order| && n <= |t.order|
    requires forall i :: 0 <= i < n ==> t.order[i] == s.order[i] && Consumed(t, s.order[i]) == Consumed(s, s.order[i])
    ensures InLockOrder(t, n) == InLockOrder(s, n)
  {
    if n > 0 {
      SameOrder(s, t, n - 1);
    }
  }

  // Steps that move no byte, take no lock and end no read successfully.
  lemma QuietStep(s: State, t: State)
    requires DataInv(s) && LockInv(s) && s.log == t.log && s.order == t.order
    requires forall w :: w in s.writers ==> w in t.writers && Consumed(t, w) == Consumed(s, w)
    requires forall w :: w in t.writers && w !in s.writers ==> Consumed(t, w) == []
    requires forall r :: r in s.readers && s.readers[r].RDone? ==> r in t.readers && t.readers[r] == s.readers[r]
    ensures DataInv(t)
  {
    SameOrder(s, t, |s.order|);
    forall w | w in t.writers
      ensures DeliveredFrom(t.log, w) == Consumed(t, w)
    {
      if w !in s.writers {
        NothingFrom(s.log, w);
      }
    }
  }

  lemma {:induction false} NothingFrom(log: seq<Handover>, w: nat)
    requires forall i :: 0 <= i < |log| ==> log[i].w != w
    ensures DeliveredFrom(log, w) == []
  {
    if log != [] {
      NothingFrom(log[..|log| - 1], w);
    }
  }

  lemma TakeLockData(s: State, w: nat)
    requires DataInv(s) && LockInv(s) && Can(s, TakeLock(w))
    ensures DataInv(Do(s, TakeLock(w)))
  {
    hide DeliveredFrom, Delivered, InLockOrder;
    var t := Do(s, TakeLock(w));
    SameConsumed(s, t, w);
    SameOrder(s, t, |s.order|);
    OrderSnoc(t, |s.order|);
  }

  lemma OrderSnoc(s: State, n: nat)
    requires n < |s.order|
    ensures InLockOrder(s, n + 1) == InLockOrder(s, n) + Consumed(s, s.order[n])
  {
  }

  // A step of one writer that keeps its count keeps everyone's consumed bytes.
  lemma SameConsumed(s: State, t: State, w: nat)
    requires w in s.writers && w in t.writers && t.writers == s.writers[w := t.writers[w]]
    requires t.writers[w].b == s.writers[w].b && t.writers[w].Count() == s.writers[w].Count()
    ensures forall v :: Consumed(t, v) == Consumed(s, v)
  {
  }

  lemma HolderIsLast(s: State, w: nat)
    requires LockInv(s) && w in s.writers && s.writers[w].HoldsLock()
    ensures s.order != [] && s.order[|s.order| - 1] == w
  {
  }

  // One writer's count goes up: its consumed bytes grow by just those.
  lemma MoreConsumed(s: State, t: State, w: nat, data: seq<Byte>)
    requires w in s.writers && w in t.writers && t.writers == s.writers[w := t.writers[w]]
    requires var x, y := s.writers[w], t.writers[w];
             && y.b == x.b && y.Count() == x.Count() + |data| && y.Count() <= |x.b|
             && x.b[x.Count()..y.Count()] == data
    ensures Consumed(t, w) == Consumed(s, w) + data
    ensures forall v :: v != w ==> Consumed(t, v) == Consumed(s, v)
  {
    var x, n := s.writers[w], s.writers[w].Count();
    assert x.b[..n] + x.b[n..n + |data|] == x.b[..n + |data|];
  }

  lemma AcknowledgedBytes(s: State, w: nat, r: nat)
    requires LockInv(s) && PairInv(s) && Can(s, Acknowledge(w, r))
    ensures var t, data := Do(s, Acknowledge(w, r)), Copied(s.readers[r].size, s.readers[r].bw);
            && Consumed(t, w) == Consumed(s, w) + data
            && (forall v :: v != w ==> Consumed(t, v) == Consumed(s, v))
            && t.order == s.order && s.order != [] && s.order[|s.order| - 1] == w
            && t.log == s.log + [Handover(w, r, data)]
  {
    HandAgrees(s, w, r);
    HolderIsLast(s, w);
    hide LockInv, PairInv, Copied, Consumed;
    var t, data := Do(s, Acknowledge(w, r)), Copied(s.readers[r].size, s.readers[r].bw);
    var x := s.writers[w];
    assert x.b[x.n..][..|data|] == x.b[x.n..x.n + |data|];
    MoreConsumed(s, t, w, data);
  }

  lemma AcknowledgedTotal(s: State, t: State, w: nat, data: seq<Byte>)
    requires s.order != [] && s.order[|s.order| - 1] == w && t.order == s.order
    requires forall i, j :: 0 <= i < j < |s.order| ==> s.order[i] != s.order[j]
    requires Consumed(t, w) == Consumed(s, w) + data && forall v :: v != w ==> Consumed(t, v) == Consumed(s, v)
    ensures InLockOrder(t, |t.order|) == InLockOrder(s, |s.order|) + data
  {
    hide InLockOrder, Consumed;
    var n := |s.order| - 1;
    SameOrder(s, t, n);
    OrderSnoc(s, n);
    OrderSnoc(t, n);
    Regroup(InLockOrder(s, n), Consumed(s, w), data);
  }

  lemma DeliveredSnoc(log: seq<Handover>, h: Handover)
    ensures Delivered(log + [h]) == Delivered(log) + h.data
    ensures forall w :: DeliveredFrom(log + [h], w) == DeliveredFrom(log, w) + (if w == h.w then h.data else [])
  {
    assert (log + [h])[..|log|] == log;
  }

  lemma AcknowledgedReaders(s: State, w: nat, r: nat)
    requires PerReader(s) && Can(s, Acknowledge(w, r))
    ensures PerReader(Do(s, Acknowledge(w, r)))
  {
    assert forall i :: 0 <= i < |s.log| ==> s.log[i].r != r;
  }

  lemma AcknowledgedWriters(s: State, t: State, h: Handover)
    requires PerWriter(s) && h.w in s.writers && t.writers.Keys == s.writers.Keys && t.log == s.log + [h]
    requires Consumed(t, h.w) == Consumed(s, h.w) + h.data && forall v :: v != h.w ==> Consumed(t, v) == Consumed(s, v)
    ensures PerWriter(t)
  {
    hide Consumed, DeliveredFrom;
    DeliveredSnoc(s.log, h);
    forall v | v in t.writers
      ensures DeliveredFrom(t.log, v) == Consumed(t, v)
    {
      assert v in s.writers;
    }
  }

  lemma AcknowledgedDelivery(s: State, t: State, h: Handover)
    requires Delivered(s.log) == InLockOrder(s, |s.order|) && t.log == s.log + [h]
    requires InLockOrder(t, |t.order|) == InLockOrder(s, |s.order|) + h.data
    ensures Delivered(t.log) == InLockOrder(t, |t.order|)
  {
    hide InLockOrder, DeliveredFrom;
    DeliveredSnoc(s.log, h);
  }

  lemma DistinctOrder(s: State)
    requires LockInv(s)
    ensures forall i, j :: 0 <= i < j < |s.order| ==> s.order[i] != s.order[j]
  {
  }

  lemma AcknowledgedKeys(s: State, w: nat, r: nat)
    requires Can(s, Acknowledge(w, r))
    ensures Do(s, Acknowledge(w, r)).writers.Keys == s.writers.Keys
  {
    assert s.writers.Keys + {w} == s.writers.Keys;
  }

  lemma AcknowledgeData(s: State, w: nat, r: nat)
    requires DataInv(s) && LockInv(s) && PairInv(s) && Can(s, Acknowledge(w, r))
    ensures DataInv(Do(s, Acknowledge(w, r)))
  {
    hide InLockOrder, PairInv, Consumed, LockInv, PerReader, PerWriter, Do, Delivered, DeliveredFrom;
    var t := Do(s, Acknowledge(w, r));
    var h := Handover(w, r, Copied(s.readers[r].size, s.readers[r].bw));
    AcknowledgedBytes(s, w, r);
    AcknowledgedReaders(s, w, r);
    AcknowledgedKeys(s, w, r);
    DistinctOrder(s);
    AcknowledgedTotal(s, t, w, h.data);
    AcknowledgedWriters(s, t, h);
    AcknowledgedDelivery(s, t, h);
  }

  lemma StartData(s: State, w: nat, b: seq<Byte>)
    requires DataInv(s) && LockInv(s) && Can(s, StartWrite(w, b))
    ensures DataInv(Do(s, StartWrite(w, b)))
  {
    hide DeliveredFrom, Delivered, InLockOrder, LockInv, DataInv;
    QuietStep(s, Do(s, StartWrite(w, b)));
  }

  lemma WriterData(s: State, step: Step)
    requires DataInv(s) && LockInv(s) && Can(s, step)
    requires || step.CheckWrite? || step.Send? || step.FinishWrite?
             || step.SeeClosedWrite? || step.LoadWerr? || step.ReturnWriteError?
    ensures DataInv(Do(s, step))
  {
    hide DeliveredFrom, Delivered, InLockOrder, LockInv, DataInv, Consumed;
    var t := Do(s, step);
    SameConsumed(s, t, step.w);
    QuietStep(s, t);
  }

  lemma DataStep(s: State, step: Step)
    requires DataInv(s) && LockInv(s) && PairInv(s) && Can(s, step)
    ensures DataInv(Do(s, step))
  {
    hide Do, LockInv, PairInv, DataInv, Can;
    if !WriterStep(step) {
      OtherStep(s, step);
      QuietStep(s, Do(s, step));
    } else {
      match step
      case StartWrite(w, b) => StartData(s, w, b);
      case TakeLock(w) => TakeLockData(s, w);
      case Acknowledge(w, r) => AcknowledgeData(s, w, r);
      case _ => WriterData(s, step);
    }
  }

  // Reads that succeeded are in the log.
  ghost predicate Logged(s: State) {
    forall r :: r in s.readers && s.readers[r].RDone? && s.readers[r].err.None? ==> InLog(s.log, r)
  }

  ghost predicate InLog(log: seq<Handover>, r: nat) {
    exists i :: 0 <= i < |log| && log[i].r == r
  }

  lemma LoggedStep(s: State, step: Step)
    requires Logged(s) && Can(s, step)
    ensures Logged(Do(s, step))
  {
    hide InLog;
    if step.Acknowledge? {
      LogGrows(s.log, Handover(step.w, step.r, Copied(s.readers[step.r].size, s.readers[step.r].bw)));
    }
  }

  lemma LogGrows(log: seq<Handover>, h: Handover)
    ensures InLog(log + [h], h.r)
    ensures forall r :: InLog(log, r) ==> InLog(log + [h], r)
  {
    assert (log + [h])[|log|] == h;
    forall r | InLog(log, r)
      ensures InLog(log + [h], r)
    {
      var i :| 0 <= i < |log| && log[i].r == r;
      assert (log + [h])[i].r == r;
    }
  }

  lemma FinishedWrite(s: State, w: nat)
    requires Finished(s) && LockInv(s) && Can(s, FinishWrite(w))
    ensures Finished(Do(s, FinishWrite(w)))
  {
    assert s.writers[w].Count() <= |s.writers[w].b|;
    hide LockInv;
  }

  lemma FinishedOther(s: State, step: Step)
    requires Finished(s) && Can(s, step) && !step.FinishWrite?
    ensures Finished(Do(s, step))
  {
    hide Sending, Copied;
  }

  lemma FinishedStep(s: State, step: Step)
    requires Finished(s) && LockInv(s) && Can(s, step)
    ensures Finished(Do(s, step))
  {
    hide Do, Finished, LockInv, Can;
    if step.FinishWrite? {
      FinishedWrite(s, step.w);
    } else {
      FinishedOther(s, step);
    }
  }

  lemma ResultStep(s: State, step: Step)
    requires ResultInv(s) && LockInv(s) && Can(s, step)
    ensures ResultInv(Do(s, step))
  {
    hide Do, Can, LockInv, Finished, Logged;
    FinishedStep(s, step);
    LoggedStep(s, step);
  }

  lemma StepInv(s: State, step: Step)
    requires Inv(s) && Can(s, step)
    ensures Inv(Do(s, step))
  {
    LockStep(s, step);
    PairStep(s, step);
    DataStep(s, step);
    ResultStep(s, step);
  }

  // ----- Runs -----

  ghost predicate IsRun(states: seq<State>, steps: seq<Step>) {
    && |states| == |steps| + 1
    && states[0] == INITIAL
    && forall i :: 0 <= i < |steps| ==> Can(states[i], steps[i]) && states[i + 1] == Do(states[i], steps[i])
  }

  lemma {:induction false} RunInv(states: seq<State>, steps: seq<Step>, k: nat)
    requires IsRun(states, steps) && k < |states|
    ensures Inv(states[k])
  {
    if k == 0 {
      InitInv();
    } else {
      RunInv(states, steps, k - 1);
      StepInv(states[k - 1], steps[k - 1]);
    }
  }

  // For every interleaving: what the readers got, in order of handshake, is what the
  // writers gave, in order of lock; each write returns the number of its bytes delivered;
  // a read that succeeded returned exactly what was handed to it.
  lemma PipeDelivers(states: seq<State>, steps: seq<Step>, k: nat)
    requires IsRun(states, steps) && k < |states|
    ensures var s := states[k];
            && Delivered(s.log) == InLockOrder(s, |s.order|)
            && (forall w :: w in s.writers && s.writers[w].WDone? ==>
                  var x := s.writers[w];
                  && x.n <= |x.b| && DeliveredFrom(s.log, w) == x.b[..x.n]
                  && (x.err.None? ==> x.n == |x.b|))
            && (forall i :: 0 <= i < |s.log| ==>
                  s.log[i].r in s.readers && s.readers[s.log[i].r] == RDone(s.log[i].data, None))
            && (forall r :: r in s.readers && s.readers[r].RDone? && s.readers[r].err.None? ==>
                  InLog(s.log, r))
  {
    RunInv(states, steps, k);
    var s := states[k];
    forall w | w in s.writers && s.writers[w].WDone?
      ensures s.writers[w].n <= |s.writers[w].b| && DeliveredFrom(s.log, w) == s.writers[w].b[..s.writers[w].n]
    {
      assert s.writers[w].Count() <= |s.writers[w].b|;
    }
  }

  // A reader that took a slice can always deliver its acknowledgement, closed or not.
  lemma AcknowledgementPossible(states: seq<State>, steps: seq<Step>, k: nat, r: nat)
    requires IsRun(states, steps) && k < |states|
    requires r in states[k].readers && states[k].readers[r].RGot?
    ensures exists w :: Can(states[k], Acknowledge(w, r))
    ensures forall v, w :: Can(states[k], Acknowledge(v, r)) && Can(states[k], Acknowledge(w, r)) ==> v == w
  {
    RunInv(states, steps, k);
    var s := states[k];
    assert Can(s, Acknowledge(s.pair.value.0, r));
  }

  // ----- Errors -----

  // The first stored error stays, and reaches the calls of the other side.
  ghost predicate ErrorInv(s: State) {
    && (s.done ==> s.rerr.Some? || s.werr.Some?)
    && (forall r :: r in s.readers ==> ReaderError(s, s.readers[r]))
    && (forall w :: w in s.writers ==> WriterError(s, s.writers[w]))
  }

  // A read that failed while the read end was never closed returns the writer's error.
  ghost predicate ReaderError(s: State, y: Reader) {
    && (y.RClosed? || y.RLoaded? ==> s.done)
    && (y.RLoaded? && y.rerr.Some? ==> s.rerr == y.rerr)
    && (y.RDone? && y.err.Some? && s.rerr.None? ==> s.werr == y.err)
  }

  ghost predicate WriterError(s: State, x: Writer) {
    && (x.WClosed? || x.WLoaded? ==> s.done)
    && (x.WLoaded? && x.werr.Some? ==> s.werr == x.werr)
    && (x.WDone? && x.err.Some? && s.werr.None? ==> s.rerr == x.err)
  }

  lemma ErrorOfWriter(s: State, step: Step)
    requires ErrorInv(s) && Can(s, step) && WriterStep(step)
    ensures forall w :: w in Do(s, step).writers ==> WriterError(Do(s, step), Do(s, step).writers[w])
  {
  }

  lemma ErrorOfReader(s: State, step: Step)
    requires ErrorInv(s) && Can(s, step)
    ensures forall r :: r in Do(s, step).readers ==> ReaderError(Do(s, step), Do(s, step).readers[r])
  {
  }

  lemma ErrorOfOther(s: State, step: Step)
    requires ErrorInv(s) && Can(s, step) && !WriterStep(step)
    ensures forall w :: w in Do(s, step).writers ==> WriterError(Do(s, step), Do(s, step).writers[w])
  {
  }

  lemma StoredStays(s: State, step: Step)
    requires Can(s, step)
    ensures var t := Do(s, step);
            && (s.rerr.Some? ==> t.rerr == s.rerr)
            && (s.werr.Some? ==> t.werr == s.werr)
            && (s.done ==> t.done)
            && (t.done ==> s.done || s.rerr.Some? || s.werr.Some?)
  {
  }

  lemma {:induction false} RunErrors(states: seq<State>, steps: seq<Step>, k: nat)
    requires IsRun(states, steps) && k < |states|
    ensures ErrorInv(states[k])
  {
    if k > 0 {
      RunErrors(states, steps, k - 1);
      hide Do, ReaderError, WriterError, Can;
      StoredStays(states[k - 1], steps[k - 1]);
      ErrorOfReader(states[k - 1], steps[k - 1]);
      if WriterStep(steps[k - 1]) {
        ErrorOfWriter(states[k - 1], steps[k - 1]);
      } else {
        ErrorOfOther(states[k - 1], steps[k - 1]);
      }
    }
  }

  // ----- What was asked for, told by the steps of the run -----

  // A write keeps the slice it was called with, a read the size of its buffer.
  lemma CallKept(s: State, step: Step, call: nat)
    requires Can(s, step)
    ensures call in s.writers ==> call in Do(s, step).writers && Do(s, step).writers[call].b == s.writers[call].b
    ensures call in s.readers ==> call in Do(s, step).readers && SizeKept(s.readers[call], Do(s, step).readers[call])
  {
  }

  ghost predicate SizeKept(x: Reader, y: Reader) {
    && (x.RStart? || x.RSelect? || x.RGot? ==>
          if y.RStart? || y.RSelect? || y.RGot? then y.size == x.size
          else y.RDone? ==> |y.data| <= x.size)
    && (x.RClosed? || x.RLoaded? ==> y.RClosed? || y.RLoaded? || (y.RDone? && y.err.Some? && y.data == []))
    && (x.RDone? ==> y == x)
  }

  lemma CallStarts(s: State, step: Step)
    requires Can(s, step)
    ensures step.StartWrite? ==> step.w in Do(s, step).writers && Do(s, step).writers[step.w] == WStart(step.b)
    ensures step.StartRead? ==> step.r in Do(s, step).readers && Do(s, step).readers[step.r] == RStart(step.size)
  {
  }

  lemma {:induction false} WriteKeepsSlice(states: seq<State>, steps: seq<Step>, i: nat, k: nat)
    requires IsRun(states, steps) && i < |steps| && i < k < |states| && steps[i].StartWrite?
    ensures steps[i].w in states[k].writers && states[k].writers[steps[i].w].b == steps[i].b
    decreases k
  {
    hide Do, Can;
    if i + 1 < k {
      WriteKeepsSlice(states, steps, i, k - 1);
      CallKept(states[k - 1], steps[k - 1], steps[i].w);
    } else {
      CallStarts(states[i], steps[i]);
    }
  }

  ghost predicate WithinSize(y: Reader, size: nat) {
    && (y.RStart? || y.RSelect? || y.RGot? ==> y.size == size)
    && (y.RDone? ==> |y.data| <= size)
  }

  lemma {:induction false} ReadKeepsSize(states: seq<State>, steps: seq<Step>, i: nat, k: nat)
    requires IsRun(states, steps) && i < |steps| && i < k < |states| && steps[i].StartRead?
    ensures steps[i].r in states[k].readers && WithinSize(states[k].readers[steps[i].r], steps[i].size)
    decreases k
  {
    hide Do, Can;
    if i + 1 < k {
      ReadKeepsSize(states, steps, i, k - 1);
      CallKept(states[k - 1], steps[k - 1], steps[i].r);
    } else {
      CallStarts(states[i], steps[i]);
    }
  }

  // A handover gives the read as much as its buffer takes of what the write still holds.
  lemma HandoverFills(states: seq<State>, steps: seq<Step>, i: nat, j: nat, k: nat)
    requires IsRun(states, steps) && i < k < |steps| && j < k
    requires steps[i].StartWrite? && steps[j].StartRead? && steps[k] == Acknowledge(steps[i].w, steps[j].r)
    ensures steps[i].w in states[k].writers && states[k].writers[steps[i].w].WAck?
    ensures var n := states[k].writers[steps[i].w].n;
            && n <= |steps[i].b|
            && steps[j].r in states[k + 1].readers
            && states[k + 1].readers[steps[j].r].RDone?
            && var data := states[k + 1].readers[steps[j].r].data;
               && |data| == (if |steps[i].b| - n <= steps[j].size then |steps[i].b| - n else steps[j].size)
               && data == steps[i].b[n..n + |data|]
  {
    hide LockInv, DataInv, PairInv, ResultInv, Do, Can, Copied;
    RunInv(states, steps, k);
    WriteKeepsSlice(states, steps, i, k);
    ReadKeepsSize(states, steps, j, k);
    AcknowledgeGives(states[k], steps[i].w, steps[j].r);
    CopiedBytes(steps[j].size, steps[i].b, states[k].writers[steps[i].w].n);
  }

  lemma AcknowledgeGives(s: State, w: nat, r: nat)
    requires PairInv(s) && Can(s, Acknowledge(w, r))
    ensures w in s.writers && s.writers[w].WAck? && s.writers[w].n <= |s.writers[w].b|
    ensures r in s.readers && s.readers[r].RGot? && r in Do(s, Acknowledge(w, r)).readers
    ensures Do(s, Acknowledge(w, r)).readers[r]
         == RDone(Copied(s.readers[r].size, s.writers[w].b[s.writers[w].n..]), None)
  {
    HandAgrees(s, w, r);
    hide PairInv, Copied;
  }

  lemma CopiedBytes(size: nat, b: seq<Byte>, n: nat)
    requires n <= |b|
    ensures var data := Copied(size, b[n..]);
            && |data| == (if |b| - n <= size then |b| - n else size)
            && data == b[n..n + |data|]
  {
  }

  // A write that succeeds took part in at least one handover, even with nothing to write.
  ghost predicate Handed(s: State, w: nat) {
    w in s.writers && (if s.writers[w].WLoop? then !s.writers[w].once
                       else s.writers[w].WDone? && s.writers[w].err.None?) ==>
      exists i :: 0 <= i < |s.log| && s.log[i].w == w
  }

  lemma HandedStep(s: State, step: Step, w: nat)
    requires Handed(s, w) && Can(s, step)
    ensures Handed(Do(s, step), w)
  {
    hide Copied;
    var t := Do(s, step);
    if step.Acknowledge? && step.w == w {
      assert t.log[|s.log|].w == w;
    } else if i :| 0 <= i < |s.log| && s.log[i].w == w {
      assert t.log[i] == s.log[i];
    }
  }

  lemma {:induction false} WriteHandsOver(states: seq<State>, steps: seq<Step>, k: nat, w: nat)
    requires IsRun(states, steps) && k < |states|
    ensures Handed(states[k], w)
  {
    if k > 0 {
      WriteHandsOver(states, steps, k - 1, w);
      HandedStep(states[k - 1], steps[k - 1], w);
    }
  }

  // Step i is the first close of the read end, or of the write end.
  ghost predicate FirstReadClose(steps: seq<Step>, i: nat) {
    i < |steps| && steps[i].StoreRerr? && forall m :: 0 <= m < i ==> !steps[m].StoreRerr?
  }

  ghost predicate FirstWriteClose(steps: seq<Step>, i: nat) {
    i < |steps| && steps[i].StoreWerr? && forall m :: 0 <= m < i ==> !steps[m].StoreWerr?
  }

  // The error of the first close of an end is the one stored: the error given, or, for
  // want of one, ErrClosedPipe for the read end and EOF for the write end.
  lemma {:induction false} ReadCloseStores(states: seq<State>, steps: seq<Step>, k: nat)
    requires IsRun(states, steps) && k < |states|
    ensures states[k].rerr.None? <==> forall i :: 0 <= i < k ==> !steps[i].StoreRerr?
    ensures states[k].rerr.Some? ==>
              exists i :: 0 <= i < k && FirstReadClose(steps, i)
                       && states[k].rerr == Some(if steps[i].e.Some? then steps[i].e.value else Closed)
  {
    hide Do, Can;
    if k > 0 {
      ReadCloseStores(states, steps, k - 1);
      CloseStores(states[k - 1], steps[k - 1]);
      if states[k - 1].rerr.None? && steps[k - 1].StoreRerr? {
        assert FirstReadClose(steps, k - 1);
      }
    }
  }

  lemma {:induction false} WriteCloseStores(states: seq<State>, steps: seq<Step>, k: nat)
    requires IsRun(states, steps) && k < |states|
    ensures states[k].werr.None? <==> forall i :: 0 <= i < k ==> !steps[i].StoreWerr?
    ensures states[k].werr.Some? ==>
              exists i :: 0 <= i < k && FirstWriteClose(steps, i)
                       && states[k].werr == Some(if steps[i].e.Some? then steps[i].e.value else EOF)
  {
    hide Do, Can;
    if k > 0 {
      WriteCloseStores(states, steps, k - 1);
      CloseStores(states[k - 1], steps[k - 1]);
      if states[k - 1].werr.None? && steps[k - 1].StoreWerr? {
        assert FirstWriteClose(steps, k - 1);
      }
    }
  }

  lemma CloseStores(s: State, step: Step)
    requires Can(s, step)
    ensures var t := Do(s, step);
            && t.rerr == (if s.rerr.Some? || !step.StoreRerr? then s.rerr
                          else Some(if step.e.Some? then step.e.value else Closed))
            && t.werr == (if s.werr.Some? || !step.StoreWerr? then s.werr
                          else Some(if step.e.Some? then step.e.value else EOF))
            && (t.done <==> s.done || step.CloseDone?)
  {
  }

  // Once a close has come to its end the pipe is closed for good.
  lemma {:induction false} CloseCloses(states: seq<State>, steps: seq<Step>, k: nat)
    requires IsRun(states, steps) && k < |states|
    ensures states[k].done <==> exists i :: 0 <= i < k && steps[i].CloseDone?
  {
    if k > 0 {
      CloseCloses(states, steps, k - 1);
      CloseStores(states[k - 1], steps[k - 1]);
      hide Do, Can;
    }
  }

  // A close is never held up, whatever the state of the calls.
  lemma CloseNeverBlocks(s: State, e: Option<Error>)
    ensures Can(s, StoreRerr(e)) && Can(Do(s, StoreRerr(e)), CloseDone)
    ensures Can(s, StoreWerr(e)) && Can(Do(s, StoreWerr(e)), CloseDone)
  {
  }

  // Writes that have been in a handover are past their first round.
  ghost predicate BegunInLog(s: State) {
    forall i :: 0 <= i < |s.log| ==> s.log[i].w in s.writers && Begun(s.writers[s.log[i].w])
  }

  predicate Begun(x: Writer) {
    !x.WStart? && !x.WLock? && (x.WLoop? ==> !x.once)
  }

  lemma BegunStep(s: State, step: Step)
    requires BegunInLog(s) && Can(s, step)
    ensures BegunInLog(Do(s, step))
  {
    hide Copied;
    var t := Do(s, step);
    forall i | 0 <= i < |t.log|
      ensures t.log[i].w in t.writers && Begun(t.writers[t.log[i].w])
    {
      if i < |s.log| {
        assert t.log[i] == s.log[i] && Begun(s.writers[s.log[i].w]);
      }
    }
  }

  lemma {:induction false} BegunRuns(states: seq<State>, steps: seq<Step>, k: nat)
    requires IsRun(states, steps) && k < |states|
    ensures BegunInLog(states[k])
  {
    if k > 0 {
      BegunRuns(states, steps, k - 1);
      hide Do, Can, BegunInLog;
      BegunStep(states[k - 1], steps[k - 1]);
    }
  }

  // A write offers its slice again only while bytes are left; an empty offer is the one
  // offer of an empty write.
  lemma OffersWhatIsLeft(states: seq<State>, steps: seq<Step>, k: nat, w: nat, r: nat)
    requires IsRun(states, steps) && k < |steps| && steps[k] == Send(w, r)
    ensures w in states[k].writers && states[k].writers[w].WLoop?
    ensures states[k].writers[w].n < |states[k].writers[w].b|
            || forall i :: 0 <= i < |states[k].log| ==> states[k].log[i].w != w
  {
    BegunRuns(states, steps, k);
    assert Can(states[k], steps[k]);
  }

  // ----- Calls on an end that is closed already -----

  // How a write stands that began when its end was closed, or when the whole pipe was.
  ghost predicate LateWrite(s: State, x: Writer, done: bool) {
    && s.werr.Some? && (done ==> s.done)
    && (x.WLoaded? ==> x.werr.Some?)
    && (x.WDone? && x.err.Some? ==> x.err == Some(Closed))
    && (done ==> x.WStart? || ((x.WClosed? || x.WLoaded? || (x.WDone? && x.err.Some?)) && x.n == 0))
  }

  lemma LateWriteStep(s: State, step: Step, w: nat, done: bool)
    requires Can(s, step) && w in s.writers && LateWrite(s, s.writers[w], done)
    ensures w in Do(s, step).writers && LateWrite(Do(s, step), Do(s, step).writers[w], done)
  {
  }

  // A write begun after the write end was closed can fail only with ErrClosedPipe; one
  // begun after the pipe was closed for good writes nothing and does fail when it returns.
  lemma {:induction false} WriteAfterClose(states: seq<State>, steps: seq<Step>, i: nat, k: nat)
    requires IsRun(states, steps) && i < |steps| && i < k < |states| && steps[i].StartWrite? && states[i].werr.Some?
    ensures steps[i].w in states[k].writers && LateWrite(states[k], states[k].writers[steps[i].w], states[i].done)
    decreases k
  {
    hide Can, Do;
    if i + 1 < k {
      WriteAfterClose(states, steps, i, k - 1);
      LateWriteStep(states[k - 1], steps[k - 1], steps[i].w, states[i].done);
    } else {
      CallStarts(states[i], steps[i]);
      StoredStays(states[i], steps[i]);
    }
  }

  ghost predicate LateRead(s: State, y: Reader, done: bool) {
    && s.rerr.Some? && (done ==> s.done)
    && (y.RLoaded? ==> y.rerr.Some?)
    && (y.RDone? && y.err.Some? ==> y.err == Some(Closed))
    && (done ==> y.RStart? || y.RClosed? || y.RLoaded? || (y.RDone? && y.err.Some? && y.data == []))
  }

  lemma LateReadStep(s: State, step: Step, r: nat, done: bool)
    requires Can(s, step) && r in s.readers && LateRead(s, s.readers[r], done)
    ensures r in Do(s, step).readers && LateRead(Do(s, step), Do(s, step).readers[r], done)
  {
  }

  // The same for a read begun after the read end was closed.
  lemma {:induction false} ReadAfterClose(states: seq<State>, steps: seq<Step>, i: nat, k: nat)
    requires IsRun(states, steps) && i < |steps| && i < k < |states| && steps[i].StartRead? && states[i].rerr.Some?
    ensures steps[i].r in states[k].readers && LateRead(states[k], states[k].readers[steps[i].r], states[i].done)
    decreases k
  {
    hide Can, Do;
    if i + 1 < k {
      ReadAfterClose(states, steps, i, k - 1);
      LateReadStep(states[k - 1], steps[k - 1], steps[i].r, states[i].done);
    } else {
      CallStarts(states[i], steps[i]);
      StoredStays(states[i], steps[i]);
    }
  }

  predicate ReadFailedWith(y: Reader, e: Option<Error>) {
    y.RDone? && y.err.Some? ==> y.err == e
  }

  predicate WriteFailedWith(x: Writer, e: Option<Error>) {
    x.WDone? && x.err.Some? ==> x.err == e
  }

  // Errors are stored once, and while one end was never closed, calls on it that failed
  // return the error the other end was closed with.
  lemma {:induction false} CloseErrors(states: seq<State>, steps: seq<Step>, i: nat, k: nat)
    requires IsRun(states, steps) && i <= k < |states|
    ensures states[i].rerr.Some? ==> states[k].rerr == states[i].rerr
    ensures states[i].werr.Some? ==> states[k].werr == states[i].werr
    ensures states[k].rerr.None? ==>
              forall r :: r in states[k].readers ==> ReadFailedWith(states[k].readers[r], states[k].werr)
    ensures states[k].werr.None? ==>
              forall w :: w in states[k].writers ==> WriteFailedWith(states[k].writers[w], states[k].rerr)
    decreases k - i
  {
    RunErrors(states, steps, k);
    assert forall r :: r in states[k].readers ==> ReaderError(states[k], states[k].readers[r]);
    assert forall w :: w in states[k].writers ==> WriterError(states[k], states[k].writers[w]);
    if i < k {
      hide Do, ErrorInv, Can;
      CloseErrors(states, steps, i, k - 1);
      StoredStays(states[k - 1], steps[k - 1]);
    }
  }

  // ----- After a close, nothing hangs -----

  predicate Unfinished(s: State, call: nat, writing: bool) {
    if writing then call in s.writers && !s.writers[call].WDone?
    else call in s.readers && !s.readers[call].RDone?
  }

  // A step of a call already under way.
  predicate Internal(step: Step) {
    !step.StartWrite? && !step.StartRead? && !step.StoreRerr? && !step.StoreWerr? && !step.CloseDone?
  }

  ghost predicate CanMove(s: State) {
    exists step :: Internal(step) && Can(s, step)
  }

  lemma HolderMoves(s: State, w: nat)
    requires LockInv(s) && PairInv(s) && s.done && w in s.writers && s.writers[w].HoldsLock()
    ensures CanMove(s)
  {
    var x := s.writers[w];
    if x.WLoop? {
      assert x.Count() <= |x.b|;
      assert Can(s, SeeClosedWrite(w)) || Can(s, FinishWrite(w));
    } else if x.WAck? {
      assert Can(s, Acknowledge(w, s.pair.value.1));
    } else {
      assert Can(s, LoadWerr(w)) || Can(s, ReturnWriteError(w));
    }
  }

  lemma WriterMoves(s: State, w: nat)
    requires LockInv(s) && PairInv(s) && s.done && Unfinished(s, w, true)
    ensures CanMove(s)
  {
    var x := s.writers[w];
    if x.HoldsLock() {
      HolderMoves(s, w);
    } else if x.WLock? && s.lock.Some? {
      HolderMoves(s, s.lock.value);
    } else {
      assert Can(s, CheckWrite(w)) || Can(s, TakeLock(w)) || Can(s, LoadWerr(w)) || Can(s, ReturnWriteError(w));
    }
  }

  lemma ReaderMoves(s: State, r: nat)
    requires LockInv(s) && PairInv(s) && s.done && Unfinished(s, r, false)
    ensures CanMove(s)
  {
    var y := s.readers[r];
    if y.RGot? {
      assert Can(s, Acknowledge(s.pair.value.0, r));
    } else {
      assert Can(s, CheckRead(r)) || Can(s, SeeClosedRead(r)) || Can(s, LoadRerr(r)) || Can(s, ReturnReadError(r));
    }
  }

  // Once the pipe is closed, as long as a call is unfinished some call can move on.
  lemma ClosedPipeMoves(states: seq<State>, steps: seq<Step>, k: nat, call: nat, writing: bool)
    requires IsRun(states, steps) && k < |states| && states[k].done && Unfinished(states[k], call, writing)
    ensures CanMove(states[k])
  {
    RunInv(states, steps, k);
    if writing {
      WriterMoves(states[k], call);
    } else {
      ReaderMoves(states[k], call);
    }
  }
}
