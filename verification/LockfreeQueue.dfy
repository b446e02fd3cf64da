/**
 Many producers and consumers over one ring (lockfree_que/lockfree_queue.c), one atomic step per
 shared read, store or compare-and-swap, in every interleaving.

 The code keeps positions modulo the capacity; the model carries, beside each position, the unbounded
 ticket it stands for: `enq` and `deq` are the values in order of the reserve and of the read CAS, so the
 write ticket is |enq| and the read ticket is |deq|; `owner` and `taker` name the threads. Tickets are history: no
 branch tests them.
 */
module LockfreeQueue {
  import opened Arith

  type Word = int

  /** Where a thread stands: the constructor names the access it performs next. */
  datatype Pc =
    | Idle
    | EnqReadWrite(val: Word)
    | EnqReadRead(val: Word, w: nat, wt: nat)
    | EnqReserve(val: Word, w: nat, wt: nat, rt: nat)
    | EnqStore(val: Word, w: nat, wt: nat)
    | EnqCommit(w: nat, wt: nat)
    | EnqCount
    | DeqReadRead
    | DeqReadMax(r: nat, rt: nat)
    | DeqLoad(r: nat, rt: nat)
    | DeqTake(r: nat, rt: nat, val: Word)
    | DeqCount(val: Word)
  {
    predicate Producing() {
      EnqReadWrite? || EnqReadRead? || EnqReserve? || EnqStore? || EnqCommit? || EnqCount?
    }

    predicate Consuming() {
      DeqReadRead? || DeqReadMax? || DeqLoad? || DeqTake? || DeqCount?
    }

    /** Reserved a slot that is not published yet. */
    predicate Owning() {
      EnqStore? || EnqCommit?
    }
  }

  datatype State = State(
    n: nat, buf: seq<Word>, writePos: nat, maxReadPos: nat, readPos: nat, count: int, pcs: seq<Pc>,
    enq: seq<Word>, deq: seq<Word>, committed: nat, owner: seq<nat>, taker: seq<nat>)

  datatype Event = BeginEnq(tid: nat, val: Word) | BeginDeq(tid: nat) | Step(tid: nat)

  /** lockfree_que_create; `maxReadPos` and `count` are whatever the allocation held. */
  function Create(n: nat, buf: seq<Word>, maxReadPos: nat, count: int, threads: nat): (s: State) {
    State(n, buf, 0, maxReadPos, 0, count, seq(threads, _ => Idle), [], [], 0, [], [])
  }

  function Goto(s: State, tid: nat, pc: Pc): (s': State)
    requires tid < |s.pcs|
  {
    s.(pcs := s.pcs[tid := pc])
  }

  function StepEnq(s: State, tid: nat): (s': State)
    requires s.n > 0 && |s.buf| == s.n && tid < |s.pcs| && s.pcs[tid].Producing()
    requires s.pcs[tid].EnqStore? ==> s.pcs[tid].w < s.n
  {
    match s.pcs[tid]
    case EnqReadWrite(v) => Goto(s, tid, EnqReadRead(v, s.writePos, |s.enq|))
    case EnqReadRead(v, w, wt) =>
      if (w + 1) % s.n == s.readPos then Goto(s, tid, Idle) else Goto(s, tid, EnqReserve(v, w, wt, |s.deq|))
    case EnqReserve(v, w, wt, rt) =>
      if s.writePos == w then
        Goto(s, tid, EnqStore(v, w, |s.enq|)).(
          writePos := (w + 1) % s.n, enq := s.enq + [v], owner := s.owner + [tid])
      else Goto(s, tid, EnqReadWrite(v))
    case EnqStore(v, w, wt) => Goto(s, tid, EnqCommit(w, wt)).(buf := s.buf[w := v])
    case EnqCommit(w, wt) =>
      if s.maxReadPos == w then
        Goto(s, tid, EnqCount).(maxReadPos := (w + 1) % s.n, committed := s.committed + 1)
      else s
    case EnqCount => Goto(s, tid, Idle).(count := s.count + 1)
  }

  function StepDeq(s: State, tid: nat): (s': State)
    requires s.n > 0 && |s.buf| == s.n && tid < |s.pcs| && s.pcs[tid].Consuming()
    requires s.pcs[tid].DeqLoad? ==> s.pcs[tid].r < s.n
  {
    match s.pcs[tid]
    case DeqReadRead => Goto(s, tid, DeqReadMax(s.readPos, |s.deq|))
    case DeqReadMax(r, rt) => if r == s.maxReadPos then Goto(s, tid, Idle) else Goto(s, tid, DeqLoad(r, rt))
    case DeqLoad(r, rt) => Goto(s, tid, DeqTake(r, rt, s.buf[r]))
    case DeqTake(r, rt, v) =>
      if s.readPos == r then
        Goto(s, tid, DeqCount(v)).(readPos := (r + 1) % s.n, deq := s.deq + [v], taker := s.taker + [tid])
      else Goto(s, tid, DeqReadRead)
    case DeqCount(v) => Goto(s, tid, Idle).(count := s.count - 1)
  }

  /** One event; an event its thread is not ready for changes nothing. */
  function Exec(s: State, e: Event): (s': State)
    requires Shape(s)
  {
    if e.tid >= |s.pcs| then s
    else if e.BeginEnq? then if s.pcs[e.tid].Idle? then Goto(s, e.tid, EnqReadWrite(e.val)) else s
    else if e.BeginDeq? then if s.pcs[e.tid].Idle? then Goto(s, e.tid, DeqReadRead) else s
    else if s.pcs[e.tid].Producing() then StepEnq(s, e.tid)
    else if s.pcs[e.tid].Consuming() then StepDeq(s, e.tid)
    else s
  }

  /** Positions stay inside the ring, whatever the interleaving. */
  predicate Shape(s: State) {
    && s.n > 0 && |s.buf| == s.n && s.writePos < s.n && s.readPos < s.n
    && forall i :: 0 <= i < |s.pcs| ==> PosInRing(s.pcs[i], s.n)
  }

  predicate PosInRing(pc: Pc, n: nat) {
    match pc
    case EnqReadRead(_, w, _) => w < n
    case EnqReserve(_, w, _, _) => w < n
    case EnqStore(_, w, _) => w < n
    case EnqCommit(w, _) => w < n
    case DeqReadMax(r, _) => r < n
    case DeqLoad(r, _) => r < n
    case DeqTake(r, _, _) => r < n
    case _ => true
  }

  lemma ExecKeepsShape(s: State, e: Event)
    requires Shape(s)
    ensures Shape(Exec(s, e))
  {
  }

  function Run(s: State, es: seq<Event>): (s': State)
    requires Shape(s)
    ensures Shape(s')
  {
    if es == [] then s
    else
      var p := Run(s, es[..|es| - 1]);
      ExecKeepsShape(p, es[|es| - 1]);
      Exec(p, es[|es| - 1])
  }

  // ---------------------------------------------------------------------------------------------
  // The invariant

  predicate Window(s: State) {
    && |s.deq| <= s.committed <= |s.enq| < |s.deq| + s.n
    && s.writePos == |s.enq| % s.n
    && s.maxReadPos == s.committed % s.n
    && s.readPos == |s.deq| % s.n
  }

  predicate Published(s: State)
    requires Shape(s) && Window(s)
  {
    forall t :: |s.deq| <= t < s.committed ==> s.buf[t % s.n] == s.enq[t]
  }

  /** Every reserved, unpublished ticket has exactly one thread working on it. */
  predicate Owned(s: State)
    requires Window(s)
  {
    && |s.owner| == |s.enq|
    && forall t :: s.committed <= t < |s.enq| ==>
         s.owner[t] < |s.pcs| && s.pcs[s.owner[t]].Owning() && s.pcs[s.owner[t]].wt == t
  }

  predicate PcOk(s: State, i: nat)
    requires Shape(s) && Window(s) && |s.owner| == |s.enq| && i < |s.pcs|
  {
    match s.pcs[i]
    case EnqReadRead(_, w, wt) => wt <= |s.enq| && w == wt % s.n
    case EnqReserve(_, w, wt, rt) =>
      wt <= |s.enq| && w == wt % s.n && rt <= |s.deq| && (wt == |s.enq| ==> wt + 1 < rt + s.n)
    case EnqStore(v, w, wt) =>
      s.committed <= wt < |s.enq| && w == wt % s.n && s.owner[wt] == i && s.enq[wt] == v
    case EnqCommit(w, wt) =>
      s.committed <= wt < |s.enq| && w == wt % s.n && s.owner[wt] == i && s.buf[w] == s.enq[wt]
    case DeqReadMax(r, rt) => rt <= |s.deq| && r == rt % s.n
    case DeqLoad(r, rt) => rt <= |s.deq| && r == rt % s.n && (rt == |s.deq| ==> rt < s.committed)
    case DeqTake(r, rt, v) =>
      rt <= |s.deq| && r == rt % s.n && (rt == |s.deq| ==> rt < s.committed && v == s.enq[rt])
    case _ => true
  }

  function Adds(pcs: seq<Pc>): (k: nat) {
    if pcs == [] then 0 else Adds(pcs[..|pcs| - 1]) + if pcs[|pcs| - 1].EnqCount? then 1 else 0
  }

  function Subs(pcs: seq<Pc>): (k: nat) {
    if pcs == [] then 0 else Subs(pcs[..|pcs| - 1]) + if pcs[|pcs| - 1].DeqCount? then 1 else 0
  }

  predicate Counted(s: State) {
    s.count + Adds(s.pcs) - Subs(s.pcs) == s.committed - |s.deq|
  }

  predicate Inv(s: State) {
    && Shape(s) && Window(s) && Published(s) && Owned(s) && Counted(s)
    && |s.deq| <= |s.enq| && s.deq == s.enq[..|s.deq|]
    && forall i :: 0 <= i < |s.pcs| ==> PcOk(s, i)
  }

  lemma {:induction false} CountUpdate(pcs: seq<Pc>, i: nat, pc: Pc)
    requires i < |pcs|
    ensures Adds(pcs[i := pc]) == Adds(pcs) + (if pc.EnqCount? then 1 else 0) - (if pcs[i].EnqCount? then 1 else 0)
    ensures Subs(pcs[i := pc]) == Subs(pcs) + (if pc.DeqCount? then 1 else 0) - (if pcs[i].DeqCount? then 1 else 0)
  {
    var k := |pcs| - 1;
    if i == k {
      assert pcs[i := pc][..k] == pcs[..k];
    } else {
      assert pcs[i := pc][..k] == pcs[..k][i := pc];
      CountUpdate(pcs[..k], i, pc);
    }
  }

  // ---------------------------------------------------------------------------------------------
  // Which steps keep the invariant

  /** Ring full, as the code would see it now. */
  predicate FullNow(s: State)
    requires s.n > 0
  {
    (s.writePos + 1) % s.n == s.readPos
  }

  /**
   A reserve CAS that succeeds finds the ring not full, and a read CAS that succeeds finds it not empty
   and holds the oldest value. Only the shared words and the thread's locals are tested, no ticket.
   */
  predicate Safe(s: State, e: Event)
    requires Shape(s)
  {
    e.Step? && e.tid < |s.pcs| ==>
      match s.pcs[e.tid]
      case EnqReserve(_, w, _, _) => s.writePos == w ==> !FullNow(s)
      case DeqTake(r, _, v) => s.readPos == r ==> s.readPos != s.maxReadPos && v == s.buf[r]
      case _ => true
  }

  /** A producer's reserve CAS does not succeed on a position it remembered whole laps ago. */
  predicate EnqNotLapped(s: State, e: Event) {
    e.Step? && e.tid < |s.pcs| && s.pcs[e.tid].EnqReserve? && s.writePos == s.pcs[e.tid].w ==>
      s.pcs[e.tid].wt == |s.enq|
  }

  /** The same of a consumer's read CAS. */
  predicate DeqNotLapped(s: State, e: Event) {
    e.Step? && e.tid < |s.pcs| && s.pcs[e.tid].DeqTake? && s.readPos == s.pcs[e.tid].r ==>
      s.pcs[e.tid].rt == |s.deq|
  }

  lemma FullIff(s: State)
    requires s.n > 0 && Window(s)
    ensures FullNow(s) <==> |s.enq| + 1 == |s.deq| + s.n
    ensures s.readPos == s.maxReadPos <==> |s.deq| == s.committed
  {
    ModNext(|s.enq|, s.n);
    ModNext(|s.deq|, s.n);
    if |s.deq| <= |s.enq| + 1 - s.n {
    } else {
      ModNear(|s.deq|, |s.enq| + 1, s.n);
    }
    ModNear(|s.deq|, s.committed, s.n);
  }

  /** A private move of one thread: nothing shared changes. */
  lemma LocalMove(s: State, tid: nat, pc: Pc)
    requires Inv(s) && tid < |s.pcs| && PosInRing(pc, s.n)
    requires !s.pcs[tid].Owning() && !pc.Owning()
    requires !s.pcs[tid].EnqCount? && !pc.EnqCount? && !s.pcs[tid].DeqCount? && !pc.DeqCount?
    requires PcOk(Goto(s, tid, pc), tid)
    ensures Inv(Goto(s, tid, pc))
  {
    var s' := Goto(s, tid, pc);
    CountUpdate(s.pcs, tid, pc);
    forall i | 0 <= i < |s'.pcs| ensures PcOk(s', i) {
      assert PcOk(s, i);
    }
  }

  lemma ReserveExact(s: State, tid: nat)
    requires Inv(s) && tid < |s.pcs| && s.pcs[tid].EnqReserve? && s.writePos == s.pcs[tid].w
    ensures Inv(StepEnq(s, tid)) <==> !FullNow(s)
  {
    FullIff(s);
    var s' := StepEnq(s, tid);
    if !FullNow(s) {
      assert PcOk(s, tid);
      ModNext(|s.enq|, s.n);
      CountUpdate(s.pcs, tid, s'.pcs[tid]);
      forall i | 0 <= i < |s'.pcs| ensures PcOk(s', i) {
        assert PcOk(s, i);
      }
    }
  }

  lemma StoreKeeps(s: State, tid: nat)
    requires Inv(s) && tid < |s.pcs| && s.pcs[tid].EnqStore?
    ensures Inv(StepEnq(s, tid))
  {
    var s' := StepEnq(s, tid);
    var t := s.pcs[tid].wt;
    assert PcOk(s, tid);
    CountUpdate(s.pcs, tid, s'.pcs[tid]);
    forall u | |s.deq| <= u < s.committed ensures s'.buf[u % s.n] == s.enq[u] {
      ModNear(u, t, s.n);
    }
    forall i | 0 <= i < |s'.pcs| ensures PcOk(s', i) {
      assert PcOk(s, i);
      if s.pcs[i].EnqCommit? {
        var u := s.pcs[i].wt;
        if u < t { ModNear(u, t, s.n); } else { ModNear(t, u, s.n); }
      }
    }
  }

  lemma CommitIff(s: State, tid: nat)
    requires Inv(s) && tid < |s.pcs| && s.pcs[tid].EnqCommit?
    ensures s.maxReadPos == s.pcs[tid].w <==> s.pcs[tid].wt == s.committed
  {
    assert PcOk(s, tid);
    ModNear(s.committed, s.pcs[tid].wt, s.n);
  }

  lemma CommitOthers(s: State, tid: nat, i: nat)
    requires Inv(s) && tid < |s.pcs| && s.pcs[tid].EnqCommit? && s.pcs[tid].wt == s.committed
    requires s.maxReadPos == s.pcs[tid].w && i < |s.pcs| && Window(StepEnq(s, tid))
    ensures PcOk(StepEnq(s, tid), i)
  {
    assert PcOk(s, i);
    assert PcOk(s, tid);
  }

  /** The shared part of a commit that succeeds. */
  lemma CommitShared(s: State, tid: nat)
    requires Inv(s) && tid < |s.pcs| && s.pcs[tid].EnqCommit? && s.pcs[tid].wt == s.committed
    requires s.maxReadPos == s.pcs[tid].w
    ensures var s' := StepEnq(s, tid); Shape(s') && Window(s') && Published(s') && Owned(s') && Counted(s')
  {
    var s' := StepEnq(s, tid);
    assert PcOk(s, tid);
    ModNext(s.committed, s.n);
    CountUpdate(s.pcs, tid, EnqCount);
    assert Window(s') && Published(s');
  }

  lemma CommitKeeps(s: State, tid: nat)
    requires Inv(s) && tid < |s.pcs| && s.pcs[tid].EnqCommit?
    ensures Inv(StepEnq(s, tid))
  {
    CommitIff(s, tid);
    if s.maxReadPos == s.pcs[tid].w {
      CommitShared(s, tid);
      forall i | 0 <= i < |s.pcs| ensures PcOk(StepEnq(s, tid), i) {
        CommitOthers(s, tid, i);
      }
    }
  }

  lemma TakeExact(s: State, tid: nat)
    requires Inv(s) && tid < |s.pcs| && s.pcs[tid].DeqTake? && s.readPos == s.pcs[tid].r
    ensures Inv(StepDeq(s, tid)) <==> s.readPos != s.maxReadPos && s.pcs[tid].val == s.buf[s.readPos]
  {
    FullIff(s);
    var s' := StepDeq(s, tid);
    var k := |s.deq|;
    if k < s.committed {
      assert s.buf[s.readPos] == s.enq[k];
      if s.pcs[tid].val == s.enq[k] {
        ModNext(k, s.n);
        CountUpdate(s.pcs, tid, s'.pcs[tid]);
        assert s'.deq == s'.enq[..k + 1];
        forall i | 0 <= i < |s'.pcs| ensures PcOk(s', i) {
          assert PcOk(s, i);
        }
      } else {
        assert s'.deq[k] != s'.enq[..k + 1][k];
      }
    }
  }

  lemma CountKeeps(s: State, tid: nat)
    requires Inv(s) && tid < |s.pcs| && (s.pcs[tid].EnqCount? || s.pcs[tid].DeqCount?)
    ensures Inv(Exec(s, Step(tid)))
  {
    var s' := Exec(s, Step(tid));
    CountUpdate(s.pcs, tid, Idle);
    forall i | 0 <= i < |s'.pcs| ensures PcOk(s', i) {
      assert PcOk(s, i);
    }
  }

  lemma LocalSteps(s: State, tid: nat)
    requires Inv(s) && tid < |s.pcs|
    requires !s.pcs[tid].Idle? && !s.pcs[tid].Owning() && !s.pcs[tid].EnqCount? && !s.pcs[tid].DeqCount?
    requires s.pcs[tid].EnqReserve? ==> s.writePos != s.pcs[tid].w
    requires s.pcs[tid].DeqTake? ==> s.readPos != s.pcs[tid].r
    ensures Inv(Exec(s, Step(tid)))
  {
    assert PcOk(s, tid);
    FullIff(s);
    var s' := Exec(s, Step(tid));
    if s.pcs[tid].EnqReadRead? {
      ModNext(s.pcs[tid].wt, s.n);
    }
    LocalMove(s, tid, s'.pcs[tid]);
  }

  /** From a state of the invariant, an event keeps the invariant exactly when it is safe. */
  lemma StepKeepsInvIff(s: State, e: Event)
    requires Inv(s)
    ensures Inv(Exec(s, e)) <==> Safe(s, e)
  {
    if e.tid < |s.pcs| {
      var pc := s.pcs[e.tid];
      if e.Step? {
        if pc.EnqReserve? && s.writePos == pc.w {
          ReserveExact(s, e.tid);
        } else if pc.DeqTake? && s.readPos == pc.r {
          TakeExact(s, e.tid);
        } else if pc.EnqStore? {
          StoreKeeps(s, e.tid);
        } else if pc.EnqCommit? {
          CommitKeeps(s, e.tid);
        } else if pc.EnqCount? || pc.DeqCount? {
          CountKeeps(s, e.tid);
        } else if !pc.Idle? {
          LocalSteps(s, e.tid);
        }
      } else if pc.Idle? {
        LocalMove(s, e.tid, if e.BeginEnq? then EnqReadWrite(e.val) else DeqReadRead);
      }
    }
  }

  /** A thread that is not lapped is safe: no other hypothesis is needed for any number of threads. */
  lemma NotLappedIsSafe(s: State, e: Event)
    requires Inv(s) && EnqNotLapped(s, e) && DeqNotLapped(s, e)
    ensures Safe(s, e)
  {
    if e.Step? && e.tid < |s.pcs| {
      assert PcOk(s, e.tid);
      FullIff(s);
    }
  }

  // ---------------------------------------------------------------------------------------------
  // Whole runs

  predicate AllSafe(s: State, es: seq<Event>)
    requires Shape(s)
  {
    es == [] || (AllSafe(s, es[..|es| - 1]) && Safe(Run(s, es[..|es| - 1]), es[|es| - 1]))
  }

  predicate ProducersNotLapped(s: State, es: seq<Event>)
    requires Shape(s)
  {
    es == [] || (ProducersNotLapped(s, es[..|es| - 1]) && EnqNotLapped(Run(s, es[..|es| - 1]), es[|es| - 1]))
  }

  predicate ConsumersNotLapped(s: State, es: seq<Event>)
    requires Shape(s)
  {
    es == [] || (ConsumersNotLapped(s, es[..|es| - 1]) && DeqNotLapped(Run(s, es[..|es| - 1]), es[|es| - 1]))
  }

  predicate InvThroughout(s: State, es: seq<Event>)
    requires Shape(s)
  {
    Inv(Run(s, es)) && (es == [] || InvThroughout(s, es[..|es| - 1]))
  }

  /** `create` leaves lfb_max_read_pos and count unset; a fresh queue is sound exactly when both are zero. */
  lemma CreateExact(n: nat, buf: seq<Word>, maxReadPos: nat, count: int, threads: nat)
    requires n > 0 && |buf| == n
    ensures Shape(Create(n, buf, maxReadPos, count, threads))
    ensures Inv(Create(n, buf, maxReadPos, count, threads)) <==> maxReadPos == 0 && count == 0
  {
    ModSmall(0, n);
    NoneCounting(seq(threads, _ => Idle));
  }

  lemma {:induction false} NoneCounting(pcs: seq<Pc>)
    requires forall i :: 0 <= i < |pcs| ==> !pcs[i].EnqCount? && !pcs[i].DeqCount?
    ensures Adds(pcs) == 0 && Subs(pcs) == 0
  {
    if pcs != [] {
      NoneCounting(pcs[..|pcs| - 1]);
    }
  }

  /** A run keeps the invariant at every step exactly when every step of it is safe. */
  lemma {:induction false} RunKeepsInvIff(s: State, es: seq<Event>)
    requires Inv(s)
    ensures InvThroughout(s, es) <==> AllSafe(s, es)
  {
    if es != [] {
      var p := es[..|es| - 1];
      RunKeepsInvIff(s, p);
      if AllSafe(s, p) {
        assert Inv(Run(s, p)) by { assert InvThroughout(s, p); }
        StepKeepsInvIff(Run(s, p), es[|es| - 1]);
      }
    }
  }

  lemma {:induction false} NotLappedRunIsSafe(s: State, es: seq<Event>)
    requires Inv(s) && ProducersNotLapped(s, es) && ConsumersNotLapped(s, es)
    ensures AllSafe(s, es) && Inv(Run(s, es))
  {
    if es != [] {
      var p := es[..|es| - 1];
      NotLappedRunIsSafe(s, p);
      NotLappedIsSafe(Run(s, p), es[|es| - 1]);
      StepKeepsInvIff(Run(s, p), es[|es| - 1]);
    }
  }

  /**
   FIFO delivery for any number of threads and any interleaving without a lapped CAS: what was taken is a
   prefix of what was reserved, every published value not yet taken sits in its slot, never more than n - 1
   values are in the ring, and the counter with its pending updates is the number of published values.
   */
  lemma Fifo(n: nat, buf: seq<Word>, threads: nat, es: seq<Event>)
    requires n > 0 && |buf| == n && Shape(Create(n, buf, 0, 0, threads))
    requires ProducersNotLapped(Create(n, buf, 0, 0, threads), es)
    requires ConsumersNotLapped(Create(n, buf, 0, 0, threads), es)
    ensures var s := Run(Create(n, buf, 0, 0, threads), es);
      && s.deq <= s.enq
      && |s.deq| <= s.committed <= |s.enq| < |s.deq| + s.n
      && (forall t :: |s.deq| <= t < s.committed ==> 0 <= t % s.n < |s.buf| && s.buf[t % s.n] == s.enq[t])
      && s.count + Adds(s.pcs) - Subs(s.pcs) == s.committed - |s.deq|
  {
    CreateExact(n, buf, 0, 0, threads);
    NotLappedRunIsSafe(Create(n, buf, 0, 0, threads), es);
  }

  /** Publication follows reservation order, and some thread can always publish next. */
  lemma CommitInOrder(s: State, tid: nat)
    requires Inv(s) && tid < |s.pcs| && s.pcs[tid].EnqCommit?
    ensures StepEnq(s, tid) != s <==> s.pcs[tid].wt == s.committed
    ensures s.committed < |s.owner| && s.owner[s.committed] < |s.pcs|
    ensures var pc := s.pcs[s.owner[s.committed]]; pc.Owning() && pc.wt == s.committed
  {
    assert PcOk(s, tid);
    CommitIff(s, tid);
  }

  lemma UnpublishedHasOwner(s: State)
    requires Inv(s)
    ensures s.committed < |s.enq| ==> s.owner[s.committed] < |s.pcs| && !s.pcs[s.owner[s.committed]].Idle?
  {
  }

  /** With every thread at rest nothing is lost: the ring holds exactly the values reserved and not taken. */
  lemma AtRest(s: State)
    requires Inv(s) && forall i :: 0 <= i < |s.pcs| ==> s.pcs[i].Idle?
    ensures s.committed == |s.enq| && s.maxReadPos == s.writePos
    ensures s.count == |s.enq| - |s.deq|
    ensures s.enq == s.deq + seq(s.count, k requires 0 <= k < s.count => s.buf[(|s.deq| + k) % s.n])
  {
    NoneCounting(s.pcs);
    UnpublishedHasOwner(s);
    var rest := seq(s.count, k requires 0 <= k < s.count => s.buf[(|s.deq| + k) % s.n]);
    forall t | 0 <= t < |s.enq| ensures s.enq[t] == (s.deq + rest)[t] {
      if t >= |s.deq| {
        assert rest[t - |s.deq|] == s.buf[t % s.n];
      }
    }
  }

  /** A thread that read a current position gets "full" or "empty" for an answer exactly when it is so. */
  lemma AnswersExact(s: State, tid: nat)
    requires Inv(s) && tid < |s.pcs|
    ensures s.pcs[tid].EnqReadRead? && s.pcs[tid].wt == |s.enq| ==>
      (StepEnq(s, tid).pcs[tid].Idle? <==> |s.enq| - |s.deq| == s.n - 1)
    ensures s.pcs[tid].DeqReadMax? && s.pcs[tid].rt == |s.deq| ==>
      (StepDeq(s, tid).pcs[tid].Idle? <==> s.committed == |s.deq|)
  {
    assert PcOk(s, tid);
    FullIff(s);
  }

  /** Two positions of a ring with the same successor are the same. */
  lemma SuccessorUnique(a: nat, b: nat, n: nat)
    requires a < n && b < n
    ensures (a + 1) % n == (b + 1) % n <==> a == b
  {
    ModStep(a, 1, n);
    ModStep(b, 1, n);
    ModSmall(a, n);
    ModSmall(b, n);
  }

  /**
   How operations end: an enqueue with its count, or refused where the read position comes next to the write position
   it read; a dequeue with its count, or with nothing where the published end is at the read position it read.
   */
  lemma EndsOnly(s: State, tid: nat)
    requires Shape(s) && tid < |s.pcs|
    ensures s.pcs[tid].Producing() && StepEnq(s, tid).pcs[tid].Idle? ==>
      s.pcs[tid].EnqCount? || (s.pcs[tid].EnqReadRead? && (s.pcs[tid].w + 1) % s.n == s.readPos)
    ensures s.pcs[tid].Consuming() && StepDeq(s, tid).pcs[tid].Idle? ==>
      s.pcs[tid].DeqCount? || (s.pcs[tid].DeqReadMax? && s.pcs[tid].r == s.maxReadPos)
  {
  }

  /** An enqueue that is refused finds the ring full if and only if the write position is still the one it read. */
  lemma RefusalRightIff(s: State, tid: nat)
    requires Inv(s) && tid < |s.pcs| && s.pcs[tid].EnqReadRead? && StepEnq(s, tid).pcs[tid].Idle?
    ensures |s.enq| - |s.deq| == s.n - 1 <==> s.writePos == s.pcs[tid].w
  {
    FullIff(s);
    assert PosInRing(s.pcs[tid], s.n);
    SuccessorUnique(s.writePos, s.pcs[tid].w, s.n);
  }

  /** A dequeue that finds nothing is right if and only if the read position is still the one it read. */
  lemma NothingRightIff(s: State, tid: nat)
    requires Inv(s) && tid < |s.pcs| && s.pcs[tid].DeqReadMax? && StepDeq(s, tid).pcs[tid].Idle?
    ensures s.committed == |s.deq| <==> s.readPos == s.pcs[tid].r
  {
    FullIff(s);
  }

  // ---------------------------------------------------------------------------------------------
  // One thread of a kind is never lapped

  predicate SoleProducer(s: State, p: nat) {
    forall i :: 0 <= i < |s.pcs| && s.pcs[i].Producing() ==>
      && i == p
      && (s.pcs[i].EnqReadRead? || s.pcs[i].EnqReserve? ==> s.pcs[i].wt == |s.enq| && s.pcs[i].w == s.writePos)
  }

  predicate SoleConsumer(s: State, c: nat) {
    forall i :: 0 <= i < |s.pcs| && s.pcs[i].Consuming() ==>
      && i == c
      && (s.pcs[i].DeqReadMax? || s.pcs[i].DeqLoad? || s.pcs[i].DeqTake? ==>
            s.pcs[i].rt == |s.deq| && s.pcs[i].r == s.readPos)
  }

  lemma SoleProducerStep(s: State, e: Event, p: nat)
    requires Shape(s) && SoleProducer(s, p) && (e.BeginEnq? ==> e.tid == p)
    ensures SoleProducer(Exec(s, e), p) && EnqNotLapped(s, e)
  {
  }

  lemma SoleConsumerStep(s: State, e: Event, c: nat)
    requires Shape(s) && SoleConsumer(s, c) && (e.BeginDeq? ==> e.tid == c)
    ensures SoleConsumer(Exec(s, e), c) && DeqNotLapped(s, e)
  {
  }

  /** A lone producer is never lapped, whatever any number of consumers do. */
  lemma {:induction false} SoleProducerNotLapped(s: State, es: seq<Event>, p: nat)
    requires Shape(s) && SoleProducer(s, p)
    requires forall k :: 0 <= k < |es| && es[k].BeginEnq? ==> es[k].tid == p
    ensures SoleProducer(Run(s, es), p) && ProducersNotLapped(s, es)
  {
    if es != [] {
      SoleProducerNotLapped(s, es[..|es| - 1], p);
      SoleProducerStep(Run(s, es[..|es| - 1]), es[|es| - 1], p);
    }
  }

  /** A lone consumer is never lapped, whatever any number of producers do. */
  lemma {:induction false} SoleConsumerNotLapped(s: State, es: seq<Event>, c: nat)
    requires Shape(s) && SoleConsumer(s, c)
    requires forall k :: 0 <= k < |es| && es[k].BeginDeq? ==> es[k].tid == c
    ensures SoleConsumer(Run(s, es), c) && ConsumersNotLapped(s, es)
  {
    if es != [] {
      SoleConsumerNotLapped(s, es[..|es| - 1], c);
      SoleConsumerStep(Run(s, es[..|es| - 1]), es[|es| - 1], c);
    }
  }

  /** One producer and one consumer need no hypothesis: every run keeps the invariant and delivers in order. */
  lemma SpscFifo(n: nat, buf: seq<Word>, threads: nat, es: seq<Event>, p: nat, c: nat)
    requires n > 0 && |buf| == n
    requires forall k :: 0 <= k < |es| && es[k].BeginEnq? ==> es[k].tid == p
    requires forall k :: 0 <= k < |es| && es[k].BeginDeq? ==> es[k].tid == c
    ensures Shape(Create(n, buf, 0, 0, threads))
    ensures var s := Run(Create(n, buf, 0, 0, threads), es); Inv(s) && s.deq <= s.enq
  {
    var s := Create(n, buf, 0, 0, threads);
    CreateExact(n, buf, 0, 0, threads);
    SoleProducerNotLapped(s, es, p);
    SoleConsumerNotLapped(s, es, c);
    NotLappedRunIsSafe(s, es);
  }

  /** A lone producer is refused exactly when the ring is full, whatever any number of consumers have done. */
  lemma SoleProducerRefusal(s: State, es: seq<Event>, p: nat)
    requires Shape(s) && SoleProducer(s, p)
    requires forall k :: 0 <= k < |es| && es[k].BeginEnq? ==> es[k].tid == p
    ensures var s' := Run(s, es);
      p < |s'.pcs| && s'.pcs[p].EnqReadRead? ==> (StepEnq(s', p).pcs[p].Idle? <==> FullNow(s'))
  {
    SoleProducerNotLapped(s, es, p);
  }

  /** A lone consumer finds nothing exactly when nothing is published, whatever any number of producers have done. */
  lemma SoleConsumerNothing(s: State, es: seq<Event>, c: nat)
    requires Shape(s) && SoleConsumer(s, c)
    requires forall k :: 0 <= k < |es| && es[k].BeginDeq? ==> es[k].tid == c
    ensures var s' := Run(s, es);
      c < |s'.pcs| && s'.pcs[c].DeqReadMax? ==> (StepDeq(s', c).pcs[c].Idle? <==> s'.readPos == s'.maxReadPos)
  {
    SoleConsumerNotLapped(s, es, c);
  }

  // ---------------------------------------------------------------------------------------------
  // A lapped reserve CAS loses values

  lemma RunSnoc(s: State, es: seq<Event>, e: Event)
    requires Shape(s)
    ensures Run(s, es + [e]) == Exec(Run(s, es), e)
  {
    assert (es + [e])[..|es|] == es;
  }

  function Steps(s: State, tid: nat, k: nat): (s': State)
    requires Shape(s)
    ensures Shape(s')
  {
    if k == 0 then s
    else
      var p := Steps(s, tid, k - 1);
      ExecKeepsShape(p, Step(tid));
      Exec(p, Step(tid))
  }

  /** Event `e` and `k` steps of its thread. */
  function Turns(e: Event, k: nat): (es: seq<Event>) {
    if k == 0 then [e] else Turns(e, k - 1) + [Step(e.tid)]
  }

  lemma TurnsNext(s0: State, es: seq<Event>, tid: nat, s1: State, k: nat)
    requires Shape(s0) && Shape(s1) && Run(s0, es) == Steps(s1, tid, k)
    ensures Run(s0, es + [Step(tid)]) == Steps(s1, tid, k + 1)
  {
    RunSnoc(s0, es, Step(tid));
  }

  lemma {:induction false} TurnsRun(s0: State, es: seq<Event>, e: Event, k: nat, s1: State)
    requires Shape(s0) && s1 == Run(s0, es + [e])
    ensures Run(s0, es + Turns(e, k)) == Steps(s1, e.tid, k)
  {
    if k > 0 {
      TurnsRun(s0, es, e, k - 1, s1);
      TurnsNext(s0, es + Turns(e, k - 1), e.tid, s1, k - 1);
      assert es + Turns(e, k) == es + Turns(e, k - 1) + [Step(e.tid)];
    }
  }

  /** Extends a run by one operation of `tid` taken without interruption. */
  lemma Uninterrupted(s0: State, es: seq<Event>, e: Event, k: nat) returns (es': seq<Event>)
    requires Shape(s0)
    ensures Shape(Exec(Run(s0, es), e)) && Run(s0, es') == Steps(Exec(Run(s0, es), e), e.tid, k)
    ensures es' == es + Turns(e, k)
  {
    RunSnoc(s0, es, e);
    TurnsRun(s0, es, e, k, Run(s0, es + [e]));
    es' := es + Turns(e, k);
  }

  lemma SoloReserve(s: State, tid: nat, v: Word)
    requires Shape(s) && tid < |s.pcs| && s.pcs[tid].Idle? && !FullNow(s)
    ensures Shape(Exec(s, BeginEnq(tid, v)))
    ensures Steps(Exec(s, BeginEnq(tid, v)), tid, 3) ==
      Goto(s, tid, EnqStore(v, s.writePos, |s.enq|)).(
        writePos := (s.writePos + 1) % s.n, enq := s.enq + [v], owner := s.owner + [tid])
  {
    var s1 := Exec(s, BeginEnq(tid, v));
    assert Steps(s1, tid, 1) == Goto(s, tid, EnqReadRead(v, s.writePos, |s.enq|));
    assert Steps(s1, tid, 2) == Goto(s, tid, EnqReserve(v, s.writePos, |s.enq|, |s.deq|));
  }

  /** An enqueue that nobody interrupts appends its value and publishes it. */
  lemma SoloEnq(s: State, tid: nat, v: Word)
    requires Shape(s) && tid < |s.pcs| && s.pcs[tid].Idle? && !FullNow(s) && s.maxReadPos == s.writePos
    ensures Shape(Exec(s, BeginEnq(tid, v)))
    ensures Steps(Exec(s, BeginEnq(tid, v)), tid, 6) ==
      s.(writePos := (s.writePos + 1) % s.n, maxReadPos := (s.writePos + 1) % s.n, count := s.count + 1,
         buf := s.buf[s.writePos := v], enq := s.enq + [v], owner := s.owner + [tid], committed := s.committed + 1)
  {
    SoloReserve(s, tid, v);
    var s1 := Exec(s, BeginEnq(tid, v));
    assert Steps(s1, tid, 4) ==
      Goto(s, tid, EnqCommit(s.writePos, |s.enq|)).(
        writePos := (s.writePos + 1) % s.n, enq := s.enq + [v], owner := s.owner + [tid],
        buf := s.buf[s.writePos := v]);
    assert Steps(s1, tid, 5).pcs == s.pcs[tid := EnqCount];
    assert s.pcs[tid := Idle] == s.pcs;
  }

  /** A dequeue that nobody interrupts takes the value at the read position. */
  lemma SoloDeq(s: State, tid: nat)
    requires Shape(s) && tid < |s.pcs| && s.pcs[tid].Idle? && s.readPos != s.maxReadPos
    ensures Shape(Exec(s, BeginDeq(tid)))
    ensures Steps(Exec(s, BeginDeq(tid)), tid, 5) ==
      s.(readPos := (s.readPos + 1) % s.n, count := s.count - 1, deq := s.deq + [s.buf[s.readPos]], taker := s.taker + [tid])
  {
    var s1 := Exec(s, BeginDeq(tid));
    assert Steps(s1, tid, 1) == Goto(s, tid, DeqReadMax(s.readPos, |s.deq|));
    assert Steps(s1, tid, 2) == Goto(s, tid, DeqLoad(s.readPos, |s.deq|));
    assert Steps(s1, tid, 3) == Goto(s, tid, DeqTake(s.readPos, |s.deq|, s.buf[s.readPos]));
    assert Steps(s1, tid, 4).pcs == s.pcs[tid := DeqCount(s.buf[s.readPos])];
    assert s.pcs[tid := Idle] == s.pcs;
  }

  /** Before its last step, an operation that nobody interrupts is still at work; after it, nothing more happens. */
  lemma SoloEnqBusy(s: State, tid: nat, v: Word, k: nat)
    requires Shape(s) && tid < |s.pcs| && s.pcs[tid].Idle? && !FullNow(s) && s.maxReadPos == s.writePos && k < 6
    ensures Shape(Exec(s, BeginEnq(tid, v))) && |Steps(Exec(s, BeginEnq(tid, v)), tid, k).pcs| == |s.pcs|
    ensures !Steps(Exec(s, BeginEnq(tid, v)), tid, k).pcs[tid].Idle?
  {
    SoloReserve(s, tid, v);
    var s1 := Exec(s, BeginEnq(tid, v));
    assert Steps(s1, tid, 1) == Goto(s, tid, EnqReadRead(v, s.writePos, |s.enq|));
    assert Steps(s1, tid, 2) == Goto(s, tid, EnqReserve(v, s.writePos, |s.enq|, |s.deq|));
    assert Steps(s1, tid, 4).pcs == s.pcs[tid := EnqCommit(s.writePos, |s.enq|)];
    assert Steps(s1, tid, 4).maxReadPos == s.writePos;
    assert Steps(s1, tid, 5).pcs == s.pcs[tid := EnqCount];
    assert k == 0 || k == 1 || k == 2 || k == 3 || k == 4 || k == 5;
  }

  lemma SoloDeqBusy(s: State, tid: nat, k: nat)
    requires Shape(s) && tid < |s.pcs| && s.pcs[tid].Idle? && s.readPos != s.maxReadPos && k < 5
    ensures Shape(Exec(s, BeginDeq(tid))) && |Steps(Exec(s, BeginDeq(tid)), tid, k).pcs| == |s.pcs|
    ensures !Steps(Exec(s, BeginDeq(tid)), tid, k).pcs[tid].Idle?
  {
    var s1 := Exec(s, BeginDeq(tid));
    assert Steps(s1, tid, 1) == Goto(s, tid, DeqReadMax(s.readPos, |s.deq|));
    assert Steps(s1, tid, 2) == Goto(s, tid, DeqLoad(s.readPos, |s.deq|));
    assert Steps(s1, tid, 3) == Goto(s, tid, DeqTake(s.readPos, |s.deq|, s.buf[s.readPos]));
    assert Steps(s1, tid, 4).pcs == s.pcs[tid := DeqCount(s.buf[s.readPos])];
    assert k == 0 || k == 1 || k == 2 || k == 3 || k == 4;
  }

  /** A call on a full ring is refused at its second step and changes nothing. */
  lemma SoloRefused(s: State, tid: nat, v: Word, k: nat)
    requires Shape(s) && tid < |s.pcs| && s.pcs[tid].Idle? && FullNow(s) && k <= 2
    ensures Shape(Exec(s, BeginEnq(tid, v)))
    ensures var s' := Steps(Exec(s, BeginEnq(tid, v)), tid, k);
      if k == 2 then s' == s else |s'.pcs| == |s.pcs| && !s'.pcs[tid].Idle?
  {
    var s1 := Exec(s, BeginEnq(tid, v));
    assert Steps(s1, tid, 1) == Goto(s, tid, EnqReadRead(v, s.writePos, |s.enq|));
    assert s.pcs[tid := Idle] == s.pcs;
  }

  lemma SoloNothing(s: State, tid: nat, k: nat)
    requires Shape(s) && tid < |s.pcs| && s.pcs[tid].Idle? && s.readPos == s.maxReadPos && k <= 2
    ensures Shape(Exec(s, BeginDeq(tid)))
    ensures var s' := Steps(Exec(s, BeginDeq(tid)), tid, k);
      if k == 2 then s' == s else |s'.pcs| == |s.pcs| && !s'.pcs[tid].Idle?
  {
    var s1 := Exec(s, BeginDeq(tid));
    assert Steps(s1, tid, 1) == Goto(s, tid, DeqReadMax(s.readPos, |s.deq|));
    assert s.pcs[tid := Idle] == s.pcs;
  }

  lemma {:induction false} StepsAfterEnd(s: State, tid: nat, k: nat, m: nat)
    requires Shape(s) && tid < |s.pcs| && k <= m && tid < |Steps(s, tid, k).pcs| && Steps(s, tid, k).pcs[tid].Idle?
    ensures Steps(s, tid, m) == Steps(s, tid, k)
    decreases m - k
  {
    if k < m {
      StepsAfterEnd(s, tid, k, m - 1);
    }
  }

  /** A new ring of `n` slots and two threads. */
  function Pair(n: nat, buf: seq<Word>): (s: State)
    requires n > 0 && |buf| == n
    ensures Shape(s)
  {
    Create(n, buf, 0, 0, 2)
  }

  /** Thread 0 reads the write position of a new ring and sleeps, while thread 1 enqueues a value and takes it back. */
  lemma BackAndForth(n: nat, buf: seq<Word>, v: Word, x: Word) returns (es: seq<Event>)
    requires n >= 2 && |buf| == n
    ensures Run(Pair(n, buf), es) ==
      State(n, buf[0 := x], 1, 1, 1, 0, [EnqReadRead(v, 0, 0), Idle], [x], [x], 1, [1], [1])
  {
    var s0 := Pair(n, buf);
    assert s0.pcs == [Idle, Idle];
    es := Uninterrupted(s0, [], BeginEnq(0, v), 1);
    var s1 := State(n, buf, 0, 0, 0, 0, [EnqReadRead(v, 0, 0), Idle], [], [], 0, [], []);
    assert Steps(Exec(s0, BeginEnq(0, v)), 0, 0) == Exec(s0, BeginEnq(0, v));
    assert Run(s0, es) == s1;
    ModSmall(1, n);
    SoloEnq(s1, 1, x);
    es := Uninterrupted(s0, es, BeginEnq(1, x), 6);
    var s2 := State(n, buf[0 := x], 1, 1, 0, 1, s1.pcs, [x], [], 1, [1], []);
    assert Run(s0, es) == s2;
    SoloDeq(s2, 1);
    es := Uninterrupted(s0, es, BeginDeq(1), 5);
  }

  lemma RefusedBehind(s: State, buf: seq<Word>, v: Word, x: Word)
    requires s.n >= 2 && |buf| == s.n
    requires s == State(s.n, buf, 1, 1, 1, 0, [EnqReadRead(v, 0, 0), Idle], [x], [x], 1, [1], [1])
    ensures Inv(s) && !FullNow(s) && Exec(s, Step(0)) == s.(pcs := [Idle, Idle])
  {
    ModSmall(0, s.n);
    ModSmall(1, s.n);
    SuccessorUnique(0, 1, s.n);
    NoneCounting(s.pcs);
    assert s.pcs[0 := Idle] == [Idle, Idle];
  }

  /**
   In a ring of any size, an enqueue can be refused while the queue is empty: the position read at the start is one
   behind the read position by the time that is read. The invariant holds.
   */
  lemma RefusedWhileEmpty(n: nat, buf: seq<Word>, v: Word, x: Word) returns (es: seq<Event>)
    requires n >= 2 && |buf| == n
    ensures var s := Run(Pair(n, buf), es);
      && Inv(s) && |s.pcs| == 2 && s.pcs[0].EnqReadRead? && !FullNow(s) && s.enq == s.deq == [x]
      && Exec(s, Step(0)) == s.(pcs := [Idle, Idle])
  {
    es := BackAndForth(n, buf, v, x);
    RefusedBehind(Run(Pair(n, buf), es), buf[0 := x], v, x);
  }

  const SLEEPER: Pc := EnqReserve(7, 0, 0, 0)

  function LapStart(): (s: State)
    ensures Shape(s)
  {
    Create(2, [0, 0], 0, 0, 2)
  }

  /** Thread 0 reads both positions and sleeps. */
  lemma LapSleep() returns (es: seq<Event>)
    ensures Run(LapStart(), es) == State(2, [0, 0], 0, 0, 0, 0, [SLEEPER, Idle], [], [], 0, [], [])
  {
    assert LapStart().pcs == [Idle, Idle];
    es := Uninterrupted(LapStart(), [], BeginEnq(0, 7), 2);
    assert Steps(Exec(LapStart(), BeginEnq(0, 7)), 0, 1).pcs == [EnqReadRead(7, 0, 0), Idle];
  }

  /**
   While thread 0 sleeps, thread 1 enqueues 8, takes it back and enqueues 9: the ring is full, the write position back
   at 0.
   */
  lemma LapAround(es0: seq<Event>, pc: Pc) returns (es: seq<Event>)
    requires Run(LapStart(), es0) == State(2, [0, 0], 0, 0, 0, 0, [pc, Idle], [], [], 0, [], [])
    ensures Run(LapStart(), es) == State(2, [8, 9], 0, 0, 1, 1, [pc, Idle], [8, 9], [8], 2, [1, 1], [1])
  {
    SoloEnq(Run(LapStart(), es0), 1, 8);
    es := Uninterrupted(LapStart(), es0, BeginEnq(1, 8), 6);
    assert Run(LapStart(), es) == State(2, [8, 0], 1, 1, 0, 1, [pc, Idle], [8], [], 1, [1], []);
    SoloDeq(Run(LapStart(), es), 1);
    es := Uninterrupted(LapStart(), es, BeginDeq(1), 5);
    assert Run(LapStart(), es) == State(2, [8, 0], 1, 1, 1, 0, [pc, Idle], [8], [8], 1, [1], [1]);
    SoloEnq(Run(LapStart(), es), 1, 9);
    es := Uninterrupted(LapStart(), es, BeginEnq(1, 9), 6);
  }

  lemma HeldInv(s: State, pc: Pc)
    requires pc == DeqReadMax(0, 0) && s == State(2, [8, 9], 0, 0, 1, 1, [pc, Idle], [8, 9], [8], 2, [1, 1], [1])
    ensures Inv(s)
  {
    NoneCounting(s.pcs);
    assert Shape(s) && Window(s);
    assert Published(s) && Owned(s) && PcOk(s, 0) && PcOk(s, 1);
    assert s.deq == s.enq[..1];
  }

  lemma NothingBehind(s: State)
    requires Shape(s) && |s.pcs| == 2 && s.pcs[1].Idle? && s.pcs[0].DeqReadMax? && s.pcs[0].r == s.maxReadPos
    ensures Exec(s, Step(0)) == s.(pcs := [Idle, Idle])
  {
    assert s.pcs[0 := Idle] == [Idle, Idle];
  }

  /** And a dequeue can find nothing while a value is held: the published end is back at the position it read. */
  lemma NothingWhileHeld() returns (es: seq<Event>)
    ensures var s := Run(LapStart(), es);
      && Inv(s) && |s.pcs| == 2 && s.pcs[0].DeqReadMax? && s.enq == [8, 9] && s.deq == [8] && s.committed == 2
      && Exec(s, Step(0)) == s.(pcs := [Idle, Idle])
  {
    var s0 := LapStart();
    assert s0.pcs == [Idle, Idle];
    es := Uninterrupted(s0, [], BeginDeq(0), 1);
    assert Steps(Exec(s0, BeginDeq(0)), 0, 0) == Exec(s0, BeginDeq(0));
    es := LapAround(es, DeqReadMax(0, 0));
    HeldInv(Run(s0, es), DeqReadMax(0, 0));
    NothingBehind(Run(s0, es));
  }

  lemma LapWake(s: State)
    requires s == State(2, [8, 9], 0, 0, 1, 1, [SLEEPER, Idle], [8, 9], [8], 2, [1, 1], [1])
    ensures Shape(s) && Shape(Exec(s, Step(0)))
    ensures Steps(Exec(s, Step(0)), 0, 3) == State(2, [7, 9], 1, 1, 1, 2, [Idle, Idle], [8, 9, 7], [8], 3, [1, 1, 0], [1])
  {
    var s1 := Exec(s, Step(0));
    assert Steps(s1, 0, 1).pcs == [EnqCommit(0, 2), Idle];
    assert Steps(s1, 0, 2).pcs == [EnqCount, Idle];
  }

  /**
   Two producers on a ring of two slots. Thread 0 reads the positions and sleeps for a lap; its CAS then
   succeeds on a full ring, and a queue holding two published values answers "empty" to every consumer.
   */
  lemma LappedReserveLosesValues() returns (es: seq<Event>)
    ensures Inv(LapStart())
    ensures var s := Run(LapStart(), es);
      && s.pcs == [Idle, Idle] && s.enq == [8, 9, 7] && s.deq == [8] && s.committed == 3
      && s.readPos == s.maxReadPos
  {
    CreateExact(2, [0, 0], 0, 0, 2);
    es := LapSleep();
    es := LapAround(es, SLEEPER);
    LapWake(Run(LapStart(), es));
    es := Uninterrupted(LapStart(), es, Step(0), 3);
  }
}
