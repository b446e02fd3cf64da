/**
 The two operations of the ring queue as loops over the shared words (lockfree_que/lockfree_queue.c), with other
 threads at work between any two of their accesses. Whatever the others do, an operation performs the steps of the
 machine in module LockfreeQueue, so what is proved of its runs holds of the code.
 */
module QueueObject {
  import opened Common
  import opened LockfreeQueue

  /** What the other threads do before each access of thread `tid`: any events that are not its own. */
  predicate OthersOnly(tid: nat, env: seq<seq<Event>>) {
    forall k {:trigger env[k]} :: 0 <= k < |env| ==> NotBy(tid, env[k])
  }

  predicate NotBy(tid: nat, es: seq<Event>) {
    forall j {:trigger es[j]} :: 0 <= j < |es| ==> es[j].tid != tid
  }

  /** The run in which thread `tid` begins with `first` and makes `k` accesses, each after its share of `env`. */
  function Woven(first: Event, env: seq<seq<Event>>, k: nat): (es: seq<Event>)
    requires k <= |env|
  {
    if k == 0 then [first] else Woven(first, env, k - 1) + env[k - 1] + [Step(first.tid)]
  }

  lemma {:induction false} RunAppend(s: State, a: seq<Event>, b: seq<Event>)
    requires Shape(s)
    ensures Run(s, a + b) == Run(Run(s, a), b)
  {
    if b == [] {
      assert a + b == a;
    } else {
      var k := |b| - 1;
      RunAppend(s, a, b[..k]);
      assert (a + b)[..|a + b| - 1] == a + b[..k];
    }
  }

  /** The others' share before the k-th access, and that access. */
  lemma WovenStep(s: State, first: Event, env: seq<seq<Event>>, k: nat)
    requires Shape(s) && k < |env|
    ensures Run(s, Woven(first, env, k + 1)) == Exec(Run(Run(s, Woven(first, env, k)), env[k]), Step(first.tid))
  {
    RunAppend(s, Woven(first, env, k), env[k]);
    RunSnoc(s, Woven(first, env, k) + env[k], Step(first.tid));
  }

  lemma WovenFirst(s: State, first: Event, env: seq<seq<Event>>)
    requires Shape(s)
    ensures Run(s, Woven(first, env, 0)) == Exec(s, first)
  {
    RunSnoc(s, [], first);
    assert [] + [first] == [first];
  }

  /** One history name per value. */
  predicate Named(s: State) {
    |s.owner| == |s.enq| && |s.taker| == |s.deq|
  }

  /** `s'` is later than `s`: values are only appended, and thread `tid` has reserved and taken nothing in between. */
  predicate Grown(s: State, s': State, tid: nat) {
    && s'.n == s.n && |s'.pcs| == |s.pcs| && s.enq <= s'.enq && s.deq <= s'.deq
    && Named(s) && Named(s') && s.owner <= s'.owner && s.taker <= s'.taker
    && (forall t {:trigger s'.owner[t]} :: |s.owner| <= t < |s'.owner| ==> s'.owner[t] != tid)
    && (forall t {:trigger s'.taker[t]} :: |s.taker| <= t < |s'.taker| ==> s'.taker[t] != tid)
  }

  /** An event of another thread leaves this one where it stands. */
  lemma OtherGrows(s: State, e: Event, tid: nat)
    requires Shape(s) && e.tid != tid && tid < |s.pcs| && Named(s)
    ensures var s' := Exec(s, e); Grown(s, s', tid) && s'.pcs[tid] == s.pcs[tid]
  {
  }

  lemma GrownTrans(a: State, b: State, c: State, tid: nat)
    requires Grown(a, b, tid) && Grown(b, c, tid)
    ensures Grown(a, c, tid)
  {
    forall t | |a.owner| <= t < |c.owner| ensures c.owner[t] != tid {
      if t < |b.owner| {
        assert c.owner[t] == b.owner[t];
      }
    }
    forall t | |a.taker| <= t < |c.taker| ensures c.taker[t] != tid {
      if t < |b.taker| {
        assert c.taker[t] == b.taker[t];
      }
    }
  }

  lemma {:induction false} OthersGrow(s: State, es: seq<Event>, tid: nat)
    requires Shape(s) && NotBy(tid, es) && tid < |s.pcs| && Named(s)
    ensures var s' := Run(s, es); Grown(s, s', tid) && s'.pcs[tid] == s.pcs[tid]
  {
    if es != [] {
      var p := Run(s, es[..|es| - 1]);
      OthersGrow(s, es[..|es| - 1], tid);
      OtherGrows(p, es[|es| - 1], tid);
      GrownTrans(s, p, Exec(p, es[|es| - 1]), tid);
    }
  }

  /** State `i + 1` is state `i` after the others' share and one access of the thread. */
  ghost predicate AccessAt(first: Event, env: seq<seq<Event>>, ss: seq<State>, i: nat)
    requires i + 1 < |ss| && i < |env|
  {
    Shape(ss[i]) && ss[i + 1] == Exec(Run(ss[i], env[i]), Step(first.tid))
  }

  /** A thread that began `first` in `s0` went through `ss`, one state after each access, and is now at `s`. */
  ghost predicate On(s0: State, first: Event, env: seq<seq<Event>>, ss: seq<State>, k: nat, s: State) {
    && k <= |env| && |ss| == k + 1 && Shape(s0) && ss[0] == Exec(s0, first) && ss[k] == s
    && forall i: nat {:trigger AccessAt(first, env, ss, i)} :: i < k ==> AccessAt(first, env, ss, i)
  }

  /** What an access needs of the machine. */
  predicate Live(s: State, tid: nat, env: seq<seq<Event>>) {
    Shape(s) && tid < |s.pcs| && Named(s) && OthersOnly(tid, env)
  }

  lemma Begun(s: State, first: Event, env: seq<seq<Event>>)
    requires Live(s, first.tid, env) && s.pcs[first.tid].Idle?
    ensures var s1 := Exec(s, first); On(s, first, env, [s1], 0, s1) && Live(s1, first.tid, env) && Grown(s, s1, first.tid)
  {
    ExecKeepsShape(s, first);
  }

  /** One more access. */
  lemma OnStep(s0: State, first: Event, env: seq<seq<Event>>, ss: seq<State>, k: nat, s: State, s': State)
    requires On(s0, first, env, ss, k, s) && k < |env| && Shape(s) && s' == Exec(Run(s, env[k]), Step(first.tid))
    ensures On(s0, first, env, ss + [s'], k + 1, s')
  {
    var ss' := ss + [s'];
    forall i: nat | i < k + 1 ensures AccessAt(first, env, ss', i) {
      if i < k {
        assert AccessAt(first, env, ss, i);
      }
    }
  }

  /** So the machine has run the woven events. */
  lemma {:induction false} OnIsRun(s0: State, first: Event, env: seq<seq<Event>>, ss: seq<State>, k: nat, s: State, i: nat)
    requires On(s0, first, env, ss, k, s) && i <= k
    ensures ss[i] == Run(s0, Woven(first, env, i))
  {
    if i == 0 {
      WovenFirst(s0, first, env);
    } else {
      OnIsRun(s0, first, env, ss, k, s, i - 1);
      assert AccessAt(first, env, ss, i - 1);
      WovenStep(s0, first, env, i - 1);
    }
  }

  /** Thread `tid` has reserved ticket `t` for `v`. */
  predicate Holds(s: State, tid: nat, t: nat, v: Word) {
    t < |s.enq| == |s.owner| && s.owner[t] == tid && s.enq[t] == v
  }

  /** At its next access thread `tid` sees the ring full: the read position comes next to the write position it read. */
  predicate SeesFull(s: State, tid: nat) {
    s.n > 0 && tid < |s.pcs| && s.pcs[tid].EnqReadRead? && (s.pcs[tid].w + 1) % s.n == s.readPos
  }

  /** At its next access thread `tid` sees nothing published: the published end is at the read position it read. */
  predicate SeesNothing(s: State, tid: nat) {
    tid < |s.pcs| && s.pcs[tid].DeqReadMax? && s.pcs[tid].r == s.maxReadPos
  }

  /** The last of `k` accesses saw the ring full, or nothing published. */
  ghost predicate LastSaw(env: seq<seq<Event>>, ss: seq<State>, k: nat, tid: nat, full: bool) {
    && 0 < k <= |env| && |ss| == k + 1 && Shape(ss[k - 1])
    && var s := Run(ss[k - 1], env[k - 1]);
    if full then SeesFull(s, tid) else SeesNothing(s, tid)
  }

  /** How a turn of the reserve loop ends; `Out` when the schedule does. */
  datatype Try = Out | Full | Lost | Won(w: nat)

  /** What it leaves: only a turn that won has reserved anything. */
  predicate Tried(r: Try, first: Event, s: State, s': State)
    requires first.BeginEnq?
  {
    && s'.n == s.n && first.tid < |s'.pcs| && |s.enq| <= |s'.enq|
    && var pc := s'.pcs[first.tid];
    match r
    case Out => !pc.Idle? && Grown(s, s', first.tid)
    case Full => pc.Idle? && Grown(s, s', first.tid)
    case Lost => pc == EnqReadWrite(first.val) && Grown(s, s', first.tid)
    case Won(w) =>
      pc.EnqStore? && pc.w == w && pc.val == first.val && |s.enq| <= pc.wt && Holds(s', first.tid, pc.wt, first.val)
  }

  lemma TriedTrans(r: Try, first: Event, a: State, b: State, c: State)
    requires first.BeginEnq? && Grown(a, b, first.tid) && Tried(r, first, b, c)
    ensures Tried(r, first, a, c)
  {
    if !r.Won? {
      GrownTrans(a, b, c, first.tid);
    }
  }

  /** The j-th value taken out is `v`, and thread `tid` took it. */
  predicate Drew(s: State, tid: nat, j: nat, v: Word) {
    j < |s.deq| == |s.taker| && s.deq[j] == v && s.taker[j] == tid
  }

  /** How a turn of the read loop ends. */
  datatype Take = Stopped | Nothing | Again | Value(v: Word)

  ghost predicate Took(t: Take, first: Event, s: State, s': State) {
    && s'.n == s.n && first.tid < |s'.pcs| && |s.deq| <= |s'.deq|
    && var pc := s'.pcs[first.tid];
    match t
    case Stopped => !pc.Idle? && Grown(s, s', first.tid)
    case Nothing => pc.Idle? && Grown(s, s', first.tid)
    case Again => pc.DeqReadRead? && Grown(s, s', first.tid)
    case Value(v) =>
      pc.DeqCount? && exists j {:trigger Drew(s', first.tid, j, v)} :: |s.deq| <= j && Drew(s', first.tid, j, v)
  }

  lemma TookTrans(t: Take, first: Event, a: State, b: State, c: State)
    requires Grown(a, b, first.tid) && Took(t, first, b, c)
    ensures Took(t, first, a, c)
  {
    if !t.Value? {
      GrownTrans(a, b, c, first.tid);
    }
  }

  /** What an enqueue that leads from `s` to `s'` tells its caller; `None` while it is at work. */
  ghost predicate EnqTold(s: State, tid: nat, v: Word, r: Option<bool>, s': State) {
    && tid < |s'.pcs|
    && match r
       case None => !s'.pcs[tid].Idle?
       case Some(true) =>
         s'.pcs[tid].Idle? && exists t {:trigger Holds(s', tid, t, v)} :: |s.enq| <= t && Holds(s', tid, t, v)
       case Some(false) => s'.pcs[tid].Idle? && Grown(s, s', tid)
  }

  /** The same of a dequeue. */
  ghost predicate DeqTold(s: State, tid: nat, r: Option<Option<Word>>, s': State) {
    && tid < |s'.pcs|
    && match r
       case None => !s'.pcs[tid].Idle?
       case Some(Some(v)) =>
         s'.pcs[tid].Idle? && exists j {:trigger Drew(s', tid, j, v)} :: |s.deq| <= j && Drew(s', tid, j, v)
       case Some(None) => s'.pcs[tid].Idle? && Grown(s, s', tid)
  }

  /** The state at the last of `k` accesses, the others having had their share. */
  function AtLast(s: State, first: Event, env: seq<seq<Event>>, k: nat): (s1: State)
    requires Shape(s) && 0 < k <= |env|
  {
    Run(Run(s, Woven(first, env, k - 1)), env[k - 1])
  }

  /**
   What an enqueue by `tid` has come to after `k` accesses, the others' events woven between them. `Some(true)`: the
   value has a ticket of this thread. `Some(false)`: it reserved nothing, and its last access saw the ring full.
   `None`: it is still at work.
   */
  ghost predicate Enqueued(s: State, tid: nat, v: Word, env: seq<seq<Event>>, r: Option<bool>, k: nat, s': State)
    requires Shape(s)
  {
    && k <= |env| && s' == Run(s, Woven(BeginEnq(tid, v), env, k)) && EnqTold(s, tid, v, r, s') && (r.None? ==> k == |env|)
    && (r == Some(false) ==> k > 0 && SeesFull(AtLast(s, BeginEnq(tid, v), env, k), tid))
  }

  /**
   The same of a dequeue. `Some(Some(v))`: v was taken out by this thread. `Some(None)`: it took nothing, and its last
   access saw nothing published. `None`: it is still at work.
   */
  ghost predicate Dequeued(s: State, tid: nat, env: seq<seq<Event>>, r: Option<Option<Word>>, k: nat, s': State)
    requires Shape(s)
  {
    && k <= |env| && s' == Run(s, Woven(BeginDeq(tid), env, k)) && DeqTold(s, tid, r, s') && (r.None? ==> k == |env|)
    && (r == Some(None) ==> k > 0 && SeesNothing(AtLast(s, BeginDeq(tid), env, k), tid))
  }

  /** From the states gone through to what was seen last. */
  lemma SawLast(s0: State, first: Event, env: seq<seq<Event>>, ss: seq<State>, k: nat, s: State, full: bool)
    requires On(s0, first, env, ss, k, s) && LastSaw(env, ss, k, first.tid, full)
    ensures var s1 := AtLast(s0, first, env, k); if full then SeesFull(s1, first.tid) else SeesNothing(s1, first.tid)
  {
    OnIsRun(s0, first, env, ss, k, s, k - 1);
  }

  class Queue {
    const buf: array<Word>
    var writePos: nat
    var maxReadPos: nat
    var readPos: nat
    var count: int

    /** The shared words are what state `s` of the machine says. */
    ghost predicate Is(s: State)
      reads this, buf
    {
      && buf.Length == s.n && buf[..] == s.buf && writePos == s.writePos && maxReadPos == s.maxReadPos
      && readPos == s.readPos && count == s.count
    }

    /** lockfree_que_create sets two of the four fields. */
    constructor (n: nat, maxReadPos: nat, count: int, ghost threads: nat)
      requires n > 0
      ensures fresh(buf) && buf.Length == n
      ensures var s := Create(n, buf[..], maxReadPos, count, threads); Is(s) && (Inv(s) <==> maxReadPos == 0 && count == 0)
    {
      buf := new Word[n];
      readPos, writePos := 0, 0;
      this.maxReadPos, this.count := maxReadPos, count;
      new;
      CreateExact(n, buf[..], maxReadPos, count, threads);
    }

    /** The other threads' turn. */
    method Others(es: seq<Event>, tid: nat, s: State) returns (s': State)
      requires Is(s) && Shape(s) && NotBy(tid, es) && tid < |s.pcs| && Named(s)
      modifies this, buf
      ensures s' == Run(s, es) && Is(s') && Shape(s') && Grown(s, s', tid) && s'.pcs[tid] == s.pcs[tid]
    {
      s' := Run(s, es);
      OthersGrow(s, es, tid);
      writePos, maxReadPos, readPos, count := s'.writePos, s'.maxReadPos, s'.readPos, s'.count;
      for i := 0 to buf.Length
        modifies buf
        invariant buf[..i] == s'.buf[..i]
      {
        buf[i] := s'.buf[i];
      }
    }

    method CasWrite(from: nat, to: nat) returns (ok: bool)
      modifies this`writePos
      ensures ok == (old(writePos) == from) && writePos == if ok then to else old(writePos)
    {
      ok := writePos == from;
      if ok {
        writePos := to;
      }
    }

    method CasMaxRead(from: nat, to: nat) returns (ok: bool)
      modifies this`maxReadPos
      ensures ok == (old(maxReadPos) == from) && maxReadPos == if ok then to else old(maxReadPos)
    {
      ok := maxReadPos == from;
      if ok {
        maxReadPos := to;
      }
    }

    method CasRead(from: nat, to: nat) returns (ok: bool)
      modifies this`readPos
      ensures ok == (old(readPos) == from) && readPos == if ok then to else old(readPos)
    {
      ok := readPos == from;
      if ok {
        readPos := to;
      }
    }

    /** First access of the reserve loop: reads the write position. */
    method SeeWrite(first: Event, env: seq<seq<Event>>, k: nat, s: State, ghost s0: State, ghost ss: seq<State>)
      returns (w: nat, k': nat, s': State, ghost ss': seq<State>)
      requires Is(s) && On(s0, first, env, ss, k, s) && Live(s, first.tid, env) && k < |env|
      requires first.BeginEnq? && s.pcs[first.tid] == EnqReadWrite(first.val)
      modifies this, buf
      ensures k' == k + 1 && Is(s') && On(s0, first, env, ss', k', s') && Live(s', first.tid, env)
      ensures Grown(s, s', first.tid) && w < s'.n
      ensures var pc := s'.pcs[first.tid]; pc.EnqReadRead? && pc.val == first.val && pc.w == w
    {
      var s1 := Others(env[k], first.tid, s);
      w := writePos;
      k', s' := k + 1, Exec(s1, Step(first.tid));
      OnStep(s0, first, env, ss, k, s, s');
      ss' := ss + [s'];
    }

    /** Second access: reads the read position and compares. */
    method SeeRead(w: nat, first: Event, env: seq<seq<Event>>, k: nat, s: State, ghost s0: State, ghost ss: seq<State>)
      returns (to: nat, full: bool, k': nat, s': State, ghost ss': seq<State>)
      requires Is(s) && On(s0, first, env, ss, k, s) && Live(s, first.tid, env) && k < |env|
      requires first.BeginEnq? && w < s.n
      requires var pc := s.pcs[first.tid]; pc.EnqReadRead? && pc.val == first.val && pc.w == w
      modifies this, buf
      ensures k' == k + 1 && Is(s') && On(s0, first, env, ss', k', s') && Live(s', first.tid, env)
      ensures Grown(s, s', first.tid) && to == (w + 1) % s'.n && (full ==> LastSaw(env, ss', k', first.tid, true))
      ensures var pc := s'.pcs[first.tid]; if full then pc.Idle? else pc.EnqReserve? && pc.val == first.val && pc.w == w
    {
      var s1 := Others(env[k], first.tid, s);
      to := (w + 1) % buf.Length;
      full := to == readPos;
      assert full ==> SeesFull(s1, first.tid);
      k', s' := k + 1, Exec(s1, Step(first.tid));
      OnStep(s0, first, env, ss, k, s, s');
      ss' := ss + [s'];
    }

    /** Third access: the compare-and-swap. */
    method TryReserve(w: nat, to: nat, first: Event, env: seq<seq<Event>>, k: nat, s: State,
                      ghost s0: State, ghost ss: seq<State>)
      returns (ok: bool, k': nat, s': State, ghost ss': seq<State>)
      requires Is(s) && On(s0, first, env, ss, k, s) && Live(s, first.tid, env) && k < |env|
      requires first.BeginEnq? && w < s.n && to == (w + 1) % s.n
      requires var pc := s.pcs[first.tid]; pc.EnqReserve? && pc.val == first.val && pc.w == w
      modifies this, buf
      ensures k' == k + 1 && Is(s') && On(s0, first, env, ss', k', s') && Live(s', first.tid, env)
      ensures Tried(if ok then Won(w) else Lost, first, s, s')
    {
      var s1 := Others(env[k], first.tid, s);
      ok := CasWrite(w, to);
      k', s' := k + 1, Exec(s1, Step(first.tid));
      OnStep(s0, first, env, ss, k, s, s');
      ss' := ss + [s'];
    }

    /** One turn of the reserve loop. */
    method Attempt(first: Event, env: seq<seq<Event>>, k: nat, s: State, ghost s0: State, ghost ss: seq<State>)
      returns (r: Try, k': nat, s': State, ghost ss': seq<State>)
      requires Is(s) && On(s0, first, env, ss, k, s) && Live(s, first.tid, env) && k < |env|
      requires first.BeginEnq? && s.pcs[first.tid] == EnqReadWrite(first.val)
      modifies this, buf
      ensures k < k' && Is(s') && On(s0, first, env, ss', k', s') && Live(s', first.tid, env)
      ensures Tried(r, first, s, s') && (r.Out? ==> k' == |env|) && (r.Full? ==> LastSaw(env, ss', k', first.tid, true))
    {
      var w, to, full, ok, s1, s2;
      w, k', s1, ss' := SeeWrite(first, env, k, s, s0, ss);
      if k' == |env| {
        return Out, k', s1, ss';
      }
      to, full, k', s2, ss' := SeeRead(w, first, env, k', s1, s0, ss');
      GrownTrans(s, s1, s2, first.tid);
      if full {
        return Full, k', s2, ss';
      }
      if k' == |env| {
        return Out, k', s2, ss';
      }
      ok, k', s', ss' := TryReserve(w, to, first, env, k', s2, s0, ss');
      r := if ok then Won(w) else Lost;
      TriedTrans(r, first, s, s2, s');
    }

    /** The reserve loop: a slot, or nothing when the ring looks full. */
    method ReserveSlot(first: Event, env: seq<seq<Event>>, s: State, ghost s0: State, ghost ss: seq<State>)
      returns (r: Try, k: nat, s': State, ghost ss': seq<State>)
      requires Is(s) && On(s0, first, env, ss, 0, s) && Live(s, first.tid, env)
      requires first.BeginEnq? && s.pcs[first.tid] == EnqReadWrite(first.val)
      modifies this, buf
      ensures Is(s') && On(s0, first, env, ss', k, s') && Live(s', first.tid, env)
      ensures Tried(r, first, s, s') && !r.Lost? && (r.Out? ==> k == |env|)
      ensures r.Full? ==> LastSaw(env, ss', k, first.tid, true)
    {
      r, k, s', ss' := Out, 0, s, ss;
      while k < |env|
        invariant Is(s') && On(s0, first, env, ss', k, s') && Live(s', first.tid, env) && Grown(s, s', first.tid)
        invariant s'.pcs[first.tid] == EnqReadWrite(first.val)
      {
        var s1 := s';
        r, k, s', ss' := Attempt(first, env, k, s1, s0, ss');
        TriedTrans(r, first, s, s1, s');
        if !r.Lost? {
          return;
        }
      }
      r := Out;
    }

    /** The store into the reserved slot. */
    method StoreValue(w: nat, first: Event, env: seq<seq<Event>>, k: nat, s: State, ghost s0: State, ghost ss: seq<State>)
      returns (k': nat, s': State, ghost ss': seq<State>)
      requires Is(s) && On(s0, first, env, ss, k, s) && Live(s, first.tid, env) && k < |env|
      requires first.BeginEnq? && w < s.n
      requires var pc := s.pcs[first.tid]; pc.EnqStore? && pc.w == w && pc.val == first.val
      modifies this, buf
      ensures k' == k + 1 && Is(s') && On(s0, first, env, ss', k', s') && Live(s', first.tid, env)
      ensures Grown(s, s', first.tid) && s'.pcs[first.tid].EnqCommit? && s'.pcs[first.tid].w == w
    {
      var s1 := Others(env[k], first.tid, s);
      buf[w] := first.val;
      k', s' := k + 1, Exec(s1, Step(first.tid));
      OnStep(s0, first, env, ss, k, s, s');
      ss' := ss + [s'];
    }

    /** One turn of the publishing loop. */
    method TryPublish(w: nat, first: Event, env: seq<seq<Event>>, k: nat, s: State, ghost s0: State, ghost ss: seq<State>)
      returns (ok: bool, k': nat, s': State, ghost ss': seq<State>)
      requires Is(s) && On(s0, first, env, ss, k, s) && Live(s, first.tid, env) && k < |env|
      requires w < s.n && s.pcs[first.tid].EnqCommit? && s.pcs[first.tid].w == w
      modifies this, buf
      ensures k' == k + 1 && Is(s') && On(s0, first, env, ss', k', s') && Live(s', first.tid, env)
      ensures Grown(s, s', first.tid) && s'.pcs[first.tid] == if ok then EnqCount else s.pcs[first.tid]
    {
      var s1 := Others(env[k], first.tid, s);
      var to := (w + 1) % buf.Length;
      ok := CasMaxRead(w, to);
      k', s' := k + 1, Exec(s1, Step(first.tid));
      OnStep(s0, first, env, ss, k, s, s');
      ss' := ss + [s'];
    }

    /** The last access of either operation: the count. */
    method AddCount(d: int, first: Event, env: seq<seq<Event>>, k: nat, s: State, ghost s0: State, ghost ss: seq<State>)
      returns (k': nat, s': State, ghost ss': seq<State>)
      requires Is(s) && On(s0, first, env, ss, k, s) && Live(s, first.tid, env) && k < |env|
      requires var pc := s.pcs[first.tid]; (pc.EnqCount? && d == 1) || (pc.DeqCount? && d == -1)
      modifies this, buf
      ensures k' == k + 1 && Is(s') && On(s0, first, env, ss', k', s') && Live(s', first.tid, env)
      ensures Grown(s, s', first.tid) && s'.pcs[first.tid].Idle?
    {
      var s1 := Others(env[k], first.tid, s);
      count := count + d;
      k', s' := k + 1, Exec(s1, Step(first.tid));
      OnStep(s0, first, env, ss, k, s, s');
      ss' := ss + [s'];
    }

    /** The publishing loop, which waits for earlier producers. */
    method Publish(w: nat, first: Event, env: seq<seq<Event>>, k: nat, s: State, ghost s0: State, ghost ss: seq<State>)
      returns (ok: bool, k': nat, s': State, ghost ss': seq<State>)
      requires Is(s) && On(s0, first, env, ss, k, s) && Live(s, first.tid, env)
      requires w < s.n && s.pcs[first.tid].EnqCommit? && s.pcs[first.tid].w == w
      modifies this, buf
      ensures Is(s') && On(s0, first, env, ss', k', s') && Live(s', first.tid, env) && Grown(s, s', first.tid)
      ensures s'.pcs[first.tid] == (if ok then EnqCount else s.pcs[first.tid]) && (!ok ==> k' == |env|)
    {
      ok, k', s', ss' := false, k, s, ss;
      while k' < |env| && !ok
        invariant Is(s') && On(s0, first, env, ss', k', s') && Live(s', first.tid, env) && Grown(s, s', first.tid)
        invariant s'.pcs[first.tid] == if ok then EnqCount else s.pcs[first.tid]
      {
        var s1 := s';
        ok, k', s', ss' := TryPublish(w, first, env, k', s1, s0, ss');
        GrownTrans(s, s1, s', first.tid);
      }
    }

    /** What an enqueue does once it has a slot. */
    method Fill(w: nat, first: Event, env: seq<seq<Event>>, k: nat, s: State, ghost s0: State, ghost ss: seq<State>)
      returns (done: bool, k': nat, s': State, ghost ss': seq<State>)
      requires Is(s) && On(s0, first, env, ss, k, s) && Live(s, first.tid, env) && first.BeginEnq? && w < s.n
      requires var pc := s.pcs[first.tid]; pc.EnqStore? && pc.w == w && pc.val == first.val
      modifies this, buf
      ensures Is(s') && On(s0, first, env, ss', k', s') && Live(s', first.tid, env) && Grown(s, s', first.tid)
      ensures (done <==> s'.pcs[first.tid].Idle?) && (!done ==> k' == |env|)
    {
      if k == |env| {
        return false, k, s, ss;
      }
      var ok, s1, s2;
      k', s1, ss' := StoreValue(w, first, env, k, s, s0, ss);
      ok, k', s2, ss' := Publish(w, first, env, k', s1, s0, ss');
      GrownTrans(s, s1, s2, first.tid);
      if !ok || k' == |env| {
        return false, k', s2, ss';
      }
      k', s', ss' := AddCount(1, first, env, k', s2, s0, ss');
      GrownTrans(s, s2, s', first.tid);
      done := true;
    }

    /** The two parts of an enqueue, from its first access on. */
    method RunEnque(first: Event, env: seq<seq<Event>>, s1: State, ghost s: State)
      returns (r: Option<bool>, k: nat, s': State, ghost ss: seq<State>)
      requires Is(s1) && On(s, first, env, [s1], 0, s1) && Live(s1, first.tid, env) && Grown(s, s1, first.tid)
      requires first.BeginEnq? && s1.pcs[first.tid] == EnqReadWrite(first.val)
      modifies this, buf
      ensures Is(s') && On(s, first, env, ss, k, s') && EnqTold(s, first.tid, first.val, r, s') && (r.None? ==> k == |env|)
      ensures r == Some(false) ==> LastSaw(env, ss, k, first.tid, true)
    {
      var slot, s2;
      slot, k, s2, ss := ReserveSlot(first, env, s1, s, [s1]);
      TriedTrans(slot, first, s, s1, s2);
      match slot {
        case Out => r, s' := None, s2;
        case Full => r, s' := Some(false), s2;
        case Won(w) =>
          ghost var t := s2.pcs[first.tid].wt;
          assert PosInRing(s2.pcs[first.tid], s2.n);
          var done;
          done, k, s', ss := Fill(w, first, env, k, s2, s, ss);
          assert Holds(s', first.tid, t, first.val);
          r := if done then Some(true) else None;
      }
    }

    /** lockfree_enque among other threads: the accesses of the code are steps of the machine. */
    method Enque(tid: nat, v: Word, env: seq<seq<Event>>, s: State) returns (r: Option<bool>, k: nat, s': State)
      requires Is(s) && Live(s, tid, env) && s.pcs[tid].Idle?
      modifies this, buf
      ensures Is(s') && Enqueued(s, tid, v, env, r, k, s')
    {
      var first := BeginEnq(tid, v);
      Begun(s, first, env);
      ghost var ss;
      r, k, s', ss := RunEnque(first, env, Exec(s, first), s);
      if r == Some(false) {
        SawLast(s, first, env, ss, k, s', true);
      }
      OnIsRun(s, first, env, ss, k, s', k);
    }

    /** First access of the read loop: reads the read position. */
    method SeeHead(first: Event, env: seq<seq<Event>>, k: nat, s: State, ghost s0: State, ghost ss: seq<State>)
      returns (r: nat, k': nat, s': State, ghost ss': seq<State>)
      requires Is(s) && On(s0, first, env, ss, k, s) && Live(s, first.tid, env) && k < |env|
      requires s.pcs[first.tid].DeqReadRead?
      modifies this, buf
      ensures k' == k + 1 && Is(s') && On(s0, first, env, ss', k', s') && Live(s', first.tid, env)
      ensures Grown(s, s', first.tid) && r < s'.n && s'.pcs[first.tid].DeqReadMax? && s'.pcs[first.tid].r == r
    {
      var s1 := Others(env[k], first.tid, s);
      r := readPos;
      k', s' := k + 1, Exec(s1, Step(first.tid));
      OnStep(s0, first, env, ss, k, s, s');
      ss' := ss + [s'];
    }

    /** Second access: reads how far slots are published. */
    method SeeMax(r: nat, first: Event, env: seq<seq<Event>>, k: nat, s: State, ghost s0: State, ghost ss: seq<State>)
      returns (empty: bool, k': nat, s': State, ghost ss': seq<State>)
      requires Is(s) && On(s0, first, env, ss, k, s) && Live(s, first.tid, env) && k < |env|
      requires r < s.n && s.pcs[first.tid].DeqReadMax? && s.pcs[first.tid].r == r
      modifies this, buf
      ensures k' == k + 1 && Is(s') && On(s0, first, env, ss', k', s') && Live(s', first.tid, env)
      ensures Grown(s, s', first.tid) && (empty ==> LastSaw(env, ss', k', first.tid, false))
      ensures var pc := s'.pcs[first.tid]; if empty then pc.Idle? else pc.DeqLoad? && pc.r == r
    {
      var s1 := Others(env[k], first.tid, s);
      empty := r == maxReadPos;
      assert empty ==> SeesNothing(s1, first.tid);
      k', s' := k + 1, Exec(s1, Step(first.tid));
      OnStep(s0, first, env, ss, k, s, s');
      ss' := ss + [s'];
    }

    /** Third access: loads the value. */
    method LoadValue(r: nat, first: Event, env: seq<seq<Event>>, k: nat, s: State, ghost s0: State, ghost ss: seq<State>)
      returns (v: Word, k': nat, s': State, ghost ss': seq<State>)
      requires Is(s) && On(s0, first, env, ss, k, s) && Live(s, first.tid, env) && k < |env|
      requires r < s.n && s.pcs[first.tid].DeqLoad? && s.pcs[first.tid].r == r
      modifies this, buf
      ensures k' == k + 1 && Is(s') && On(s0, first, env, ss', k', s') && Live(s', first.tid, env)
      ensures Grown(s, s', first.tid)
      ensures var pc := s'.pcs[first.tid]; pc.DeqTake? && pc.r == r && pc.val == v
    {
      var s1 := Others(env[k], first.tid, s);
      v := buf[r];
      k', s' := k + 1, Exec(s1, Step(first.tid));
      OnStep(s0, first, env, ss, k, s, s');
      ss' := ss + [s'];
    }

    /** Fourth access: the compare-and-swap. */
    method TryTake(r: nat, v: Word, first: Event, env: seq<seq<Event>>, k: nat, s: State,
                   ghost s0: State, ghost ss: seq<State>)
      returns (ok: bool, k': nat, s': State, ghost ss': seq<State>)
      requires Is(s) && On(s0, first, env, ss, k, s) && Live(s, first.tid, env) && k < |env|
      requires var pc := s.pcs[first.tid]; r < s.n && pc.DeqTake? && pc.r == r && pc.val == v
      modifies this, buf
      ensures k' == k + 1 && Is(s') && On(s0, first, env, ss', k', s') && Live(s', first.tid, env)
      ensures Took(if ok then Value(v) else Again, first, s, s')
    {
      var s1 := Others(env[k], first.tid, s);
      var to := (r + 1) % buf.Length;
      ok := CasRead(r, to);
      k', s' := k + 1, Exec(s1, Step(first.tid));
      assert ok ==> Drew(s', first.tid, |s1.deq|, v);
      OnStep(s0, first, env, ss, k, s, s');
      ss' := ss + [s'];
    }

    /** One turn of the read loop. */
    method Look(first: Event, env: seq<seq<Event>>, k: nat, s: State, ghost s0: State, ghost ss: seq<State>)
      returns (t: Take, k': nat, s': State, ghost ss': seq<State>)
      requires Is(s) && On(s0, first, env, ss, k, s) && Live(s, first.tid, env) && k < |env| && s.pcs[first.tid].DeqReadRead?
      modifies this, buf
      ensures k < k' && Is(s') && On(s0, first, env, ss', k', s') && Live(s', first.tid, env)
      ensures Took(t, first, s, s') && (t.Stopped? ==> k' == |env|)
      ensures t.Nothing? ==> LastSaw(env, ss', k', first.tid, false)
    {
      var r, empty, v, ok, s1, s2, s3;
      r, k', s1, ss' := SeeHead(first, env, k, s, s0, ss);
      if k' == |env| {
        return Stopped, k', s1, ss';
      }
      empty, k', s2, ss' := SeeMax(r, first, env, k', s1, s0, ss');
      GrownTrans(s, s1, s2, first.tid);
      if empty {
        return Nothing, k', s2, ss';
      }
      if k' == |env| {
        return Stopped, k', s2, ss';
      }
      v, k', s3, ss' := LoadValue(r, first, env, k', s2, s0, ss');
      GrownTrans(s, s2, s3, first.tid);
      if k' == |env| {
        return Stopped, k', s3, ss';
      }
      ok, k', s', ss' := TryTake(r, v, first, env, k', s3, s0, ss');
      t := if ok then Value(v) else Again;
      TookTrans(t, first, s, s3, s');
    }

    /** The read loop: the value at the read position, or nothing when no published slot is seen. */
    method TakeValue(first: Event, env: seq<seq<Event>>, s: State, ghost s0: State, ghost ss: seq<State>)
      returns (t: Take, k: nat, s': State, ghost ss': seq<State>)
      requires Is(s) && On(s0, first, env, ss, 0, s) && Live(s, first.tid, env) && s.pcs[first.tid].DeqReadRead?
      modifies this, buf
      ensures Is(s') && On(s0, first, env, ss', k, s') && Live(s', first.tid, env)
      ensures Took(t, first, s, s') && !t.Again? && (t.Stopped? ==> k == |env|)
      ensures t.Nothing? ==> LastSaw(env, ss', k, first.tid, false)
    {
      t, k, s', ss' := Stopped, 0, s, ss;
      while k < |env|
        invariant Is(s') && On(s0, first, env, ss', k, s') && Live(s', first.tid, env) && Grown(s, s', first.tid)
        invariant s'.pcs[first.tid].DeqReadRead?
      {
        var s1 := s';
        t, k, s', ss' := Look(first, env, k, s1, s0, ss');
        TookTrans(t, first, s, s1, s');
        if !t.Again? {
          return;
        }
      }
      t := Stopped;
    }

    /** The two parts of a dequeue, from its first access on. */
    method RunDeque(first: Event, env: seq<seq<Event>>, s1: State, ghost s: State)
      returns (r: Option<Option<Word>>, k: nat, s': State, ghost ss: seq<State>)
      requires Is(s1) && On(s, first, env, [s1], 0, s1) && Live(s1, first.tid, env) && Grown(s, s1, first.tid)
      requires s1.pcs[first.tid].DeqReadRead?
      modifies this, buf
      ensures Is(s') && On(s, first, env, ss, k, s') && DeqTold(s, first.tid, r, s') && (r.None? ==> k == |env|)
      ensures r == Some(None) ==> LastSaw(env, ss, k, first.tid, false)
    {
      var t, s2;
      t, k, s2, ss := TakeValue(first, env, s1, s, [s1]);
      TookTrans(t, first, s, s1, s2);
      match t {
        case Stopped => r, s' := None, s2;
        case Nothing => r, s' := Some(None), s2;
        case Value(v) =>
          if k == |env| {
            r, s' := None, s2;
          } else {
            k, s', ss := AddCount(-1, first, env, k, s2, s, ss);
            r := Some(Some(v));
            ghost var j: nat :| |s.deq| <= j && Drew(s2, first.tid, j, v);
            assert Drew(s', first.tid, j, v);
          }
      }
    }

    /** lockfree_deque among other threads: again the accesses of the code are the machine's steps. */
    method Deque(tid: nat, env: seq<seq<Event>>, s: State) returns (r: Option<Option<Word>>, k: nat, s': State)
      requires Is(s) && Live(s, tid, env) && s.pcs[tid].Idle?
      modifies this, buf
      ensures Is(s') && Dequeued(s, tid, env, r, k, s')
    {
      var first := BeginDeq(tid);
      Begun(s, first, env);
      ghost var ss;
      r, k, s', ss := RunDeque(first, env, Exec(s, first), s);
      if r == Some(None) {
        SawLast(s, first, env, ss, k, s', false);
      }
      OnIsRun(s, first, env, ss, k, s', k);
    }
  }

  // ---------------------------------------------------------------------------------------------
  // A thread that is alone

  /** Nobody else is at work during the first `k` accesses. */
  predicate Alone(env: seq<seq<Event>>, k: nat) {
    k <= |env| && forall i {:trigger env[i]} :: 0 <= i < k ==> env[i] == []
  }

  lemma {:induction false} AloneWoven(first: Event, env: seq<seq<Event>>, k: nat)
    requires Alone(env, k)
    ensures Woven(first, env, k) == Turns(first, k)
  {
    if k > 0 {
      AloneWoven(first, env, k - 1);
      assert env[k - 1] == [];
      assert Turns(first, k - 1) + [] == Turns(first, k - 1);
    }
  }

  /** Its `k` accesses are then `k` steps in a row. */
  lemma AloneSteps(s: State, first: Event, env: seq<seq<Event>>, k: nat)
    requires Shape(s) && Alone(env, k)
    ensures Shape(Exec(s, first)) && Run(s, Woven(first, env, k)) == Steps(Exec(s, first), first.tid, k)
  {
    AloneWoven(first, env, k);
    assert [] + Turns(first, k) == Turns(first, k);
    var es := Uninterrupted(s, [], first, k);
  }

  /** What the queue holds. */
  function Contents(s: State): (c: seq<Word>)
    requires |s.deq| <= |s.enq|
  {
    s.enq[|s.deq|..]
  }

  /** A bounded queue: alone and not full, the six accesses of an enqueue put the value last. */
  lemma AloneEnque(s: State, tid: nat, v: Word, env: seq<seq<Event>>, k: nat)
    requires Inv(s) && tid < |s.pcs| && s.pcs[tid].Idle? && s.committed == |s.enq| && k == 6 && Alone(env, k)
    requires |Contents(s)| + 1 < s.n
    ensures var s' := Run(s, Woven(BeginEnq(tid, v), env, k));
      |s'.deq| <= |s'.enq| && Contents(s') == Contents(s) + [v] && s'.pcs == s.pcs && s'.count == s.count + 1
  {
    FullIff(s);
    AloneSteps(s, BeginEnq(tid, v), env, k);
    SoloEnq(s, tid, v);
  }

  /** Alone and not empty, the five accesses of a dequeue take the value that came first. */
  lemma AloneDeque(s: State, tid: nat, env: seq<seq<Event>>, k: nat)
    requires Inv(s) && tid < |s.pcs| && s.pcs[tid].Idle? && s.committed == |s.enq| && k == 5 && Alone(env, k)
    requires Contents(s) != []
    ensures var s' := Run(s, Woven(BeginDeq(tid), env, k));
      |s'.deq| <= |s'.enq| && Contents(s) == [Contents(s)[0]] + Contents(s') && s'.pcs == s.pcs && s'.count == s.count - 1
  {
    FullIff(s);
    AloneSteps(s, BeginDeq(tid), env, k);
    SoloDeq(s, tid);
  }

  /** After at least six accesses alone, the ring has taken the value or was full. */
  lemma AloneEnqueEnds(s: State, tid: nat, v: Word, env: seq<seq<Event>>, k: nat)
    requires Shape(s) && tid < |s.pcs| && s.pcs[tid].Idle? && s.maxReadPos == s.writePos && Alone(env, k)
    ensures var s' := Run(s, Woven(BeginEnq(tid, v), env, k));
      && |s'.pcs| == |s.pcs|
      && if FullNow(s) then if k >= 2 then s' == s else !s'.pcs[tid].Idle?
         else if k >= 6 then s'.pcs == s.pcs && s'.enq == s.enq + [v] && s'.owner == s.owner + [tid] && s'.deq == s.deq
         else !s'.pcs[tid].Idle?
  {
    AloneSteps(s, BeginEnq(tid, v), env, k);
    var s1 := Exec(s, BeginEnq(tid, v));
    if FullNow(s) {
      if k >= 2 {
        SoloRefused(s, tid, v, 2);
        StepsAfterEnd(s1, tid, 2, k);
      } else {
        SoloRefused(s, tid, v, k);
      }
    } else if k >= 6 {
      SoloEnq(s, tid, v);
      StepsAfterEnd(s1, tid, 6, k);
    } else {
      SoloEnqBusy(s, tid, v, k);
    }
  }

  lemma AloneDequeEnds(s: State, tid: nat, env: seq<seq<Event>>, k: nat)
    requires Shape(s) && tid < |s.pcs| && s.pcs[tid].Idle? && Alone(env, k)
    ensures var s' := Run(s, Woven(BeginDeq(tid), env, k));
      && |s'.pcs| == |s.pcs|
      && if s.readPos == s.maxReadPos then if k >= 2 then s' == s else !s'.pcs[tid].Idle?
         else if k >= 5 then
           s'.pcs == s.pcs && s'.deq == s.deq + [s.buf[s.readPos]] && s'.taker == s.taker + [tid] && s'.enq == s.enq
         else !s'.pcs[tid].Idle?
  {
    AloneSteps(s, BeginDeq(tid), env, k);
    var s1 := Exec(s, BeginDeq(tid));
    if s.readPos == s.maxReadPos {
      if k >= 2 {
        SoloNothing(s, tid, 2);
        StepsAfterEnd(s1, tid, 2, k);
      } else {
        SoloNothing(s, tid, k);
      }
    } else if k >= 5 {
      SoloDeq(s, tid);
      StepsAfterEnd(s1, tid, 5, k);
    } else {
      SoloDeqBusy(s, tid, k);
    }
  }

  /** What a caller alone on the queue is told: whether the value was put in, and the value that came first. */
  lemma AloneEnqueAnswer(s: State, tid: nat, v: Word, env: seq<seq<Event>>, r: Option<bool>, k: nat, s': State)
    requires Inv(s) && Named(s) && tid < |s.pcs| && s.pcs[tid].Idle? && s.committed == |s.enq|
    requires |env| >= 6 && Alone(env, |env|) && Enqueued(s, tid, v, env, r, k, s')
    ensures r == Some(|Contents(s)| + 1 < s.n)
  {
    Resting(s);
    AloneEnqueEnds(s, tid, v, env, k);
    if s'.pcs[tid].Idle? {
      EnqToldRight(s, tid, v, r, s');
    }
  }

  /** With nothing reserved and unpublished, the positions tell what the queue holds. */
  lemma Resting(s: State)
    requires Inv(s) && s.committed == |s.enq|
    ensures Shape(s) && s.maxReadPos == s.writePos && |s.deq| <= |s.enq|
    ensures FullNow(s) <==> |Contents(s)| + 1 == s.n
    ensures |Contents(s)| < s.n
    ensures s.readPos == s.maxReadPos <==> Contents(s) == []
    ensures Contents(s) != [] ==> s.buf[s.readPos] == Contents(s)[0]
  {
    FullIff(s);
  }

  lemma EnqToldRight(s: State, tid: nat, v: Word, r: Option<bool>, s': State)
    requires Named(s) && EnqTold(s, tid, v, r, s') && s'.pcs[tid].Idle?
    ensures s' == s ==> r == Some(false)
    ensures s'.enq == s.enq + [v] && s'.owner == s.owner + [tid] ==> r == Some(true)
  {
    if s'.owner == s.owner + [tid] && s'.enq == s.enq + [v] {
      assert s'.owner[|s.owner|] == tid;
    }
  }

  lemma AloneDequeAnswer(s: State, tid: nat, env: seq<seq<Event>>, r: Option<Option<Word>>, k: nat, s': State)
    requires Inv(s) && Named(s) && tid < |s.pcs| && s.pcs[tid].Idle? && s.committed == |s.enq|
    requires |env| >= 5 && Alone(env, |env|) && Dequeued(s, tid, env, r, k, s')
    ensures r == Some(if Contents(s) == [] then None else Some(Contents(s)[0]))
  {
    Resting(s);
    AloneDequeEnds(s, tid, env, k);
    if s'.pcs[tid].Idle? {
      DeqToldRight(s, tid, r, s');
      if Contents(s) != [] {
        assert s'.deq == s.deq + [Contents(s)[0]];
      }
    }
  }

  lemma DeqToldRight(s: State, tid: nat, r: Option<Option<Word>>, s': State)
    requires Named(s) && DeqTold(s, tid, r, s') && s'.pcs[tid].Idle?
    ensures s' == s ==> r == Some(None)
    ensures forall v: Word {:trigger s.deq + [v]} ::
      s'.deq == s.deq + [v] && s'.taker == s.taker + [tid] ==> r == Some(Some(v))
  {
    forall v: Word | s'.deq == s.deq + [v] && s'.taker == s.taker + [tid] ensures r == Some(Some(v)) {
      assert s'.taker[|s.taker|] == tid;
    }
  }
}
