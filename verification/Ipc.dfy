/**
 Messages through shared memory (ipc_test/ipc_test.h, ipc_test/dep.h). A free list threaded through an index
 array hands out chains of fixed-size buffers; a message is cut into a chain, named by a packed tag, received,
 and its chain returned. Taking and returning a chain are locked, hence one step each; marking and each
 memcpy are steps of their own, so senders and receivers interleave between any two chunks.
 */
module Ipc {
  import opened Common
  import opened Arith


  const MAX_BUFS: nat := 252
  const MAX_BYTES: nat := 2040
  const NIL: nat := 255

  // ---------------------------------------------------------------------------------------------
  // Tags: 8 bits of first buffer, 8 bits of length in words, 16 bits of operation

  datatype Tag = Tag(len: nat, op: nat, extra: nat)

  /** The fields of msgtag_make, truncated to its unsigned char, unsigned short and unsigned char parameters. */
  function MakeTag(len: nat, op: nat, extra: nat): (tag: Tag) {
    Tag(len % 0x100, op % 0x1_0000, extra % 0x100)
  }

  /** The word a tag travels as. */
  function Pack(tag: Tag): (word: nat) {
    tag.extra * 0x100_0000 + tag.len * 0x1_0000 + tag.op
  }

  function Unpack(word: nat): (tag: Tag) {
    Tag((word / 0x1_0000) % 0x100, word % 0x1_0000, (word / 0x100_0000) % 0x100)
  }

  /** Packing loses nothing, so the machine below can pass tags as records; operation 0 never packs to -1. */
  lemma PackRoundTrip(len: nat, op: nat, extra: nat)
    ensures Unpack(Pack(MakeTag(len, op, extra))) == MakeTag(len, op, extra)
    ensures Pack(MakeTag(len, op, extra)) < 0x1_0000_0000
    ensures op == 0 ==> Pack(MakeTag(len, op, extra)) != 0xFFFF_FFFF
  {
    var Tag(l, o, e) := MakeTag(len, op, extra);
    DivModUnique(Pack(Tag(l, o, e)), e, l * 0x1_0000 + o, 0x100_0000);
    DivModUnique(Pack(Tag(l, o, e)), e * 0x100 + l, o, 0x1_0000);
    DivModUnique(e * 0x100 + l, e, l, 0x100);
    DivModUnique(e, 0, e, 0x100);
  }

  /** Length and first buffer come back exactly when each fits a byte. */
  lemma TagRoundTrip(len: nat, extra: nat)
    ensures MakeTag(len, 0, extra).len == len <==> len < 0x100
    ensures MakeTag(len, 0, extra).extra == extra <==> extra < 0x100
  {
  }

  // ---------------------------------------------------------------------------------------------
  // Sizes

  /** How many buffers a message of `size` bytes takes: whole buffers off the front, then the rest. */
  function Bufs(size: nat, bs: nat): (n: nat)
    requires bs > 0
    ensures n == 0 <==> size == 0
  {
    if size == 0 then 0 else if size <= bs then 1 else 1 + Bufs(size - bs, bs)
  }

  /** The code computes it by a rounded-up division. */
  lemma {:induction false} BufsIsCeiling(size: nat, bs: nat)
    requires bs > 0
    ensures Bufs(size, bs) == (size + bs - 1) / bs
  {
    if size == 0 {
      DivModUnique(bs - 1, 0, bs - 1, bs);
    } else if size <= bs {
      DivModUnique(size + bs - 1, 1, size - 1, bs);
    } else {
      BufsIsCeiling(size - bs, bs);
      DivModBasic(size - 1, bs);
      MulNext((size - 1) / bs, bs);
      DivModUnique(size + bs - 1, (size - 1) / bs + 1, (size - 1) % bs, bs);
    }
  }

  /** Length in 8-byte words, as the tag announces it. */
  function Words(size: nat): (n: nat) {
    (size + 7) / 8
  }

  lemma WordsBounds(size: nat)
    requires size <= MAX_BYTES
    ensures Words(size) < 0x100 && size <= Words(size) * 8 < size + 8 && Words(size) * 8 % 8 == 0
  {
  }

  lemma {:induction false} ChunkBounds(size: nat, bs: nat, k: nat)
    requires bs > 0 && k < Bufs(size, bs)
    ensures k * bs < size
    ensures k + 1 < Bufs(size, bs) ==> k * bs + bs < size
    ensures k + 1 == Bufs(size, bs) ==> size <= k * bs + bs
  {
    if k > 0 {
      ChunkBounds(size - bs, bs, k - 1);
      MulNext(k - 1, bs);
    }
  }

  /** The k-th chunk of a message. */
  function Chunk(data: seq<Byte>, bs: nat, k: nat): (c: seq<Byte>)
    ensures |c| <= bs
  {
    if k * bs > |data| then []
    else if k * bs + bs <= |data| then data[k * bs..k * bs + bs]
    else data[k * bs..]
  }

  /** How many bytes the receiver copies out of its i-th buffer when the tag announces `size` bytes. */
  function CopySize(size: nat, bs: nat, i: nat): (n: nat)
    ensures n <= bs
  {
    var rest := size - i * bs;
    if rest > bs || rest < 0 then bs else rest  // below zero it wraps to a huge unsigned size
  }

  // ---------------------------------------------------------------------------------------------
  // The shared area

  predicate Fits(que: seq<Byte>, bs: nat, b: nat) {
    b * bs + bs <= |que|
  }

  /** memcpy(que + bs * b, c, |c|) */
  function Store(que: seq<Byte>, bs: nat, b: nat, c: seq<Byte>): (que': seq<Byte>)
    requires Fits(que, bs, b) && |c| <= bs
    ensures |que'| == |que|
  {
    que[..b * bs] + c + que[b * bs + |c|..]
  }

  /** The first `n` bytes of buffer `b`. */
  function Load(que: seq<Byte>, bs: nat, b: nat, n: nat): (c: seq<Byte>)
    requires Fits(que, bs, b) && n <= bs
    ensures |c| == n
  {
    que[b * bs..b * bs + n]
  }

  lemma LoadPrefix(que: seq<Byte>, bs: nat, b: nat, m: nat, n: nat)
    requires Fits(que, bs, b) && m <= n <= bs
    ensures Load(que, bs, b, m) <= Load(que, bs, b, n)
  {
    assert Load(que, bs, b, n)[..m] == Load(que, bs, b, m);
  }

  predicate Holds(que: seq<Byte>, bs: nat, b: nat, c: seq<Byte>) {
    Fits(que, bs, b) && |c| <= bs && Load(que, bs, b, |c|) == c
  }

  lemma StoreHolds(que: seq<Byte>, bs: nat, b: nat, c: seq<Byte>)
    requires Fits(que, bs, b) && |c| <= bs
    ensures Holds(Store(que, bs, b, c), bs, b, c)
  {
  }

  /** Storing in one buffer leaves every other buffer's bytes alone. */
  lemma StoreElsewhere(que: seq<Byte>, bs: nat, b: nat, c: seq<Byte>, b': nat, c': seq<Byte>)
    requires Fits(que, bs, b) && |c| <= bs && b != b' && Holds(que, bs, b', c')
    ensures Holds(Store(que, bs, b, c), bs, b', c')
  {
    var que' := Store(que, bs, b, c);
    if b' < b {
      MulLe(b' + 1, b, bs);
      MulNext(b', bs);
    } else {
      MulLe(b + 1, b', bs);
      MulNext(b, bs);
    }
    assert que'[b' * bs..b' * bs + |c'|] == que[b' * bs..b' * bs + |c'|];
  }

  // ---------------------------------------------------------------------------------------------
  // The machine

  datatype Task =
    | Refused
    | Marking(data: seq<Byte>, start: nat, chain: seq<nat>)
    | Copying(data: seq<Byte>, start: nat, cur: nat, i: nat, chain: seq<nat>)
    | Posted(tag: Tag, data: seq<Byte>, chain: seq<nat>)
    | Receiving(tag: Tag, count: nat, next: nat, end: nat, i: nat, out: seq<Byte>, data: seq<Byte>, chain: seq<nat>)
    | Done(out: seq<Byte>, returned: nat, data: seq<Byte>)
  {
    predicate Live() {
      Marking? || Copying? || Posted? || Receiving?
    }
  }

  /**
   `next`, `msgCount`, `head`, `len`, `bufSize` are the header, `que` the buffers. `free` and each task's
   `data` and `chain` are history, as is `owner`: FREE or the message a buffer belongs to.
   */
  datatype State = State(
    next: seq<nat>, msgCount: seq<nat>, head: nat, len: nat, bufSize: nat, que: seq<Byte>,
    tasks: seq<Task>, free: seq<nat>, owner: seq<int>)

  const FREE: int := -1

  /**
   The count behind index 255 is no entry of the header, which has 252: it is the byte 8 + 2 * 255 + 1 of the area, and
   the buffers begin at 512.
   */
  const STRAY: nat := 7

  /** ipcinfo[start].msg_count = n */
  function NoteCount(s: State, start: nat, n: nat): (s': State) {
    if start < |s.msgCount| then s.(msgCount := s.msgCount[start := n])
    else if start == NIL && STRAY < |s.que| then s.(que := s.que[STRAY := n % 256])
    else s
  }

  /** ipcinfo[start].msg_count */
  function CountOf(s: State, start: nat): (n: nat) {
    if start < |s.msgCount| then s.msgCount[start] else if start == NIL && STRAY < |s.que| then s.que[STRAY] else 0
  }

  /** The count noted for a message is the one read for it; only index 255 cuts it to a byte, one of the buffers'. */
  lemma CountNoted(s: State, start: nat, n: nat)
    requires start < |s.msgCount| || (start == NIL && STRAY < |s.que|)
    ensures CountOf(NoteCount(s, start, n), start) == if start < |s.msgCount| then n else n % 256
  {
  }

  datatype Event = Send(data: seq<Byte>) | Recv(id: nat) | Step(id: nat)

  /** The first `count` indices threaded into one list; the other links stay as they were. */
  function Threaded(count: nat, links: seq<nat>): (next: seq<nat>)
    requires 1 <= count <= |links|
    ensures |next| == |links|
    ensures forall i :: 0 <= i < |links| ==>
      next[i] == if i + 1 < count then i + 1 else if i + 1 == count then NIL else links[i]
  {
    seq(|links|, i requires 0 <= i < |links| =>
      if i + 1 < count then i + 1 else if i + 1 == count then NIL else links[i])
  }

  /** init_ep_ipc_que_header for `count` buffers; the memory outside the links holds anything. */
  function Init(count: nat, bufSize: nat, links: seq<nat>, msgCount: seq<nat>, que: seq<Byte>): (s: State)
    requires 1 <= count <= MAX_BUFS && |links| == |msgCount| == MAX_BUFS
  {
    State(Threaded(count, links), msgCount, 0, count, bufSize, que, [], seq(count, i => i), seq(count, _ => FREE))
  }

  function SetOwner(owner: seq<int>, chain: seq<nat>, id: int): (o: seq<int>)
    ensures |o| == |owner|
    ensures forall b :: 0 <= b < |owner| ==> o[b] == if b in chain then id else owner[b]
  {
    seq(|owner|, b requires 0 <= b < |owner| => if b in chain then id else owner[b])
  }

  /** Following `k` links from index `i`. */
  function Walk(next: seq<nat>, i: nat, k: nat): (j: nat) {
    if k == 0 then i
    else
      var p := Walk(next, i, k - 1);
      if p < |next| then next[p] else p
  }

  /** ipc_shm_send up to the end of the locked region. */
  function BeginSend(s: State, data: seq<Byte>): (s': State)
    requires s.bufSize > 0
  {
    var n := Bufs(|data|, s.bufSize);
    if |data| > MAX_BYTES || n > s.len then s.(tasks := s.tasks + [Refused])
    else
      var k := if n <= |s.free| then n else |s.free|;
      s.(head := Walk(s.next, s.head, n), len := s.len - n,
         tasks := s.tasks + [Marking(data, s.head, s.free[..k])],
         free := s.free[k..], owner := SetOwner(s.owner, s.free[..k], |s.tasks|))
  }

  function StepTask(s: State, id: nat): (s': State)
    requires s.bufSize > 0 && id < |s.tasks|
  {
    match s.tasks[id]
    case Marking(data, start, chain) =>
      var t := if Bufs(|data|, s.bufSize) == 0 then Posted(MakeTag(Words(|data|), 0, start), data, chain)
               else Copying(data, start, start, 0, chain);
      NoteCount(s, start, Bufs(|data|, s.bufSize)).(tasks := s.tasks[id := t])
    case Copying(data, start, cur, i, chain) =>
      if Fits(s.que, s.bufSize, cur) && cur < |s.next| then
        var que' := Store(s.que, s.bufSize, cur, Chunk(data, s.bufSize, i));
        if i + 1 == Bufs(|data|, s.bufSize) then
          s.(que := que', tasks := s.tasks[id := Posted(MakeTag(Words(|data|), 0, start), data, chain)])
        else s.(que := que', tasks := s.tasks[id := Copying(data, start, s.next[cur], i + 1, chain)])
      else s
    case Receiving(tag, count, next, end, i, out, data, chain) =>
      if i < count then
        if Fits(s.que, s.bufSize, next) && next < |s.next| then
          var n := CopySize(tag.len * 8, s.bufSize, i);
          s.(tasks := s.tasks[id :=
               Receiving(tag, count, s.next[next], next, i + 1,
                         out + Load(s.que, s.bufSize, next, n), data, chain)])
        else s
      else
        var t := Done(out, tag.len * 8, data);
        if count == 0 || end >= |s.next| then s.(tasks := s.tasks[id := t])
        else
          s.(next := s.next[end := s.head], head := tag.extra, len := s.len + count,
             tasks := s.tasks[id := t], free := chain + s.free, owner := SetOwner(s.owner, chain, FREE))
    case _ => s
  }

  function Exec(s: State, e: Event): (s': State)
    requires s.bufSize > 0
    ensures s'.bufSize == s.bufSize
  {
    match e
    case Send(data) => BeginSend(s, data)
    case Recv(id) =>
      if id < |s.tasks| && s.tasks[id].Posted? then
        var start := s.tasks[id].tag.extra;
        var count := CountOf(s, start);
        s.(tasks := s.tasks[id :=
             Receiving(s.tasks[id].tag, count, start, start, 0, [], s.tasks[id].data, s.tasks[id].chain)])
      else s
    case Step(id) => if id < |s.tasks| then StepTask(s, id) else s
  }

  function Run(s: State, es: seq<Event>): (s': State)
    requires s.bufSize > 0
    ensures s'.bufSize == s.bufSize
  {
    if es == [] then s else Exec(Run(s, es[..|es| - 1]), es[|es| - 1])
  }

  // ---------------------------------------------------------------------------------------------
  // The invariant

  /** What follows the k-th index of `c`, which ends with `last`. */
  function After(c: seq<nat>, k: nat, last: nat): (i: nat) {
    if k + 1 < |c| then c[k + 1] else last
  }

  /** `c` is linked in order and its last link is `last`. */
  predicate Linked(next: seq<nat>, c: seq<nat>, last: nat) {
    && (forall k :: 0 <= k < |c| ==> c[k] < |next|)
    && (forall k :: 0 <= k < |c| ==> next[c[k]] == After(c, k, last))
  }

  /** The same of a chain in use, whose last link is anything. */
  predicate InnerLinked(next: seq<nat>, c: seq<nat>) {
    && (forall k :: 0 <= k < |c| ==> c[k] < |next|)
    && (forall k :: 0 <= k < |c| - 1 ==> next[c[k]] == After(c, k, NIL))
  }

  /** `free` lists, without repetition, exactly the indices no message owns. */
  predicate Lists(free: seq<nat>, owner: seq<int>) {
    && Distinct(free)
    && (forall k :: 0 <= k < |free| ==> free[k] < |owner| && owner[free[k]] == FREE)
    && (forall b :: 0 <= b < |owner| && owner[b] == FREE ==> b in free)
  }

  predicate FreeOk(s: State) {
    && |s.free| == s.len && Lists(s.free, s.owner) && Linked(s.next, s.free, NIL)
    && s.head == (if s.free == [] then NIL else s.free[0])
  }

  /** The first `m` chunks of the message are in the first `m` buffers of its chain. */
  predicate Stored(s: State, data: seq<Byte>, chain: seq<nat>, m: nat)
    requires s.bufSize > 0
  {
    && m <= |chain|
    && forall k :: 0 <= k < m ==> Holds(s.que, s.bufSize, chain[k], Chunk(data, s.bufSize, k))
  }

  predicate ChainOk(s: State, id: nat)
    requires s.bufSize > 0 && id < |s.tasks| && s.tasks[id].Live()
  {
    var t := s.tasks[id];
    && 1 <= |t.data| <= MAX_BYTES && |t.chain| == Bufs(|t.data|, s.bufSize) >= 1
    && Distinct(t.chain) && InnerLinked(s.next, t.chain)
    && (forall k :: 0 <= k < |t.chain| ==> t.chain[k] < |s.owner| && s.owner[t.chain[k]] == id)
  }

  predicate PhaseOk(s: State, id: nat)
    requires s.bufSize > 0 && id < |s.tasks| && s.tasks[id].Live() && ChainOk(s, id) && |s.msgCount| == MAX_BUFS
  {
    match s.tasks[id]
    case Marking(data, start, chain) => start == chain[0]
    case Copying(data, start, cur, i, chain) =>
      && start == chain[0] && i < |chain| && cur == chain[i] && Stored(s, data, chain, i)
      && start < MAX_BUFS && s.msgCount[start] == |chain|
    case Posted(tag, data, chain) =>
      && tag == MakeTag(Words(|data|), 0, chain[0]) && Stored(s, data, chain, |chain|)
      && chain[0] < MAX_BUFS && s.msgCount[chain[0]] == |chain|
    case Receiving(tag, count, next, end, i, out, data, chain) =>
      && tag == MakeTag(Words(|data|), 0, chain[0]) && Stored(s, data, chain, |chain|)
      && count == |chain| && i <= count && (i < count ==> next == chain[i]) && (i > 0 ==> end == chain[i - 1])
      && Received(s.bufSize, data, out, i, count, tag.len * 8)
  }

  /** What the receiver has after `i` of `count` copies: whole buffers, and never a wrong byte of the message. */
  predicate Received(bs: nat, data: seq<Byte>, out: seq<Byte>, i: nat, count: nat, size: nat) {
    && (i < count ==> |out| == i * bs)
    && (i == count ==> |data| <= |out| == Min(size, count * bs))
    && forall x :: 0 <= x < |out| && x < |data| ==> out[x] == data[x]
  }

  /** A message that was received: its bytes, its size rounded up to 8, and how many bytes were copied out. */
  predicate Whole(t: Task, bs: nat)
    requires t.Done? && bs > 0
  {
    && t.data <= t.out && t.returned % 8 == 0 && |t.data| <= t.returned < |t.data| + 8
    && |t.out| == Min(t.returned, Bufs(|t.data|, bs) * bs)
  }

  predicate TaskOk(s: State, id: nat)
    requires s.bufSize > 0 && id < |s.tasks| && |s.msgCount| == MAX_BUFS
  {
    match s.tasks[id]
    case Refused => true
    case Done(_, _, _) => Whole(s.tasks[id], s.bufSize)
    case _ => ChainOk(s, id) && PhaseOk(s, id)
  }

  predicate Inv(s: State) {
    && s.bufSize > 0 && |s.next| == |s.msgCount| == MAX_BUFS
    && 1 <= |s.owner| <= MAX_BUFS
    && (forall b {:trigger Fits(s.que, s.bufSize, b)} :: 0 <= b < |s.owner| ==> Fits(s.que, s.bufSize, b))
    && FreeOk(s)
    && (forall id {:trigger TaskOk(s, id)} :: 0 <= id < |s.tasks| ==> TaskOk(s, id))
    && (forall b {:trigger OwnerOk(s, b)} :: 0 <= b < |s.owner| ==> OwnerOk(s, b))
  }

  /** A buffer is free or belongs to the chain of a live message. */
  predicate OwnerOk(s: State, b: nat)
    requires b < |s.owner|
  {
    s.owner[b] != FREE ==>
      0 <= s.owner[b] < |s.tasks| && s.tasks[s.owner[b]].Live() && b in s.tasks[s.owner[b]].chain
  }

  // ---------------------------------------------------------------------------------------------
  // Every step keeps the invariant

  lemma InitInv(count: nat, bufSize: nat, links: seq<nat>, msgCount: seq<nat>, que: seq<Byte>)
    requires 1 <= count <= MAX_BUFS && |links| == |msgCount| == MAX_BUFS && bufSize > 0 && |que| >= count * bufSize
    ensures Inv(Init(count, bufSize, links, msgCount, que))
  {
    var s := Init(count, bufSize, links, msgCount, que);
    forall b | 0 <= b < |s.owner| ensures b in s.free && Fits(que, bufSize, b) {
      assert s.free[b] == b;
      MulLe(b + 1, count, bufSize);
      MulNext(b, bufSize);
    }
  }

  lemma {:induction false} WalkLinked(next: seq<nat>, c: seq<nat>, last: nat, k: nat)
    requires Linked(next, c, last) && 0 < k <= |c|
    ensures Walk(next, c[0], k) == if k < |c| then c[k] else last
  {
    if k > 1 {
      WalkLinked(next, c, last, k - 1);
      assert next[c[k - 1]] == After(c, k - 1, last);
    } else {
      assert Walk(next, c[0], 0) == c[0];
      assert next[c[0]] == After(c, 0, last);
    }
  }

  /** `s'` respects the buffers of task `id` of `s`. */
  ghost predicate Respects(s: State, s': State, id: nat)
    requires s.bufSize > 0 && id < |s.tasks|
  {
    && s'.bufSize == s.bufSize && id < |s'.tasks| && s'.tasks[id] == s.tasks[id]
    && |s'.msgCount| == |s.msgCount| == MAX_BUFS && |s'.next| == |s.next| && |s'.owner| == |s.owner|
    && (s.tasks[id].Live() ==>
          var c := s.tasks[id].chain;
          && (forall k :: 0 <= k < |c| ==> c[k] < |s.owner| && s'.owner[c[k]] == id)
          && (forall k :: 0 <= k < |c| - 1 ==> c[k] < |s.next| && s'.next[c[k]] == s.next[c[k]])
          && (c != [] && c[0] < MAX_BUFS ==> s'.msgCount[c[0]] == s.msgCount[c[0]])
          && (forall k, d :: 0 <= k < |c| && Holds(s.que, s.bufSize, c[k], d) ==> Holds(s'.que, s.bufSize, c[k], d)))
  }

  lemma FrameStored(s: State, s': State, id: nat, m: nat)
    requires s.bufSize > 0 && id < |s.tasks| && s.tasks[id].Live() && Respects(s, s', id)
    requires Stored(s, s.tasks[id].data, s.tasks[id].chain, m)
    ensures Stored(s', s.tasks[id].data, s.tasks[id].chain, m)
  {
  }

  lemma FrameChain(s: State, s': State, id: nat)
    requires s.bufSize > 0 && id < |s.tasks| && s.tasks[id].Live() && Respects(s, s', id) && ChainOk(s, id)
    ensures ChainOk(s', id)
  {
  }

  /** A task is untouched by a step that respects its buffers. */
  lemma Frame(s: State, s': State, id: nat)
    requires s.bufSize > 0 && id < |s.tasks| && |s.msgCount| == MAX_BUFS && TaskOk(s, id) && Respects(s, s', id)
    ensures TaskOk(s', id)
  {
    if s.tasks[id].Live() {
      FrameChain(s, s', id);
      match s.tasks[id]
      case Copying(data, start, cur, i, chain) => FrameStored(s, s', id, i);
      case Posted(tag, data, chain) => FrameStored(s, s', id, |chain|);
      case Receiving(tag, count, next, end, i, out, data, chain) => FrameStored(s, s', id, |chain|);
      case Marking(data, start, chain) =>
    }
  }

  lemma TakeFront(free: seq<nat>, owner: seq<int>, n: nat, id: nat)
    requires Lists(free, owner) && n <= |free|
    ensures Lists(free[n..], SetOwner(owner, free[..n], id))
  {
    var owner' := SetOwner(owner, free[..n], id);
    forall k | 0 <= k < |free[n..]| ensures free[n..][k] < |owner'| && owner'[free[n..][k]] == FREE {
      var b := free[n..][k];
      assert b == free[n + k];
      assert forall j :: 0 <= j < n ==> free[..n][j] == free[j] != b;
    }
    forall b | 0 <= b < |owner'| && owner'[b] == FREE ensures b in free[n..] {
      assert b in free && b !in free[..n];
      assert free == free[..n] + free[n..];
    }
  }

  lemma GiveBack(free: seq<nat>, owner: seq<int>, chain: seq<nat>, id: nat)
    requires Lists(free, owner) && Distinct(chain)
    requires forall k :: 0 <= k < |chain| ==> chain[k] < |owner| && owner[chain[k]] == id
    ensures Lists(chain + free, SetOwner(owner, chain, FREE))
  {
    var owner' := SetOwner(owner, chain, FREE);
    forall k | 0 <= k < |chain + free| ensures (chain + free)[k] < |owner'| && owner'[(chain + free)[k]] == FREE {
      if k < |chain| {
        assert chain[k] in chain;
      }
    }
    forall j, k | 0 <= j < k < |chain + free| ensures (chain + free)[j] != (chain + free)[k] {
      if j < |chain| && k >= |chain| {
        assert owner[chain[j]] == id && owner[free[k - |chain|]] == FREE;
      }
    }
  }

  lemma LinkedDrop(next: seq<nat>, free: seq<nat>, n: nat)
    requires Linked(next, free, NIL) && 1 <= n <= |free|
    ensures Linked(next, free[n..], NIL)
    ensures Walk(next, free[0], n) == if free[n..] == [] then NIL else free[n..][0]
  {
    WalkLinked(next, free, NIL, n);
    var rest := free[n..];
    forall k | 0 <= k < |rest|
      ensures rest[k] < |next| && next[rest[k]] == After(rest, k, NIL)
    {
      assert rest[k] == free[n + k];
      assert After(rest, k, NIL) == After(free, n + k, NIL);
    }
  }

  lemma LinkedTake(next: seq<nat>, free: seq<nat>, n: nat)
    requires Linked(next, free, NIL) && 1 <= n <= |free|
    ensures InnerLinked(next, free[..n])
  {
    var c := free[..n];
    forall k | 0 <= k < n - 1 ensures next[c[k]] == After(c, k, NIL) {
      assert c[k] == free[k] && After(c, k, NIL) == After(free, k, NIL);
    }
  }

  /** A successful reservation of `n` buffers, by its effect. */
  lemma SendDoes(s: State, data: seq<Byte>)
    requires s.bufSize > 0 && |data| <= MAX_BYTES && Bufs(|data|, s.bufSize) <= s.len == |s.free|
    ensures var n := Bufs(|data|, s.bufSize);
      BeginSend(s, data) ==
        s.(head := Walk(s.next, s.head, n), len := s.len - n,
           tasks := s.tasks + [Marking(data, s.head, s.free[..n])],
           free := s.free[n..], owner := SetOwner(s.owner, s.free[..n], |s.tasks|))
  {
  }

  lemma SendFree(s: State, data: seq<Byte>)
    requires FreeOk(s) && s.bufSize > 0 && 1 <= |data| <= MAX_BYTES && Bufs(|data|, s.bufSize) <= s.len
    ensures FreeOk(BeginSend(s, data))
  {
    SendDoes(s, data);
    TakeFront(s.free, s.owner, Bufs(|data|, s.bufSize), |s.tasks|);
    LinkedDrop(s.next, s.free, Bufs(|data|, s.bufSize));
  }

  lemma SendTask(s: State, data: seq<Byte>)
    requires FreeOk(s) && s.bufSize > 0 && |s.msgCount| == |s.next| == MAX_BUFS
    requires 1 <= |data| <= MAX_BYTES && Bufs(|data|, s.bufSize) <= s.len
    ensures TaskOk(BeginSend(s, data), |s.tasks|)
  {
    SendDoes(s, data);
    LinkedTake(s.next, s.free, Bufs(|data|, s.bufSize));
    var c := s.free[..Bufs(|data|, s.bufSize)];
    forall k | 0 <= k < |c| ensures c[k] == s.free[k] && c[k] in c {
    }
  }

  lemma SendOther(s: State, data: seq<Byte>, j: nat)
    requires FreeOk(s) && s.bufSize > 0 && |s.msgCount| == |s.next| == MAX_BUFS && j < |s.tasks| && TaskOk(s, j)
    ensures TaskOk(BeginSend(s, data), j)
  {
    Frame(s, BeginSend(s, data), j);
  }

  lemma SendOwners(s: State, data: seq<Byte>)
    requires Inv(s) && 1 <= |data| <= MAX_BYTES && Bufs(|data|, s.bufSize) <= s.len
    ensures var s' := BeginSend(s, data); forall b {:trigger OwnerOk(s', b)} :: 0 <= b < |s'.owner| ==> OwnerOk(s', b)
  {
    SendDoes(s, data);
    var s' := BeginSend(s, data);
    forall b | 0 <= b < |s'.owner| ensures OwnerOk(s', b) {
      assert OwnerOk(s, b);
    }
  }

  lemma SendRefused(s: State, data: seq<Byte>)
    requires Inv(s) && (|data| > MAX_BYTES || Bufs(|data|, s.bufSize) > s.len)
    ensures FreeOk(BeginSend(s, data)) && TaskOk(BeginSend(s, data), |s.tasks|)
    ensures var s' := BeginSend(s, data); forall b {:trigger OwnerOk(s', b)} :: 0 <= b < |s'.owner| ==> OwnerOk(s', b)
  {
    var s' := BeginSend(s, data);
    assert s' == s.(tasks := s.tasks + [Refused]);
    forall b | 0 <= b < |s'.owner| ensures OwnerOk(s', b) {
      assert OwnerOk(s, b);
    }
  }

  lemma SendParts(s: State, data: seq<Byte>)
    requires Inv(s) && |data| >= 1
    ensures FreeOk(BeginSend(s, data)) && TaskOk(BeginSend(s, data), |s.tasks|)
    ensures var s' := BeginSend(s, data); forall b {:trigger OwnerOk(s', b)} :: 0 <= b < |s'.owner| ==> OwnerOk(s', b)
  {
    if |data| <= MAX_BYTES && Bufs(|data|, s.bufSize) <= s.len {
      SendFree(s, data);
      SendTask(s, data);
      SendOwners(s, data);
    } else {
      SendRefused(s, data);
    }
  }

  lemma SendKeeps(s: State, data: seq<Byte>)
    requires Inv(s) && |data| >= 1
    ensures Inv(BeginSend(s, data))
  {
    var s' := BeginSend(s, data);
    forall j | 0 <= j < |s.tasks| ensures TaskOk(s', j) {
      assert TaskOk(s, j);
      SendOther(s, data, j);
    }
    SendParts(s, data);
  }

  lemma MarkKeeps(s: State, id: nat)
    requires Inv(s) && id < |s.tasks| && s.tasks[id].Marking?
    ensures Inv(StepTask(s, id))
  {
    var s' := StepTask(s, id);
    assert TaskOk(s, id);
    forall j | 0 <= j < |s.tasks| ensures TaskOk(s', j) {
      assert TaskOk(s, j);
      if j != id {
        if s.tasks[j].Live() {
          assert s.owner[s.tasks[j].chain[0]] == j && s.owner[s.tasks[id].chain[0]] == id;
        }
        Frame(s, s', j);
      }
    }
    forall b | 0 <= b < |s'.owner| ensures OwnerOk(s', b) {
      assert OwnerOk(s, b);
    }
  }

  lemma CopyDoes(s: State, id: nat)
    requires Inv(s) && id < |s.tasks| && s.tasks[id].Copying?
    ensures var cur := s.tasks[id].cur;
      && Fits(s.que, s.bufSize, cur) && cur < |s.next| && cur < |s.owner| && s.owner[cur] == id
    ensures var s' := StepTask(s, id);
      && s' == s.(que := s'.que, tasks := s.tasks[id := s'.tasks[id]]) && |s'.que| == |s.que|
      && s'.tasks[id].Live() && s'.tasks[id].chain == s.tasks[id].chain
  {
    assert TaskOk(s, id);
  }

  lemma CopyOther(s: State, id: nat, j: nat)
    requires s.bufSize > 0 && |s.msgCount| == MAX_BUFS && id < |s.tasks| && s.tasks[id].Copying?
    requires s.tasks[id].cur < |s.owner| && s.owner[s.tasks[id].cur] == id
    requires Fits(s.que, s.bufSize, s.tasks[id].cur) && s.tasks[id].cur < |s.next| && j < |s.tasks| && j != id && TaskOk(s, j)
    ensures TaskOk(StepTask(s, id), j)
  {
    var s' := StepTask(s, id);
    if s.tasks[j].Live() {
      var cj := s.tasks[j].chain;
      forall k, d | 0 <= k < |cj| && Holds(s.que, s.bufSize, cj[k], d) ensures Holds(s'.que, s.bufSize, cj[k], d) {
        assert s.owner[cj[k]] == j;
        StoreElsewhere(s.que, s.bufSize, s.tasks[id].cur, Chunk(s.tasks[id].data, s.bufSize, s.tasks[id].i), cj[k], d);
      }
    }
    Frame(s, s', j);
  }

  lemma CopyStores(que: seq<Byte>, bs: nat, data: seq<Byte>, chain: seq<nat>, i: nat)
    requires bs > 0 && i < |chain| && Distinct(chain) && Fits(que, bs, chain[i])
    requires forall k :: 0 <= k < i ==> Holds(que, bs, chain[k], Chunk(data, bs, k))
    ensures var que' := Store(que, bs, chain[i], Chunk(data, bs, i));
      forall k :: 0 <= k < i + 1 ==> Holds(que', bs, chain[k], Chunk(data, bs, k))
  {
    var c := Chunk(data, bs, i);
    StoreHolds(que, bs, chain[i], c);
    forall k | 0 <= k < i ensures Holds(Store(que, bs, chain[i], c), bs, chain[k], Chunk(data, bs, k)) {
      StoreElsewhere(que, bs, chain[i], c, chain[k], Chunk(data, bs, k));
    }
  }

  lemma CopySelf(s: State, id: nat)
    requires s.bufSize > 0 && |s.msgCount| == |s.next| == MAX_BUFS
    requires id < |s.tasks| && s.tasks[id].Copying? && TaskOk(s, id) && Fits(s.que, s.bufSize, s.tasks[id].cur)
    ensures TaskOk(StepTask(s, id), id)
  {
    var s' := StepTask(s, id);
    var Copying(data, start, cur, i, chain) := s.tasks[id];
    CopyStores(s.que, s.bufSize, data, chain, i);
    assert Stored(s', data, chain, i + 1);
  }

  lemma CopyKeeps(s: State, id: nat)
    requires Inv(s) && id < |s.tasks| && s.tasks[id].Copying?
    ensures Inv(StepTask(s, id))
  {
    var s' := StepTask(s, id);
    CopyDoes(s, id);
    forall j | 0 <= j < |s.tasks| ensures TaskOk(s', j) {
      assert TaskOk(s, j);
      if j == id {
        CopySelf(s, id);
      } else {
        CopyOther(s, id, j);
      }
    }
    forall b | 0 <= b < |s'.owner| ensures Fits(s'.que, s'.bufSize, b) {
      assert Fits(s.que, s.bufSize, b);
    }
    forall b | 0 <= b < |s'.owner| ensures OwnerOk(s', b) {
      assert OwnerOk(s, b);
    }
  }

  lemma RecvKeeps(s: State, id: nat)
    requires Inv(s)
    ensures Inv(Exec(s, Recv(id)))
  {
    var s' := Exec(s, Recv(id));
    if id < |s.tasks| && s.tasks[id].Posted? {
      assert TaskOk(s, id);
      TagRoundTrip(Words(|s.tasks[id].data|), s.tasks[id].chain[0]);
      forall j | 0 <= j < |s.tasks| ensures TaskOk(s', j) {
        assert TaskOk(s, j);
        if j != id {
          Frame(s, s', j);
        }
      }
      forall b | 0 <= b < |s'.owner| ensures OwnerOk(s', b) {
        assert OwnerOk(s, b);
      }
    }
  }

  lemma CopySizeCovers(data: seq<Byte>, bs: nat, i: nat, size: nat)
    requires bs > 0 && |data| <= size && i < Bufs(|data|, bs)
    ensures |Chunk(data, bs, i)| <= CopySize(size, bs, i) <= bs
    ensures i + 1 < Bufs(|data|, bs) ==> CopySize(size, bs, i) == bs
    ensures i + 1 == Bufs(|data|, bs) ==> |data| == i * bs + |Chunk(data, bs, i)|
    ensures i * bs <= |data|
  {
    ChunkBounds(|data|, bs, i);
  }

  /** One more copy of the receiver, on the bytes alone; `size` is what the tag announces. */
  lemma CopyOut(data: seq<Byte>, bs: nat, out: seq<Byte>, i: nat, piece: seq<Byte>, size: nat)
    requires bs > 0 && |data| <= size && i < Bufs(|data|, bs) && |piece| == CopySize(size, bs, i)
    requires Chunk(data, bs, i) <= piece && Received(bs, data, out, i, Bufs(|data|, bs), size)
    ensures Received(bs, data, out + piece, i + 1, Bufs(|data|, bs), size)
  {
    CopySizeCovers(data, bs, i, size);
    MulNext(i, bs);
    var c := Chunk(data, bs, i);
    forall x | |out| <= x < |out + piece| && x < |data| ensures (out + piece)[x] == data[x] {
      assert data[x] == c[x - i * bs] == piece[x - i * bs];
    }
  }

  /** The i-th copy of a receiver whose buffer `b` holds the i-th chunk. */
  lemma TakePiece(que: seq<Byte>, bs: nat, b: nat, data: seq<Byte>, out: seq<Byte>, i: nat, size: nat)
    requires bs > 0 && |data| <= size && i < Bufs(|data|, bs)
    requires Holds(que, bs, b, Chunk(data, bs, i)) && Received(bs, data, out, i, Bufs(|data|, bs), size)
    ensures Received(bs, data, out + Load(que, bs, b, CopySize(size, bs, i)), i + 1, Bufs(|data|, bs), size)
  {
    var n := CopySize(size, bs, i);
    assert |Chunk(data, bs, i)| <= n by { CopySizeCovers(data, bs, i, size); }
    LoadPrefix(que, bs, b, |Chunk(data, bs, i)|, n);
    CopyOut(data, bs, out, i, Load(que, bs, b, n), size);
  }

  lemma TakeDoes(s: State, id: nat)
    requires s.bufSize > 0 && id < |s.tasks| && s.tasks[id].Receiving? && s.tasks[id].i < s.tasks[id].count
    requires Fits(s.que, s.bufSize, s.tasks[id].next) && s.tasks[id].next < |s.next|
    ensures var t := s.tasks[id];
      var c := Load(s.que, s.bufSize, t.next, CopySize(t.tag.len * 8, s.bufSize, t.i));
      StepTask(s, id) == s.(tasks := s.tasks[id :=
        Receiving(t.tag, t.count, s.next[t.next], t.next, t.i + 1, t.out + c, t.data, t.chain)])
  {
  }

  /** The tag of a message announces enough bytes for it and names its first buffer. */
  lemma Announced(size: nat, start: nat)
    requires size <= MAX_BYTES && start < 0x100
    ensures size <= MakeTag(Words(size), 0, start).len * 8 && MakeTag(Words(size), 0, start).extra == start
  {
    WordsBounds(size);
    TagRoundTrip(Words(size), start);
  }

  lemma TakeBytes(s: State, id: nat)
    requires s.bufSize > 0 && |s.msgCount| == MAX_BUFS
    requires id < |s.tasks| && s.tasks[id].Receiving? && s.tasks[id].i < s.tasks[id].count && TaskOk(s, id)
    ensures var t := s.tasks[id];
      && t.count == Bufs(|t.data|, s.bufSize) && Received(s.bufSize, t.data, t.out, t.i, t.count, t.tag.len * 8)
      && Holds(s.que, s.bufSize, t.next, Chunk(t.data, s.bufSize, t.i))
  {
    var t := s.tasks[id];
    assert Holds(s.que, s.bufSize, t.chain[t.i], Chunk(t.data, s.bufSize, t.i));
  }

  lemma TakeSelf(s: State, id: nat)
    requires s.bufSize > 0 && |s.msgCount| == |s.next| == MAX_BUFS
    requires id < |s.tasks| && s.tasks[id].Receiving? && s.tasks[id].i < s.tasks[id].count
    requires TaskOk(s, id) && Fits(s.que, s.bufSize, s.tasks[id].next)
    ensures TaskOk(StepTask(s, id), id)
  {
    var t := s.tasks[id];
    assert t.next == t.chain[t.i] && t.next < |s.next|;
    TakeDoes(s, id);
    assert |t.data| <= t.tag.len * 8 by { Announced(|t.data|, t.chain[0]); }
    TakeBytes(s, id);
    TakePiece(s.que, s.bufSize, t.next, t.data, t.out, t.i, t.tag.len * 8);
    var s' := StepTask(s, id);
    assert ChainOk(s', id);
    assert Stored(s', t.data, t.chain, |t.chain|);
  }

  lemma TakeOther(s: State, id: nat, j: nat)
    requires s.bufSize > 0 && |s.msgCount| == |s.next| == MAX_BUFS
    requires id < |s.tasks| && s.tasks[id].Receiving? && s.tasks[id].i < s.tasks[id].count
    requires j < |s.tasks| && j != id && TaskOk(s, j)
    ensures TaskOk(StepTask(s, id), j)
  {
    Frame(s, StepTask(s, id), j);
  }

  lemma TakeKeeps(s: State, id: nat)
    requires Inv(s) && id < |s.tasks| && s.tasks[id].Receiving? && s.tasks[id].i < s.tasks[id].count
    ensures Inv(StepTask(s, id))
  {
    var s' := StepTask(s, id);
    assert TaskOk(s, id);
    assert Fits(s.que, s.bufSize, s.tasks[id].next);
    forall j | 0 <= j < |s.tasks| ensures TaskOk(s', j) {
      assert TaskOk(s, j);
      if j == id {
        TakeSelf(s, id);
      } else {
        TakeOther(s, id, j);
      }
    }
    forall b | 0 <= b < |s'.owner| ensures OwnerOk(s', b) {
      assert OwnerOk(s, b);
    }
  }

  lemma RelinkFront(next: seq<nat>, free: seq<nat>, chain: seq<nat>, head: nat)
    requires Linked(next, free, NIL) && InnerLinked(next, chain) && |chain| >= 1 && Distinct(chain + free)
    requires head == if free == [] then NIL else free[0]
    ensures Linked(next[chain[|chain| - 1] := head], chain + free, NIL)
  {
    var all, next' := chain + free, next[chain[|chain| - 1] := head];
    var m := |chain| - 1;
    forall k | 0 <= k < |all|
      ensures all[k] < |next'| && next'[all[k]] == After(all, k, NIL)
    {
      assert all[m] == chain[m];
      if k > m {
        assert all[k] == free[k - m - 1];
        assert After(all, k, NIL) == After(free, k - m - 1, NIL);
      } else if k < m {
        assert all[k] == chain[k];
        assert After(all, k, NIL) == After(chain, k, NIL);
      }
    }
  }

  /** The whole chain goes back in front of the free list. */
  lemma ReturnDoes(s: State, id: nat)
    requires s.bufSize > 0 && |s.msgCount| == |s.next| == MAX_BUFS
    requires id < |s.tasks| && s.tasks[id].Receiving? && s.tasks[id].i == s.tasks[id].count && TaskOk(s, id)
    ensures var t := s.tasks[id]; var s' := StepTask(s, id);
      && |t.chain| >= 1 && t.chain[|t.chain| - 1] < |s.next|
      && s' == s.(next := s.next[t.chain[|t.chain| - 1] := s.head], head := t.chain[0], len := s.len + |t.chain|,
                  tasks := s'.tasks, free := t.chain + s.free, owner := SetOwner(s.owner, t.chain, FREE))
  {
    var t := s.tasks[id];
    WordsBounds(|t.data|);
    TagRoundTrip(Words(|t.data|), t.chain[0]);
  }

  lemma ReturnFree(s: State, id: nat)
    requires FreeOk(s) && s.bufSize > 0 && |s.msgCount| == |s.next| == MAX_BUFS
    requires id < |s.tasks| && s.tasks[id].Receiving? && s.tasks[id].i == s.tasks[id].count && TaskOk(s, id)
    ensures FreeOk(StepTask(s, id))
  {
    var t := s.tasks[id];
    ReturnDoes(s, id);
    GiveBack(s.free, s.owner, t.chain, id);
    RelinkFront(s.next, s.free, t.chain, s.head);
  }

  lemma ReturnOther(s: State, id: nat, j: nat)
    requires s.bufSize > 0 && |s.msgCount| == |s.next| == MAX_BUFS
    requires id < |s.tasks| && s.tasks[id].Receiving? && s.tasks[id].i == s.tasks[id].count && TaskOk(s, id)
    requires j < |s.tasks| && j != id && TaskOk(s, j)
    ensures TaskOk(StepTask(s, id), j)
  {
    var s', c := StepTask(s, id), s.tasks[id].chain;
    if s.tasks[j].Live() {
      var cj := s.tasks[j].chain;
      forall k | 0 <= k < |cj| ensures cj[k] !in c {
        assert s.owner[cj[k]] == j;
      }
      assert c[|c| - 1] in c;
    }
    Frame(s, s', j);
  }

  lemma ReturnKeeps(s: State, id: nat)
    requires Inv(s) && id < |s.tasks| && s.tasks[id].Receiving? && s.tasks[id].i == s.tasks[id].count
    ensures Inv(StepTask(s, id))
  {
    var s' := StepTask(s, id);
    assert TaskOk(s, id);
    ReturnFree(s, id);
    WordsBounds(|s.tasks[id].data|);
    TagRoundTrip(Words(|s.tasks[id].data|), s.tasks[id].chain[0]);
    forall j | 0 <= j < |s.tasks| ensures TaskOk(s', j) {
      assert TaskOk(s, j);
      if j != id {
        ReturnOther(s, id, j);
      }
    }
    forall b | 0 <= b < |s'.owner| ensures OwnerOk(s', b) {
      assert OwnerOk(s, b);
    }
  }

  /** A send keeps the invariant exactly when it sends at least one byte. */
  lemma SendKeepsIff(s: State, data: seq<Byte>)
    requires Inv(s)
    ensures Inv(BeginSend(s, data)) <==> |data| >= 1
  {
    if |data| >= 1 {
      SendKeeps(s, data);
    } else {
      assert BeginSend(s, data).tasks[|s.tasks|].data == [];
      assert !TaskOk(BeginSend(s, data), |s.tasks|);
    }
  }

  /** Every step of every party keeps the invariant, whatever the others are in the middle of. */
  lemma ExecKeepsInv(s: State, e: Event)
    requires Inv(s) && (e.Send? ==> |e.data| >= 1)
    ensures Inv(Exec(s, e))
  {
    match e
    case Send(data) => SendKeeps(s, data);
    case Recv(id) => RecvKeeps(s, id);
    case Step(id) =>
      if id < |s.tasks| {
        assert TaskOk(s, id);
        if s.tasks[id].Marking? {
          MarkKeeps(s, id);
        } else if s.tasks[id].Copying? {
          CopyKeeps(s, id);
        } else if s.tasks[id].Receiving? && s.tasks[id].i < s.tasks[id].count {
          TakeKeeps(s, id);
        } else if s.tasks[id].Receiving? {
          ReturnKeeps(s, id);
        }
      }
  }

  predicate SendsSomething(es: seq<Event>) {
    forall k :: 0 <= k < |es| && es[k].Send? ==> |es[k].data| >= 1
  }

  lemma {:induction false} RunKeepsInv(s: State, es: seq<Event>)
    requires Inv(s) && SendsSomething(es)
    ensures Inv(Run(s, es))
  {
    if es != [] {
      RunKeepsInv(s, es[..|es| - 1]);
      ExecKeepsInv(Run(s, es[..|es| - 1]), es[|es| - 1]);
    }
  }

  /**
   Over every interleaving, every message that has been received arrived byte for byte, whatever other
   messages were sent and received in between, the length returned is its size rounded up to 8, and that many bytes are
   copied out or as many as its buffers hold.
   */
  lemma RoundTrip(
    count: nat, bufSize: nat, links: seq<nat>, msgCount: seq<nat>, que: seq<Byte>, es: seq<Event>, id: nat)
    requires 1 <= count <= MAX_BUFS && |links| == |msgCount| == MAX_BUFS && bufSize > 0 && |que| >= count * bufSize
    requires SendsSomething(es)
    ensures var s := Run(Init(count, bufSize, links, msgCount, que), es);
      id < |s.tasks| && s.tasks[id].Done? ==> Whole(s.tasks[id], bufSize)
  {
    InitInv(count, bufSize, links, msgCount, que);
    RunKeepsInv(Init(count, bufSize, links, msgCount, que), es);
    DoneOk(Run(Init(count, bufSize, links, msgCount, que), es), id);
  }

  lemma DoneOk(s: State, id: nat)
    requires Inv(s)
    ensures id < |s.tasks| && s.tasks[id].Done? ==> Whole(s.tasks[id], s.bufSize)
  {
    if id < |s.tasks| {
      assert TaskOk(s, id);
    }
  }

  /** What a receiver is told it got, and what is copied out for it. */
  predicate CopiesAll(size: nat, bs: nat)
    requires bs > 0
  {
    Min(8 * Words(size), Bufs(size, bs) * bs) == 8 * Words(size)
  }

  lemma {:induction false} BufsCover(size: nat, bs: nat)
    requires bs > 0
    ensures size <= Bufs(size, bs) * bs
  {
    if size > bs {
      BufsCover(size - bs, bs);
      MulNext(Bufs(size - bs, bs), bs);
    }
  }

  /** A whole number of words that is enough for the bytes is enough for the words announced. */
  lemma WordsFit(size: nat, n: nat, bs: nat, c: nat)
    requires bs == 8 * c && size <= n * bs
    ensures 8 * Words(size) <= n * bs
  {
    assert n * bs == 8 * (n * c);
  }

  /** The length returned is the number of bytes copied, for every message, exactly when buffers are whole words or large. */
  lemma CopiesAllIff(bs: nat)
    requires bs > 0
    ensures (forall size {:trigger CopiesAll(size, bs)} :: 1 <= size <= MAX_BYTES ==> CopiesAll(size, bs)) <==>
      bs % 8 == 0 || bs >= MAX_BYTES
  {
    if bs % 8 == 0 || bs >= MAX_BYTES {
      forall size | 1 <= size <= MAX_BYTES ensures CopiesAll(size, bs) {
        BufsCover(size, bs);
        if bs % 8 == 0 {
          WordsFit(size, Bufs(size, bs), bs, bs / 8);
        } else {
          WordsBounds(size);
        }
      }
    } else {
      assert Bufs(bs, bs) == 1;
      assert !CopiesAll(bs, bs);
    }
  }

  /** Free buffers and the chains of outstanding messages partition the buffer indices. */
  lemma Partition(s: State, b: nat)
    requires Inv(s) && b < |s.owner|
    ensures b in s.free <==> s.owner[b] == FREE
    ensures forall id :: 0 <= id < |s.tasks| && s.tasks[id].Live() ==> (b in s.tasks[id].chain <==> s.owner[b] == id)
  {
    assert OwnerOk(s, b);
    forall id | 0 <= id < |s.tasks| && s.tasks[id].Live() ensures b in s.tasks[id].chain <==> s.owner[b] == id {
      assert TaskOk(s, id);
    }
  }

  /** How many chunks of an outstanding message are in its buffers. */
  function Written(t: Task): (m: nat)
    requires t.Live()
  {
    if t.Marking? then 0 else if t.Copying? then t.i else |t.chain|
  }

  /** No other party's step touches an outstanding message: its chain, inner links and stored bytes stay. */
  lemma OthersLeaveChain(s: State, e: Event, id: nat)
    requires Inv(s) && id < |s.tasks| && s.tasks[id].Live() && (e.Send? ==> |e.data| >= 1) && (!e.Send? ==> e.id != id)
    ensures var s' := Exec(s, e); var c := s.tasks[id].chain;
      && id < |s'.tasks| && s'.tasks[id] == s.tasks[id]
      && InnerLinked(s.next, c) && InnerLinked(s'.next, c)
      && Stored(s', s.tasks[id].data, c, Written(s.tasks[id]))
  {
    OthersLeaveTask(s, e, id);
    ExecKeepsInv(s, e);
    LiveOk(s, id);
    LiveOk(Exec(s, e), id);
  }

  lemma OthersLeaveTask(s: State, e: Event, id: nat)
    requires s.bufSize > 0 && id < |s.tasks| && (!e.Send? ==> e.id != id)
    ensures var s' := Exec(s, e); id < |s'.tasks| && s'.tasks[id] == s.tasks[id]
  {
  }

  lemma LiveOk(s: State, id: nat)
    requires Inv(s) && id < |s.tasks| && s.tasks[id].Live()
    ensures InnerLinked(s.next, s.tasks[id].chain)
    ensures Stored(s, s.tasks[id].data, s.tasks[id].chain, Written(s.tasks[id]))
  {
    assert TaskOk(s, id);
  }

  lemma {:induction false} DistinctCovers(c: seq<nat>, n: nat)
    requires Distinct(c) && forall k :: 0 <= k < |c| ==> c[k] < n
    requires forall b :: 0 <= b < n ==> b in c
    ensures |c| == n
  {
    assert |c| > 0 ==> c[0] < n;
    if n > 0 {
      assert n - 1 in c;
      var k :| 0 <= k < |c| && c[k] == n - 1;
      var c' := c[..k] + c[k + 1..];
      forall b | 0 <= b < n - 1 ensures b in c' {
        assert b in c;
        var j :| 0 <= j < |c| && c[j] == b;
        assert b == c'[if j < k then j else j - 1];
      }
      DistinctCovers(c', n - 1);
    }
  }

  /** No buffer leaks: once every message is received, the free list holds all of them again. */
  lemma AllReturned(s: State)
    requires Inv(s) && forall id :: 0 <= id < |s.tasks| ==> !s.tasks[id].Live()
    ensures s.len == |s.owner|
  {
    forall b | 0 <= b < |s.owner| ensures b in s.free {
      assert OwnerOk(s, b);
    }
    DistinctCovers(s.free, |s.owner|);
  }

  /** A send is refused exactly when the message is too long or too few buffers are free. */
  lemma RefusedIff(s: State, data: seq<Byte>)
    requires s.bufSize > 0 && FreeOk(s)
    ensures BeginSend(s, data).tasks[|s.tasks|].Refused? <==>
      |data| > MAX_BYTES || (|data| + s.bufSize - 1) / s.bufSize > |s.free|
    ensures BeginSend(s, data).tasks[|s.tasks|].Refused? ==> BeginSend(s, data) == s.(tasks := s.tasks + [Refused])
  {
    BufsIsCeiling(|data|, s.bufSize);
  }

  // ---------------------------------------------------------------------------------------------
  // An empty message breaks the protocol

  /** What matters of a pool: its buffer `h`, behind which `nx` follows, is free or taken and holds `first`. */
  predicate Pool(s: State, h: nat, nx: nat, taken: bool, len: nat, count: nat, first: seq<Byte>) {
    && s.bufSize > 0 && |s.next| == |s.msgCount| == MAX_BUFS && h < MAX_BUFS && Fits(s.que, s.bufSize, h)
    && s.next[h] == nx && s.head == (if taken then nx else h) && s.len == len && s.msgCount[h] == count
    && Load(s.que, s.bufSize, h, 1) == first
  }

  /** Posted under buffer `h`. */
  predicate PostedAt(t: Task, h: nat, data: seq<Byte>) {
    t.Posted? && t.data == data && t.tag.len == Words(|data|) && t.tag.extra == h
  }

  lemma TagOf(size: nat, h: nat)
    requires size <= 1 && h < MAX_BUFS
    ensures var tag := MakeTag(Words(size), 0, h); tag.len == Words(size) && tag.extra == h
  {
    WordsBounds(size);
    TagRoundTrip(Words(size), h);
  }

  lemma PoolOf(s: State)
    requires Inv(s) && s.free != []
    ensures s.free[0] < MAX_BUFS && Fits(s.que, s.bufSize, s.free[0]) && s.len > 0
    ensures var h := s.free[0]; Pool(s, h, s.next[h], false, s.len, s.msgCount[h], Load(s.que, s.bufSize, h, 1))
  {
    assert s.free[0] < |s.owner|;
  }

  /** An empty message is posted under the first free buffer, which it has not reserved. */
  lemma PostEmpty(s: State, h: nat, nx: nat, len: nat, count: nat, first: seq<Byte>, data: seq<Byte>)
    requires Pool(s, h, nx, false, len, count, first) && |data| == 0
    ensures var s', id := Exec(BeginSend(s, data), Step(|s.tasks|)), |s.tasks|;
      Pool(s', h, nx, false, len, 0, first) && |s'.tasks| == id + 1 && PostedAt(s'.tasks[id], h, data)
  {
    var id := |s.tasks|;
    TagOf(|data|, h);
    var s1 := BeginSend(s, data);
    assert Walk(s.next, h, 0) == h;
    assert s1.tasks[id].Marking? && s1.tasks[id].data == data && s1.tasks[id].start == h;
  }

  /** A message of one byte takes the buffer, whether or not another message still counts on it. */
  lemma PostByte(s0: State, es: seq<Event>, h: nat, nx: nat, len: nat, count: nat, first: seq<Byte>, data: seq<Byte>)
    returns (es': seq<Event>)
    requires s0.bufSize > 0 && Pool(Run(s0, es), h, nx, false, len, count, first) && len > 0 && |data| == 1
    requires SendsSomething(es)
    ensures SendsSomething(es')
    ensures var s, s' := Run(s0, es), Run(s0, es');
      && Pool(s', h, nx, true, len - 1, 1, data) && |s'.tasks| == |s.tasks| + 1 && s.tasks <= s'.tasks
      && PostedAt(s'.tasks[|s.tasks|], h, data)
  {
    ghost var s := Run(s0, es);
    ghost var id := |s.tasks|;
    TagOf(|data|, h);
    ghost var s1 := Exec(s, Send(data));
    assert Walk(s.next, h, 1) == nx by { assert Walk(s.next, h, 0) == h; }
    assert s1.tasks[id].Marking? && s1.tasks[id].data == data && s1.tasks[id].start == h;
    ghost var s2 := Exec(s1, Step(id));
    assert s2.tasks[id].Copying? && s2.tasks[id].cur == h && s2.tasks[id].i == 0;
    assert Chunk(data, s.bufSize, 0) == data;
    StoreHolds(s.que, s.bufSize, h, data);
    es' := Extend(s0, es, Send(data));
    es' := Extend(s0, es', Step(id));
    es' := Extend(s0, es', Step(id));
  }

  /** A receiver that has copied from buffer `h`, which is all it has to give back. */
  predicate Emptied(t: Task, h: nat, first: seq<Byte>, data: seq<Byte>) {
    && t.Receiving? && t.data == data && t.count == 1 && t.end == h && t.i == 1 && t.tag.extra == h
    && (|data| == 1 ==> first <= t.out)
  }

  lemma TakeOut(s: State, h: nat, nx: nat, len: nat, first: seq<Byte>, id: nat, data: seq<Byte>)
    requires Pool(s, h, nx, true, len, 1, first) && id < |s.tasks| && s.tasks[id].Receiving? && |data| <= 1
    requires var t := s.tasks[id];
      t.data == data && t.count == 1 && t.next == h && t.i == 0 && t.out == [] && t.tag.extra == h && t.tag.len == Words(|data|)
    ensures var s' := Exec(s, Step(id));
      Pool(s', h, nx, true, len, 1, first) && s'.tasks == s.tasks[id := s'.tasks[id]] && Emptied(s'.tasks[id], h, first, data)
  {
    var n := CopySize(s.tasks[id].tag.len * 8, s.bufSize, 0);
    if |data| == 1 {
      LoadPrefix(s.que, s.bufSize, h, 1, n);
    }
    assert [] + Load(s.que, s.bufSize, h, n) == Load(s.que, s.bufSize, h, n);
  }

  lemma PutBack(s: State, h: nat, nx: nat, len: nat, first: seq<Byte>, id: nat, data: seq<Byte>)
    requires Pool(s, h, nx, true, len, 1, first) && id < |s.tasks| && Emptied(s.tasks[id], h, first, data)
    ensures var s' := Exec(s, Step(id));
      && Pool(s', h, nx, false, len + 1, 1, first)
      && s'.tasks == s.tasks[id := Done(s.tasks[id].out, s.tasks[id].tag.len * 8, data)]
  {
  }

  /** Receiving a message under buffer `h` returns that buffer, whoever it belongs to. */
  lemma TakeByte(s0: State, es: seq<Event>, h: nat, nx: nat, len: nat, first: seq<Byte>, id: nat, data: seq<Byte>)
    returns (es': seq<Event>)
    requires s0.bufSize > 0 && Pool(Run(s0, es), h, nx, true, len, 1, first) && SendsSomething(es)
    requires var s := Run(s0, es); id < |s.tasks| && PostedAt(s.tasks[id], h, data) && |data| <= 1
    ensures SendsSomething(es')
    ensures var s, s' := Run(s0, es), Run(s0, es');
      && Pool(s', h, nx, false, len + 1, 1, first) && |s'.tasks| == |s.tasks| && s'.tasks[id].Done? && s'.tasks[id].data == data
      && (|data| == 1 ==> first <= s'.tasks[id].out)
      && (forall j :: 0 <= j < |s.tasks| && j != id ==> s'.tasks[j] == s.tasks[j])
  {
    es' := Extend(s0, es, Recv(id));
    TakeOut(Run(s0, es'), h, nx, len, first, id, data);
    es' := Extend(s0, es', Step(id));
    PutBack(Run(s0, es'), h, nx, len, first, id, data);
    es' := Extend(s0, es', Step(id));
  }

  /**
   Wherever a buffer is free, an empty message can be followed by "x" and "y" of one byte each so that the receiver
   of the empty message frees the buffer of "x", which "y" then overwrites, and whoever receives "x" reads "y".
   */
  lemma EmptySendCorrupts(s: State, empty: seq<Byte>, x: seq<Byte>, y: seq<Byte>) returns (es: seq<Event>)
    requires Inv(s) && s.free != [] && empty == [] && |x| == |y| == 1
    ensures SendsSomething(es)
    ensures var s', id := Run(BeginSend(s, empty), es), |s.tasks| + 1;
      id < |s'.tasks| && s'.tasks[id].Done? && s'.tasks[id].data == x && y <= s'.tasks[id].out
  {
    ghost var s0, id, h, len := BeginSend(s, empty), |s.tasks|, s.free[0], s.len;
    PoolOf(s);
    ghost var nx, first := s.next[h], Load(s.que, s.bufSize, h, 1);
    PostEmpty(s, h, nx, len, s.msgCount[h], first, empty);
    assert Run(s0, []) == s0;
    es := Extend(s0, [], Step(id));
    es := PostByte(s0, es, h, nx, len, 0, first, x);
    es := TakeByte(s0, es, h, nx, len - 1, x, id, empty);
    es := PostByte(s0, es, h, nx, len, 1, x, y);
    es := TakeByte(s0, es, h, nx, len - 1, y, id + 1, x);
  }

  /** Whatever non-empty messages follow, every message that is received arrives whole. */
  ghost predicate Delivers(s: State)
    requires s.bufSize > 0
  {
    forall es: seq<Event>, id: nat {:trigger Arrived(s, es, id)} :: SendsSomething(es) ==> Arrived(s, es, id)
  }

  predicate Arrived(s: State, es: seq<Event>, id: nat)
    requires s.bufSize > 0
  {
    var s' := Run(s, es);
    id < |s'.tasks| && s'.tasks[id].Done? ==> s'.tasks[id].data <= s'.tasks[id].out
  }

  lemma NotDelivered(s: State, es: seq<Event>, id: nat, x: seq<Byte>, y: seq<Byte>)
    requires s.bufSize > 0 && SendsSomething(es) && |x| == |y| == 1 && x != y
    requires var s' := Run(s, es); id < |s'.tasks| && s'.tasks[id].Done? && s'.tasks[id].data == x && y <= s'.tasks[id].out
    ensures !Delivers(s)
  {
    assert x[0] != y[0];
    assert !Arrived(s, es, id);
  }

  lemma Delivered(s: State)
    requires Inv(s)
    ensures Delivers(s)
  {
    forall es: seq<Event>, id: nat | SendsSomething(es) ensures Arrived(s, es, id) {
      RunKeepsInv(s, es);
      DoneOk(Run(s, es), id);
    }
  }

  /**
   A send leaves every receiver safe, in every continuation, exactly when it is not empty; for an empty one a buffer
   has to be free.
   */
  lemma SendSafeIff(s: State, data: seq<Byte>)
    requires Inv(s) && (|data| >= 1 || s.free != [])
    ensures Delivers(BeginSend(s, data)) <==> |data| >= 1
  {
    if |data| >= 1 {
      SendKeeps(s, data);
      Delivered(BeginSend(s, data));
    } else {
      var x, y: seq<Byte> := [0], [1];
      var es := EmptySendCorrupts(s, data, x, y);
      NotDelivered(BeginSend(s, data), es, |s.tasks| + 1, x, y);
    }
  }

  // ---------------------------------------------------------------------------------------------
  // An empty message with no buffer free

  /** It is accepted, under index 255. */
  lemma EmptyUnderNil(s: State, data: seq<Byte>)
    requires Inv(s) && s.free == [] && |data| == 0
    ensures var s' := BeginSend(s, data); s' == s.(tasks := s.tasks + [Marking(data, NIL, [])])
  {
    assert Walk(s.next, s.head, 0) == s.head;
    assert SetOwner(s.owner, [], |s.tasks|) == s.owner;
  }

  /** The byte of `c`, stored in buffer `b`, that the stray count is written over is 0 already, if there is one. */
  predicate Spared(bs: nat, b: nat, c: seq<Byte>) {
    b * bs <= STRAY < b * bs + |c| ==> c[STRAY - b * bs] == 0
  }

  lemma StraySpares(que: seq<Byte>, bs: nat, b: nat, c: seq<Byte>)
    requires Holds(que, bs, b, c) && STRAY < |que|
    ensures Holds(que[STRAY := 0], bs, b, c) <==> Spared(bs, b, c)
  {
    var que', lo := que[STRAY := 0], b * bs;
    assert forall x :: 0 <= x < |c| ==> que[lo + x] == Load(que, bs, b, |c|)[x];
    assert forall x :: 0 <= x < |c| ==> que'[lo + x] == Load(que', bs, b, |c|)[x];
    if lo <= STRAY < lo + |c| {
      assert que'[lo + (STRAY - lo)] == 0;
    }
  }

  /**
   Its count is then written into the buffers. A message in them, being sent, posted or received, is left whole if and
   only if none of its stored bytes is there, or the one that is there is 0.
   */
  lemma StrayMarkSparesIff(s: State, id: nat, j: nat)
    requires s.bufSize > 0 && |s.msgCount| == MAX_BUFS && STRAY < |s.que|
    requires id < |s.tasks| && s.tasks[id].Marking? && s.tasks[id].start == NIL && |s.tasks[id].data| == 0
    requires j < |s.tasks| && j != id && s.tasks[j].Live()
    requires Stored(s, s.tasks[j].data, s.tasks[j].chain, Written(s.tasks[j]))
    ensures var t := s.tasks[j];
      Stored(StepTask(s, id), t.data, t.chain, Written(t)) <==>
        forall k {:trigger t.chain[k]} :: 0 <= k < Written(t) ==> Spared(s.bufSize, t.chain[k], Chunk(t.data, s.bufSize, k))
  {
    var t := s.tasks[j];
    var s' := StepTask(s, id);
    assert s'.que == s.que[STRAY := 0];
    forall k | 0 <= k < Written(t)
      ensures Holds(s'.que, s.bufSize, t.chain[k], Chunk(t.data, s.bufSize, k)) <==>
              Spared(s.bufSize, t.chain[k], Chunk(t.data, s.bufSize, k))
    {
      StraySpares(s.que, s.bufSize, t.chain[k], Chunk(t.data, s.bufSize, k));
    }
  }

  lemma Extend(s0: State, es: seq<Event>, e: Event) returns (es': seq<Event>)
    requires s0.bufSize > 0 && SendsSomething(es) && (e.Send? ==> |e.data| >= 1)
    ensures Exec(Run(s0, es), e) == Run(s0, es') && SendsSomething(es')
  {
    assert (es + [e])[..|es|] == es;
    es' := es + [e];
  }
}
