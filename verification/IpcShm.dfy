/**
 The routines of ipc_test/ipc_test.h as they run over the shared header and buffers, each proved to perform
 the steps of the machine in module Ipc. A call that nobody interrupts is the machine's run of the same steps;
 the machine covers the interleavings.
 */
module IpcShm {
  import opened Common
  import opened Ipc

  class Shm {
    var next: array<nat>
    var msgCount: array<nat>
    var head: nat
    var len: nat
    var bufSize: nat
    var que: array<Byte>

    /** The memory is what state `s` of the machine says. */
    ghost predicate Matches(s: State)
      reads this, next, msgCount, que
    {
      && next != msgCount && next[..] == s.next && msgCount[..] == s.msgCount
      && head == s.head && len == s.len && bufSize == s.bufSize && que[..] == s.que
    }

    /** init_ep_ipc_que_header over a mapped area; what the area held before is arbitrary. */
    constructor (count: nat, bufSize: nat, links: array<nat>, counts: array<nat>, memory: array<Byte>)
      requires 1 <= count <= MAX_BUFS && links.Length == counts.Length == MAX_BUFS && links != counts
      requires bufSize > 0 && memory.Length >= count * bufSize
      modifies links
      ensures next == links && msgCount == counts && que == memory
      ensures var s := Init(count, bufSize, old(links[..]), counts[..], memory[..]); Matches(s) && Inv(s)
    {
      Thread(count, links);
      head := 0;
      len := count;
      next, msgCount, que := links, counts, memory;
      this.bufSize := bufSize;
      new;
      InitInv(count, bufSize, old(links[..]), counts[..], memory[..]);
    }

    /** Threads the first `count` indices into one list. */
    static method Thread(count: nat, links: array<nat>)
      requires 1 <= count <= MAX_BUFS == links.Length
      modifies links
      ensures links[..] == Threaded(count, old(links[..]))
    {
      for i := 0 to count - 1
        invariant forall k :: 0 <= k < MAX_BUFS ==> links[k] == if k < i then k + 1 else old(links[k])
      {
        links[i] := i + 1;
      }
      links[count - 1] := NIL;
    }

    /** seq_out_static_list: follows `k` links and leaves the rest as the free list. */
    method SeqOut(k: nat, ghost free: seq<nat>) returns (first: nat)
      requires Linked(next[..], free, NIL) && k <= |free| == len && head == if free == [] then NIL else free[0]
      modifies this`head, this`len
      ensures first == old(head) && len == old(len) - k && head == Walk(next[..], first, k)
    {
      first := head;
      var cur := head;
      for i := 0 to k
        invariant cur == Walk(next[..], first, i)
        invariant i < |free| ==> cur == free[i]
      {
        assert next[..][free[i]] == After(free, i, NIL);
        cur := next[cur];
      }
      len := len - k;
      head := cur;
    }

    /** seq_in_static_list: hangs a chain in front of the free list. */
    method SeqIn(start: nat, end: nat, k: nat)
      requires k > 0 ==> end < next.Length
      modifies this`head, this`len, next
      ensures k == 0 ==> next[..] == old(next[..]) && head == old(head) && len == old(len)
      ensures k > 0 ==> next[..] == old(next[..])[end := old(head)] && head == start && len == old(len) + k
    {
      if k > 0 {
        next[end] := head;
        head := start;
        len := len + k;
      }
    }

    /** memcpy to offset `off` of the buffers. */
    method CopyIn(off: nat, c: seq<Byte>)
      requires off + |c| <= que.Length
      modifies que
      ensures que[..] == old(que[..])[..off] + c + old(que[..])[off + |c|..]
    {
      for x := 0 to |c|
        invariant forall y :: 0 <= y < que.Length ==>
          que[y] == if off <= y < off + x then c[y - off] else old(que[y])
      {
        que[off + x] := c[x];
      }
    }

    /** The locked part of a send. */
    method Reserve(data: seq<Byte>, count: nat, ghost s: State) returns (start: nat)
      requires Matches(s) && FreeOk(s) && bufSize > 0 && |data| <= MAX_BYTES && count == Bufs(|data|, bufSize) <= len
      modifies this`head, this`len
      ensures Matches(BeginSend(s, data)) && start == s.head && bufSize == old(bufSize)
    {
      SendDoes(s, data);
      start := SeqOut(count, s.free);
    }

    method Mark(start: nat, count: nat, ghost s: State, ghost id: nat)
      requires Matches(s) && s.bufSize > 0 && id < |s.tasks| && s.tasks[id].Marking? && s.tasks[id].start == start
      requires count == Bufs(|s.tasks[id].data|, s.bufSize)
      modifies msgCount, que
      ensures Matches(StepTask(s, id))
    {
      if start < msgCount.Length {
        msgCount[start] := count;
      } else if start == NIL && STRAY < que.Length {
        que[STRAY] := count % 256;
      }
    }

    /** One turn of the sender's copy loop. */
    method CopyChunk(data: seq<Byte>, cur: nat, i: nat, ghost s: State, ghost id: nat) returns (cur': nat)
      requires Matches(s) && s.bufSize > 0 && id < |s.tasks| && s.tasks[id].Copying?
      requires s.tasks[id].data == data && s.tasks[id].cur == cur && s.tasks[id].i == i < Bufs(|data|, bufSize)
      requires Fits(s.que, bufSize, cur) && cur < |s.next|
      modifies que
      ensures Matches(StepTask(s, id)) && cur' == s.next[cur]
    {
      var c := Slice(data, bufSize, i);
      CopyIn(cur * bufSize, c);
      assert que[..] == Store(s.que, s.bufSize, cur, c);
      cur' := next[cur];
    }

    /** The sender's copy loop. */
    method CopyAll(data: seq<Byte>, start: nat, count: nat, ghost s: State, ghost id: nat) returns (ghost s': State)
      requires Matches(s) && Inv(s) && id < |s.tasks| && count == Bufs(|data|, s.bufSize) >= 1
      requires s.tasks[id].Copying? && s.tasks[id] == Copying(data, start, start, 0, s.tasks[id].chain)
      modifies que
      ensures Matches(s') && Inv(s')
      ensures s'.tasks == s.tasks[id := Posted(MakeTag(Words(|data|), 0, start), data, s.tasks[id].chain)]
      ensures s' == s.(que := s'.que, tasks := s'.tasks)
    {
      s' := s;
      var cur := start;
      for i := 0 to count
        invariant Matches(s') && Inv(s') && |s'.tasks| == |s.tasks| && s'.bufSize == s.bufSize
        invariant s'.tasks == s.tasks[id :=
          if i < count then Copying(data, start, cur, i, s.tasks[id].chain)
          else Posted(MakeTag(Words(|data|), 0, start), data, s.tasks[id].chain)]
        invariant s' == s.(que := s'.que, tasks := s'.tasks)
      {
        CopyDoes(s', id);
        cur := CopyChunk(data, cur, i, s', id);
        ExecKeepsInv(s', Step(id));
        CopyMoves(s', id);
        s' := StepTask(s', id);
      }
    }

    /**
     ipc_shm_send without its final control call: copies the message into a chain and names it by a tag. An empty
     message is accepted too and named by a buffer it does not own, after which the invariant is gone.
     */
    method Send(data: seq<Byte>, ghost s: State) returns (tag: int, ghost s': State)
      requires Matches(s) && Inv(s)
      modifies this`head, this`len, msgCount, que
      ensures Matches(s') && |s'.tasks| == |s.tasks| + 1 && s'.tasks[..|s.tasks|] == s.tasks
      ensures Inv(s') <==> |data| >= 1
      ensures tag == -1 <==> |data| > MAX_BYTES || Bufs(|data|, bufSize) > s.len
      ensures tag == -1 ==> s' == s.(tasks := s.tasks + [Refused])
      ensures tag != -1 ==> s' == BeginSend(s, data).(que := s'.que, msgCount := s'.msgCount, tasks := s'.tasks)
      ensures tag != -1 && data == [] ==> s' == StepTask(BeginSend(s, data), |s.tasks|)
      ensures tag != -1 ==>
        var t := s'.tasks[|s.tasks|]; t.Posted? && t.data == data && tag == Pack(t.tag)
    {
      ghost var id := |s.tasks|;
      s' := BeginSend(s, data);
      SendKeepsIff(s, data);
      if |data| > MAX_BYTES {
        return -1, s';
      }
      var count := Ceiling(|data|, bufSize);
      if count > len {
        return -1, s';
      }
      Began(s, data);
      var start := Reserve(data, count, s);
      tag, s' := Fill(data, start, count, s', id);
    }

    /** The part of a send outside the lock. */
    method Fill(data: seq<Byte>, start: nat, count: nat, ghost s: State, ghost id: nat) returns (tag: int, ghost s': State)
      requires Matches(s) && s.bufSize > 0 && id < |s.tasks| && |s.msgCount| == MAX_BUFS && (Inv(s) || count == 0)
      requires s.tasks[id].Marking? && s.tasks[id].data == data && s.tasks[id].start == start
      requires count == Bufs(|data|, s.bufSize)
      modifies msgCount, que
      ensures Matches(s') && (Inv(s') <==> count > 0)
      ensures |s'.tasks| == |s.tasks| && s'.tasks[id].Posted? && s'.tasks[id].data == data && tag == Pack(s'.tasks[id].tag)
      ensures s'.tasks == s.tasks[id := s'.tasks[id]]
      ensures s' == s.(que := s'.que, msgCount := s'.msgCount, tasks := s'.tasks)
      ensures count == 0 ==> s' == StepTask(s, id)
    {
      Mark(start, count, s, id);
      tag := Pack(MakeTag((|data| + 7) / 8, 0, start));
      MarkMoves(s, id);
      MarkFrame(s, id);
      if count == 0 {
        EmptyMarked(s, id);
        s' := StepTask(s, id);
      } else {
        ExecKeepsInv(s, Step(id));
        s' := CopyAll(data, start, count, StepTask(s, id), id);
      }
    }

    /** One turn of the receiver's copy loop. */
    method TakeChunk(size: nat, cur: nat, i: nat, out: seq<Byte>, ghost s: State, ghost id: nat)
      returns (cur': nat, out': seq<Byte>)
      requires Matches(s) && s.bufSize > 0 && id < |s.tasks| && s.tasks[id].Receiving?
      requires var t := s.tasks[id]; t.next == cur && t.i == i < t.count && t.out == out && t.tag.len * 8 == size
      requires Fits(s.que, bufSize, cur) && cur < |s.next|
      ensures var t := s.tasks[id];
        StepTask(s, id) == s.(tasks := s.tasks[id := Receiving(t.tag, t.count, cur', cur, i + 1, out', t.data, t.chain)])
    {
      TakeDoes(s, id);
      var n := CopySize(size, bufSize, i);
      out' := out + que[cur * bufSize..cur * bufSize + n];
      assert que[cur * bufSize..cur * bufSize + n] == Load(s.que, s.bufSize, cur, n);
      cur' := next[cur];
    }

    /** The memory matches whatever the calls under way. */
    lemma MatchesTasks(s: State, s': State)
      requires Matches(s) && s' == s.(tasks := s'.tasks)
      ensures Matches(s')
    {
    }

    /** The receiver's copy loop. */
    method TakeAll(size: nat, start: nat, count: nat, ghost s: State, ghost id: nat)
      returns (end: nat, out: seq<Byte>, ghost s': State)
      requires Matches(s) && Inv(s) && id < |s.tasks| && s.tasks[id].Receiving? && s.tasks[id].tag.len * 8 == size
      requires var t := s.tasks[id]; t == Receiving(t.tag, count, start, start, 0, [], t.data, t.chain)
      ensures Matches(s') && Inv(s') && |s'.tasks| == |s.tasks| && s'.bufSize == s.bufSize
      ensures exists next :: var t := s.tasks[id];
        s'.tasks == s.tasks[id := Receiving(t.tag, count, next, end, count, out, t.data, t.chain)]
      ensures s.tasks[id].data <= out && s' == s.(tasks := s'.tasks)
    {
      s' := s;
      ghost var t := s.tasks[id];
      var cur := start;
      end, out := start, [];
      for i := 0 to count
        invariant Inv(s') && |s'.tasks| == |s.tasks| && s'.bufSize == s.bufSize
        invariant s'.tasks == s.tasks[id := Receiving(t.tag, count, cur, end, i, out, t.data, t.chain)]
        invariant s' == s.(tasks := s'.tasks)
      {
        MatchesTasks(s, s');
        NextInRange(s', id);
        ExecKeepsInv(s', Step(id));
        var cur', out' := TakeChunk(size, cur, i, out, s', id);
        end := cur;
        cur, out := cur', out';
        s' := StepTask(s', id);
      }
      MatchesTasks(s, s');
      assert TaskOk(s', id);
    }

    /** ipc_shm_recv after the control call: copies the message out and returns its chain to the free list. */
    method Recv(word: nat, ghost s: State, ghost id: nat) returns (out: seq<Byte>, size: nat, ghost s': State)
      requires Matches(s) && Inv(s) && id < |s.tasks| && s.tasks[id].Posted? && word == Pack(s.tasks[id].tag)
      modifies this`head, this`len, next
      ensures s.bufSize > 0 && Matches(s') && Inv(s') && s'.tasks == s.tasks[id := Done(out, size, s.tasks[id].data)]
      ensures Whole(Done(out, size, s.tasks[id].data), s.bufSize)
      ensures s'.free == s.tasks[id].chain + s.free && s'.que == s.que && s'.msgCount == s.msgCount
    {
      RecvMoves(s, id);
      ExecKeepsInv(s, Event.Recv(id));
      s' := Exec(s, Event.Recv(id));
      var tag := Unpack(word);
      var start := tag.extra;
      var count := msgCount[start];
      size := tag.len * 8;
      var end;
      end, out, s' := TakeAll(size, start, count, s', id);
      s' := GiveBack(start, end, count, s', id);
      DoneOk(s', id);
    }

    /** The locked part of a receive. */
    method GiveBack(start: nat, end: nat, count: nat, ghost s: State, ghost id: nat) returns (ghost s': State)
      requires Matches(s) && Inv(s) && id < |s.tasks| && s.tasks[id].Receiving?
      requires var t := s.tasks[id]; t.tag.extra == start && t.end == end && t.i == t.count == count
      modifies this`head, this`len, next
      ensures Matches(s') && Inv(s') && next == old(next)
      ensures s'.tasks == s.tasks[id := Done(s.tasks[id].out, s.tasks[id].tag.len * 8, s.tasks[id].data)]
      ensures s'.free == s.tasks[id].chain + s.free && s'.que == s.que && s'.msgCount == s.msgCount
    {
      ExecKeepsInv(s, Step(id));
      ReturnMoves(s, id);
      SeqIn(start, end, count);
      s' := StepTask(s, id);
    }
  }

  lemma RecvMoves(s: State, id: nat)
    requires Inv(s) && id < |s.tasks| && s.tasks[id].Posted?
    ensures var Posted(tag, data, chain) := s.tasks[id];
      && |chain| >= 1 && tag.extra == chain[0] < MAX_BUFS == |s.msgCount| && s.msgCount[tag.extra] == |chain|
      && Exec(s, Recv(id)) == s.(tasks := s.tasks[id := Receiving(tag, |chain|, chain[0], chain[0], 0, [], data, chain)])
      && Unpack(Pack(tag)) == tag
  {
    assert TaskOk(s, id);
    var Posted(tag, data, chain) := s.tasks[id];
    Announced(|data|, chain[0]);
    PackRoundTrip(Words(|data|), 0, chain[0]);
  }

  lemma NextInRange(s: State, id: nat)
    requires Inv(s) && id < |s.tasks| && s.tasks[id].Receiving? && s.tasks[id].i < s.tasks[id].count
    ensures Fits(s.que, s.bufSize, s.tasks[id].next) && s.tasks[id].next < |s.next|
  {
    assert TaskOk(s, id);
  }

  lemma ReturnMoves(s: State, id: nat)
    requires Inv(s) && id < |s.tasks| && s.tasks[id].Receiving? && s.tasks[id].i == s.tasks[id].count
    ensures var t := s.tasks[id];
      && t.count > 0 && t.end < |s.next|
      && StepTask(s, id) ==
           s.(next := s.next[t.end := s.head], head := t.tag.extra, len := s.len + t.count,
              tasks := s.tasks[id := Done(t.out, t.tag.len * 8, t.data)],
              free := t.chain + s.free, owner := SetOwner(s.owner, t.chain, FREE))
  {
    assert TaskOk(s, id);
  }

  /** Buffers needed, as the code rounds up. */
  method Ceiling(size: nat, bs: nat) returns (n: nat)
    requires bs > 0
    ensures n == Bufs(size, bs)
  {
    BufsIsCeiling(size, bs);
    n := (size + bs - 1) / bs;
  }

  /** The bytes the i-th memcpy of a send reads. */
  method Slice(data: seq<Byte>, bs: nat, i: nat) returns (c: seq<Byte>)
    requires bs > 0 && i < Bufs(|data|, bs)
    ensures c == Chunk(data, bs, i)
  {
    ChunkBounds(|data|, bs, i);
    var off := i * bs;
    var rest := |data| - off;
    c := data[off..off + if rest > bs then bs else rest];
  }

  /** Marking leaves the free list. */
  lemma MarkFrame(s: State, id: nat)
    requires s.bufSize > 0 && id < |s.tasks| && s.tasks[id].Marking?
    ensures var s' := StepTask(s, id); s' == s.(que := s'.que, msgCount := s'.msgCount, tasks := s'.tasks)
  {
  }

  lemma MarkMoves(s: State, id: nat)
    requires s.bufSize > 0 && id < |s.tasks| && s.tasks[id].Marking?
    ensures var Marking(data, start, chain) := s.tasks[id];
      StepTask(s, id).tasks == s.tasks[id :=
        if Bufs(|data|, s.bufSize) > 0 then Copying(data, start, start, 0, chain)
        else Posted(MakeTag(Words(|data|), 0, start), data, chain)]
  {
  }

  /** A message that owns no buffer breaks the invariant. */
  lemma EmptyMarked(s: State, id: nat)
    requires s.bufSize > 0 && |s.msgCount| == MAX_BUFS && id < |s.tasks| && s.tasks[id].Marking? && |s.tasks[id].data| == 0
    ensures !Inv(StepTask(s, id))
  {
    var s' := StepTask(s, id);
    assert s'.tasks[id].Posted? && s'.tasks[id].data == s.tasks[id].data && |s'.msgCount| == MAX_BUFS;
    assert !TaskOk(s', id);
  }

  lemma Began(s: State, data: seq<Byte>)
    requires s.bufSize > 0 && FreeOk(s) && |data| <= MAX_BYTES && Bufs(|data|, s.bufSize) <= s.len
    ensures var s', id := BeginSend(s, data), |s.tasks|;
      && |s'.tasks| == id + 1 && s'.tasks[..id] == s.tasks && s'.msgCount == s.msgCount
      && s'.tasks[id].Marking? && s'.tasks[id].data == data && s'.tasks[id].start == s.head
  {
    SendDoes(s, data);
  }

  lemma CopyMoves(s: State, id: nat)
    requires s.bufSize > 0 && id < |s.tasks| && s.tasks[id].Copying?
    requires Fits(s.que, s.bufSize, s.tasks[id].cur) && s.tasks[id].cur < |s.next|
    ensures var Copying(data, start, cur, i, chain) := s.tasks[id];
      StepTask(s, id).tasks == s.tasks[id :=
        if i + 1 == Bufs(|data|, s.bufSize) then Posted(MakeTag(Words(|data|), 0, start), data, chain)
        else Copying(data, start, s.next[cur], i + 1, chain)]
  {
  }
}
