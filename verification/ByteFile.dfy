/**
 Reads and writes of an open file on the bytes of its buffers (userfs/userfs_file_ops.c): the offset computation of
 module FileBytes in front of the operations of module InodeBuffer, over whole runs.
 */
module ByteFile {
  import opened Common
  import opened Arith
  import opened FileBlocks
  import F = FileBytes
  import opened InodeBuffer
  import DH = DentryHash

  /** userfs_file_write */
  function Write(m: Mem, g: Geo, off: nat, buf: seq<Byte>, env: Env): (x: (Mem, nat))
    requires F.GeoOk(g) && GrantOk(g, env.got) && (off + INODE + 1 < WORD ==> Ready(m, g, F.PlanOf(g, off, |buf|), |buf|))
  {
    var p := F.PlanOf(g, off, |buf|);
    if F.TooFar(off) then (m, 0) else InodeBuffer.Put(m, g, p, F.End(off, p.n), buf, env)
  }

  /** userfs_file_read */
  function Read(m: Mem, g: Geo, off: nat, size: nat, env: Env): (x: (Mem, seq<Byte>))
    requires F.GeoOk(g) && (off + INODE + 1 < WORD ==> Ready(m, g, F.PlanOf(g, off, size), size))
  {
    var p := F.PlanOf(g, off, size);
    if F.TooFar(off) then (m, []) else InodeBuffer.Take(m, g, p, F.End(off, p.n), size, env)
  }

  datatype Access = WriteAt(off: nat, buf: seq<Byte>, env: Env) | ReadAt(off: nat, size: nat, env: Env) {
    function Size(): (n: nat) { if WriteAt? then |buf| else size }
  }

  /** The access as module FileBytes sees it. */
  function Image(a: Access): (b: F.Access) {
    match a
    case WriteAt(off, buf, env) => F.WriteAt(off, buf, env.got)
    case ReadAt(off, size, _) => F.ReadAt(off, size)
  }

  /** The access is coherent, within the 122 blocks of the table, and its environment proper. */
  predicate AccessOk(m: Mem, g: Geo, len: nat, a: Access)
    requires g.bs > 0 && g.shard > 0
  {
    F.Coherent(len, g, a.off, a.Size()) && GrantOk(g, a.env.got) && Fresh(m, a.env.spot)
  }

  lemma AccessProper(m: Mem, g: Geo, len: nat, a: Access)
    requires F.GeoOk(g) && Good(m, g, len) && AccessOk(m, g, len, a)
    ensures var p := F.PlanOf(g, a.off, a.Size());
      && Proper(m, g, len, p, F.End(a.off, p.n), a.Size(), a.env) && Ready(m, g, p, a.Size())
      && F.AccessOk(len, g, Image(a)) && StateOk(Abs(m, len), g)
  {
    var p := F.PlanOf(g, a.off, a.Size());
    F.CoherentFits(Abs(m, len), g, a.off, a.Size());
    ProperReady(m, g, len, p, F.End(a.off, p.n), a.Size(), a.env);
    GoodStateOk(m, g, len);
  }

  /** The buffers after an access. */
  function Do(m: Mem, g: Geo, len: nat, a: Access): (m': Mem)
    requires F.GeoOk(g) && Good(m, g, len) && AccessOk(m, g, len, a)
  {
    AccessProper(m, g, len, a);
    match a
    case WriteAt(off, buf, env) => Write(m, g, off, buf, env).0
    case ReadAt(off, size, env) => Read(m, g, off, size, env).0
  }

  /** How many bytes an access wrote. */
  function Wrote(m: Mem, g: Geo, len: nat, a: Access): (n: nat)
    requires F.GeoOk(g) && Good(m, g, len) && AccessOk(m, g, len, a)
  {
    AccessProper(m, g, len, a);
    if a.WriteAt? then Write(m, g, a.off, a.buf, a.env).1 else 0
  }

  /** An access to the bytes is the access to the file they stand for. */
  lemma DoRefines(m: Mem, g: Geo, len: nat, a: Access)
    requires F.GeoOk(g) && Good(m, g, len) && AccessOk(m, g, len, a)
    ensures StateOk(Abs(m, len), g) && F.AccessOk(len, g, Image(a))
    ensures var m' := Do(m, g, len, a); Good(m', g, len) && Abs(m', len) == F.Do(Abs(m, len), g, Image(a))
  {
    AccessProper(m, g, len, a);
    var p := F.PlanOf(g, a.off, a.Size());
    match a {
      case WriteAt(off, buf, env) => PutRefines(m, g, len, p, F.End(off, p.n), buf, env);
      case ReadAt(off, size, env) => TakeRefines(m, g, len, p, F.End(off, p.n), size, env);
    }
  }

  lemma WroteCount(m: Mem, g: Geo, len: nat, a: Access)
    requires F.GeoOk(g) && Good(m, g, len) && AccessOk(m, g, len, a) && a.WriteAt?
    ensures var p := F.PlanOf(g, a.off, |a.buf|);
      p.v < len && Wrote(m, g, len, a) == if Succeeds(Abs(m, len), p.v, a.env.got) then p.n else 0
  {
    AccessProper(m, g, len, a);
    var p := F.PlanOf(g, a.off, |a.buf|);
    PutRefines(m, g, len, p, F.End(a.off, p.n), a.buf, a.env);
    BlocksPut(Abs(m, len), g, p, F.End(a.off, p.n), a.buf, a.env.got);
  }

  /** The limit on the bytes of the buffers: a byte is written, where its block can be had, exactly below it. */
  lemma WriteByteIff(m: Mem, g: Geo, len: nat, off: nat, x: Byte, env: Env)
    requires F.GeoOk(g) && Good(m, g, len) && GrantOk(g, env.got) && Fresh(m, env.spot)
    requires off + INODE + 1 < WORD ==>
      F.FirstShard(g, off) && Quot(off + INODE, g.bs) < len && Succeeds(Abs(m, len), Quot(off + INODE, g.bs), env.got)
    ensures off + INODE + 1 < WORD ==> Ready(m, g, F.PlanOf(g, off, 1), 1)
    ensures var (m', n) := Write(m, g, off, [x], env);
      (n == 1 <==> off + INODE + 1 < WORD) && (n != 1 ==> n == 0 && m' == m)
  {
    if off + INODE + 1 < WORD {
      F.OneByte(g, off);
      AccessProper(m, g, len, WriteAt(off, [x], env));
      WroteCount(m, g, len, WriteAt(off, [x], env));
    }
  }

  lemma ReadByteIff(m: Mem, g: Geo, len: nat, off: nat, env: Env)
    requires F.GeoOk(g) && Good(m, g, len) && Fresh(m, env.spot) && GrantOk(g, env.got) && off < SizeOf(m.inode)
    requires off + INODE + 1 < WORD ==> F.FirstShard(g, off) && Quot(off + INODE, g.bs) < len
    ensures off + INODE + 1 < WORD ==> Ready(m, g, F.PlanOf(g, off, 1), 1)
    ensures var (m', bytes) := Read(m, g, off, 1, env);
      (|bytes| == 1 <==> off + INODE + 1 < WORD) && (|bytes| != 1 ==> bytes == [] && m' == m)
  {
    if off + INODE + 1 < WORD {
      ReadRefines(m, g, len, off, 1, env);
      F.ReadByteIff(Abs(m, len), g, off);
    }
  }

  /** The byte at file offset `q` of an access that returned `n`, if it wrote there. */
  function PutsAt(a: Access, n: nat, q: nat): (b: Option<Byte>) {
    if a.WriteAt? && a.off <= q < a.off + n && q - a.off < |a.buf| then Some(a.buf[q - a.off]) else None
  }

  lemma CountedPuts(m: Mem, g: Geo, len: nat, a: Access, q: nat, n: nat)
    requires F.GeoOk(g) && Good(m, g, len) && AccessOk(m, g, len, a)
    requires a.WriteAt? ==> var p := F.PlanOf(g, a.off, |a.buf|);
      p.v < len && n == if Succeeds(Abs(m, len), p.v, a.env.got) then p.n else 0
    ensures F.AccessOk(len, g, Image(a)) && F.Writes(Abs(m, len), g, Image(a), q) == PutsAt(a, n, q)
  {
    if a.WriteAt? {
      F.WritesCounted(Abs(m, len), g, Image(a), q, n);
    }
  }

  // ---------------------------------------------------------------------------------------------
  // Runs

  ghost predicate StepAt(ms: seq<Mem>, g: Geo, len: nat, acc: seq<Access>, k: nat)
    requires F.GeoOk(g) && |ms| == |acc| + 1 && k < |acc|
  {
    Good(ms[k], g, len) && AccessOk(ms[k], g, len, acc[k]) && ms[k + 1] == Do(ms[k], g, len, acc[k])
  }

  /** The buffers before, between and after the accesses of a run. */
  ghost predicate IsRun(ms: seq<Mem>, g: Geo, len: nat, acc: seq<Access>)
    requires F.GeoOk(g)
  {
    && |ms| == |acc| + 1 && Good(ms[0], g, len)
    && forall k: nat {:trigger StepAt(ms, g, len, acc, k)} :: k < |acc| ==> StepAt(ms, g, len, acc, k)
  }

  lemma RunGood(ms: seq<Mem>, g: Geo, len: nat, acc: seq<Access>, k: nat)
    requires F.GeoOk(g) && IsRun(ms, g, len, acc) && k < |ms|
    ensures Good(ms[k], g, len)
  {
    if k > 0 {
      assert StepAt(ms, g, len, acc, k - 1);
      DoRefines(ms[k - 1], g, len, acc[k - 1]);
    }
  }

  /** The byte last written at `q` in the first `k` accesses of a run, going by what they returned. */
  ghost function LastWrite(ms: seq<Mem>, g: Geo, len: nat, acc: seq<Access>, q: nat, k: nat): (b: Option<Byte>)
    requires F.GeoOk(g) && IsRun(ms, g, len, acc) && k <= |acc|
    decreases k
  {
    if k == 0 then None
    else
      assert StepAt(ms, g, len, acc, k - 1);
      var now := PutsAt(acc[k - 1], Wrote(ms[k - 1], g, len, acc[k - 1]), q);
      if now.Some? then now else LastWrite(ms, g, len, acc, q, k - 1)
  }

  /** The furthest end of a write, among the first `k` accesses, that found or got its block. */
  ghost function LastEnd(ms: seq<Mem>, g: Geo, len: nat, acc: seq<Access>, k: nat): (n: nat)
    requires F.GeoOk(g) && IsRun(ms, g, len, acc) && k <= |acc|
    decreases k
  {
    if k == 0 then 0
    else
      assert StepAt(ms, g, len, acc, k - 1);
      Max(LastEnd(ms, g, len, acc, k - 1), EndOf(ms[k - 1], g, len, acc[k - 1]))
  }

  ghost function EndOf(m: Mem, g: Geo, len: nat, a: Access): (n: nat)
    requires F.GeoOk(g) && Good(m, g, len)
  {
    var p := F.PlanOf(g, a.off, a.Size());
    if a.WriteAt? && p.v < len && Succeeds(Abs(m, len), p.v, a.env.got) then a.off + p.n else 0
  }

  lemma StepRecalls(s0: State, m: Mem, g: Geo, len: nat, a: Access, q: nat, put: Option<Byte>)
    requires F.GeoOk(g) && Good(m, g, len) && AccessOk(m, g, len, a)
    requires F.FirstShard(g, q) && Quot(q + INODE, g.bs) < |s0.table| == len && F.Recalls(s0, Abs(m, len), g, q, put)
    ensures var now := PutsAt(a, Wrote(m, g, len, a), q); var m' := Do(m, g, len, a);
      |m'.inode| >= INODE && F.Recalls(s0, Abs(m', len), g, q, if now.Some? then now else put)
  {
    DoRefines(m, g, len, a);
    if a.WriteAt? {
      WroteCount(m, g, len, a);
    }
    CountedPuts(m, g, len, a, q, Wrote(m, g, len, a));
    F.DoRecalls(s0, Abs(m, len), g, Image(a), q, put);
  }

  /** Over every run, the byte at each offset is the one last written there. */
  lemma {:induction false} RunRecalls(ms: seq<Mem>, g: Geo, len: nat, acc: seq<Access>, q: nat, k: nat)
    requires F.GeoOk(g) && IsRun(ms, g, len, acc) && k <= |acc| && F.FirstShard(g, q) && Quot(q + INODE, g.bs) < len
    ensures |ms[k].inode| >= INODE && len <= ENTRIES
    ensures F.Recalls(Abs(ms[0], len), Abs(ms[k], len), g, q, LastWrite(ms, g, len, acc, q, k))
  {
    if k > 0 {
      RunRecalls(ms, g, len, acc, q, k - 1);
      assert StepAt(ms, g, len, acc, k - 1);
      StepRecalls(Abs(ms[0], len), ms[k - 1], g, len, acc[k - 1], q, LastWrite(ms, g, len, acc, q, k - 1));
    }
  }

  // ---------------------------------------------------------------------------------------------
  // What a file keeps

  /** A read of the bytes is the read of the file. */
  lemma ReadRefines(m: Mem, g: Geo, len: nat, off: nat, size: nat, env: Env)
    requires F.GeoOk(g) && Good(m, g, len) && AccessOk(m, g, len, ReadAt(off, size, env))
    ensures Ready(m, g, F.PlanOf(g, off, size), size) && StateOk(Abs(m, len), g)
    ensures Callable(Abs(m, len), g, F.PlanOf(g, off, size), size)
    ensures Read(m, g, off, size, env).1 == F.Read(Abs(m, len), g, off, size).1
  {
    AccessProper(m, g, len, ReadAt(off, size, env));
    F.CoherentFits(Abs(m, len), g, off, size);
    var p := F.PlanOf(g, off, size);
    TakeRefines(m, g, len, p, F.End(off, p.n), size, env);
  }

  lemma ReadByte(m: Mem, g: Geo, len: nat, off: nat, size: nat, env: Env, i: nat)
    requires F.GeoOk(g) && Good(m, g, len) && AccessOk(m, g, len, ReadAt(off, size, env))
    ensures Ready(m, g, F.PlanOf(g, off, size), size)
    ensures var bytes := Read(m, g, off, size, env).1;
      i < |bytes| ==> F.FirstShard(g, off + i) && Quot(off + i + INODE, g.bs) < len
                      && bytes[i] == F.ByteAt(Abs(m, len), g, off + i)
  {
    ReadRefines(m, g, len, off, size, env);
    F.ReadReturns(Abs(m, len), g, off, size);
    var bytes := F.Read(Abs(m, len), g, off, size).1;
    if i < |bytes| {
      assert F.ByteReads(Abs(m, len), g, off, bytes, i);
    }
  }

  /** A byte of the file is what was last written there since `s0`. */
  predicate Holds(s0: State, m: Mem, g: Geo, len: nat, q: nat, put: Option<Byte>, b: Byte)
    requires |m.inode| >= INODE && len <= ENTRIES && g.bs > 0
  {
    && Quot(q + INODE, g.bs) < len == |s0.table| && b == F.ByteAt(Abs(m, len), g, q)
    && F.Recalls(s0, Abs(m, len), g, q, put)
  }

  lemma RunHolds(ms: seq<Mem>, g: Geo, len: nat, acc: seq<Access>, off: nat, size: nat, env: Env, i: nat, b: Byte)
    requires F.GeoOk(g) && IsRun(ms, g, len, acc) && |ms[|acc|].inode| >= INODE && len <= ENTRIES
    requires F.FirstShard(g, off + i) && Quot(off + i + INODE, g.bs) < len
    requires b == F.ByteAt(Abs(ms[|acc|], len), g, off + i)
    ensures Holds(Abs(ms[0], len), ms[|acc|], g, len, off + i, LastWrite(ms, g, len, acc, off + i, |acc|), b)
  {
    RunRecalls(ms, g, len, acc, off + i, |acc|);
  }

  /**
   After any run of reads and writes to the bytes of the buffers, with size and table among those bytes, each byte a
   read returns is the one last written at its offset, or the old one, or zero in a block never allocated.
   */
  lemma LastWriteWins(ms: seq<Mem>, g: Geo, len: nat, acc: seq<Access>, off: nat, size: nat, env: Env, i: nat)
    requires F.GeoOk(g) && IsRun(ms, g, len, acc)
    requires AccessOk(ms[|acc|], g, len, ReadAt(off, size, env))
    ensures Ready(ms[|acc|], g, F.PlanOf(g, off, size), size) && len <= ENTRIES
    ensures var bytes := Read(ms[|acc|], g, off, size, env).1;
      i < |bytes| ==>
        Holds(Abs(ms[0], len), ms[|acc|], g, len, off + i, LastWrite(ms, g, len, acc, off + i, |acc|), bytes[i])
  {
    RunGood(ms, g, len, acc, |acc|);
    ReadByte(ms[|acc|], g, len, off, size, env, i);
    var bytes := Read(ms[|acc|], g, off, size, env).1;
    if i < |bytes| {
      RunHolds(ms, g, len, acc, off, size, env, i, bytes[i]);
    }
  }

  lemma StepEnds(m: Mem, g: Geo, len: nat, a: Access)
    requires F.GeoOk(g) && Good(m, g, len) && AccessOk(m, g, len, a)
    ensures var m' := Do(m, g, len, a);
      |m'.inode| >= INODE && SizeOf(m'.inode) == Max(SizeOf(m.inode), EndOf(m, g, len, a))
  {
    DoRefines(m, g, len, a);
    F.DoSize(Abs(m, len), g, Image(a));
  }

  lemma SizeNext(ms: seq<Mem>, g: Geo, len: nat, acc: seq<Access>, k: nat)
    requires F.GeoOk(g) && IsRun(ms, g, len, acc) && k < |acc|
    ensures Good(ms[k], g, len) && |ms[k + 1].inode| >= INODE
    ensures SizeOf(ms[k + 1].inode) == Max(SizeOf(ms[k].inode), EndOf(ms[k], g, len, acc[k]))
  {
    assert StepAt(ms, g, len, acc, k);
    StepEnds(ms[k], g, len, acc[k]);
  }

  lemma LastEndNext(ms: seq<Mem>, g: Geo, len: nat, acc: seq<Access>, k: nat)
    requires F.GeoOk(g) && IsRun(ms, g, len, acc) && k < |acc|
    ensures Good(ms[k], g, len)
    ensures LastEnd(ms, g, len, acc, k + 1) == Max(LastEnd(ms, g, len, acc, k), EndOf(ms[k], g, len, acc[k]))
  {
    assert StepAt(ms, g, len, acc, k);
  }

  /** Over every run, the size field holds the furthest end of any write. */
  lemma {:induction false} SizeIsLastEnd(ms: seq<Mem>, g: Geo, len: nat, acc: seq<Access>, k: nat)
    requires F.GeoOk(g) && IsRun(ms, g, len, acc) && k <= |acc|
    ensures |ms[k].inode| >= INODE && SizeOf(ms[k].inode) == Max(SizeOf(ms[0].inode), LastEnd(ms, g, len, acc, k))
  {
    if k > 0 {
      var j: nat := k - 1;
      SizeIsLastEnd(ms, g, len, acc, j);
      LastEndNext(ms, g, len, acc, j);
      SizeNext(ms, g, len, acc, j);
    }
  }

  /** How much a read returns after a run: all of it, or nothing when it ends past the furthest end written. */
  lemma ReadLengthAfterRun(ms: seq<Mem>, g: Geo, len: nat, acc: seq<Access>, off: nat, size: nat, env: Env)
    requires F.GeoOk(g) && IsRun(ms, g, len, acc)
    requires AccessOk(ms[|acc|], g, len, ReadAt(off, size, env))
    ensures Ready(ms[|acc|], g, F.PlanOf(g, off, size), size)
    ensures var n := F.PlanOf(g, off, size).n;
      |Read(ms[|acc|], g, off, size, env).1| ==
        if off + n <= Max(SizeOf(ms[0].inode), LastEnd(ms, g, len, acc, |acc|)) then n else 0
  {
    SizeIsLastEnd(ms, g, len, acc, |acc|);
    RunGood(ms, g, len, acc, |acc|);
    ReadRefines(ms[|acc|], g, len, off, size, env);
    F.ReadReturns(Abs(ms[|acc|], len), g, off, size);
  }

  /** Header bytes outside the times, the size and the entries of the blocks accessed are as they were. */
  lemma {:induction false} HeaderKept(ms: seq<Mem>, g: Geo, len: nat, acc: seq<Access>, r: nat, k: nat)
    requires F.GeoOk(g) && IsRun(ms, g, len, acc) && r < INODE && k <= |acc|
    requires forall i {:trigger acc[i]} :: 0 <= i < |acc| ==> !Field(Quot(acc[i].off + INODE, g.bs), r)
    ensures Good(ms[k], g, len) && ms[k].inode[r] == ms[0].inode[r]
  {
    RunGood(ms, g, len, acc, k);
    if k > 0 {
      HeaderKept(ms, g, len, acc, r, k - 1);
      assert StepAt(ms, g, len, acc, k - 1);
      DoKeepsHeader(ms[k - 1], g, len, acc[k - 1], r);
    }
  }

  lemma DoKeepsHeader(m: Mem, g: Geo, len: nat, a: Access, r: nat)
    requires F.GeoOk(g) && Good(m, g, len) && AccessOk(m, g, len, a) && r < INODE
    requires !Field(Quot(a.off + INODE, g.bs), r)
    ensures var m' := Do(m, g, len, a); r < |m'.inode| && m'.inode[r] == m.inode[r]
  {
    AccessProper(m, g, len, a);
    var p := F.PlanOf(g, a.off, a.Size());
    assert EntryOk(m, g, p.v);
    match a {
      case WriteAt(off, buf, env) => WriteKeepsHeader(m, g, p, F.End(off, p.n), buf, env, r);
      case ReadAt(off, size, env) => ReadKeepsHeader(m, g, p, F.End(off, p.n), size, env, r);
    }
  }

  // ---------------------------------------------------------------------------------------------
  // Beyond block 121

  /** Room for eight bytes of the file in the first shard. */
  predicate Roomy(g: Geo) {
    F.GeoOk(g) && INODE + 8 <= g.shard < WORD
  }

  lemma FirstPlan(g: Geo)
    requires Roomy(g)
    ensures F.PlanOf(g, 0, 8) == Plan(0, INODE, INODE, 8) && F.End(0, 8) == 8
  {
  }

  /** Eight zeros written at the beginning of a new file. */
  lemma FirstEight(g: Geo, at: nat, nr: nat, junk: seq<Byte>, disk: seq<seq<Byte>>, env: Env)
    requires Roomy(g) && |junk| == g.shard && 0 < at < DH.TOP && GrantOk(g, env.got)
    ensures Ready(Created(at, nr, junk, disk, env.now), g, F.PlanOf(g, 0, 8), 8)
    ensures var m1 := Write(Created(at, nr, junk, disk, env.now), g, 0, Zeros(8), env).0;
      Good(m1, g, 1) && m1.at == at && SizeOf(m1.inode) == 8 && Entry(m1.inode, ENTRIES) == 0
  {
    FirstPlan(g);
    CreatedGood(at, nr, junk, disk, env.now, g, 1);
    var m := Created(at, nr, junk, disk, env.now);
    DH.TagRoundTrip(true, at);
    FirstDoes(m, g, 1, INODE, Zeros(8), 8, env.now);
    var m1 := Write(m, g, 0, Zeros(8), env).0;
    assert Zeros(8)[..8] == Zeros(8);
    var inode' := Stamped(Splice(m.inode, INODE, Zeros(8)), 8, env.now);
    assert m1.inode == inode';
    StepGood(m, m1, g, 1, 0);
    assert inode'[INODE..INODE + 8] == inode'[INODE..][..8] == Zeros(8);
    ValZeros(Zeros(8));
  }

  /** Reading the first eight bytes after block 122 was opened. */
  lemma Reread(m1: Mem, g: Geo, p: Plan, end: nat, buf: seq<Byte>, env: Env)
    requires Roomy(g) && Good(m1, g, 1) && SizeOf(m1.inode) == 8 && p.v == ENTRIES && end < WORD
    requires Ready(m1, g, p, |buf|) && Opens(m1, g, p, env) && GrantOk(g, env.got)
    ensures var m2 := InodeBuffer.Put(m1, g, p, end, buf, env).0;
      Ready(m2, g, F.PlanOf(g, 0, 8), 8) && Read(m2, g, 0, 8, env).1 == m2.inode[INODE..INODE + 8]
  {
    FirstPlan(g);
    OpensPut(m1, g, p, end, buf, env);
    assert EntryOk(m1, g, 0);
    DH.TagRoundTrip(true, m1.at);
    var w, lo := DH.Tagged(true, env.spot), TABLE + 8 * p.v;
    var inode1 := WithEntry(m1.inode, p.v, w);
    StoredApart(m1.inode, lo, lo + 8, w, SIZE, SIZE + 4);
    StoredApart(m1.inode, lo, lo + 8, w, TABLE, TABLE + 8);
    StampedDoes(inode1, 1, end, env.now);
    assert Entry(Stamped(inode1, end, env.now), 0) == Entry(inode1, 0) == Entry(m1.inode, 0);
  }

  /**
   In a new file of any geometry, eight zeros are written at offset 0 and then one byte in block 122. Both writes
   succeed, and reading offset 0 then returns the address of the second write's buffer instead of the zeros.
   */
  lemma Write122Breaks(g: Geo, at: nat, nr: nat, junk: seq<Byte>, disk: seq<seq<Byte>>, off: nat, x: Byte, env: Env)
    requires Roomy(g) && |junk| == g.shard && 0 < at < DH.TOP && env.got.Some? && GrantOk(g, env.got)
    requires 0 < env.spot < DH.TOP && off + INODE + 1 < WORD && F.FirstShard(g, off) && Quot(off + INODE, g.bs) == ENTRIES
    ensures Ready(Created(at, nr, junk, disk, env.now), g, F.PlanOf(g, 0, 8), 8)
    ensures var m1 := Write(Created(at, nr, junk, disk, env.now), g, 0, Zeros(8), env).0;
      && Ready(m1, g, F.PlanOf(g, off, 1), 1)
      && var (m2, n) := Write(m1, g, off, [x], env);
         && n == 1 && Ready(m2, g, F.PlanOf(g, 0, 8), 8)
         && Val(Read(m2, g, 0, 8, env).1) == DH.Tagged(true, env.spot)
  {
    FirstEight(g, at, nr, junk, disk, env);
    var m1 := Write(Created(at, nr, junk, disk, env.now), g, 0, Zeros(8), env).0;
    F.PlanExact(g, off, 1);
    var p := F.PlanOf(g, off, 1);
    Block122Overwrites(m1, g, p, F.End(off, p.n), [x], env);
    Reread(m1, g, p, F.End(off, p.n), [x], env);
  }
}
