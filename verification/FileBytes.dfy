/**
 Byte reads and writes of an open file (userfs/userfs_file_ops.c): an offset is moved behind the 1024 byte inode
 header and split into a virtual block and an offset in it; module FileBlocks does the rest.
 */
module FileBytes {
  import opened Common
  import opened Arith
  import opened FileBlocks

  /** Shards divide blocks, blocks divide the 32-bit range, and the header fits in a shard. */
  predicate GeoOk(g: Geo) {
    g.bs > 0 && g.shard >= INODE && g.bs >= g.shard && Rem(g.bs, g.shard) == 0 && Rem(WORD, g.bs) == 0
  }

  // ---------------------------------------------------------------------------------------------
  // Where an access goes

  /** An offset this large is refused. */
  predicate TooFar(off: nat) {
    off >= WORD - 1 - INODE
  }

  function PlanOf(g: Geo, off: nat, size: nat): (p: Plan)
    requires g.bs > 0 && g.shard > 0
  {
    var pos := off + INODE;
    var inBlock, inShard := Rem(pos, g.bs), Rem(pos, g.shard);
    Plan(Quot(pos, g.bs), inBlock, inShard, if (inShard + size) % WORD > g.shard then (g.shard - inBlock) % WORD else size)
  }

  /** The access lies in the first shard of its block. */
  predicate FirstShard(g: Geo, off: nat)
    requires g.bs > 0
  {
    Rem(off + INODE, g.bs) < g.shard
  }

  /** In the first shard, the offset in the shard is the offset in the block and clipping ends at the shard's end. */
  lemma PlanExact(g: Geo, off: nat, size: nat)
    requires GeoOk(g) && off + INODE + 1 < WORD && FirstShard(g, off) && Rem(off + INODE, g.shard) + size < WORD
    ensures var p := PlanOf(g, off, size);
      && p.inShard == p.inBlock && CopyFits(g, p, size) && off + p.n + INODE <= WORD
      && p.n == (if p.inBlock + size > g.shard then g.shard - p.inBlock else size)
      && (p.v == 0 ==> p.inBlock >= INODE)
  {
    RemRem(off + INODE, g.bs, g.shard);
    RoundUp(off + INODE, WORD, g.bs);
  }

  /**
   Whatever the shard and the size, the copy stays within its buffers exactly when nothing needs clipping, or the
   clipping test does not wrap and the offset in the block does not pass the shard size: clipping subtracts the
   offset in the block, not in the shard.
   */
  lemma CopyFitsIff(g: Geo, off: nat, size: nat)
    requires GeoOk(g) && g.bs < WORD && size < WORD
    ensures var p := PlanOf(g, off, size);
      CopyFits(g, p, size) <==> p.inShard + size <= g.shard || (p.inShard + size < WORD && p.inBlock <= g.shard)
  {
    var pos := off + INODE;
    var inBlock := Rem(pos, g.bs);
    RemRem(pos, g.bs, g.shard);
    if inBlock == g.shard {
      assert Rem(inBlock, g.shard) == Rem(inBlock - g.shard, g.shard);
    }
    ClipFits(g.shard, inBlock, Rem(pos, g.shard), size, PlanOf(g, off, size).n);
  }

  /** The clipping on its own. */
  lemma ClipFits(shard: nat, inBlock: nat, inShard: nat, size: nat, n: nat)
    requires inShard < shard < WORD && inBlock < WORD && size < WORD
    requires (inBlock < shard ==> inShard == inBlock) && (inBlock == shard ==> inShard == 0)
    requires n == if (inShard + size) % WORD > shard then (shard - inBlock) % WORD else size
    ensures n <= size && inShard + n <= shard <==> inShard + size <= shard || (inShard + size < WORD && inBlock <= shard)
  {
    if inShard + size >= WORD {
      ModStep(inShard, size, WORD);
      ModSmall(inShard, WORD);
    } else {
      ModSmall(inShard + size, WORD);
      if inBlock > shard {
        NegMod(shard - inBlock);
      } else {
        ModSmall(shard - inBlock, WORD);
      }
    }
  }

  lemma NegMod(x: int)
    requires x < 0 < x + WORD
    ensures x % WORD == x + WORD
  {
  }

  // ---------------------------------------------------------------------------------------------
  // Operations

  /** Where an access ends in the file. */
  function End(off: nat, n: nat): (end: nat) {
    (off + INODE + n - INODE) % WORD
  }

  /** userfs_file_write */
  function Write(s: State, g: Geo, off: nat, buf: seq<Byte>, got: Grant): (x: (State, nat))
    requires GeoOk(g) && StateOk(s, g) && GrantOk(g, got)
    requires off + INODE + 1 < WORD ==> Callable(s, g, PlanOf(g, off, |buf|), |buf|)
  {
    var p := PlanOf(g, off, |buf|);
    if TooFar(off) then (s, 0) else Put(s, g, p, End(off, p.n), buf, got)
  }

  /** userfs_file_read */
  function Read(s: State, g: Geo, off: nat, size: nat): (x: (State, seq<Byte>))
    requires GeoOk(g) && StateOk(s, g)
    requires off + INODE + 1 < WORD ==> Callable(s, g, PlanOf(g, off, size), size)
  {
    var p := PlanOf(g, off, size);
    if TooFar(off) then (s, []) else Take(s, g, p, End(off, p.n), size)
  }

  /** An access the table of `len` entries reaches, which fits in the header, in the first shard, not wrapping. */
  predicate Coherent(len: nat, g: Geo, off: nat, size: nat)
    requires g.bs > 0 && g.shard > 0
  {
    && off + INODE + 1 < WORD && FirstShard(g, off) && Rem(off + INODE, g.shard) + size < WORD
    && Quot(off + INODE, g.bs) < len <= ENTRIES
  }

  lemma CoherentFits(s: State, g: Geo, off: nat, size: nat)
    requires GeoOk(g) && Coherent(|s.table|, g, off, size)
    ensures InFirst(s, g, PlanOf(g, off, size), size) && Callable(s, g, PlanOf(g, off, size), size)
    ensures End(off, PlanOf(g, off, size).n) == off + PlanOf(g, off, size).n
  {
    PlanExact(g, off, size);
    ModSmall(off + PlanOf(g, off, size).n, WORD);
  }

  lemma OneByte(g: Geo, off: nat)
    requires GeoOk(g)
    ensures PlanOf(g, off, 1).n == 1 && (off + INODE + 1 < WORD ==> End(off, 1) == off + 1)
  {
    var inShard := Rem(off + INODE, g.shard);
    if inShard + 1 < WORD {
      ModSmall(inShard + 1, WORD);
    } else {
      DivModBasic(inShard + 1, WORD);
    }
  }

  /**
   Where the limit lies: in a block that is open or can be had, a byte can be written exactly as long as its place
   behind the header, and one more, are below 2^32; beyond, nothing happens.
   */
  lemma WriteByteIff(s: State, g: Geo, off: nat, x: Byte, got: Grant)
    requires GeoOk(g) && StateOk(s, g) && GrantOk(g, got)
    requires off + INODE + 1 < WORD ==> var p := PlanOf(g, off, 1);
      Callable(s, g, p, 1) && (s.table[p.v].Held? ==> KeepsHead(g, s.table[p.v], p.ShardOff())) && Succeeds(s, p.v, got)
    ensures var (s', n) := Write(s, g, off, [x], got);
      (n == 1 <==> off + INODE + 1 < WORD) && (n != 1 ==> n == 0 && s' == s)
  {
    OneByte(g, off);
  }

  /** The same limit for reading a byte of the file. */
  lemma ReadByteIff(s: State, g: Geo, off: nat)
    requires GeoOk(g) && StateOk(s, g) && off < s.size
    requires off + INODE + 1 < WORD ==> Callable(s, g, PlanOf(g, off, 1), 1)
    ensures var (s', bytes) := Read(s, g, off, 1);
      (|bytes| == 1 <==> off + INODE + 1 < WORD) && (|bytes| != 1 ==> bytes == [] && s' == s)
  {
    OneByte(g, off);
  }

  /** Offsets of one access share its block, and only they have its offsets there. */
  lemma Covered(g: Geo, off: nat, size: nat, q: nat)
    requires GeoOk(g) && off + INODE + 1 < WORD && FirstShard(g, off) && Rem(off + INODE, g.shard) + size < WORD
    ensures var p := PlanOf(g, off, size); var v, r := Quot(q + INODE, g.bs), Rem(q + INODE, g.bs);
      && (off <= q < off + p.n <==> v == p.v && p.inBlock <= r < p.inBlock + p.n)
      && (v == p.v ==> r - p.inBlock == q - off)
  {
    PlanExact(g, off, size);
    var p := PlanOf(g, off, size);
    if Quot(q + INODE, g.bs) == p.v {
      QuotSame(q + INODE, off + INODE, g.bs);
    }
    if off <= q < off + p.n {
      QuotStep(off + INODE, q - off, g.bs);
    }
  }

  // ---------------------------------------------------------------------------------------------
  // One access

  datatype Access = WriteAt(off: nat, buf: seq<Byte>, got: Grant) | ReadAt(off: nat, size: nat) {
    function Size(): (n: nat) { if WriteAt? then |buf| else size }
  }

  predicate AccessOk(len: nat, g: Geo, a: Access)
    requires g.bs > 0 && g.shard > 0
  {
    Coherent(len, g, a.off, a.Size()) && (a.WriteAt? ==> GrantOk(g, a.got))
  }

  function Planned(g: Geo, a: Access): (e: Event)
    requires g.bs > 0 && g.shard > 0
  {
    var p := PlanOf(g, a.off, a.Size());
    match a
    case WriteAt(off, buf, got) => Writing(p, End(off, p.n), buf, got)
    case ReadAt(off, size) => Reading(p, End(off, p.n), size)
  }

  lemma PlannedAllowed(s: State, g: Geo, a: Access)
    requires GeoOk(g) && AccessOk(|s.table|, g, a)
    ensures FileBlocks.Allowed(s, g, Planned(g, a))
    ensures Planned(g, a).end == a.off + Planned(g, a).p.n
  {
    CoherentFits(s, g, a.off, a.Size());
  }

  /** The state after an access. */
  function Do(s: State, g: Geo, a: Access): (s': State)
    requires GeoOk(g) && StateOk(s, g) && AccessOk(|s.table|, g, a)
    ensures StateOk(s', g) && |s'.table| == |s.table|
  {
    CoherentFits(s, g, a.off, a.Size());
    StepOk(s, g, Planned(g, a));
    match a
    case WriteAt(off, buf, got) => Write(s, g, off, buf, got).0
    case ReadAt(off, size) => Read(s, g, off, size).0
  }

  lemma DoIsStep(s: State, g: Geo, a: Access)
    requires GeoOk(g) && StateOk(s, g) && AccessOk(|s.table|, g, a)
    ensures FileBlocks.Allowed(s, g, Planned(g, a)) && Do(s, g, a) == Step(s, g, Planned(g, a))
  {
    PlannedAllowed(s, g, a);
  }

  /** The byte an access writes at file offset `q`, if it writes one. */
  function Writes(s: State, g: Geo, a: Access, q: nat): (b: Option<Byte>)
    requires GeoOk(g) && AccessOk(|s.table|, g, a)
  {
    CoherentFits(s, g, a.off, a.Size());
    var p := PlanOf(g, a.off, a.Size());
    if a.WriteAt? && Succeeds(s, p.v, a.got) && a.off <= q < a.off + p.n then Some(a.buf[q - a.off]) else None
  }

  /** What a write puts at `q`, going by the count it returns. */
  lemma WritesCounted(s: State, g: Geo, a: Access, q: nat, n: nat)
    requires GeoOk(g) && AccessOk(|s.table|, g, a) && a.WriteAt?
    requires var p := PlanOf(g, a.off, |a.buf|); p.v < |s.table| && n == if Succeeds(s, p.v, a.got) then p.n else 0
    ensures Writes(s, g, a, q) == if a.off <= q < a.off + n && q - a.off < |a.buf| then Some(a.buf[q - a.off]) else None
  {
    CoherentFits(s, g, a.off, a.Size());
  }

  /** A byte is written at an offset exactly when it is written at that offset's place in its block. */
  lemma WritesIsPuts(s: State, g: Geo, a: Access, q: nat)
    requires GeoOk(g) && AccessOk(|s.table|, g, a)
    ensures Writes(s, g, a, q) == Puts(s, Planned(g, a), Quot(q + INODE, g.bs), Rem(q + INODE, g.bs))
  {
    CoherentFits(s, g, a.off, a.Size());
    Covered(g, a.off, a.Size(), q);
  }

  /** The byte at file offset `q`, where the table reaches. */
  function ByteAt(s: State, g: Geo, q: nat): (b: Byte)
    requires g.bs > 0 && Quot(q + INODE, g.bs) < |s.table|
  {
    Cell(s, Quot(q + INODE, g.bs), Rem(q + INODE, g.bs))
  }

  /** The offset lies in a block that was never allocated. */
  predicate InHole(s: State, g: Geo, q: nat)
    requires g.bs > 0 && Quot(q + INODE, g.bs) < |s.table|
  {
    s.table[Quot(q + INODE, g.bs)].Hole?
  }

  /** `bytes[i]` is the file's byte at `off + i`. */
  predicate ByteReads(s: State, g: Geo, off: nat, bytes: seq<Byte>, i: nat)
    requires g.bs > 0 && i < |bytes|
  {
    FirstShard(g, off + i) && Quot(off + i + INODE, g.bs) < |s.table| && bytes[i] == ByteAt(s, g, off + i)
  }

  /** A read returns the bytes it asks for if they end within the file, else nothing. */
  lemma ReadReturns(s: State, g: Geo, off: nat, size: nat)
    requires GeoOk(g) && StateOk(s, g) && Coherent(|s.table|, g, off, size)
    ensures Callable(s, g, PlanOf(g, off, size), size)
    ensures var bytes := Read(s, g, off, size).1; var n := PlanOf(g, off, size).n;
      && |bytes| == (if off + n <= s.size then n else 0)
      && (forall i: nat {:trigger ByteReads(s, g, off, bytes, i)} :: i < |bytes| ==> ByteReads(s, g, off, bytes, i))
  {
    CoherentFits(s, g, off, size);
    var p := PlanOf(g, off, size);
    TakeReturns(s, g, p, End(off, p.n), size);
    var bytes := Read(s, g, off, size).1;
    forall i: nat | i < |bytes| ensures ByteReads(s, g, off, bytes, i) {
      PlaceOf(g, off, size, i);
      assert bytes[i] == Cell(s, p.v, p.inBlock + i);
    }
  }

  /** The i-th byte of an access lies `i` bytes further in its block. */
  lemma PlaceOf(g: Geo, off: nat, size: nat, i: nat)
    requires GeoOk(g) && off + INODE + 1 < WORD && FirstShard(g, off) && Rem(off + INODE, g.shard) + size < WORD
    requires i < PlanOf(g, off, size).n
    ensures var p := PlanOf(g, off, size);
      Quot(off + i + INODE, g.bs) == p.v && Rem(off + i + INODE, g.bs) == p.inBlock + i < g.shard
  {
    PlanExact(g, off, size);
    QuotStep(off + INODE, i, g.bs);
  }

  /**
   What the byte at `q` is in `s`, when `put` was last written there since `s0`: that byte, or the old one, or zero in
   a block still unallocated.
   */
  predicate Recalls(s0: State, s: State, g: Geo, q: nat, put: Option<Byte>)
    requires g.bs > 0 && Quot(q + INODE, g.bs) < |s0.table| == |s.table|
  {
    && (put.Some? ==> !InHole(s, g, q) && ByteAt(s, g, q) == put.value)
    && (put.None? && !InHole(s0, g, q) ==> !InHole(s, g, q) && ByteAt(s, g, q) == ByteAt(s0, g, q))
    && (InHole(s, g, q) ==> InHole(s0, g, q) && put.None? && ByteAt(s, g, q) == 0)
  }

  /** One more access: what it writes at `q`, if anything, is what `q` holds then. */
  lemma DoRecalls(s0: State, s: State, g: Geo, a: Access, q: nat, put: Option<Byte>)
    requires GeoOk(g) && StateOk(s, g) && AccessOk(|s.table|, g, a)
    requires FirstShard(g, q) && Quot(q + INODE, g.bs) < |s0.table| == |s.table| && Recalls(s0, s, g, q, put)
    ensures var now := Writes(s, g, a, q); Recalls(s0, Do(s, g, a), g, q, if now.Some? then now else put)
  {
    DoIsStep(s, g, a);
    WritesIsPuts(s, g, a, q);
    StepBytes(s, g, Planned(g, a), Quot(q + INODE, g.bs), Rem(q + INODE, g.bs));
  }

  /** The size is raised to the end of a write that finds or gets its block. */
  lemma DoSize(s: State, g: Geo, a: Access)
    requires GeoOk(g) && StateOk(s, g) && AccessOk(|s.table|, g, a)
    ensures var p := PlanOf(g, a.off, a.Size());
      && p.v < |s.table|
      && Do(s, g, a).size == if a.WriteAt? && Succeeds(s, p.v, a.got) then Max(s.size, a.off + p.n) else s.size
  {
    DoIsStep(s, g, a);
    PlannedAllowed(s, g, a);
    StepSize(s, g, Planned(g, a));
  }

  // ---------------------------------------------------------------------------------------------
  // Beyond the first shard

  /** A write into an open block changes the bytes it names and no other byte of the block. */
  predicate Lands(s: State, g: Geo, off: nat, buf: seq<Byte>)
    requires GeoOk(g) && StateOk(s, g) && off + INODE + 1 < WORD && Callable(s, g, PlanOf(g, off, |buf|), |buf|)
  {
    var p := PlanOf(g, off, |buf|);
    var s' := Write(s, g, off, buf, None).0;
    |s'.table| == |s.table| && forall r {:trigger Cell(s', p.v, r)} :: 0 <= r < g.bs ==>
      Cell(s', p.v, r) == if p.inBlock <= r < p.inBlock + |buf| then buf[r - p.inBlock] else Cell(s, p.v, r)
  }

  /**
   Writing into a block that is open lands where it should, for every data, exactly when the offset lies in the
   block's first shard; elsewhere the bytes go to the same place of the first shard.
   */
  lemma LandsIff(s: State, g: Geo, off: nat, n: nat)
    requires GeoOk(g) && StateOk(s, g) && off + INODE + 1 < WORD && n > 0
    requires Rem(off + INODE, g.shard) + n <= g.shard < WORD && Quot(off + INODE, g.bs) < |s.table|
    requires s.table[Quot(off + INODE, g.bs)].Held?
    ensures Callable(s, g, PlanOf(g, off, n), n)
    ensures (forall buf: seq<Byte> {:trigger Lands(s, g, off, buf)} :: |buf| == n ==> Lands(s, g, off, buf))
       <==> FirstShard(g, off)
  {
    var p := PlanOf(g, off, n);
    UnclippedPlan(s, g, off, n);
    if p.inBlock < g.shard {
      forall buf: seq<Byte> | |buf| == n ensures Lands(s, g, off, buf) {
        InFirstLands(s, g, off, buf);
      }
    } else {
      var other: Byte := (Cell(s, p.v, p.inShard) + 1) % 256;
      var buf: seq<Byte> := seq(n, _ => other);
      StrayWrite(s, g, off, buf);
      assert !Lands(s, g, off, buf);
    }
  }

  lemma UnclippedPlan(s: State, g: Geo, off: nat, n: nat)
    requires GeoOk(g) && StateOk(s, g) && Rem(off + INODE, g.shard) + n <= g.shard < WORD
    requires Quot(off + INODE, g.bs) < |s.table|
    ensures var p := PlanOf(g, off, n);
      p.n == n && Callable(s, g, p, n) && p.inShard < g.shard && (p.inBlock < g.shard ==> p.inShard == p.inBlock)
  {
    RemRem(off + INODE, g.bs, g.shard);
    RoundUp(Rem(off + INODE, g.bs), g.bs, g.shard);
  }

  lemma InFirstLands(s: State, g: Geo, off: nat, buf: seq<Byte>)
    requires GeoOk(g) && StateOk(s, g) && off + INODE + 1 < WORD
    requires var p := PlanOf(g, off, |buf|);
      Callable(s, g, p, |buf|) && p.n == |buf| && p.inShard == p.inBlock && s.table[p.v].Held?
    ensures Lands(s, g, off, buf)
  {
    assert BlockOk(s, g, s.table[PlanOf(g, off, |buf|).v]);
  }

  /** Beyond the first shard, the first byte written shows up at the shard offset of the first shard. */
  lemma StrayWrite(s: State, g: Geo, off: nat, buf: seq<Byte>)
    requires GeoOk(g) && StateOk(s, g) && off + INODE + 1 < WORD && buf != []
    requires var p := PlanOf(g, off, |buf|);
      Callable(s, g, p, |buf|) && p.n == |buf| && p.inShard < g.shard <= p.inBlock && s.table[p.v].Held?
    ensures var p := PlanOf(g, off, |buf|); var s' := Write(s, g, off, buf, None).0;
      p.v < |s'.table| && Cell(s', p.v, p.inShard) == buf[0]
  {
    assert BlockOk(s, g, s.table[PlanOf(g, off, |buf|).v]);
  }
}
