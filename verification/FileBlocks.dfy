/**
 The blocks of an open file (userfs/userfs_file_ops.c): the inode's table leads from a virtual block to nothing, to
 a block on disk, or to a buffer in memory that holds one shard of the block. Accesses arrive here split into
 block and offset; module FileBytes does the splitting.
 */
module FileBlocks {
  import opened Common

  /** The bytes kept for the inode in front of the file, and the table entries that fit in them. */
  const INODE: nat := 1024
  const ENTRIES: nat := 122

  /** Block and shard size in bytes. */
  datatype Geo = Geo(bs: nat, shard: nat)

  /**
   An entry of the inode's table: address 0, a block number, or the buffer of an open block, which holds the
   block's bytes from `off` on.
   */
  datatype Block = Hole | Closed(nr: nat) | Held(nr: nat, off: nat, data: seq<Byte>)

  /**
   An open file with size and table apart from the bytes that hold them, which module InodeBuffer puts back;
   `disk` are the data blocks as they were when the file was opened.
   */
  datatype State = State(size: nat, table: seq<Block>, disk: seq<seq<Byte>>)

  /** The virtual block, the offset in it, the offset in its shard, and the length after clipping. */
  datatype Plan = Plan(v: nat, inBlock: nat, inShard: nat, n: nat) {
    function ShardOff(): (off: int) { inBlock - inShard }
  }

  /** A new block: its number, and the unset bytes of its buffer. */
  type Grant = Option<(nat, seq<Byte>)>

  predicate GrantOk(g: Geo, got: Grant) {
    got.Some? ==> |got.value.1| == g.shard
  }

  // ---------------------------------------------------------------------------------------------
  // Operations

  function Splice(data: seq<Byte>, at: nat, src: seq<Byte>): (d: seq<Byte>)
    requires at + |src| <= |data|
    ensures |d| == |data|
    ensures forall i :: 0 <= i < |data| ==> d[i] == if at <= i < at + |src| then src[i - at] else data[i]
  {
    data[..at] + src + data[at + |src|..]
  }

  /** A buffer read from a block on disk. */
  function Loaded(s: State, g: Geo, nr: nat, off: nat): (b: Block)
    requires nr < |s.disk| && off + g.shard <= |s.disk[nr]|
  {
    Held(nr, off, s.disk[nr][off..off + g.shard])
  }

  /**
   The search for the buffer of an open block. The range test has its arguments swapped: it keeps the head buffer
   unless the wanted shard starts in [shard, shard + off), where it goes on to read another one.
   */
  predicate KeepsHead(g: Geo, b: Block, shardOff: int)
    requires b.Held?
  {
    !(g.shard <= shardOff < g.shard + b.off)
  }

  /** Shards numbered, the range a search passes over: from the second shard up to the one the buffer holds. */
  lemma PassedOver(shard: nat, i: nat, j: nat)
    requires shard > 0
    ensures shard <= i * shard < shard + j * shard <==> 1 <= i <= j
  {
    if i >= 1 {
      assert (i - 1) * shard >= 0;
    }
    if i <= j {
      assert (j - i) * shard >= 0;
    } else {
      assert (i - j - 1) * shard >= 0;
    }
  }

  /** The buffer of an open block serves every shard but those from the second up to its own. */
  lemma KeepsHeadIff(g: Geo, b: Block, i: nat, j: nat)
    requires g.shard > 0 && b.Held? && b.off == j * g.shard
    ensures KeepsHead(g, b, i * g.shard) <==> i == 0 || j < i
  {
    PassedOver(g.shard, i, j);
  }

  predicate BlockOk(s: State, g: Geo, b: Block) {
    match b
    case Hole => true
    case Closed(nr) => nr < |s.disk| && |s.disk[nr]| == g.bs
    case Held(nr, off, data) => off == 0 && |data| == g.shard
  }

  /** Every buffer holds the first shard of its block, and the inode's block is open. */
  predicate StateOk(s: State, g: Geo) {
    && |s.table| > 0 && s.table[0].Held?
    && forall v {:trigger s.table[v]} :: 0 <= v < |s.table| ==> BlockOk(s, g, s.table[v])
  }

  /** The copy stays inside the shard's buffer and inside the caller's. */
  predicate CopyFits(g: Geo, p: Plan, size: nat) {
    p.inShard + p.n <= g.shard && p.n <= size
  }

  /** What an access needs of its caller: a table entry exists, and the copy stays within its buffers. */
  predicate Callable(s: State, g: Geo, p: Plan, size: nat) {
    p.v < |s.table| && CopyFits(g, p, size) && 0 <= p.ShardOff() <= g.bs - g.shard
  }

  /** userfs_file_write_off_get */
  function ForWrite(s: State, g: Geo, v: nat, shardOff: nat, got: Grant): (b: Option<Block>)
    requires StateOk(s, g) && v < |s.table| && shardOff + g.shard <= g.bs && GrantOk(g, got)
    ensures b.Some? ==> b.value.Held? && |b.value.data| == g.shard
  {
    assert BlockOk(s, g, s.table[v]);
    match s.table[v]
    case Hole => if got.None? then None else Some(Held(got.value.0, shardOff, got.value.1))
    case Closed(nr) => Some(Loaded(s, g, nr, shardOff))
    case Held(_, _, _) => if KeepsHead(g, s.table[v], shardOff) then Some(s.table[v]) else None
  }

  /** userfs_file_write behind its offset computation; `end` is where the write ends in the file. */
  function Put(s: State, g: Geo, p: Plan, end: nat, buf: seq<Byte>, got: Grant): (x: (State, nat))
    requires StateOk(s, g) && Callable(s, g, p, |buf|) && GrantOk(g, got)
  {
    var b := ForWrite(s, g, p.v, p.ShardOff(), got);
    if b.None? then (s, 0)
    else
      var b' := b.value.(data := Splice(b.value.data, p.inShard, buf[..p.n]));
      (s.(table := s.table[p.v := b'], size := if s.size < end then end else s.size), p.n)
  }

  /** userfs_file_read behind its offset computation. */
  function Take(s: State, g: Geo, p: Plan, end: nat, size: nat): (x: (State, seq<Byte>))
    requires StateOk(s, g) && Callable(s, g, p, size)
  {
    if s.size < end then (s, [])
    else if s.table[p.v].Hole? then (s, seq(p.n, _ => 0))
    else
      assert BlockOk(s, g, s.table[p.v]);
      var b := if s.table[p.v].Closed? then Loaded(s, g, s.table[p.v].nr, p.ShardOff()) else s.table[p.v];
      (s.(table := s.table[p.v := b]), b.data[p.inShard..p.inShard + p.n])
  }

  // ---------------------------------------------------------------------------------------------
  // Bytes

  function DiskByte(s: State, nr: nat, r: nat): (b: Byte) {
    if nr < |s.disk| && r < |s.disk[nr]| then s.disk[nr][r] else 0
  }

  /** The byte at offset `r` of virtual block `v`. */
  function Cell(s: State, v: nat, r: nat): (b: Byte)
    requires v < |s.table|
  {
    match s.table[v]
    case Hole => 0
    case Closed(nr) => DiskByte(s, nr, r)
    case Held(nr, off, data) => if off <= r < off + |data| then data[r - off] else DiskByte(s, nr, r)
  }

  /** An access to the first shard of its block that spares the inode header. */
  predicate InFirst(s: State, g: Geo, p: Plan, size: nat) {
    && p.v < |s.table| && p.inShard == p.inBlock && CopyFits(g, p, size) && g.shard <= g.bs
    && (p.v == 0 ==> p.inBlock >= INODE)
  }

  predicate Succeeds(s: State, v: nat, got: Grant)
    requires v < |s.table|
  {
    !s.table[v].Hole? || got.Some?
  }

  /** The new contents of the one block a write touches. */
  lemma PutBlock(s: State, g: Geo, p: Plan, end: nat, buf: seq<Byte>, got: Grant)
    requires StateOk(s, g) && InFirst(s, g, p, |buf|) && GrantOk(g, got) && Succeeds(s, p.v, got)
    ensures var (s', n) := Put(s, g, p, end, buf, got); var b := s'.table[p.v];
      && n == p.n && b.Held? && b.off == 0 && |b.data| == g.shard
      && s' == s.(table := s.table[p.v := b], size := if s.size < end then end else s.size)
      && b.nr == (if s.table[p.v].Hole? then got.value.0 else s.table[p.v].nr)
      && (forall r :: 0 <= r < g.shard ==>
            b.data[r] == if p.inBlock <= r < p.inBlock + n then buf[r - p.inBlock]
                         else if s.table[p.v].Hole? then got.value.1[r] else Cell(s, p.v, r))
  {
    assert BlockOk(s, g, s.table[p.v]);
  }

  lemma PutFails(s: State, g: Geo, p: Plan, end: nat, buf: seq<Byte>, got: Grant)
    requires StateOk(s, g) && InFirst(s, g, p, |buf|) && GrantOk(g, got) && !Succeeds(s, p.v, got)
    ensures Put(s, g, p, end, buf, got) == (s, 0)
  {
  }

  lemma PutOk(s: State, g: Geo, p: Plan, end: nat, buf: seq<Byte>, got: Grant)
    requires StateOk(s, g) && InFirst(s, g, p, |buf|) && GrantOk(g, got)
    ensures var s' := Put(s, g, p, end, buf, got).0; StateOk(s', g) && |s'.table| == |s.table| && s'.disk == s.disk
  {
    if Succeeds(s, p.v, got) {
      PutBlock(s, g, p, end, buf, got);
    } else {
      PutFails(s, g, p, end, buf, got);
    }
  }

  /** A write as seen at any byte of a first shard. */
  lemma PutAt(s: State, g: Geo, p: Plan, end: nat, buf: seq<Byte>, got: Grant, v: nat, r: nat)
    requires StateOk(s, g) && InFirst(s, g, p, |buf|) && GrantOk(g, got) && v < |s.table| && r < g.shard
    ensures var (s', n) := Put(s, g, p, end, buf, got); var hit := v == p.v && p.inBlock <= r < p.inBlock + n;
      && n <= |buf| && v < |s'.table| && (s'.table[v].Hole? ==> s.table[v].Hole?)
      && (hit ==> !s'.table[v].Hole? && Cell(s', v, r) == buf[r - p.inBlock])
      && (!hit && !s.table[v].Hole? ==> Cell(s', v, r) == Cell(s, v, r))
  {
    if Succeeds(s, p.v, got) {
      PutBlock(s, g, p, end, buf, got);
    } else {
      PutFails(s, g, p, end, buf, got);
    }
  }

  /** A read returns the bytes it asks for if they end within the file, else nothing, and changes no byte. */
  lemma TakeReturns(s: State, g: Geo, p: Plan, end: nat, size: nat)
    requires StateOk(s, g) && InFirst(s, g, p, size)
    ensures var (s', bytes) := Take(s, g, p, end, size);
      && StateOk(s', g) && s'.size == s.size && s'.disk == s.disk && |s'.table| == |s.table|
      && |bytes| == (if end <= s.size then p.n else 0)
      && (forall i {:trigger bytes[i]} :: 0 <= i < |bytes| ==> bytes[i] == Cell(s, p.v, p.inBlock + i))
  {
    assert BlockOk(s, g, s.table[p.v]);
  }

  lemma TakeKeeps(s: State, g: Geo, p: Plan, end: nat, size: nat, v: nat, r: nat)
    requires StateOk(s, g) && InFirst(s, g, p, size) && v < |s.table| && r < g.shard
    ensures var s' := Take(s, g, p, end, size).0;
      v < |s'.table| && s'.table[v].Hole? == s.table[v].Hole? && Cell(s', v, r) == Cell(s, v, r)
  {
    assert BlockOk(s, g, s.table[v]);
  }

  // ---------------------------------------------------------------------------------------------
  // Steps

  datatype Event =
    | Writing(p: Plan, end: nat, buf: seq<Byte>, got: Grant)
    | Reading(p: Plan, end: nat, size: nat)

  predicate Allowed(s: State, g: Geo, e: Event) {
    match e
    case Writing(p, _, buf, got) => InFirst(s, g, p, |buf|) && GrantOk(g, got)
    case Reading(p, _, size) => InFirst(s, g, p, size)
  }

  function Step(s: State, g: Geo, e: Event): (s': State)
    requires StateOk(s, g) && Allowed(s, g, e)
  {
    match e
    case Writing(p, end, buf, got) => Put(s, g, p, end, buf, got).0
    case Reading(p, end, size) => Take(s, g, p, end, size).0
  }

  lemma StepOk(s: State, g: Geo, e: Event)
    requires StateOk(s, g) && Allowed(s, g, e)
    ensures var s' := Step(s, g, e); StateOk(s', g) && |s'.table| == |s.table| && s'.disk == s.disk
  {
    match e {
      case Writing(p, end, buf, got) => PutOk(s, g, p, end, buf, got);
      case Reading(p, end, size) => TakeReturns(s, g, p, end, size);
    }
  }

  /** The byte an event writes at offset `r` of block `v`, if it writes one. */
  function Puts(s: State, e: Event, v: nat, r: nat): (b: Option<Byte>) {
    if e.Writing? && e.p.v == v < |s.table| && Succeeds(s, v, e.got)
      && e.p.inBlock <= r < e.p.inBlock + e.p.n && r - e.p.inBlock < |e.buf|
    then Some(e.buf[r - e.p.inBlock]) else None
  }

  lemma StepBytes(s: State, g: Geo, e: Event, v: nat, r: nat)
    requires StateOk(s, g) && Allowed(s, g, e) && v < |s.table| && r < g.shard
    ensures var s' := Step(s, g, e); var put := Puts(s, e, v, r);
      && v < |s'.table| && (s'.table[v].Hole? ==> s.table[v].Hole?)
      && (put.Some? ==> !s'.table[v].Hole? && Cell(s', v, r) == put.value)
      && (put.None? && !s.table[v].Hole? ==> Cell(s', v, r) == Cell(s, v, r))
  {
    match e {
      case Writing(p, end, buf, got) =>
        PutAt(s, g, p, end, buf, got, v, r);
        if Succeeds(s, p.v, got) {
          PutBlock(s, g, p, end, buf, got);
        } else {
          PutFails(s, g, p, end, buf, got);
        }
      case Reading(p, end, size) => TakeKeeps(s, g, p, end, size, v, r);
    }
  }

  lemma StepSize(s: State, g: Geo, e: Event)
    requires StateOk(s, g) && Allowed(s, g, e)
    ensures Step(s, g, e).size ==
      if e.Writing? && Succeeds(s, e.p.v, e.got) then Max(s.size, e.end) else s.size
  {
    match e {
      case Writing(p, end, buf, got) =>
        if Succeeds(s, p.v, got) {
          PutBlock(s, g, p, end, buf, got);
        } else {
          PutFails(s, g, p, end, buf, got);
        }
      case Reading(p, end, size) => TakeReturns(s, g, p, end, size);
    }
  }
}
