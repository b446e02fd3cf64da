/**
 The open file as the program keeps it: the inode's buffer, in which size and block table are bytes among the file's
 bytes, and the buffers of open blocks by address. Reads and writes work on them in place and are tied to the
 functions of modules InodeBuffer and ByteFile.
 */
module OpenFile {
  import opened Common
  import opened Arith
  import opened FileBlocks
  import F = FileBytes
  import IB = InodeBuffer
  import BF = ByteFile
  import DH = DentryHash

  /** A buffer of a data block. */
  datatype Buffer = Buffer(nr: nat, off: nat, data: array<Byte>)

  /** memcpy into a buffer. */
  method CopyIn(a: array<Byte>, at: nat, src: seq<Byte>, n: nat)
    requires n <= |src| && at + n <= a.Length
    modifies a
    ensures a[..] == Splice(old(a[..]), at, src[..n])
  {
    for i := 0 to n
      invariant forall k :: 0 <= k < a.Length ==> a[k] == if at <= k < at + i then src[k - at] else old(a[k])
    {
      a[at + i] := src[i];
    }
  }

  /** A little-endian number read from a buffer. */
  method LoadWord(a: array<Byte>, lo: nat, hi: nat) returns (n: nat)
    requires lo <= hi <= a.Length
    ensures n == IB.Val(a[lo..hi])
  {
    n := 0;
    var i := hi;
    while i > lo
      invariant lo <= i <= hi && n == IB.Val(a[i..hi])
    {
      i := i - 1;
      assert a[i..hi][0] == a[i] && a[i..hi][1..] == a[i + 1..hi];
      n := a[i] + 256 * n;
    }
  }

  /** A little-endian number stored in a buffer. */
  method StoreWord(a: array<Byte>, lo: nat, hi: nat, n: nat)
    requires lo <= hi <= a.Length
    modifies a
    ensures a[..] == IB.Stored(old(a[..]), lo, hi, n)
  {
    ghost var word := IB.Le(n, hi - lo);
    var rest := n;
    for i := lo to hi
      invariant IB.Le(rest, hi - i) == word[i - lo..]
      invariant forall k :: 0 <= k < a.Length ==> a[k] == if lo <= k < i then word[k - lo] else old(a[k])
    {
      assert word[i - lo..][1..] == word[i + 1 - lo..];
      a[i] := rest % 256;
      rest := rest / 256;
    }
  }

  /** The machine's division and remainder. */
  method Divide(a: nat, n: nat) returns (q: nat, r: nat)
    requires n > 0
    ensures q == Quot(a, n) && r == Rem(a, n)
  {
    QuotRem(a, n);
    q, r := a / n, a % n;
  }

  /** memset of the inode's header. */
  method Clear(a: array<Byte>)
    requires a.Length >= INODE
    modifies a
    ensures a[..] == IB.Zeros(INODE) + old(a[..])[INODE..]
  {
    for i := 0 to INODE
      invariant forall k :: 0 <= k < a.Length ==> a[k] == if k < i then 0 else old(a[k])
    {
      a[i] := 0;
    }
  }

  /** The header of a new inode whose buffer is at `at`. */
  method InitInode(a: array<Byte>, at: nat, now: nat)
    requires a.Length >= INODE
    modifies a
    ensures a[..] == IB.Created(at, 0, old(a[..]), [], now).inode
  {
    Clear(a);
    StoreWord(a, IB.CTIME, IB.CTIME + 8, now);
    StoreWord(a, IB.ATIME, IB.ATIME + 8, now);
    StoreWord(a, IB.MTIME, IB.MTIME + 8, now);
    StoreWord(a, IB.TABLE + 8 * 0, IB.TABLE + 8 * 0 + 8, DH.Tagged(true, at));
    StoreWord(a, IB.REFS, IB.REFS + 4, 1);
  }

  class Inode {
    const g: Geo
    const disk: seq<seq<Byte>>
    const at: nat
    const nr: nat
    const data: array<Byte>
    var bufs: map<nat, Buffer>

    function Arrays(): (arrays: set<array<Byte>>)
      reads this
    {
      set a | a in bufs :: bufs[a].data
    }

    /** No two addresses lead to the same bytes. */
    ghost predicate Unshared()
      reads this
    {
      && (forall a :: a in bufs ==> bufs[a].data != data)
      && (forall a, b :: a in bufs && b in bufs && a != b ==> bufs[a].data != bufs[b].data)
    }

    ghost predicate BufferIs(m: IB.Mem, a: nat)
      requires a in bufs
      reads this, bufs[a].data
    {
      a in m.bufs && m.bufs[a] == IB.Buf(bufs[a].nr, bufs[a].off, bufs[a].data[..])
    }

    ghost predicate Is(m: IB.Mem)
      reads this, data, Arrays()
    {
      && at == m.at && nr == m.nr && disk == m.disk && data[..] == m.inode && Unshared() && bufs.Keys == m.bufs.Keys
      && forall a {:trigger bufs[a]} {:trigger m.bufs[a]} :: a in bufs ==> BufferIs(m, a)
    }

    /** userfs_get_new_inode and the end of userfs_file_create, on a buffer that held anything. */
    constructor (g: Geo, disk: seq<seq<Byte>>, at: nat, nr: nat, data: array<Byte>, now: nat, ghost len: nat)
      requires F.GeoOk(g) && data.Length == g.shard && 0 < at < DH.TOP && 0 < len <= ENTRIES
      modifies data
      ensures this.g == g && this.data == data && bufs == map[]
      ensures var m := IB.Created(at, nr, old(data[..]), disk, now); Is(m) && IB.Good(m, g, len)
    {
      this.g, this.disk, this.at, this.nr, this.data := g, disk, at, nr, data;
      bufs := map[];
      new;
      InitInode(data, at, now);
      IB.CreatedGood(at, nr, old(data[..]), disk, now, g, len);
    }

    /** userfs_get_used_dblock: a buffer filled from disk. */
    method Load(nr: nat, off: nat) returns (shard: array<Byte>)
      requires nr < |disk| && off + g.shard <= |disk[nr]|
      ensures fresh(shard) && shard[..] == disk[nr][off..off + g.shard]
    {
      shard := new Byte[g.shard];
      for i := 0 to g.shard
        invariant forall k :: 0 <= k < i ==> shard[k] == disk[nr][off + k]
      {
        shard[i] := disk[nr][off + i];
      }
    }

    /** Virtual block, offsets, clipped length and end of an access. */
    method Translate(off: nat, size: nat) returns (p: Plan, end: nat)
      requires F.GeoOk(g)
      ensures p == F.PlanOf(g, off, size) && end == F.End(off, p.n)
    {
      var pos := off + INODE;
      var v, inBlock := Divide(pos, g.bs);
      var _, inShard := Divide(pos, g.shard);
      var n := size;
      if (inShard + size) % WORD > g.shard {
        n := (g.shard - inBlock) % WORD;
      }
      p := Plan(v, inBlock, inShard, n);
      end := (pos + n - INODE) % WORD;
    }

    /** The size and the time stamp a write leaves behind. */
    method Stamp(end: nat, now: nat, ghost m: IB.Mem)
      requires Is(m) && data.Length >= INODE
      modifies data
      ensures Is(m.(inode := IB.Stamped(m.inode, end, now)))
    {
      var size := LoadWord(data, IB.SIZE, IB.SIZE + 4);
      assert size == IB.SizeOf(data[..]) by {
        assert data[IB.SIZE..IB.SIZE + 4] == data[..][IB.SIZE..IB.SIZE + 4];
      }
      StoreWord(data, IB.SIZE, IB.SIZE + 4, Max(size, end));
      StoreWord(data, IB.MTIME, IB.MTIME + 8, now);
    }

    /** A field of the inode is stored. */
    method StoreField(lo: nat, hi: nat, n: nat, ghost m: IB.Mem) returns (ghost m': IB.Mem)
      requires Is(m) && lo <= hi <= |m.inode|
      modifies data
      ensures Is(m') && m' == m.(inode := IB.Stored(m.inode, lo, hi, n))
    {
      StoreWord(data, lo, hi, n);
      m' := m.(inode := IB.Stored(m.inode, lo, hi, n));
    }

    method SetEntry(v: nat, w: nat, ghost m: IB.Mem) returns (ghost m': IB.Mem)
      requires Is(m) && IB.Reaches(m.inode, v)
      modifies data
      ensures Is(m') && m' == m.(inode := IB.WithEntry(m.inode, v, w))
    {
      m' := StoreField(IB.TABLE + 8 * v, IB.TABLE + 8 * v + 8, w, m);
    }

    method SetAccessTime(now: nat, ghost m: IB.Mem) returns (ghost m': IB.Mem)
      requires Is(m) && data.Length >= INODE
      modifies data
      ensures Is(m') && m' == m.(inode := IB.WithTime(m.inode, IB.ATIME, now))
    {
      m' := StoreField(IB.ATIME, IB.ATIME + 8, now, m);
    }

    method AddBuffer(spot: nat, b: Buffer, ghost m: IB.Mem)
      requires Is(m) && spot !in bufs && b.data != data && b.data !in Arrays()
      modifies this`bufs
      ensures Is(m.(bufs := m.bufs[spot := IB.Buf(b.nr, b.off, b.data[..])]))
    {
      bufs := bufs[spot := b];
    }

    /** A new buffer takes the copy, and the table its address. */
    method Install(p: Plan, end: nat, buf: seq<Byte>, nr: nat, shard: array<Byte>, spot: nat, now: nat,
                   ghost m: IB.Mem, ghost env: IB.Env) returns (ghost m': IB.Mem)
      requires Is(m) && IB.Ready(m, g, p, |buf|) && shard.Length == g.shard && shard != data && shard !in Arrays()
      requires env.spot == spot && env.now == now && spot !in bufs
      modifies this`bufs, data, shard
      ensures Is(m') && m' == IB.Opened(m, g, p, end, buf, env, nr, old(shard[..]))
    {
      CopyIn(shard, p.inShard, buf, p.n);
      ghost var m1 := SetEntry(p.v, DH.Tagged(true, spot), m);
      Stamp(end, now, m1);
      m1 := m1.(inode := IB.Stamped(m1.inode, end, now));
      AddBuffer(spot, Buffer(nr, p.ShardOff(), shard), m1);
      m' := m1.(bufs := m1.bufs[spot := IB.Buf(nr, p.ShardOff(), shard[..])]);
    }

    /** The table entry of a block. */
    method LoadEntry(v: nat, ghost m: IB.Mem) returns (w: nat)
      requires data[..] == m.inode && IB.Reaches(m.inode, v)
      ensures w == IB.Entry(m.inode, v)
    {
      var lo := IB.TABLE + 8 * v;
      w := LoadWord(data, lo, lo + 8);
      assert data[lo..lo + 8] == data[..][lo..lo + 8];
    }

    /** What the allocator gave, as an environment; the bytes matter only for a block that is new. */
    ghost function Given(nr: Option<nat>, junk: seq<Byte>, spot: nat, now: nat): (env: IB.Env)
      requires |junk| == g.shard
      ensures GrantOk(g, env.got)
    {
      IB.Env(if nr.Some? then Some((nr.value, junk)) else None, spot, now)
    }

    /** Writing into a new block. */
    method PutFresh(p: Plan, end: nat, buf: seq<Byte>, nr: Option<nat>, spot: nat, now: nat, ghost m: IB.Mem)
      returns (n: nat, ghost junk: seq<Byte>, ghost m': IB.Mem)
      requires Is(m) && IB.Ready(m, g, p, |buf|) && IB.Fresh(m, spot) && DH.AddrOf(IB.Entry(m.inode, p.v)) == 0
      modifies this`bufs, data
      ensures |junk| == g.shard && Is(m') && (m', n) == IB.Put(m, g, p, end, buf, Given(nr, junk, spot, now))
    {
      if nr.None? {
        n, junk, m' := 0, IB.Zeros(g.shard), m;
      } else {
        var shard := new Byte[g.shard];
        junk := shard[..];
        m' := Install(p, end, buf, nr.value, shard, spot, now, m, Given(nr, junk, spot, now));
        n := p.n;
      }
    }

    /** Writing into a block read from disk. */
    method PutClosed(a: nat, p: Plan, end: nat, buf: seq<Byte>, spot: nat, now: nat, ghost m: IB.Mem, ghost env: IB.Env)
      returns (n: nat, ghost m': IB.Mem)
      requires Is(m) && IB.Ready(m, g, p, |buf|) && IB.Fresh(m, spot) && GrantOk(g, env.got)
      requires env.spot == spot && env.now == now
      requires var w := IB.Entry(m.inode, p.v); a == DH.AddrOf(w) != 0 && !DH.TypeOf(w)
      modifies this`bufs, data
      ensures Is(m') && (m', n) == IB.Put(m, g, p, end, buf, env)
    {
      if a < |disk| && p.ShardOff() + g.shard <= |disk[a]| {
        var shard := Load(a, p.ShardOff());
        assert shard[..] == IB.Shard(m, g, a, p.ShardOff());
        m' := Install(p, end, buf, a, shard, spot, now, m, env);
        n := p.n;
        IB.ClosedPut(m, g, p, end, buf, env);
      } else {
        n, m' := 0, m;
      }
    }

    /** Writing into a block that is open. */
    method PutHeld(a: nat, p: Plan, end: nat, buf: seq<Byte>, now: nat, ghost m: IB.Mem, ghost env: IB.Env)
      returns (n: nat, ghost m': IB.Mem)
      requires Is(m) && IB.Ready(m, g, p, |buf|) && GrantOk(g, env.got) && env.now == now
      requires var w := IB.Entry(m.inode, p.v); a == DH.AddrOf(w) != 0 && DH.TypeOf(w)
      modifies data, Arrays()
      ensures Is(m') && (m', n) == IB.Put(m, g, p, end, buf, env)
    {
      n := p.n;
      if a == at {
        CopyIn(data, p.inShard, buf, p.n);
        m' := m.(inode := Splice(m.inode, p.inShard, buf[..p.n]));
      } else {
        assert a in bufs ==> BufferIs(m, a);
        if a !in bufs || bufs[a].data.Length != g.shard || g.shard <= p.ShardOff() < g.shard + bufs[a].off {
          return 0, m;
        }
        CopyOpen(a, p.inShard, buf, p.n, m);
        m' := m.(bufs := m.bufs[a := m.bufs[a].(data := Splice(m.bufs[a].data, p.inShard, buf[..p.n]))]);
      }
      Stamp(end, now, m');
      m' := m'.(inode := IB.Stamped(m'.inode, end, now));
    }

    /** userfs_file_write_off_get and the part of userfs_file_write behind the offset computation. */
    method PutBytes(p: Plan, end: nat, buf: seq<Byte>, nr: Option<nat>, spot: nat, now: nat, ghost m: IB.Mem)
      returns (n: nat, ghost junk: seq<Byte>, ghost m': IB.Mem)
      requires Is(m) && IB.Ready(m, g, p, |buf|) && IB.Fresh(m, spot)
      modifies this`bufs, data, Arrays()
      ensures |junk| == g.shard && Is(m') && (m', n) == IB.Put(m, g, p, end, buf, Given(nr, junk, spot, now))
    {
      var w := LoadEntry(p.v, m);
      var a := DH.AddrOf(w);
      junk := IB.Zeros(g.shard);
      if a == 0 {
        n, junk, m' := PutFresh(p, end, buf, nr, spot, now, m);
      } else if !DH.TypeOf(w) {
        n, m' := PutClosed(a, p, end, buf, spot, now, m, Given(nr, junk, spot, now));
      } else {
        n, m' := PutHeld(a, p, end, buf, now, m, Given(nr, junk, spot, now));
      }
    }

    /** Copying into the buffer of an open block. */
    method CopyOpen(a: nat, at: nat, src: seq<Byte>, n: nat, ghost m: IB.Mem)
      requires Is(m) && a in bufs && a in m.bufs && n <= |src| && at + n <= bufs[a].data.Length == |m.bufs[a].data|
      modifies bufs[a].data
      ensures Is(m.(bufs := m.bufs[a := m.bufs[a].(data := Splice(m.bufs[a].data, at, src[..n]))]))
    {
      assert BufferIs(m, a);
      CopyIn(bufs[a].data, at, src, n);
      ghost var m' := m.(bufs := m.bufs[a := m.bufs[a].(data := Splice(m.bufs[a].data, at, src[..n]))]);
      forall b | b in bufs ensures BufferIs(m', b) {
        assert b != a ==> bufs[b].data != bufs[a].data;
      }
    }

    /** userfs_file_write; `junk` is what a new block's buffer held. */
    method WriteBytes(off: nat, buf: seq<Byte>, nr: Option<nat>, spot: nat, now: nat, ghost m: IB.Mem)
      returns (n: nat, ghost junk: seq<Byte>, ghost m': IB.Mem)
      requires F.GeoOk(g) && Is(m) && IB.Fresh(m, spot)
      requires off + INODE + 1 < WORD ==> IB.Ready(m, g, F.PlanOf(g, off, |buf|), |buf|)
      modifies this`bufs, data, Arrays()
      ensures |junk| == g.shard && Is(m') && (m', n) == BF.Write(m, g, off, buf, Given(nr, junk, spot, now))
    {
      if off >= WORD - 1 - INODE {
        n, junk, m' := 0, IB.Zeros(g.shard), m;
      } else {
        var p, end := Translate(off, |buf|);
        n, junk, m' := PutBytes(p, end, buf, nr, spot, now, m);
      }
    }

    /** Reading a block that has to be read from disk first. */
    method TakeClosed(a: nat, p: Plan, size: nat, spot: nat, now: nat, ghost m: IB.Mem)
      returns (bytes: seq<Byte>, ghost m': IB.Mem)
      requires Is(m) && IB.Ready(m, g, p, size) && IB.Fresh(m, spot) && IB.OnDisk(m, g, a, p.ShardOff())
      modifies this`bufs, data
      ensures var shard := IB.Shard(m, g, a, p.ShardOff());
        && bytes == shard[p.inShard..p.inShard + p.n]
        && m' == m.(bufs := m.bufs[spot := IB.Buf(a, p.ShardOff(), shard)],
                    inode := IB.WithTime(IB.WithEntry(m.inode, p.v, DH.Tagged(true, spot)), IB.ATIME, now))
      ensures Is(m')
    {
      var shard := Load(a, p.ShardOff());
      ghost var d := IB.Shard(m, g, a, p.ShardOff());
      assert shard[..] == d;
      bytes := shard[p.inShard..p.inShard + p.n];
      assert bytes == d[p.inShard..p.inShard + p.n] by {
        assert bytes == shard[..][p.inShard..p.inShard + p.n];
      }
      m' := Enter(p.v, spot, now, m);
      AddBuffer(spot, Buffer(a, p.ShardOff(), shard), m');
      m' := m'.(bufs := m'.bufs[spot := IB.Buf(a, p.ShardOff(), d)]);
    }

    /** A block that was read is entered in the table, and the access time set. */
    method Enter(v: nat, spot: nat, now: nat, ghost m: IB.Mem) returns (ghost m': IB.Mem)
      requires Is(m) && IB.Reaches(m.inode, v) && data.Length >= INODE
      modifies data
      ensures m' == m.(inode := IB.WithTime(IB.WithEntry(m.inode, v, DH.Tagged(true, spot)), IB.ATIME, now))
      ensures Is(m')
    {
      ghost var m1 := SetEntry(v, DH.Tagged(true, spot), m);
      m' := SetAccessTime(now, m1);
    }

    /** Reading a block that is open. */
    method TakeHeld(a: nat, p: Plan, size: nat, now: nat, ghost m: IB.Mem)
      returns (bytes: seq<Byte>, ghost m': IB.Mem)
      requires Is(m) && IB.Ready(m, g, p, size)
      modifies data
      ensures Is(m')
      ensures (m', bytes) ==
        if a == m.at then (m.(inode := IB.WithTime(m.inode, IB.ATIME, now)), m.inode[p.inShard..p.inShard + p.n])
        else if a !in m.bufs || |m.bufs[a].data| != g.shard || g.shard <= p.ShardOff() < g.shard + m.bufs[a].off then (m, [])
        else (m.(inode := IB.WithTime(m.inode, IB.ATIME, now)), m.bufs[a].data[p.inShard..p.inShard + p.n])
    {
      if a == at {
        bytes := data[p.inShard..p.inShard + p.n];
        assert bytes == m.inode[p.inShard..p.inShard + p.n];
      } else {
        assert a in bufs ==> BufferIs(m, a);
        if a !in bufs || bufs[a].data.Length != g.shard || g.shard <= p.ShardOff() < g.shard + bufs[a].off {
          return [], m;
        }
        bytes := bufs[a].data[p.inShard..p.inShard + p.n];
        assert bytes == m.bufs[a].data[p.inShard..p.inShard + p.n];
      }
      m' := SetAccessTime(now, m);
    }

    /** userfs_file_read_off_get and the part of userfs_file_read behind the offset computation. */
    method TakeBytes(p: Plan, end: nat, size: nat, spot: nat, now: nat, ghost m: IB.Mem)
      returns (bytes: seq<Byte>, ghost m': IB.Mem)
      requires Is(m) && IB.Ready(m, g, p, size) && IB.Fresh(m, spot)
      modifies this`bufs, data
      ensures Is(m') && (m', bytes) == IB.Take(m, g, p, end, size, IB.Env(None, spot, now))
    {
      var w := LoadEntry(p.v, m);
      var a := DH.AddrOf(w);
      var fileSize := LoadWord(data, IB.SIZE, IB.SIZE + 4);
      assert fileSize == IB.SizeOf(m.inode) by {
        assert data[IB.SIZE..IB.SIZE + 4] == data[..][IB.SIZE..IB.SIZE + 4];
      }
      if fileSize < end {
        bytes, m' := [], m;
      } else if a == 0 {
        bytes, m' := seq(p.n, _ => 0), m;
      } else if DH.TypeOf(w) {
        bytes, m' := TakeHeld(a, p, size, now, m);
      } else if a < |disk| && p.ShardOff() + g.shard <= |disk[a]| {
        bytes, m' := TakeClosed(a, p, size, spot, now, m);
      } else {
        bytes, m' := [], m;
      }
    }

    /** userfs_file_read */
    method ReadBytes(off: nat, size: nat, spot: nat, now: nat, ghost m: IB.Mem)
      returns (bytes: seq<Byte>, ghost m': IB.Mem)
      requires F.GeoOk(g) && Is(m) && IB.Fresh(m, spot)
      requires off + INODE + 1 < WORD ==> IB.Ready(m, g, F.PlanOf(g, off, size), size)
      modifies this`bufs, data
      ensures Is(m') && (m', bytes) == BF.Read(m, g, off, size, IB.Env(None, spot, now))
    {
      if off >= WORD - 1 - INODE {
        bytes, m' := [], m;
      } else {
        var p, end := Translate(off, size);
        bytes, m' := TakeBytes(p, end, size, spot, now, m);
      }
    }
  }
}
