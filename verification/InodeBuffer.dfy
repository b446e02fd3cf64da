/**
 The inode's buffer as the program keeps it (userfs/include/inode.h, userfs/userfs_file_ops.c): time stamps, size
 and the table of block addresses are bytes of the same buffer whose bytes from 1024 on are the file's first. A read
 or write that opens a block stores the address of its buffer in the table, 8 bytes from 48 + 8 * v on.
 */
module InodeBuffer {
  import opened Common
  import opened FileBlocks
  import DH = DentryHash

  const ATIME: nat := 0
  const CTIME: nat := 8
  const MTIME: nat := 16
  const SIZE: nat := 32
  const REFS: nat := 44
  const TABLE: nat := 48

  // ---------------------------------------------------------------------------------------------
  // Little-endian words

  function Limit(k: nat): (n: nat)
    ensures n > 0
  {
    if k == 0 then 1 else 256 * Limit(k - 1)
  }

  function Le(n: nat, k: nat): (bs: seq<Byte>)
    ensures |bs| == k
    decreases k
  {
    if k == 0 then [] else [n % 256] + Le(n / 256, k - 1)
  }

  function Val(bs: seq<Byte>): (n: nat) {
    if bs == [] then 0 else bs[0] + 256 * Val(bs[1..])
  }

  lemma {:induction false} ValLe(n: nat, k: nat)
    requires n < Limit(k)
    ensures Val(Le(n, k)) == n
    decreases k
  {
    if k > 0 {
      ValLe(n / 256, k - 1);
      assert Le(n, k)[1..] == Le(n / 256, k - 1);
    }
  }

  lemma {:induction false} ValBound(bs: seq<Byte>)
    ensures Val(bs) < Limit(|bs|)
  {
    if bs != [] {
      ValBound(bs[1..]);
    }
  }

  lemma Limits()
    ensures Limit(4) == WORD && Limit(8) == 2 * DH.TOP
  {
    assert Limit(0) == 1 && Limit(1) == 256 && Limit(2) == 65536;
    assert Limit(3) == 16777216 && Limit(4) == 4294967296;
    assert Limit(5) == 1099511627776 && Limit(6) == 281474976710656 && Limit(7) == 72057594037927936;
  }

  // ---------------------------------------------------------------------------------------------
  // The fields of the buffer

  predicate Reaches(inode: seq<Byte>, v: nat) {
    TABLE + 8 * v + 8 <= |inode|
  }

  /** i_v2pnode_table[v] */
  function Entry(inode: seq<Byte>, v: nat): (w: nat)
    requires Reaches(inode, v)
  {
    Val(inode[TABLE + 8 * v..TABLE + 8 * v + 8])
  }

  function SizeOf(inode: seq<Byte>): (n: nat)
    requires |inode| >= INODE
  {
    Val(inode[SIZE..SIZE + 4])
  }

  /** The bytes from `lo` to `hi` replaced by a number. */
  function Stored(d: seq<Byte>, lo: nat, hi: nat, n: nat): (d': seq<Byte>)
    requires lo <= hi <= |d|
    ensures |d'| == |d|
  {
    Splice(d, lo, Le(n, hi - lo))
  }

  function WithEntry(inode: seq<Byte>, v: nat, w: nat): (inode': seq<Byte>)
    requires Reaches(inode, v)
    ensures |inode'| == |inode|
  {
    Stored(inode, TABLE + 8 * v, TABLE + 8 * v + 8, w)
  }

  function WithSize(inode: seq<Byte>, n: nat): (inode': seq<Byte>)
    requires |inode| >= INODE
    ensures |inode'| == |inode|
  {
    Stored(inode, SIZE, SIZE + 4, n)
  }

  function WithTime(inode: seq<Byte>, field: nat, now: nat): (inode': seq<Byte>)
    requires |inode| >= INODE && field <= MTIME
    ensures |inode'| == |inode|
  {
    Stored(inode, field, field + 8, now)
  }

  lemma StoredApart(d: seq<Byte>, lo: nat, hi: nat, n: nat, from: nat, to: nat)
    requires lo <= hi <= |d| && from <= to <= |d| && (to <= lo || hi <= from)
    ensures Stored(d, lo, hi, n)[from..to] == d[from..to]
  {
  }

  lemma StoredThere(d: seq<Byte>, lo: nat, hi: nat, n: nat)
    requires lo <= hi <= |d| && n < Limit(hi - lo)
    ensures Val(Stored(d, lo, hi, n)[lo..hi]) == n
  {
    ValLe(n, hi - lo);
    assert Stored(d, lo, hi, n)[lo..hi] == Le(n, hi - lo);
  }

  lemma SpliceApart(d: seq<Byte>, at: nat, src: seq<Byte>, from: nat, to: nat)
    requires at + |src| <= |d| && from <= to <= |d| && (to <= at || at + |src| <= from)
    ensures Splice(d, at, src)[from..to] == d[from..to]
  {
  }

  /** Size, entries and file bytes of two buffers agree, but for entry `v`. */
  predicate SameBut(a: seq<Byte>, b: seq<Byte>, len: nat, v: int)
    requires |a| == |b| >= INODE && len <= ENTRIES
  {
    && SizeOf(a) == SizeOf(b) && a[INODE..] == b[INODE..]
    && forall u: nat {:trigger Entry(b, u)} :: u < len && u != v ==> Entry(b, u) == Entry(a, u)
  }

  /** Storing an entry changes that entry and nothing else a file depends on. */
  lemma StoreEntry(inode: seq<Byte>, len: nat, v: nat, w: nat)
    requires |inode| >= INODE && v < len <= ENTRIES && w < 2 * DH.TOP
    ensures var inode' := WithEntry(inode, v, w); SameBut(inode, inode', len, v) && Entry(inode', v) == w
  {
    var inode', lo := WithEntry(inode, v, w), TABLE + 8 * v;
    Limits();
    StoredThere(inode, lo, lo + 8, w);
    StoredApart(inode, lo, lo + 8, w, SIZE, SIZE + 4);
    StoredApart(inode, lo, lo + 8, w, INODE, |inode|);
    forall u: nat | u < len && u != v ensures Entry(inode', u) == Entry(inode, u) {
      StoredApart(inode, lo, lo + 8, w, TABLE + 8 * u, TABLE + 8 * u + 8);
    }
  }

  lemma StoreSize(inode: seq<Byte>, len: nat, n: nat)
    requires |inode| >= INODE && len <= ENTRIES && n < WORD
    ensures var inode' := WithSize(inode, n);
      && SizeOf(inode') == n && inode'[INODE..] == inode[INODE..]
      && forall u: nat {:trigger Entry(inode', u)} :: u < len ==> Entry(inode', u) == Entry(inode, u)
  {
    var inode' := WithSize(inode, n);
    Limits();
    StoredThere(inode, SIZE, SIZE + 4, n);
    StoredApart(inode, SIZE, SIZE + 4, n, INODE, |inode|);
    forall u: nat | u < len ensures Entry(inode', u) == Entry(inode, u) {
      EntryApart(inode, SIZE, SIZE + 4, n, u);
    }
  }

  lemma EntryApart(inode: seq<Byte>, lo: nat, hi: nat, n: nat, u: nat)
    requires lo <= hi <= TABLE && Reaches(inode, u)
    ensures Entry(Stored(inode, lo, hi, n), u) == Entry(inode, u)
  {
    StoredApart(inode, lo, hi, n, TABLE + 8 * u, TABLE + 8 * u + 8);
  }

  lemma StoreTime(inode: seq<Byte>, len: nat, field: nat, now: nat)
    requires |inode| >= INODE && len <= ENTRIES && field <= MTIME
    ensures SameBut(inode, WithTime(inode, field, now), len, -1)
  {
    StoredApart(inode, field, field + 8, now, SIZE, SIZE + 4);
    StoredApart(inode, field, field + 8, now, INODE, |inode|);
    forall u: nat | u < len ensures Entry(WithTime(inode, field, now), u) == Entry(inode, u) {
      EntryApart(inode, field, field + 8, now, u);
    }
  }

  /** Copying file bytes into the buffer leaves the header. */
  lemma CopyPastHeader(inode: seq<Byte>, len: nat, at: nat, src: seq<Byte>)
    requires |inode| >= INODE && len <= ENTRIES && INODE <= at && at + |src| <= |inode|
    ensures var inode' := Splice(inode, at, src);
      && inode'[..INODE] == inode[..INODE] && SizeOf(inode') == SizeOf(inode)
      && inode'[INODE..] == Splice(inode[INODE..], at - INODE, src)
      && forall u: nat {:trigger Entry(inode', u)} :: u < len ==> Entry(inode', u) == Entry(inode, u)
  {
    var inode' := Splice(inode, at, src);
    SpliceApart(inode, at, src, 0, INODE);
    SpliceApart(inode, at, src, SIZE, SIZE + 4);
    forall u: nat | u < len ensures Entry(inode', u) == Entry(inode, u) {
      SpliceApart(inode, at, src, TABLE + 8 * u, TABLE + 8 * u + 8);
    }
  }

  lemma StoredShows(d: seq<Byte>, lo: nat, hi: nat, n: nat)
    requires INODE <= lo <= hi <= |d|
    ensures Stored(d, lo, hi, n)[INODE..] == d[INODE..] ==> Stored(d, lo, hi, n)[lo..hi] == d[lo..hi]
  {
    var d' := Stored(d, lo, hi, n);
    assert forall i :: lo <= i < hi ==> d'[i] == d'[INODE..][i - INODE];
  }

  /**
   The table ends where the file begins: replacing a block number by a buffer's address in entry `v` leaves all
   bytes of the file alone if and only if `v` is below 122.
   */
  lemma EntryStoreSparesIff(inode: seq<Byte>, v: nat, w: nat)
    requires |inode| >= INODE && Reaches(inode, v) && Entry(inode, v) < DH.TOP <= w < 2 * DH.TOP
    ensures WithEntry(inode, v, w)[INODE..] == inode[INODE..] <==> v < ENTRIES
  {
    var lo := TABLE + 8 * v;
    Limits();
    StoredThere(inode, lo, lo + 8, w);
    if v < ENTRIES {
      StoredApart(inode, lo, lo + 8, w, INODE, |inode|);
    } else {
      StoredShows(inode, lo, lo + 8, w);
    }
  }

  // ---------------------------------------------------------------------------------------------
  // Operations

  /** A data block's buffer: b_blocknr, b_block_s_off and b_data. */
  datatype Buf = Buf(nr: nat, off: nat, data: seq<Byte>)

  /** The inode's buffer at address `at` for block `nr`, and all other buffers by address. */
  datatype Mem = Mem(at: nat, nr: nat, inode: seq<Byte>, bufs: map<nat, Buf>, disk: seq<seq<Byte>>)

  /** What the environment gives an access: a block if one is needed, an address for a new buffer, and the time. */
  datatype Env = Env(got: Grant, spot: nat, now: nat)

  /** The size and the time stamp a write leaves behind. */
  function Stamped(inode: seq<Byte>, end: nat, now: nat): (inode': seq<Byte>)
    requires |inode| >= INODE
    ensures |inode'| == |inode|
  {
    WithTime(WithSize(inode, Max(SizeOf(inode), end)), MTIME, now)
  }

  predicate Ready(m: Mem, g: Geo, p: Plan, size: nat) {
    && |m.inode| == g.shard >= INODE && Reaches(m.inode, p.v) && CopyFits(g, p, size)
    && 0 <= p.ShardOff() <= g.bs - g.shard
  }

  /** The shard a block number leads to can be read. */
  predicate OnDisk(m: Mem, g: Geo, nr: nat, off: nat) {
    nr < |m.disk| && off + g.shard <= |m.disk[nr]|
  }

  /** userfs_get_used_dblock */
  function Shard(m: Mem, g: Geo, nr: nat, off: nat): (data: seq<Byte>)
    requires OnDisk(m, g, nr, off)
    ensures |data| == g.shard
  {
    m.disk[nr][off..off + g.shard]
  }

  /** A new buffer takes the copy, and the table its address. */
  function Opened(m: Mem, g: Geo, p: Plan, end: nat, buf: seq<Byte>, env: Env, nr: nat, data: seq<Byte>): (m': Mem)
    requires Ready(m, g, p, |buf|) && |data| == g.shard
  {
    var inode := WithEntry(m.inode, p.v, DH.Tagged(true, env.spot));
    m.(bufs := m.bufs[env.spot := Buf(nr, p.ShardOff(), Splice(data, p.inShard, buf[..p.n]))],
       inode := Stamped(inode, end, env.now))
  }

  /** userfs_file_write behind its offset computation; an address where no buffer is leads nowhere here. */
  function Put(m: Mem, g: Geo, p: Plan, end: nat, buf: seq<Byte>, env: Env): (x: (Mem, nat))
    requires Ready(m, g, p, |buf|) && GrantOk(g, env.got)
  {
    var w := Entry(m.inode, p.v);
    var a := DH.AddrOf(w);
    if a == 0 then
      if env.got.None? then (m, 0)
      else (Opened(m, g, p, end, buf, env, env.got.value.0, env.got.value.1), p.n)
    else if !DH.TypeOf(w) then
      if !OnDisk(m, g, a, p.ShardOff()) then (m, 0)
      else (Opened(m, g, p, end, buf, env, a, Shard(m, g, a, p.ShardOff())), p.n)
    else if a == m.at then
      (m.(inode := Stamped(Splice(m.inode, p.inShard, buf[..p.n]), end, env.now)), p.n)
    else if a !in m.bufs || |m.bufs[a].data| != g.shard || g.shard <= p.ShardOff() < g.shard + m.bufs[a].off then (m, 0)
    else
      var b := m.bufs[a].(data := Splice(m.bufs[a].data, p.inShard, buf[..p.n]));
      (m.(bufs := m.bufs[a := b], inode := Stamped(m.inode, end, env.now)), p.n)
  }

  /** userfs_file_read behind its offset computation. */
  function Take(m: Mem, g: Geo, p: Plan, end: nat, size: nat, env: Env): (x: (Mem, seq<Byte>))
    requires Ready(m, g, p, size)
  {
    var w := Entry(m.inode, p.v);
    var a := DH.AddrOf(w);
    if SizeOf(m.inode) < end then (m, [])
    else if a == 0 then (m, seq(p.n, _ => 0))
    else if !DH.TypeOf(w) then
      if !OnDisk(m, g, a, p.ShardOff()) then (m, [])
      else
        var data := Shard(m, g, a, p.ShardOff());
        var inode := WithEntry(m.inode, p.v, DH.Tagged(true, env.spot));
        (m.(bufs := m.bufs[env.spot := Buf(a, p.ShardOff(), data)], inode := WithTime(inode, ATIME, env.now)),
         data[p.inShard..p.inShard + p.n])
    else if a == m.at then
      (m.(inode := WithTime(m.inode, ATIME, env.now)), m.inode[p.inShard..p.inShard + p.n])
    else if a !in m.bufs || |m.bufs[a].data| != g.shard || g.shard <= p.ShardOff() < g.shard + m.bufs[a].off then (m, [])
    else (m.(inode := WithTime(m.inode, ATIME, env.now)), m.bufs[a].data[p.inShard..p.inShard + p.n])
  }

  // ---------------------------------------------------------------------------------------------
  // What the bytes stand for

  /** The block an entry leads to; of the inode's own block only the bytes behind the header matter. */
  function BlockAt(m: Mem, v: nat): (b: Block)
    requires |m.inode| >= INODE && Reaches(m.inode, v)
  {
    var w := Entry(m.inode, v);
    var a := DH.AddrOf(w);
    if a == 0 then Hole
    else if !DH.TypeOf(w) then Closed(a)
    else if a == m.at then Held(m.nr, 0, seq(INODE, _ => 0) + m.inode[INODE..])
    else if a in m.bufs then Held(m.bufs[a].nr, m.bufs[a].off, m.bufs[a].data)
    else Hole
  }

  function Abs(m: Mem, len: nat): (s: State)
    requires |m.inode| >= INODE && len <= ENTRIES
    ensures |s.table| == len && s.disk == m.disk && s.size == SizeOf(m.inode)
    ensures forall v: nat {:trigger s.table[v]} :: v < len ==> s.table[v] == BlockAt(m, v)
  {
    State(SizeOf(m.inode), seq(len, v requires 0 <= v < len => BlockAt(m, v)), m.disk)
  }

  /** An entry is a block number on disk, 0, or the address of a buffer of its own. */
  predicate EntryOk(m: Mem, g: Geo, v: nat)
    requires |m.inode| >= INODE && Reaches(m.inode, v)
  {
    var w := Entry(m.inode, v);
    var a := DH.AddrOf(w);
    && w < 2 * DH.TOP
    && (a != 0 && !DH.TypeOf(w) ==> a < |m.disk| && |m.disk[a]| == g.bs)
    && (DH.TypeOf(w) && a != m.at ==> a in m.bufs && a != 0 && m.bufs[a].off == 0 && |m.bufs[a].data| == g.shard)
    && (DH.TypeOf(w) && a == m.at ==> v == 0)
  }

  predicate Apart(m: Mem, u: nat, v: nat)
    requires Reaches(m.inode, u) && Reaches(m.inode, v)
  {
    var a, b := Entry(m.inode, u), Entry(m.inode, v);
    DH.TypeOf(a) && DH.TypeOf(b) && DH.AddrOf(a) == DH.AddrOf(b) ==> u == v
  }

  /** The buffer of an open file whose table has `len` entries in use. */
  predicate Good(m: Mem, g: Geo, len: nat) {
    && |m.inode| == g.shard >= INODE && g.shard <= g.bs && 0 < len <= ENTRIES && 0 < m.at < DH.TOP && m.at !in m.bufs
    && Entry(m.inode, 0) == DH.Tagged(true, m.at)
    && (forall v: nat {:trigger EntryOk(m, g, v)} :: v < len ==> EntryOk(m, g, v))
    && (forall u: nat, v: nat {:trigger Apart(m, u, v)} :: u < len && v < len ==> Apart(m, u, v))
  }

  /** An address malloc could return. */
  predicate Fresh(m: Mem, a: nat) {
    0 < a < DH.TOP && a != m.at && a !in m.bufs
  }

  lemma GoodStateOk(m: Mem, g: Geo, len: nat)
    requires Good(m, g, len)
    ensures StateOk(Abs(m, len), g)
  {
    var s := Abs(m, len);
    assert EntryOk(m, g, 0) && s.table[0] == BlockAt(m, 0);
    forall v {:trigger s.table[v]} | 0 <= v < |s.table| ensures BlockOk(s, g, s.table[v]) {
      assert EntryOk(m, g, v);
    }
  }

  // ---------------------------------------------------------------------------------------------
  // The operations on bytes refine those on blocks

  lemma StampedDoes(inode: seq<Byte>, len: nat, end: nat, now: nat)
    requires |inode| >= INODE && len <= ENTRIES && end < WORD
    ensures var inode' := Stamped(inode, end, now);
      && SizeOf(inode') == Max(SizeOf(inode), end) && inode'[INODE..] == inode[INODE..]
      && forall u: nat {:trigger Entry(inode', u)} :: u < len ==> Entry(inode', u) == Entry(inode, u)
  {
    ValBound(inode[SIZE..SIZE + 4]);
    Limits();
    var n := Max(SizeOf(inode), end);
    var inode1 := WithSize(inode, n);
    StoreSize(inode, len, n);
    StoreTime(inode1, len, MTIME, now);
    forall u: nat | u < len ensures Entry(Stamped(inode, end, now), u) == Entry(inode, u) {
      assert Entry(inode1, u) == Entry(inode, u);
    }
  }

  /** All that a file depends on, but for block `v`, is in `m'` as in `m`. */
  ghost predicate Others(m: Mem, m': Mem, len: nat, v: nat)
    requires |m.inode| == |m'.inode| >= INODE && v < len <= ENTRIES
  {
    && m'.at == m.at && m'.nr == m.nr && m'.disk == m.disk && (v != 0 ==> m'.inode[INODE..] == m.inode[INODE..])
    && (forall u: nat {:trigger Entry(m'.inode, u)} :: u < len && u != v ==> Entry(m'.inode, u) == Entry(m.inode, u))
    && (forall a: nat {:trigger a in m'.bufs} :: a in m.bufs && (Reached(m, v) ==> a != Target(m, v)) ==>
          a in m'.bufs && m'.bufs[a] == m.bufs[a])
  }

  /** The entry is a buffer's address. */
  predicate Reached(m: Mem, v: nat)
    requires Reaches(m.inode, v)
  {
    DH.TypeOf(Entry(m.inode, v))
  }

  function Target(m: Mem, v: nat): (a: nat)
    requires Reaches(m.inode, v)
  {
    DH.AddrOf(Entry(m.inode, v))
  }

  lemma OtherBlock(m: Mem, m': Mem, g: Geo, len: nat, v: nat, u: nat)
    requires Good(m, g, len) && |m'.inode| == |m.inode| && v < len && u < len && u != v && Others(m, m', len, v)
    ensures BlockAt(m', u) == BlockAt(m, u) && EntryOk(m', g, u)
  {
    assert EntryOk(m, g, u) && EntryOk(m, g, v) && EntryOk(m, g, 0) && Apart(m, u, v) && Apart(m, u, 0);
    assert Entry(m'.inode, u) == Entry(m.inode, u);
    if Reached(m, u) && Target(m, u) != m.at {
      assert Target(m, u) in m'.bufs;
    }
  }

  /** A step that changes block `v` to `b` and the size is that step on blocks. */
  lemma StepOn(m: Mem, m': Mem, g: Geo, len: nat, v: nat, b: Block)
    requires Good(m, g, len) && |m'.inode| == |m.inode| && v < len && Others(m, m', len, v)
    requires BlockAt(m', v) == b
    ensures Abs(m', len) == State(SizeOf(m'.inode), Abs(m, len).table[v := b], m.disk)
  {
    var s, s' := Abs(m, len), Abs(m', len);
    forall u: nat | u < len ensures s'.table[u] == s.table[v := b][u] {
      if u != v {
        OtherBlock(m, m', g, len, v, u);
      }
    }
    assert s'.table == s.table[v := b];
  }

  lemma StepGood(m: Mem, m': Mem, g: Geo, len: nat, v: nat)
    requires Good(m, g, len) && |m'.inode| == |m.inode| && v < len && Others(m, m', len, v)
    requires m.at !in m'.bufs && EntryOk(m', g, v)
    requires Entry(m'.inode, v) == Entry(m.inode, v) || (v != 0 && Reached(m', v) && Fresh(m, Target(m', v)))
    ensures Good(m', g, len)
  {
    forall u: nat | u < len ensures EntryOk(m', g, u) {
      if u != v {
        OtherBlock(m, m', g, len, v, u);
      }
    }
    forall x: nat, y: nat | x < len && y < len ensures Apart(m', x, y) {
      assert Apart(m, x, y) && EntryOk(m, g, x) && EntryOk(m, g, y);
      assert x != v ==> Entry(m'.inode, x) == Entry(m.inode, x);
      assert y != v ==> Entry(m'.inode, y) == Entry(m.inode, y);
    }
    assert Entry(m'.inode, 0) == Entry(m.inode, 0);
  }

  /** What a caller and the environment of an access provide. */
  predicate Proper(m: Mem, g: Geo, len: nat, p: Plan, end: nat, size: nat, env: Env)
    requires |m.inode| >= INODE && len <= ENTRIES
  {
    InFirst(Abs(m, len), g, p, size) && end < WORD && GrantOk(g, env.got) && Fresh(m, env.spot)
  }

  lemma ProperReady(m: Mem, g: Geo, len: nat, p: Plan, end: nat, size: nat, env: Env)
    requires Good(m, g, len) && Proper(m, g, len, p, end, size, env)
    ensures Ready(m, g, p, size) && p.v < len && p.ShardOff() == 0
  {
  }

  /** The inode with a new address in entry `v`: that entry, the other entries, the size and the file's bytes. */
  lemma OpenedEntry(inode: seq<Byte>, len: nat, v: nat, a: nat)
    requires |inode| >= INODE && v < len <= ENTRIES && 0 < a < DH.TOP
    ensures var w := DH.Tagged(true, a); var inode' := WithEntry(inode, v, w);
      && DH.TypeOf(w) && DH.AddrOf(w) == a && Entry(inode', v) == w && SameBut(inode, inode', len, v)
  {
    DH.TagRoundTrip(true, a);
    StoreEntry(inode, len, v, DH.Tagged(true, a));
  }

  lemma OpenedDoes(m: Mem, g: Geo, len: nat, v: nat, b: Buf, spot: nat, end: nat, now: nat)
    requires Good(m, g, len) && 0 < v < len && !Reached(m, v) && Fresh(m, spot) && end < WORD
    ensures var inode' := Stamped(WithEntry(m.inode, v, DH.Tagged(true, spot)), end, now);
      var m' := m.(bufs := m.bufs[spot := b], inode := inode');
      && Others(m, m', len, v) && Reached(m', v) && Target(m', v) == spot && Entry(inode', v) < 2 * DH.TOP
      && SizeOf(inode') == Max(SizeOf(m.inode), end)
  {
    var inode1 := WithEntry(m.inode, v, DH.Tagged(true, spot));
    var inode' := Stamped(inode1, end, now);
    OpenedEntry(m.inode, len, v, spot);
    StampedDoes(inode1, len, end, now);
    assert Entry(inode', v) == Entry(inode1, v);
    forall u: nat | u < len && u != v ensures Entry(inode', u) == Entry(m.inode, u) {
      assert Entry(inode1, u) == Entry(m.inode, u);
    }
  }

  lemma OpenedRefines(m: Mem, g: Geo, len: nat, p: Plan, end: nat, buf: seq<Byte>, env: Env, nr: nat, data: seq<Byte>)
    requires Good(m, g, len) && Proper(m, g, len, p, end, |buf|, env) && !Reached(m, p.v) && |data| == g.shard
    ensures Ready(m, g, p, |buf|)
    ensures var m' := Opened(m, g, p, end, buf, env, nr, data); var s := Abs(m, len);
      && Good(m', g, len)
      && Abs(m', len) == State(Max(s.size, end), s.table[p.v := Held(nr, 0, Splice(data, p.inShard, buf[..p.n]))], s.disk)
  {
    ProperReady(m, g, len, p, end, |buf|, env);
    var m' := Opened(m, g, p, end, buf, env, nr, data);
    assert EntryOk(m, g, 0) && p.v != 0;
    var data' := Splice(data, p.inShard, buf[..p.n]);
    OpenedDoes(m, g, len, p.v, Buf(nr, 0, data'), env.spot, end, env.now);
    StepOn(m, m', g, len, p.v, Held(nr, 0, data'));
    StepGood(m, m', g, len, p.v);
  }

  lemma FirstDoes(m: Mem, g: Geo, len: nat, at: nat, src: seq<Byte>, end: nat, now: nat)
    requires Good(m, g, len) && INODE <= at && at + |src| <= g.shard && end < WORD
    ensures var inode' := Stamped(Splice(m.inode, at, src), end, now); var m' := m.(inode := inode');
      && Others(m, m', len, 0) && Entry(inode', 0) == Entry(m.inode, 0)
      && SizeOf(inode') == Max(SizeOf(m.inode), end)
      && inode'[INODE..] == Splice(m.inode[INODE..], at - INODE, src)
  {
    var inode1 := Splice(m.inode, at, src);
    var inode' := Stamped(inode1, end, now);
    CopyPastHeader(m.inode, len, at, src);
    StampedDoes(inode1, len, end, now);
    forall u: nat | u < len ensures Entry(inode', u) == Entry(m.inode, u) {
      assert Entry(inode1, u) == Entry(m.inode, u);
    }
  }

  lemma FirstWritten(m: Mem, g: Geo, len: nat, at: nat, src: seq<Byte>, end: nat, now: nat)
    requires Good(m, g, len) && len > 0 && Reached(m, 0) && Target(m, 0) == m.at
    requires INODE <= at && at + |src| <= g.shard && end < WORD
    ensures var m' := m.(inode := Stamped(Splice(m.inode, at, src), end, now)); var s := Abs(m, len);
      && Good(m', g, len) && s.table[0].Held? && |s.table[0].data| == g.shard
      && Abs(m', len) == State(Max(s.size, end), s.table[0 := Held(m.nr, 0, Splice(s.table[0].data, at, src))], s.disk)
  {
    var m' := m.(inode := Stamped(Splice(m.inode, at, src), end, now));
    assert EntryOk(m, g, 0);
    FirstDoes(m, g, len, at, src, end, now);
    var zeros: seq<Byte> := seq(INODE, _ => 0);
    MaskedSplice(zeros, m.inode[INODE..], at, src);
    var b := Held(m.nr, 0, Splice(zeros + m.inode[INODE..], at, src));
    StepOn(m, m', g, len, 0, b);
    StepGood(m, m', g, len, 0);
  }

  /** Writing into the inode's own block. */
  lemma PutFirst(m: Mem, g: Geo, len: nat, p: Plan, end: nat, buf: seq<Byte>, env: Env)
    requires Good(m, g, len) && Proper(m, g, len, p, end, |buf|, env) && Reached(m, p.v) && Target(m, p.v) == m.at
    ensures Ready(m, g, p, |buf|)
    ensures var (m', n) := Put(m, g, p, end, buf, env); var s := Abs(m, len);
      && n == p.n && Good(m', g, len) && s.table[p.v].Held? && |s.table[p.v].data| == g.shard
      && Abs(m', len) == State(Max(s.size, end),
                               s.table[p.v := Held(m.nr, 0, Splice(s.table[p.v].data, p.inShard, buf[..p.n]))], s.disk)
  {
    ProperReady(m, g, len, p, end, |buf|, env);
    assert EntryOk(m, g, p.v) && p.v == 0;
    FirstWritten(m, g, len, p.inShard, buf[..p.n], end, env.now);
  }

  lemma MaskedSplice(head: seq<Byte>, tail: seq<Byte>, at: nat, src: seq<Byte>)
    requires |head| <= at && at + |src| <= |head| + |tail|
    ensures Splice(head + tail, at, src) == head + Splice(tail, at - |head|, src)
  {
  }

  /** Writing into another open block. */
  lemma PutHeld(m: Mem, g: Geo, len: nat, p: Plan, end: nat, buf: seq<Byte>, env: Env)
    requires Good(m, g, len) && Proper(m, g, len, p, end, |buf|, env) && Reached(m, p.v) && Target(m, p.v) != m.at
    ensures Ready(m, g, p, |buf|)
    ensures var (m', n) := Put(m, g, p, end, buf, env); var s := Abs(m, len); var b := s.table[p.v];
      && n == p.n && Good(m', g, len) && b.Held? && |b.data| == g.shard
      && Abs(m', len) == State(Max(s.size, end),
                               s.table[p.v := Held(b.nr, 0, Splice(b.data, p.inShard, buf[..p.n]))], s.disk)
  {
    ProperReady(m, g, len, p, end, |buf|, env);
    assert EntryOk(m, g, p.v) && EntryOk(m, g, 0);
    var a := Target(m, p.v);
    var m' := Put(m, g, p, end, buf, env).0;
    StampedDoes(m.inode, len, end, env.now);
    assert Others(m, m', len, p.v);
    assert Entry(m'.inode, p.v) == Entry(m.inode, p.v);
    StepOn(m, m', g, len, p.v, Held(m.bufs[a].nr, 0, Splice(m.bufs[a].data, p.inShard, buf[..p.n])));
    StepGood(m, m', g, len, p.v);
  }

  /** A write on blocks, by its effect. */
  lemma BlocksPut(s: State, g: Geo, p: Plan, end: nat, buf: seq<Byte>, got: Grant)
    requires StateOk(s, g) && InFirst(s, g, p, |buf|) && GrantOk(g, got)
    ensures var b := s.table[p.v];
      FileBlocks.Put(s, g, p, end, buf, got) ==
        if b.Hole? && got.None? then (s, 0)
        else
          var nr := if b.Hole? then got.value.0 else b.nr;
          assert BlockOk(s, g, b);
          var data := if b.Hole? then got.value.1 else if b.Closed? then s.disk[b.nr][0..g.shard] else b.data;
          (State(Max(s.size, end), s.table[p.v := Held(nr, 0, Splice(data, p.inShard, buf[..p.n]))], s.disk), p.n)
  {
    assert BlockOk(s, g, s.table[p.v]);
  }

  lemma PutOpen(m: Mem, g: Geo, len: nat, p: Plan, end: nat, buf: seq<Byte>, env: Env)
    requires Good(m, g, len) && Proper(m, g, len, p, end, |buf|, env) && Reached(m, p.v)
    ensures Ready(m, g, p, |buf|) && StateOk(Abs(m, len), g)
    ensures var (m', n) := Put(m, g, p, end, buf, env);
      Good(m', g, len) && (Abs(m', len), n) == FileBlocks.Put(Abs(m, len), g, p, end, buf, env.got)
  {
    GoodStateOk(m, g, len);
    BlocksPut(Abs(m, len), g, p, end, buf, env.got);
    if Target(m, p.v) == m.at {
      PutFirst(m, g, len, p, end, buf, env);
    } else {
      PutHeld(m, g, len, p, end, buf, env);
    }
  }

  lemma PutFresh(m: Mem, g: Geo, len: nat, p: Plan, end: nat, buf: seq<Byte>, env: Env)
    requires Good(m, g, len) && Proper(m, g, len, p, end, |buf|, env) && !Reached(m, p.v) && Target(m, p.v) == 0
    ensures Ready(m, g, p, |buf|) && StateOk(Abs(m, len), g)
    ensures var (m', n) := Put(m, g, p, end, buf, env);
      Good(m', g, len) && (Abs(m', len), n) == FileBlocks.Put(Abs(m, len), g, p, end, buf, env.got)
  {
    ProperReady(m, g, len, p, end, |buf|, env);
    GoodStateOk(m, g, len);
    BlocksPut(Abs(m, len), g, p, end, buf, env.got);
    if env.got.Some? {
      OpenedRefines(m, g, len, p, end, buf, env, env.got.value.0, env.got.value.1);
    }
  }

  lemma ClosedPut(m: Mem, g: Geo, p: Plan, end: nat, buf: seq<Byte>, env: Env)
    requires Ready(m, g, p, |buf|) && GrantOk(g, env.got) && !Reached(m, p.v)
    requires Target(m, p.v) != 0 && OnDisk(m, g, Target(m, p.v), p.ShardOff())
    ensures Put(m, g, p, end, buf, env) ==
      (Opened(m, g, p, end, buf, env, Target(m, p.v), Shard(m, g, Target(m, p.v), p.ShardOff())), p.n)
  {
  }

  lemma PutClosed(m: Mem, g: Geo, len: nat, p: Plan, end: nat, buf: seq<Byte>, env: Env)
    requires Good(m, g, len) && Proper(m, g, len, p, end, |buf|, env) && !Reached(m, p.v) && Target(m, p.v) != 0
    ensures Ready(m, g, p, |buf|) && StateOk(Abs(m, len), g)
    ensures var (m', n) := Put(m, g, p, end, buf, env);
      Good(m', g, len) && (Abs(m', len), n) == FileBlocks.Put(Abs(m, len), g, p, end, buf, env.got)
  {
    ProperReady(m, g, len, p, end, |buf|, env);
    GoodStateOk(m, g, len);
    BlocksPut(Abs(m, len), g, p, end, buf, env.got);
    var a := Target(m, p.v);
    assert EntryOk(m, g, p.v) && Abs(m, len).table[p.v] == Closed(a);
    ClosedPut(m, g, p, end, buf, env);
    OpenedRefines(m, g, len, p, end, buf, env, a, Shard(m, g, a, 0));
  }

  /** A write to the bytes of the buffers is the write on blocks. */
  lemma PutRefines(m: Mem, g: Geo, len: nat, p: Plan, end: nat, buf: seq<Byte>, env: Env)
    requires Good(m, g, len) && Proper(m, g, len, p, end, |buf|, env)
    ensures Ready(m, g, p, |buf|) && StateOk(Abs(m, len), g)
    ensures var (m', n) := Put(m, g, p, end, buf, env);
      Good(m', g, len) && (Abs(m', len), n) == FileBlocks.Put(Abs(m, len), g, p, end, buf, env.got)
  {
    if Reached(m, p.v) {
      PutOpen(m, g, len, p, end, buf, env);
    } else if Target(m, p.v) == 0 {
      PutFresh(m, g, len, p, end, buf, env);
    } else {
      PutClosed(m, g, len, p, end, buf, env);
    }
  }

  /** A time stamp changes nothing a file depends on. */
  lemma TimeRefines(m: Mem, g: Geo, len: nat, now: nat)
    requires Good(m, g, len)
    ensures var m' := m.(inode := WithTime(m.inode, ATIME, now)); Good(m', g, len) && Abs(m', len) == Abs(m, len)
  {
    var m' := m.(inode := WithTime(m.inode, ATIME, now));
    StoreTime(m.inode, len, ATIME, now);
    assert EntryOk(m, g, 0);
    assert Entry(m'.inode, 0) == Entry(m.inode, 0);
    assert BlockAt(m', 0) == BlockAt(m, 0);
    assert Others(m, m', len, 0);
    StepOn(m, m', g, len, 0, BlockAt(m, 0));
    StepGood(m, m', g, len, 0);
    assert Abs(m, len).table[0 := BlockAt(m, 0)] == Abs(m, len).table;
  }

  /** A read of the bytes of the buffers is the read on blocks. */
  lemma TakeRefines(m: Mem, g: Geo, len: nat, p: Plan, end: nat, size: nat, env: Env)
    requires Good(m, g, len) && Proper(m, g, len, p, end, size, env)
    ensures Ready(m, g, p, size) && StateOk(Abs(m, len), g)
    ensures var (m', bytes) := Take(m, g, p, end, size, env); var (s', bytes') := FileBlocks.Take(Abs(m, len), g, p, end, size);
      bytes == bytes' && Good(m', g, len) && Abs(m', len) == s'
  {
    ProperReady(m, g, len, p, end, size, env);
    GoodStateOk(m, g, len);
    assert EntryOk(m, g, p.v);
    var s := Abs(m, len);
    if end <= s.size && Target(m, p.v) != 0 {
      if Reached(m, p.v) {
        TimeRefines(m, g, len, env.now);
        assert s.table[p.v := s.table[p.v]] == s.table;
        if Target(m, p.v) == m.at {
          MaskedSlice(seq(INODE, _ => 0), m.inode, p.inShard, p.inShard + p.n);
        }
      } else {
        LoadedRefines(m, g, len, p, end, size, env);
      }
    }
  }

  lemma MaskedSlice(zeros: seq<Byte>, inode: seq<Byte>, lo: nat, hi: nat)
    requires |zeros| == INODE <= lo <= hi <= |inode|
    ensures (zeros + inode[INODE..])[lo..hi] == inode[lo..hi]
  {
  }

  lemma LoadedDoes(m: Mem, g: Geo, len: nat, v: nat, b: Buf, spot: nat)
    requires Good(m, g, len) && 0 < v < len && !Reached(m, v) && Fresh(m, spot) && b.off == 0 && |b.data| == g.shard
    ensures var m' := m.(bufs := m.bufs[spot := b], inode := WithEntry(m.inode, v, DH.Tagged(true, spot)));
      Good(m', g, len) && Abs(m', len) == State(SizeOf(m.inode), Abs(m, len).table[v := Held(b.nr, 0, b.data)], m.disk)
  {
    var m' := m.(bufs := m.bufs[spot := b], inode := WithEntry(m.inode, v, DH.Tagged(true, spot)));
    OpenedEntry(m.inode, len, v, spot);
    assert Others(m, m', len, v);
    StepOn(m, m', g, len, v, Held(b.nr, 0, b.data));
    StepGood(m, m', g, len, v);
  }

  lemma LoadedTake(m: Mem, g: Geo, p: Plan, end: nat, size: nat, env: Env)
    requires Ready(m, g, p, size) && p.ShardOff() == 0 && !Reached(m, p.v) && end <= SizeOf(m.inode)
    requires var nr := Target(m, p.v); nr != 0 && OnDisk(m, g, nr, 0)
    ensures var nr := Target(m, p.v); var data := Shard(m, g, nr, 0);
      var m1 := m.(bufs := m.bufs[env.spot := Buf(nr, 0, data)], inode := WithEntry(m.inode, p.v, DH.Tagged(true, env.spot)));
      Take(m, g, p, end, size, env) == (m1.(inode := WithTime(m1.inode, ATIME, env.now)), data[p.inShard..p.inShard + p.n])
  {
  }

  /** Reading a block that was closed. */
  lemma LoadedRefines(m: Mem, g: Geo, len: nat, p: Plan, end: nat, size: nat, env: Env)
    requires Good(m, g, len) && Proper(m, g, len, p, end, size, env)
    requires !Reached(m, p.v) && Target(m, p.v) != 0 && end <= SizeOf(m.inode)
    ensures Ready(m, g, p, size)
    ensures var (m', bytes) := Take(m, g, p, end, size, env); var s := Abs(m, len); var nr := Target(m, p.v);
      && OnDisk(m, g, nr, 0) && bytes == Shard(m, g, nr, 0)[p.inShard..p.inShard + p.n]
      && Good(m', g, len)
      && Abs(m', len) == State(s.size, s.table[p.v := Held(nr, 0, Shard(m, g, nr, 0))], s.disk)
  {
    ProperReady(m, g, len, p, end, size, env);
    assert EntryOk(m, g, p.v) && EntryOk(m, g, 0) && p.v != 0;
    LoadedTake(m, g, p, end, size, env);
    var nr := Target(m, p.v);
    var b := Buf(nr, 0, Shard(m, g, nr, 0));
    LoadedDoes(m, g, len, p.v, b, env.spot);
    var m1 := m.(bufs := m.bufs[env.spot := b], inode := WithEntry(m.inode, p.v, DH.Tagged(true, env.spot)));
    TimeRefines(m1, g, len, env.now);
  }

  // ---------------------------------------------------------------------------------------------
  // What an access does to the bytes of the inode's block

  /** The access has to open the block it goes to, and can. */
  predicate Opens(m: Mem, g: Geo, p: Plan, env: Env)
    requires Reaches(m.inode, p.v)
  {
    && Entry(m.inode, p.v) < DH.TOP && 0 < env.spot < DH.TOP
    && if Target(m, p.v) == 0 then env.got.Some? else 0 <= p.ShardOff() && OnDisk(m, g, Target(m, p.v), p.ShardOff())
  }

  lemma StampedTail(inode: seq<Byte>, end: nat, now: nat)
    requires |inode| >= INODE
    ensures Stamped(inode, end, now)[INODE..] == inode[INODE..]
  {
    var n := Max(SizeOf(inode), end);
    StoredApart(inode, SIZE, SIZE + 4, n, INODE, |inode|);
    StoredApart(WithSize(inode, n), MTIME, MTIME + 8, now, INODE, |inode|);
  }

  /**
   A write that opens another block, which stores an address in the table, leaves the file's bytes in the first
   block alone if and only if the block's number is below 122. No bound is assumed.
   */
  lemma WriteSparesFirstIff(m: Mem, g: Geo, p: Plan, end: nat, buf: seq<Byte>, env: Env)
    requires Ready(m, g, p, |buf|) && GrantOk(g, env.got) && Opens(m, g, p, env)
    ensures Put(m, g, p, end, buf, env).0.inode[INODE..] == m.inode[INODE..] <==> p.v < ENTRIES
  {
    var w := DH.Tagged(true, env.spot);
    EntryStoreSparesIff(m.inode, p.v, w);
    StampedTail(WithEntry(m.inode, p.v, w), end, env.now);
  }

  /** The same for a read. */
  lemma ReadSparesFirstIff(m: Mem, g: Geo, p: Plan, end: nat, size: nat, env: Env)
    requires Ready(m, g, p, size) && Opens(m, g, p, env) && Target(m, p.v) != 0 && end <= SizeOf(m.inode)
    ensures Take(m, g, p, end, size, env).0.inode[INODE..] == m.inode[INODE..] <==> p.v < ENTRIES
  {
    var w := DH.Tagged(true, env.spot);
    EntryStoreSparesIff(m.inode, p.v, w);
    StoredApart(WithEntry(m.inode, p.v, w), ATIME, ATIME + 8, env.now, INODE, |m.inode|);
  }

  lemma OpensPut(m: Mem, g: Geo, p: Plan, end: nat, buf: seq<Byte>, env: Env)
    requires Ready(m, g, p, |buf|) && GrantOk(g, env.got) && Opens(m, g, p, env)
    ensures Put(m, g, p, end, buf, env).0.inode ==
      Stamped(WithEntry(m.inode, p.v, DH.Tagged(true, env.spot)), end, env.now)
  {
  }

  lemma SameTail(a: seq<Byte>, b: seq<Byte>, lo: nat, hi: nat)
    requires |a| == |b| >= INODE && a[INODE..] == b[INODE..] && INODE <= lo <= hi <= |a|
    ensures a[lo..hi] == b[lo..hi]
  {
    assert forall i :: lo <= i < hi ==> a[i] == a[INODE..][i - INODE] && b[i] == b[INODE..][i - INODE];
  }

  /** At block 122 the address of the new buffer lands on the first eight bytes of the file. */
  lemma Block122Overwrites(m: Mem, g: Geo, p: Plan, end: nat, buf: seq<Byte>, env: Env)
    requires Ready(m, g, p, |buf|) && GrantOk(g, env.got) && p.v == ENTRIES && Opens(m, g, p, env)
    ensures var m' := Put(m, g, p, end, buf, env).0;
      |m'.inode| >= INODE + 8 && Val(m'.inode[INODE..INODE + 8]) == DH.Tagged(true, env.spot)
  {
    var w, lo := DH.Tagged(true, env.spot), TABLE + 8 * p.v;
    Limits();
    StoredThere(m.inode, lo, lo + 8, w);
    StampedTail(WithEntry(m.inode, p.v, w), end, env.now);
    OpensPut(m, g, p, end, buf, env);
    SameTail(WithEntry(m.inode, p.v, w), Put(m, g, p, end, buf, env).0.inode, lo, lo + 8);
  }

  /** The header bytes an access to block `v` may change: both times, the size, and that block's entry. */
  predicate Field(v: nat, r: nat) {
    || ATIME <= r < ATIME + 8 || MTIME <= r < MTIME + 8 || SIZE <= r < SIZE + 4
    || TABLE + 8 * v <= r < TABLE + 8 * v + 8
  }

  lemma WriteKeepsHeader(m: Mem, g: Geo, p: Plan, end: nat, buf: seq<Byte>, env: Env, r: nat)
    requires Ready(m, g, p, |buf|) && GrantOk(g, env.got) && r < INODE && !Field(p.v, r)
    requires Reached(m, p.v) && Target(m, p.v) == m.at ==> p.inShard >= INODE
    ensures var m' := Put(m, g, p, end, buf, env).0; r < |m'.inode| && m'.inode[r] == m.inode[r]
  {
  }

  lemma ReadKeepsHeader(m: Mem, g: Geo, p: Plan, end: nat, size: nat, env: Env, r: nat)
    requires Ready(m, g, p, size) && r < INODE && !Field(p.v, r)
    ensures var m' := Take(m, g, p, end, size, env).0; r < |m'.inode| && m'.inode[r] == m.inode[r]
  {
  }

  /** One of the two times is set to `now`, the other as it was. */
  predicate Stamps(inode: seq<Byte>, inode': seq<Byte>, field: nat, other: nat, now: nat)
    requires |inode| >= INODE && field <= MTIME && other <= MTIME
  {
    |inode'| == |inode| && Val(inode'[field..field + 8]) == now && inode'[other..other + 8] == inode[other..other + 8]
  }

  lemma TimeStamps(inode: seq<Byte>, d: seq<Byte>, field: nat, other: nat, now: nat)
    requires |inode| == |d| >= INODE && field <= MTIME && other <= MTIME && (field + 8 <= other || other + 8 <= field)
    requires d[other..other + 8] == inode[other..other + 8] && now < Limit(8)
    ensures Stamps(inode, WithTime(d, field, now), field, other, now)
  {
    StoredThere(d, field, field + 8, now);
    StoredApart(d, field, field + 8, now, other, other + 8);
  }

  lemma EntryStamps(inode: seq<Byte>, v: nat, w: nat, now: nat)
    requires |inode| >= INODE && Reaches(inode, v) && now < Limit(8)
    ensures Stamps(inode, WithTime(WithEntry(inode, v, w), ATIME, now), ATIME, MTIME, now)
  {
    StoredApart(inode, TABLE + 8 * v, TABLE + 8 * v + 8, w, MTIME, MTIME + 8);
    TimeStamps(inode, WithEntry(inode, v, w), ATIME, MTIME, now);
  }

  lemma StampedStamps(inode: seq<Byte>, d: seq<Byte>, end: nat, now: nat)
    requires |inode| == |d| >= INODE && d[ATIME..ATIME + 8] == inode[ATIME..ATIME + 8] && now < Limit(8)
    ensures Stamps(inode, Stamped(d, end, now), MTIME, ATIME, now)
  {
    var n := Max(SizeOf(d), end);
    StoredApart(d, SIZE, SIZE + 4, n, ATIME, ATIME + 8);
    TimeStamps(inode, WithSize(d, n), MTIME, ATIME, now);
  }

  /** The inode's block after a write, before size and time are set. */
  function Based(m: Mem, p: Plan, buf: seq<Byte>, env: Env): (d: seq<Byte>)
    requires |m.inode| >= INODE && Reaches(m.inode, p.v) && p.n <= |buf| && p.inShard + p.n <= |m.inode|
    ensures |d| == |m.inode|
  {
    if Target(m, p.v) == 0 || !Reached(m, p.v) then WithEntry(m.inode, p.v, DH.Tagged(true, env.spot))
    else if Target(m, p.v) == m.at then Splice(m.inode, p.inShard, buf[..p.n])
    else m.inode
  }

  lemma PutBased(m: Mem, g: Geo, p: Plan, end: nat, buf: seq<Byte>, env: Env)
    requires Ready(m, g, p, |buf|) && GrantOk(g, env.got) && p.n > 0
    ensures var (m', n) := Put(m, g, p, end, buf, env);
      if n == 0 then m' == m else m'.inode == Stamped(Based(m, p, buf, env), end, env.now)
  {
  }

  lemma BasedKeepsTime(m: Mem, p: Plan, buf: seq<Byte>, env: Env)
    requires |m.inode| >= INODE && Reaches(m.inode, p.v) && p.n <= |buf| && p.inShard + p.n <= |m.inode|
    requires Reached(m, p.v) && Target(m, p.v) == m.at ==> p.inShard >= INODE
    ensures Based(m, p, buf, env)[ATIME..ATIME + 8] == m.inode[ATIME..ATIME + 8]
  {
    var lo := TABLE + 8 * p.v;
    StoredApart(m.inode, lo, lo + 8, DH.Tagged(true, env.spot), ATIME, ATIME + 8);
    if p.inShard >= INODE {
      SpliceApart(m.inode, p.inShard, buf[..p.n], ATIME, ATIME + 8);
    }
  }

  /** A write that copies sets the modification time and leaves the access time; one that fails changes nothing. */
  lemma WriteStamps(m: Mem, g: Geo, p: Plan, end: nat, buf: seq<Byte>, env: Env)
    requires Ready(m, g, p, |buf|) && GrantOk(g, env.got) && p.n > 0 && env.now < Limit(8)
    requires Reached(m, p.v) && Target(m, p.v) == m.at ==> p.inShard >= INODE
    ensures var (m', n) := Put(m, g, p, end, buf, env);
      if n == 0 then m' == m else Stamps(m.inode, m'.inode, MTIME, ATIME, env.now)
  {
    PutBased(m, g, p, end, buf, env);
    BasedKeepsTime(m, p, buf, env);
    StampedStamps(m.inode, Based(m, p, buf, env), end, env.now);
  }

  lemma TakeBased(m: Mem, g: Geo, p: Plan, end: nat, size: nat, env: Env)
    requires Ready(m, g, p, size) && p.n > 0
    ensures var (m', bytes) := Take(m, g, p, end, size, env);
      if bytes == [] || Target(m, p.v) == 0 then m' == m
      else if Reached(m, p.v) then m'.inode == WithTime(m.inode, ATIME, env.now)
      else m'.inode == WithTime(WithEntry(m.inode, p.v, DH.Tagged(true, env.spot)), ATIME, env.now)
  {
  }

  /** A read that copies from a block sets the access time and leaves the modification time; others change nothing. */
  lemma ReadStamps(m: Mem, g: Geo, p: Plan, end: nat, size: nat, env: Env)
    requires Ready(m, g, p, size) && p.n > 0 && env.now < Limit(8)
    ensures var (m', bytes) := Take(m, g, p, end, size, env);
      if bytes == [] || Target(m, p.v) == 0 then m' == m else Stamps(m.inode, m'.inode, ATIME, MTIME, env.now)
  {
    TakeBased(m, g, p, end, size, env);
    TimeStamps(m.inode, m.inode, ATIME, MTIME, env.now);
    EntryStamps(m.inode, p.v, DH.Tagged(true, env.spot), env.now);
  }

  // ---------------------------------------------------------------------------------------------
  // Several shards

  /** Entry `p.v` leads to another open block, whose buffer holds shard `j`; the access asks for shard `i`. */
  predicate OpenAt(m: Mem, g: Geo, p: Plan, i: nat, j: nat)
    requires Reaches(m.inode, p.v)
  {
    && Reached(m, p.v) && Target(m, p.v) != 0 && Target(m, p.v) != m.at && Target(m, p.v) in m.bufs
    && var b := m.bufs[Target(m, p.v)];
       |b.data| == g.shard > 0 && b.off == j * g.shard && p.ShardOff() == i * g.shard
  }

  /**
   A write to an open block goes to the buffer it has, whatever shard that holds, unless the shard asked for lies
   between the second and the one held, both included: so asking again for the shard held fails.
   */
  lemma WriteFindsIff(m: Mem, g: Geo, p: Plan, end: nat, buf: seq<Byte>, env: Env, i: nat, j: nat)
    requires Ready(m, g, p, |buf|) && GrantOk(g, env.got) && p.n > 0 && OpenAt(m, g, p, i, j)
    ensures var (m', n) := Put(m, g, p, end, buf, env); var a := Target(m, p.v);
      && (n == p.n <==> i == 0 || j < i) && (n != p.n ==> n == 0 && m' == m)
      && (n == p.n ==> a in m'.bufs && m'.bufs[a] == m.bufs[a].(data := Splice(m.bufs[a].data, p.inShard, buf[..p.n])))
  {
    PassedOver(g.shard, i, j);
  }

  /** The same of a read within the size. */
  lemma ReadFindsIff(m: Mem, g: Geo, p: Plan, end: nat, size: nat, env: Env, i: nat, j: nat)
    requires Ready(m, g, p, size) && p.n > 0 && OpenAt(m, g, p, i, j) && end <= SizeOf(m.inode)
    ensures var (m', bytes) := Take(m, g, p, end, size, env); var a := Target(m, p.v);
      && (bytes != [] <==> i == 0 || j < i) && (bytes == [] ==> m' == m)
      && (bytes != [] ==> bytes == m.bufs[a].data[p.inShard..p.inShard + p.n])
  {
    PassedOver(g.shard, i, j);
  }

  // ---------------------------------------------------------------------------------------------
  // A new file

  lemma {:induction false} ValZeros(bs: seq<Byte>)
    requires forall i :: 0 <= i < |bs| ==> bs[i] == 0
    ensures Val(bs) == 0
  {
    if bs != [] {
      ValZeros(bs[1..]);
    }
  }

  function Zeros(n: nat): (bs: seq<Byte>)
    ensures |bs| == n && forall i :: 0 <= i < n ==> bs[i] == 0
  {
    seq(n, _ => 0)
  }

  /** The zeroed header in front of `junk`, with the three times set. */
  function Blank(junk: seq<Byte>, now: nat): (inode: seq<Byte>)
    requires |junk| >= INODE
    ensures |inode| == |junk|
  {
    WithTime(WithTime(WithTime(Zeros(INODE) + junk[INODE..], CTIME, now), ATIME, now), MTIME, now)
  }

  /** i_size and the entries are zero, and the file's bytes are what they were. */
  predicate Empty(inode: seq<Byte>, junk: seq<Byte>, len: nat)
    requires |inode| == |junk| >= INODE && len <= ENTRIES
  {
    && SizeOf(inode) == 0 && inode[INODE..] == junk[INODE..]
    && forall v: nat {:trigger Entry(inode, v)} :: v < len ==> Entry(inode, v) == 0
  }

  lemma TimedEmpty(inode: seq<Byte>, junk: seq<Byte>, len: nat, field: nat, now: nat)
    requires |inode| == |junk| >= INODE && len <= ENTRIES && field <= MTIME && Empty(inode, junk, len)
    ensures Empty(WithTime(inode, field, now), junk, len)
  {
    StoreTime(inode, len, field, now);
  }

  lemma ZeroedEmpty(junk: seq<Byte>, len: nat)
    requires |junk| >= INODE && len <= ENTRIES
    ensures Empty(Zeros(INODE) + junk[INODE..], junk, len)
  {
    var a := Zeros(INODE) + junk[INODE..];
    ValZeros(a[SIZE..SIZE + 4]);
    forall v: nat | v < len ensures Entry(a, v) == 0 {
      ValZeros(a[TABLE + 8 * v..TABLE + 8 * v + 8]);
    }
  }

  lemma BlankEmpty(junk: seq<Byte>, now: nat, len: nat)
    requires |junk| >= INODE && len <= ENTRIES
    ensures Empty(Blank(junk, now), junk, len)
  {
    var a := Zeros(INODE) + junk[INODE..];
    var b := WithTime(a, CTIME, now);
    ZeroedEmpty(junk, len);
    TimedEmpty(a, junk, len, CTIME, now);
    TimedEmpty(b, junk, len, ATIME, now);
    TimedEmpty(WithTime(b, ATIME, now), junk, len, MTIME, now);
  }

  /**
   userfs_get_new_inode and the end of userfs_file_create: the header of a buffer that held `junk` is zeroed, the
   times are set, the inode's own address is stored in the first entry, and the reference count is raised to 1.
   */
  function Created(at: nat, nr: nat, junk: seq<Byte>, disk: seq<seq<Byte>>, now: nat): (m: Mem)
    requires |junk| >= INODE
  {
    Mem(at, nr, Stored(WithEntry(Blank(junk, now), 0, DH.Tagged(true, at)), REFS, REFS + 4, 1), map[], disk)
  }

  lemma StoreRefs(inode: seq<Byte>, len: nat, n: nat)
    requires |inode| >= INODE && len <= ENTRIES
    ensures SameBut(inode, Stored(inode, REFS, REFS + 4, n), len, -1)
  {
    StoredApart(inode, REFS, REFS + 4, n, SIZE, SIZE + 4);
    StoredApart(inode, REFS, REFS + 4, n, INODE, |inode|);
    forall u: nat | u < len ensures Entry(Stored(inode, REFS, REFS + 4, n), u) == Entry(inode, u) {
      EntryApart(inode, REFS, REFS + 4, n, u);
    }
  }

  /** Storing an entry and the count in an empty inode leaves it empty but for that entry. */
  lemma EntryThenRefs(a: seq<Byte>, junk: seq<Byte>, w: nat, len: nat)
    requires |a| == |junk| >= INODE && 0 < len <= ENTRIES && w < 2 * DH.TOP && Empty(a, junk, len)
    ensures var inode := Stored(WithEntry(a, 0, w), REFS, REFS + 4, 1);
      && SizeOf(inode) == 0 && inode[INODE..] == junk[INODE..] && Entry(inode, 0) == w
      && forall v: nat {:trigger Entry(inode, v)} :: 0 < v < len ==> Entry(inode, v) == 0
  {
    var b := WithEntry(a, 0, w);
    var c := Stored(b, REFS, REFS + 4, 1);
    StoreEntry(a, len, 0, w);
    StoreRefs(b, len, 1);
    forall v: nat | 0 < v < len ensures Entry(c, v) == 0 {
      assert Entry(b, v) == Entry(a, v);
    }
  }

  lemma CreatedInode(at: nat, junk: seq<Byte>, now: nat, len: nat)
    requires |junk| >= INODE && 0 < at < DH.TOP && 0 < len <= ENTRIES
    ensures var inode := Created(at, 0, junk, [], now).inode;
      && SizeOf(inode) == 0 && inode[INODE..] == junk[INODE..] && Entry(inode, 0) == DH.Tagged(true, at)
      && forall v: nat {:trigger Entry(inode, v)} :: 0 < v < len ==> Entry(inode, v) == 0
  {
    BlankEmpty(junk, now, len);
    EntryThenRefs(Blank(junk, now), junk, DH.Tagged(true, at), len);
  }

  /** The three times. */
  predicate TimesAre(inode: seq<Byte>, now: nat)
    requires |inode| >= INODE
  {
    Val(inode[CTIME..CTIME + 8]) == now && Val(inode[ATIME..ATIME + 8]) == now && Val(inode[MTIME..MTIME + 8]) == now
  }

  lemma BlankTimes(junk: seq<Byte>, now: nat)
    requires |junk| >= INODE && now < 2 * DH.TOP
    ensures TimesAre(Blank(junk, now), now)
  {
    Limits();
    var a := Zeros(INODE) + junk[INODE..];
    var b := WithTime(a, CTIME, now);
    var c := WithTime(b, ATIME, now);
    StoredThere(a, CTIME, CTIME + 8, now);
    StoredThere(b, ATIME, ATIME + 8, now);
    StoredThere(c, MTIME, MTIME + 8, now);
    StoredApart(b, ATIME, ATIME + 8, now, CTIME, CTIME + 8);
    StoredApart(c, MTIME, MTIME + 8, now, CTIME, CTIME + 8);
    StoredApart(c, MTIME, MTIME + 8, now, ATIME, ATIME + 8);
  }

  /** The fields that no read or write depends on. */
  lemma CreatedFields(at: nat, junk: seq<Byte>, now: nat)
    requires |junk| >= INODE && now < 2 * DH.TOP
    ensures var inode := Created(at, 0, junk, [], now).inode;
      TimesAre(inode, now) && Val(inode[REFS..REFS + 4]) == 1
  {
    BlankTimes(junk, now);
    FieldsKept(Blank(junk, now), DH.Tagged(true, at), now);
  }

  lemma FieldsKept(d: seq<Byte>, w: nat, now: nat)
    requires |d| >= INODE && TimesAre(d, now)
    ensures var inode := Stored(WithEntry(d, 0, w), REFS, REFS + 4, 1);
      TimesAre(inode, now) && Val(inode[REFS..REFS + 4]) == 1
  {
    var e := WithEntry(d, 0, w);
    TimesKept(d, TABLE, TABLE + 8, w);
    TimesKept(e, REFS, REFS + 4, 1);
    Limits();
    StoredThere(e, REFS, REFS + 4, 1);
  }

  lemma TimesKept(d: seq<Byte>, lo: nat, hi: nat, n: nat)
    requires MTIME + 8 <= lo <= hi <= |d|
    ensures var d' := Stored(d, lo, hi, n);
      && d'[CTIME..CTIME + 8] == d[CTIME..CTIME + 8] && d'[ATIME..ATIME + 8] == d[ATIME..ATIME + 8]
      && d'[MTIME..MTIME + 8] == d[MTIME..MTIME + 8]
  {
    StoredApart(d, lo, hi, n, CTIME, CTIME + 8);
    StoredApart(d, lo, hi, n, ATIME, ATIME + 8);
    StoredApart(d, lo, hi, n, MTIME, MTIME + 8);
  }

  /** A new file is empty: size 0, its inode's block open, and no block else. */
  lemma CreatedGood(at: nat, nr: nat, junk: seq<Byte>, disk: seq<seq<Byte>>, now: nat, g: Geo, len: nat)
    requires |junk| == g.shard >= INODE && g.shard <= g.bs && 0 < at < DH.TOP && 0 < len <= ENTRIES
    ensures var m := Created(at, nr, junk, disk, now);
      && Good(m, g, len) && SizeOf(m.inode) == 0 && m.inode[INODE..] == junk[INODE..]
      && forall v: nat {:trigger BlockAt(m, v)} :: 0 < v < len ==> BlockAt(m, v) == Hole
  {
    var m := Created(at, nr, junk, disk, now);
    CreatedInode(at, junk, now, len);
    DH.TagRoundTrip(true, at);
    forall v: nat | v < len ensures EntryOk(m, g, v) {
      assert v > 0 ==> Entry(m.inode, v) == 0;
    }
    forall u: nat, v: nat | u < len && v < len ensures Apart(m, u, v) {
      assert EntryOk(m, g, u) && EntryOk(m, g, v);
    }
  }
}
