/**
 The descriptor table on disk: formatting builds a chain of metadata blocks, flushing writes it, and mounting walks
 it from the first block on and fills the heap from the descriptors (userfs/userfs_init.c, userfs/userfs_block_rw.c,
 userfs_bgdidx2bgd in userfs/userfs_file_ctrl.c).
 */
module Mount {
  import opened Common
  import opened Arith
  import opened MaxHeap
  import BM = Bitmap
  import BA = BlockAlloc

  type Group = BA.Group

  /** A metadata block of group descriptors, with its header. */
  datatype MBlock = MBlock(prev: nat, next: nat, descs: seq<Group>)

  /** A block buffer: b_blocknr and b_data. */
  datatype MBuf = MBuf(nr: nat, block: MBlock)

  /** A byte of the disk: the i-th byte of the image of a block. */
  datatype Cell = Cell(block: MBlock, i: nat)

  /** The disk, byte by byte. */
  type Disk = map<nat, Cell>

  /** Block size and s_first_metablock, which also ends every chain. */
  datatype Meta = Meta(size: nat, first: nat)

  // ---------------------------------------------------------------------------------------------
  // The disk

  /** Where a block lies; the product is a 32-bit one. */
  function Where(m: Meta, nr: nat): (off: nat) {
    (m.size * (nr + m.first)) % WORD
  }

  /** The block lies below 4 GiB. */
  predicate Addressable(m: Meta, nr: nat) {
    m.size > 0 && m.size * (nr + m.first) + m.size <= WORD
  }

  lemma WhereIs(m: Meta, nr: nat)
    requires Addressable(m, nr)
    ensures Where(m, nr) == (nr + m.first) * m.size
  {
    var off := (nr + m.first) * m.size;
    assert off == m.size * (nr + m.first);
    ModSmall(off, WORD);
  }

  /** Blocks lie behind each other without overlap. */
  lemma WhereApart(m: Meta, a: nat, b: nat)
    requires Addressable(m, a) && Addressable(m, b) && a < b
    ensures Where(m, a) + m.size <= Where(m, b)
    ensures b == a + 1 ==> Where(m, a) + m.size == Where(m, b)
  {
    WhereIs(m, a);
    WhereIs(m, b);
    MulNext(a + m.first, m.size);
    MulLe(a + m.first + 1, b + m.first, m.size);
  }

  /** The bytes from `off` on are the image of `b`. */
  predicate Stored(disk: Disk, off: nat, size: nat, b: MBlock) {
    forall a {:trigger a in disk} {:trigger disk[a]} :: off <= a < off + size ==> a in disk && disk[a] == Cell(b, a - off)
  }

  /** pwrite of the first `size` bytes of a block's image. */
  function WriteBlock(disk: Disk, off: nat, size: nat, b: MBlock): (disk': Disk)
    ensures forall a {:trigger a in disk'} :: a in disk' <==> a in disk || off <= a < off + size
    ensures forall a {:trigger disk'[a]} :: a in disk' ==>
      disk'[a] == if off <= a < off + size then Cell(b, a - off) else disk[a]
    decreases size
  {
    if size == 0 then disk else WriteBlock(disk, off, size - 1, b)[off + size - 1 := Cell(b, size - 1)]
  }

  /** pread of a block, where the bytes there are the image of one. */
  function ReadAt(disk: Disk, off: nat, size: nat): (b: Option<MBlock>) {
    if size > 0 && off in disk && Stored(disk, off, size, disk[off].block) then Some(disk[off].block) else None
  }

  lemma ReadWritten(disk: Disk, off: nat, size: nat, b: MBlock)
    requires size > 0
    ensures ReadAt(WriteBlock(disk, off, size, b), off, size) == Some(b)
  {
    var disk' := WriteBlock(disk, off, size, b);
    assert off in disk' && disk'[off] == Cell(b, 0);
    forall a | off <= a < off + size ensures a in disk' && disk'[a] == Cell(b, a - off) {
    }
  }

  /** What is read depends on the bytes of the block only. */
  lemma ReadSame(disk: Disk, disk': Disk, off: nat, size: nat)
    requires forall a {:trigger a in disk} {:trigger a in disk'} {:trigger disk[a]} {:trigger disk'[a]} ::
      off <= a < off + size ==> (a in disk <==> a in disk') && (a in disk ==> disk[a] == disk'[a])
    ensures ReadAt(disk, off, size) == ReadAt(disk', off, size)
  {
    if size > 0 {
      assert off in disk <==> off in disk';
      if off in disk {
        assert disk[off] == disk'[off];
        StoredSame(disk, disk', off, size, disk[off].block);
        StoredSame(disk', disk, off, size, disk[off].block);
      }
    }
  }

  lemma StoredSame(disk: Disk, disk': Disk, off: nat, size: nat, b: MBlock)
    requires forall a {:trigger a in disk} {:trigger a in disk'} {:trigger disk[a]} {:trigger disk'[a]} ::
      off <= a < off + size ==> (a in disk <==> a in disk') && (a in disk ==> disk[a] == disk'[a])
    ensures Stored(disk, off, size, b) ==> Stored(disk', off, size, b)
  {
    if Stored(disk, off, size, b) {
      forall a | off <= a < off + size ensures a in disk' && disk'[a] == Cell(b, a - off) {
        assert a in disk;
      }
    }
  }

  /** A write elsewhere leaves what is read. */
  lemma ReadKept(disk: Disk, off: nat, size: nat, b: MBlock, off': nat)
    requires off + size <= off' || off' + size <= off
    ensures ReadAt(WriteBlock(disk, off, size, b), off', size) == ReadAt(disk, off', size)
  {
    ReadSame(disk, WriteBlock(disk, off, size, b), off', size);
  }

  /** userfs_mbbuf_list_flush */
  function Flush(disk: Disk, m: Meta, list: seq<MBuf>): (disk': Disk)
    decreases |list|
  {
    if list == [] then disk else Flush(WriteBlock(disk, Where(m, list[0].nr), m.size, list[0].block), m, list[1..])
  }

  function ReadBlock(disk: Disk, m: Meta, nr: nat): (b: Option<MBlock>) {
    ReadAt(disk, Where(m, nr), m.size)
  }

  predicate AllDifferent(list: seq<MBuf>) {
    forall i, j :: 0 <= i < j < |list| ==> list[i].nr != list[j].nr
  }

  predicate AllAddressable(m: Meta, list: seq<MBuf>) {
    forall i {:trigger list[i]} :: 0 <= i < |list| ==> Addressable(m, list[i].nr)
  }

  /** Flushing a list leaves every block that is not in it. */
  lemma {:induction false} FlushKeeps(disk: Disk, m: Meta, list: seq<MBuf>, nr: nat)
    requires AllAddressable(m, list) && Addressable(m, nr)
    requires forall i {:trigger list[i]} :: 0 <= i < |list| ==> list[i].nr != nr
    ensures ReadBlock(Flush(disk, m, list), m, nr) == ReadBlock(disk, m, nr)
    decreases |list|
  {
    if list != [] {
      var a := list[0].nr;
      if a < nr {
        WhereApart(m, a, nr);
      } else {
        WhereApart(m, nr, a);
      }
      ReadKept(disk, Where(m, a), m.size, list[0].block, Where(m, nr));
      FlushKeeps(WriteBlock(disk, Where(m, a), m.size, list[0].block), m, list[1..], nr);
    }
  }

  /** What is flushed is read back. */
  lemma {:induction false} FlushReads(disk: Disk, m: Meta, list: seq<MBuf>, i: nat)
    requires AllDifferent(list) && AllAddressable(m, list) && i < |list|
    ensures ReadBlock(Flush(disk, m, list), m, list[i].nr) == Some(list[i].block)
    decreases |list|
  {
    var disk1 := WriteBlock(disk, Where(m, list[0].nr), m.size, list[0].block);
    if i == 0 {
      assert Addressable(m, list[0].nr);
      ReadWritten(disk, Where(m, list[0].nr), m.size, list[0].block);
      FlushKeeps(disk1, m, list[1..], list[0].nr);
    } else {
      FlushReads(disk1, m, list[1..], i - 1);
    }
  }

  /** And every byte outside the blocks of the list is as it was. */
  lemma {:induction false} FlushSpares(disk: Disk, m: Meta, list: seq<MBuf>, a: nat)
    requires forall i {:trigger list[i]} :: 0 <= i < |list| ==> a < Where(m, list[i].nr) || Where(m, list[i].nr) + m.size <= a
    ensures var disk' := Flush(disk, m, list); (a in disk' <==> a in disk) && (a in disk ==> disk'[a] == disk[a])
    decreases |list|
  {
    if list != [] {
      assert a < Where(m, list[0].nr) || Where(m, list[0].nr) + m.size <= a;
      FlushSpares(WriteBlock(disk, Where(m, list[0].nr), m.size, list[0].block), m, list[1..], a);
    }
  }

  // ---------------------------------------------------------------------------------------------
  // Chains

  /** Every block leads to the next and the last one to the end mark. */
  predicate Linked(list: seq<MBuf>, end: nat) {
    forall i {:trigger list[i]} :: 0 <= i < |list| ==>
      list[i].nr != end && list[i].block.next == NrAt(list, i + 1, end)
  }

  function NrAt(list: seq<MBuf>, i: nat, end: nat): (nr: nat) {
    if i < |list| then list[i].nr else end
  }

  /** The mount loop started at `nr` reads exactly `list` and stops. */
  predicate Walks(disk: Disk, m: Meta, nr: nat, list: seq<MBuf>)
    decreases |list|
  {
    if nr == m.first then list == []
    else
      && list != [] && list[0].nr == nr && ReadBlock(disk, m, nr) == Some(list[0].block)
      && Walks(disk, m, list[0].block.next, list[1..])
  }

  /** There is at most one list it can read. */
  lemma {:induction false} WalkUnique(disk: Disk, m: Meta, nr: nat, a: seq<MBuf>, b: seq<MBuf>)
    requires Walks(disk, m, nr, a) && Walks(disk, m, nr, b)
    ensures a == b
    decreases |a|
  {
    if nr != m.first {
      WalkUnique(disk, m, a[0].block.next, a[1..], b[1..]);
      assert a == [a[0]] + a[1..] && b == [b[0]] + b[1..];
    }
  }

  lemma {:induction false} LinkedWalks(disk: Disk, m: Meta, list: seq<MBuf>, i: nat)
    requires Linked(list, m.first) && i <= |list|
    requires forall k {:trigger list[k]} :: 0 <= k < |list| ==> ReadBlock(disk, m, list[k].nr) == Some(list[k].block)
    ensures Walks(disk, m, NrAt(list, i, m.first), list[i..])
    decreases |list| - i
  {
    if i < |list| {
      LinkedWalks(disk, m, list, i + 1);
      assert list[i..][0] == list[i] && list[i..][1..] == list[i + 1..];
    }
  }

  /** Flush, then walk: the walk ends and returns the blocks of the list in order. */
  lemma FlushThenWalk(disk: Disk, m: Meta, list: seq<MBuf>)
    requires Linked(list, m.first) && AllDifferent(list) && AllAddressable(m, list)
    ensures Walks(Flush(disk, m, list), m, NrAt(list, 0, m.first), list)
  {
    forall k | 0 <= k < |list| ensures ReadBlock(Flush(disk, m, list), m, list[k].nr) == Some(list[k].block) {
      FlushReads(disk, m, list, k);
    }
    LinkedWalks(Flush(disk, m, list), m, list, 0);
    assert list[0..] == list;
  }

  // ---------------------------------------------------------------------------------------------
  // Formatting

  /** Up to `k` metadata blocks from the superblock's bitmap. */
  function Grab(b: BM.Map, k: nat): (x: (BM.Map, seq<nat>))
    requires BM.Exact(b) && BM.Sentinel(b)
    decreases k
  {
    if k == 0 then (b, [])
    else
      var (b1, r) := BM.GetFirstFree(b);
      BM.FirstFreeExact(b);
      if r < 0 then (b, [])
      else
        var (b2, nrs) := Grab(b1, k - 1);
        (b2, [r as nat] + nrs)
  }

  /** The numbers were all free, are all different, and are as many as asked for or as there are. */
  lemma {:induction false} Grabbed(b: BM.Map, k: nat)
    requires BM.Exact(b) && BM.Sentinel(b)
    ensures var nrs := Grab(b, k).1;
      && (forall i {:trigger nrs[i]} :: 0 <= i < |nrs| ==> nrs[i] < b.n && !b.bits[nrs[i]])
      && (forall i, j :: 0 <= i < j < |nrs| ==> nrs[i] != nrs[j])
      && |nrs| <= k && (|nrs| < k ==> b.used + |nrs| == b.n)
    decreases k
  {
    if k > 0 {
      var (b1, r) := BM.GetFirstFree(b);
      BM.FirstFreeExact(b);
      if r >= 0 {
        Grabbed(b1, k - 1);
      } else {
        BM.CountAll(b.bits[..b.n]);
      }
    }
  }

  /** The metadata blocks the table needs. */
  function MbCount(count: nat, perMb: nat): (n: nat)
    requires perMb > 0
  {
    Quot(count + perMb - 1, perMb)
  }

  /** One block is formatted even for no groups. */
  function Needed(count: nat, perMb: nat): (n: nat)
    requires perMb > 0
  {
    Max(1, MbCount(count, perMb))
  }

  /** The formatted table over the given block numbers. */
  function Table(nrs: seq<nat>, end: nat, perMb: nat, desc: Group): (list: seq<MBuf>)
    ensures |list| == |nrs|
    ensures forall i {:trigger list[i]} :: 0 <= i < |list| ==> list[i] == TableAt(nrs, end, perMb, desc, i)
  {
    seq(|nrs|, i requires 0 <= i < |nrs| => TableAt(nrs, end, perMb, desc, i))
  }

  function TableAt(nrs: seq<nat>, end: nat, perMb: nat, desc: Group, i: nat): (b: MBuf)
    requires i < |nrs|
  {
    MBuf(nrs[i], MBlock(if i == 0 then end else nrs[i - 1], if i + 1 < |nrs| then nrs[i + 1] else end,
                        seq(perMb, _ => desc)))
  }

  /** Every block but the first names as its `prev` the block whose `next` names it. */
  predicate BackLinked(list: seq<MBuf>, end: nat) {
    forall i {:trigger list[i]} :: 0 <= i < |list| ==>
      if i == 0 then list[i].block.prev == end
      else list[i].block.prev == list[i - 1].nr && list[i - 1].block.next == list[i].nr
  }

  /** The formatted table is a chain of different blocks, linked both ways. */
  lemma TableLinked(b: BM.Map, k: nat, end: nat, perMb: nat, desc: Group)
    requires BM.Exact(b) && BM.Sentinel(b) && (end < b.n ==> b.bits[end])
    ensures var list := Table(Grab(b, k).1, end, perMb, desc);
      Linked(list, end) && AllDifferent(list) && BackLinked(list, end)
  {
    Grabbed(b, k);
  }

  // ---------------------------------------------------------------------------------------------
  // Descriptors by number

  /** userfs_bgdidx2bgd: block `id / perMb`, entry `id % perMb`. */
  function DescOf(list: seq<MBuf>, perMb: nat, id: nat): (d: Option<Group>)
    requires perMb > 0
  {
    var mb, i := Quot(id, perMb), Rem(id, perMb);
    if mb < |list| && i < |list[mb].block.descs| then Some(list[mb].block.descs[i]) else None
  }

  /** The first `n` groups have descriptors in the list. */
  predicate Covers(list: seq<MBuf>, perMb: nat, n: nat) {
    && perMb > 0 && (n > 0 ==> Quot(n - 1, perMb) < |list|)
    && forall i {:trigger list[i]} :: 0 <= i < |list| ==> |list[i].block.descs| == perMb
  }

  lemma {:induction false} QuotMono(a: nat, b: nat, n: nat)
    requires n > 0 && a <= b
    ensures Quot(a, n) <= Quot(b, n)
    decreases b
  {
    if a >= n {
      QuotMono(a - n, b - n, n);
    }
  }

  lemma CoversOne(list: seq<MBuf>, perMb: nat, n: nat, id: nat)
    requires Covers(list, perMb, n) && id < n
    ensures DescOf(list, perMb, id).Some?
  {
    QuotMono(id, n - 1, perMb);
    assert |list[Quot(id, perMb)].block.descs| == perMb;
  }

  /** All groups, in the order of their numbers. */
  function Groups(list: seq<MBuf>, perMb: nat, n: nat): (gs: seq<Group>)
    requires Covers(list, perMb, n)
    ensures |gs| == n
    ensures forall id: nat {:trigger gs[id]} :: id < n ==> DescOf(list, perMb, id) == Some(gs[id])
    decreases n
  {
    if n == 0 then []
    else
      CoversLess(list, perMb, n);
      CoversOne(list, perMb, n, n - 1);
      Groups(list, perMb, n - 1) + [DescOf(list, perMb, n - 1).value]
  }

  lemma CoversLess(list: seq<MBuf>, perMb: nat, n: nat)
    requires Covers(list, perMb, n) && n > 0
    ensures Covers(list, perMb, n - 1)
  {
    if n > 1 {
      QuotMono(n - 2, n - 1, perMb);
    }
  }

  // ---------------------------------------------------------------------------------------------
  // Format, then mount

  /** A table with all the blocks it needs has a descriptor for every group. */
  lemma TableCovers(nrs: seq<nat>, end: nat, perMb: nat, desc: Group, count: nat)
    requires perMb > 0 && |nrs| >= MbCount(count, perMb)
    ensures Covers(Table(nrs, end, perMb, desc), perMb, count)
  {
    var list := Table(nrs, end, perMb, desc);
    forall i | 0 <= i < |list| ensures |list[i].block.descs| == perMb {
    }
  }

  lemma TableGroups(nrs: seq<nat>, end: nat, perMb: nat, desc: Group, count: nat)
    requires perMb > 0 && |nrs| >= MbCount(count, perMb)
    ensures Covers(Table(nrs, end, perMb, desc), perMb, count)
    ensures Groups(Table(nrs, end, perMb, desc), perMb, count) == seq(count, _ => desc)
  {
    TableCovers(nrs, end, perMb, desc, count);
    var list := Table(nrs, end, perMb, desc);
    var gs := Groups(list, perMb, count);
    forall id: nat | id < count ensures gs[id] == desc {
      assert DescOf(list, perMb, id) == Some(gs[id]);
    }
  }

  /**
   Formatting a disk, flushing and mounting it: with enough metadata blocks free, the walk from the first block ends,
   returns the formatted blocks in order, and the descriptors in it, by number, are those of a fresh file system,
   which is consistent exactly when the group size is a multiple of 8 and fits in 16 bits.
   */
  lemma FormatThenMount(disk: Disk, m: Meta, b: BM.Map, perMb: nat, count: nat, bpg: nat, sbFree: nat, behind: seq<bool>)
    requires BM.Exact(b) && BM.Sentinel(b) && m.first < b.n && b.bits[m.first] && perMb > 0
    requires forall nr: nat {:trigger Addressable(m, nr)} :: nr < b.n ==> Addressable(m, nr)
    requires b.used + Needed(count, perMb) <= b.n
    ensures var desc := BA.FormatGroup(bpg, behind);
      var list := Table(Grab(b, Needed(count, perMb)).1, m.first, perMb, desc);
      && Walks(Flush(disk, m, list), m, NrAt(list, 0, m.first), list)
      && Covers(list, perMb, count)
      && Groups(list, perMb, count) == BA.Format(count, bpg, sbFree, behind).groups
      && BA.HeapOf(Groups(list, perMb, count)) == BA.Format(count, bpg, sbFree, behind).heap
    ensures bpg > 0 && sbFree < WORD && |behind| > 0 && !behind[0] && count > 0 ==>
      (BA.Inv(BA.Format(count, bpg, sbFree, behind)) <==> bpg % 8 == 0 && bpg < 65536)
  {
    if bpg > 0 && sbFree < WORD && |behind| > 0 && !behind[0] && count > 0 {
      BA.FormatInvIff(count, bpg, sbFree, behind);
    }
    var desc := BA.FormatGroup(bpg, behind);
    var nrs := Grab(b, Needed(count, perMb)).1;
    var list := Table(nrs, m.first, perMb, desc);
    Grabbed(b, Needed(count, perMb));
    TableLinked(b, Needed(count, perMb), m.first, perMb, desc);
    forall i | 0 <= i < |list| ensures Addressable(m, list[i].nr) {
      assert list[i].nr == nrs[i];
    }
    FlushThenWalk(disk, m, list);
    TableGroups(nrs, m.first, perMb, desc, count);
    assert Groups(list, perMb, count) == BA.Format(count, bpg, sbFree, behind).groups;
  }

  // ---------------------------------------------------------------------------------------------
  // The loops

  /** A new block behind the last one: the old last block's next and the new block's prev are set. */
  method Append(list: seq<MBuf>, ghost nrs: seq<nat>, nr: nat, end: nat, perMb: nat, desc: Group) returns (list': seq<MBuf>)
    requires list == Table(nrs, end, perMb, desc)
    ensures list' == Table(nrs + [nr], end, perMb, desc)
  {
    list' := list;
    var prev := end;
    if list != [] {
      var last := list[|list| - 1];
      prev := last.nr;
      list' := list[..|list| - 1] + [MBuf(last.nr, last.block.(next := nr))];
    }
    list' := list' + [MBuf(nr, MBlock(prev, end, seq(perMb, _ => desc)))];
  }

  method NeededBlocks(count: nat, perMb: nat) returns (n: nat)
    requires perMb > 0
    ensures n == MbCount(count, perMb)
  {
    QuotRem(count + perMb - 1, perMb);
    n := (count + perMb - 1) / perMb;
  }

  /**
   userfs_bgroup_desc_table_init: each new block is linked behind the last one, until there are enough or the
   superblock's bitmap, whose answers are `grants`, has no more.
   */
  method FormatTable(grants: seq<nat>, end: nat, count: nat, perMb: nat, desc: Group) returns (list: seq<MBuf>)
    requires perMb > 0
    ensures list == Table(grants[..Min(|grants|, Needed(count, perMb))], end, perMb, desc)
  {
    var todo := NeededBlocks(count, perMb);
    var n := Min(|grants|, Max(1, todo));
    list := [];
    for i := 0 to n
      invariant list == Table(grants[..i], end, perMb, desc)
    {
      list := Append(list, grants[..i], grants[i], end, perMb, desc);
      assert grants[..i + 1] == grants[..i] + [grants[i]];
    }
  }

  /** userfs_mbbuf_list_flush */
  method FlushList(disk: Disk, m: Meta, list: seq<MBuf>) returns (disk': Disk)
    ensures disk' == Flush(disk, m, list)
  {
    disk' := disk;
    for i := 0 to |list|
      invariant Flush(disk', m, list[i..]) == Flush(disk, m, list)
    {
      assert list[i..][0] == list[i] && list[i..][1..] == list[i + 1..];
      disk' := WriteBlock(disk', (m.size * (list[i].nr + m.first)) % WORD, m.size, list[i].block);
    }
  }

  /** The walk of userfs_mount_init, on a disk where it ends. */
  method ReadChain(disk: Disk, m: Meta, start: nat, ghost chain: seq<MBuf>) returns (list: seq<MBuf>)
    requires Walks(disk, m, start, chain)
    ensures list == chain
  {
    list := [];
    var next: nat := start;
    ghost var rest := chain;
    while next != m.first
      invariant Walks(disk, m, next, rest) && list + rest == chain
      decreases |rest|
    {
      var block := ReadAt(disk, (m.size * (next + m.first)) % WORD, m.size).value;
      assert rest == [rest[0]] + rest[1..];
      list := list + [MBuf(next, block)];
      next := block.next;
      rest := rest[1..];
    }
  }

  lemma HeapOfNext(gs: seq<Group>, g: Group)
    ensures BA.HeapOf(gs + [g]) == BA.HeapOf(gs) + multiset{Entry(|gs|, g.free)}
  {
    assert (gs + [g])[..|gs|] == gs;
  }

  /** `gs` are the descriptors numbered from 0. */
  ghost predicate InOrder(list: seq<MBuf>, perMb: nat, gs: seq<Group>)
    requires perMb > 0
  {
    forall j: nat {:trigger gs[j]} :: j < |gs| ==> DescOf(list, perMb, j) == Some(gs[j])
  }

  lemma InOrderNext(list: seq<MBuf>, perMb: nat, gs: seq<Group>, mb: nat, base: nat, i: nat)
    requires perMb > 0 && InOrder(list, perMb, gs) && |gs| == base + i && i < perMb
    requires mb < |list| && |list[mb].block.descs| == perMb && Quot(base, perMb) == mb && Rem(base, perMb) == 0
    ensures InOrder(list, perMb, gs + [list[mb].block.descs[i]])
  {
    QuotStep(base, i, perMb);
  }

  /** The heap holds the entries of `gs`. */
  ghost predicate Indexes(heap: Heap, gs: seq<Group>)
    reads heap, heap.heap
  {
    heap.Valid() && heap.contents == BA.HeapOf(gs) && heap.size == |gs| <= heap.heap.Length
  }

  method InsertNext(heap: Heap, d: Group, ghost gs: seq<Group>, nr: nat)
    requires Indexes(heap, gs) && nr == |gs| < heap.heap.Length
    modifies heap, heap.heap
    ensures Indexes(heap, gs + [d])
  {
    HeapOfNext(gs, d);
    var _ := heap.Insert(nr, d.free);
  }

  /** The inner loop: one block's descriptors, the first of them numbered `base`. */
  method InsertBlock(heap: Heap, list: seq<MBuf>, mb: nat, base: nat, cur: nat, perMb: nat, ghost gs: seq<Group>)
    returns (ghost gs': seq<Group>)
    requires perMb > 0 && Indexes(heap, gs) && |gs| == base && InOrder(list, perMb, gs)
    requires base + cur <= heap.heap.Length && mb < |list| && cur <= perMb == |list[mb].block.descs|
    requires cur > 0 ==> Quot(base, perMb) == mb && Rem(base, perMb) == 0
    modifies heap, heap.heap
    ensures Indexes(heap, gs') && |gs'| == base + cur && InOrder(list, perMb, gs')
  {
    gs' := gs;
    for i := 0 to cur
      invariant Indexes(heap, gs') && |gs'| == base + i && InOrder(list, perMb, gs')
    {
      InOrderNext(list, perMb, gs', mb, base, i);
      InsertNext(heap, list[mb].block.descs[i], gs', base + i);
      gs' := gs' + [list[mb].block.descs[i]];
    }
  }

  /** Group `id` is the first of block `mb`, unless none is left. */
  predicate Begins(id: nat, left: nat, perMb: nat, mb: nat)
    requires perMb > 0
  {
    left == 0 || (Quot(id, perMb) == mb && Rem(id, perMb) == 0)
  }

  lemma OneBlockOn(id: nat, left: nat, perMb: nat, mb: nat, cur: nat)
    requires perMb > 0 && Begins(id, left, perMb, mb) && cur == if left > perMb then perMb else left
    ensures Begins(id + cur, left - cur, perMb, mb + 1)
  {
    NextBlock(id, perMb);
  }

  lemma NoneLeft(list: seq<MBuf>, perMb: nat, count: nat, id: nat, left: nat)
    requires Covers(list, perMb, count) && id + left == count && Begins(id, left, perMb, |list|)
    ensures left == 0
  {
    if left > 0 {
      QuotMono(id, count - 1, perMb);
    }
  }

  /** userfs_mount_bgdindex_list_init: the heap has one entry per group, with the count of the group's descriptor. */
  method BuildIndex(list: seq<MBuf>, count: nat, perMb: nat) returns (heap: Heap)
    requires Covers(list, perMb, count)
    ensures fresh(heap) && fresh(heap.heap) && heap.Valid()
    ensures heap.contents == BA.HeapOf(Groups(list, perMb, count))
  {
    heap := new Heap(count);
    var id: nat, left: nat := 0, count;
    ghost var gs: seq<Group> := [];
    for mb := 0 to |list|
      invariant id + left == count == heap.heap.Length && fresh(heap.heap)
      invariant Begins(id, left, perMb, mb)
      invariant Indexes(heap, gs) && |gs| == id && InOrder(list, perMb, gs)
    {
      var cur := if left > perMb then perMb else left;
      assert |list[mb].block.descs| == perMb;
      gs := InsertBlock(heap, list, mb, id, cur, perMb, gs);
      OneBlockOn(id, left, perMb, mb, cur);
      id, left := id + cur, left - cur;
    }
    NoneLeft(list, perMb, count, id, left);
    InOrderAll(list, perMb, count, gs);
  }

  lemma InOrderAll(list: seq<MBuf>, perMb: nat, count: nat, gs: seq<Group>)
    requires Covers(list, perMb, count) && InOrder(list, perMb, gs) && |gs| == count
    ensures gs == Groups(list, perMb, count)
  {
    assert |Groups(list, perMb, count)| == count;
  }

  lemma {:induction false} NextBlock(a: nat, n: nat)
    requires n > 0
    ensures Quot(a + n, n) == Quot(a, n) + 1 && Rem(a + n, n) == Rem(a, n)
  {
  }
}
