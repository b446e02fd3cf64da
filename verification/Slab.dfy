/**
 Power-of-two slab allocator (mempool/mempool.c): a bump pointer, and per size class a free list whose links
 are stored in the freed blocks themselves.
 */
module Slab {
  import opened Bits
  import opened Common

  /** The i-th block cut from the region; it keeps its place and class for ever. */
  datatype Tile = Tile(addr: nat, cls: nat)

  /**
   `start`, `total`, `bump`, `remain`, `slabs` and `mem` are the controller and the memory, one entry per
   address at which an 8-byte word was written. `tiles`, `live` and `free` are history: the blocks cut so far,
   which of them the user holds, and per class the freed tiles in list order.
   */
  datatype Pool = Pool(
    start: nat, total: nat, bump: nat, remain: nat, slabs: seq<nat>, mem: map<nat, nat>,
    tiles: seq<Tile>, live: seq<bool>, free: seq<seq<nat>>)

  const NULL: nat := 0

  function Size(cls: nat): (n: nat)
    ensures n == 8 * Pow2(cls)
  {
    EightTimes(cls);
    Pow2(cls + MIN_BITS)
  }

  lemma {:induction false} EightTimes(cls: nat)
    ensures Pow2(cls + MIN_BITS) == 8 * Pow2(cls)
  {
    if cls > 0 {
      EightTimes(cls - 1);
    } else {
      assert Pow2(3) == 8;
    }
  }

  function ClassOf(size: nat): (cls: nat) {
    SizeBits(size) - MIN_BITS
  }

  function Word(mem: map<nat, nat>, a: nat): (w: nat) {
    if a in mem then mem[a] else 0
  }

  /** mempool_ctrl_init */
  function Init(start: nat, total: nat, classes: nat, mem: map<nat, nat>): (p: Pool) {
    Pool(start, total, start, total, seq(classes, _ => NULL), mem, [], [], seq(classes, _ => []))
  }

  /** The index at which an allocation reads `slabs`, if it gets that far. */
  function Reads(p: Pool, size: nat): (i: Option<nat>) {
    if size == 0 || Size(ClassOf(size)) > p.remain || ClassOf(size) > |p.slabs| then None else Some(ClassOf(size))
  }

  /** The code would index one past the end of `slabs`. */
  predicate OffTheEnd(p: Pool, size: nat) {
    size > 0 && Size(ClassOf(size)) <= p.remain && ClassOf(size) == |p.slabs|
  }

  /** mempool_ctrl_alloc_default: the new state and the address, NULL when refused. */
  function Alloc(p: Pool, size: nat): (r: (Pool, nat))
    requires !OffTheEnd(p, size)
  {
    if size == 0 then (p, NULL)
    else
      var cls := ClassOf(size);
      if Size(cls) > p.remain || cls > |p.slabs| then (p, NULL)
      else if p.slabs[cls] != NULL then Pop(p, cls)
      else Bump(p, cls)
  }

  function Pop(p: Pool, cls: nat): (r: (Pool, nat))
    requires cls < |p.slabs| && Size(cls) <= p.remain
  {
    var a := p.slabs[cls];
    var p' := p.(remain := p.remain - Size(cls), slabs := p.slabs[cls := Word(p.mem, a)]);
    if cls < |p.free| && p.free[cls] != [] && p.free[cls][0] < |p.live| then
      (p'.(live := p.live[p.free[cls][0] := true], free := p.free[cls := p.free[cls][1..]]), a)
    else (p', a)
  }

  function Bump(p: Pool, cls: nat): (r: (Pool, nat))
    requires Size(cls) <= p.remain
  {
    (p.(remain := p.remain - Size(cls), bump := p.bump + Size(cls),
        tiles := p.tiles + [Tile(p.bump, cls)], live := p.live + [true]), p.bump)
  }

  /** mempool_ctrl_free_default on tile `i`. */
  function Free(p: Pool, i: nat, size: nat): (p': Pool)
    requires i < |p.tiles| == |p.live| && ClassOf(size) < |p.slabs| == |p.free|
  {
    var a := p.tiles[i].addr;
    if size == 0 || a < p.start || a > p.bump + p.total then p
    else
      var cls := ClassOf(size);
      p.(mem := p.mem[a := p.slabs[cls]], slabs := p.slabs[cls := a], remain := p.remain + Size(cls),
         live := p.live[i := false], free := p.free[cls := [i] + p.free[cls]])
  }

  // ---------------------------------------------------------------------------------------------
  // The invariant

  function End(start: nat, tiles: seq<Tile>): (a: nat) {
    if tiles == [] then start else tiles[|tiles| - 1].addr + Size(tiles[|tiles| - 1].cls)
  }

  /** The tiles follow each other without gap or overlap. */
  predicate Tiled(start: nat, tiles: seq<Tile>) {
    tiles == [] ||
    (Tiled(start, tiles[..|tiles| - 1]) && tiles[|tiles| - 1].addr == End(start, tiles[..|tiles| - 1]))
  }

  /** Bytes of the tiles that are live, or that are not. */
  function Bytes(tiles: seq<Tile>, live: seq<bool>, which: bool): (n: nat)
    requires |tiles| == |live|
  {
    if tiles == [] then 0
    else
      var k := |tiles| - 1;
      Bytes(tiles[..k], live[..k], which) + if live[k] == which then Size(tiles[k].cls) else 0
  }

  /** The address a list from its k-th entry on is known by. */
  function Head(tiles: seq<Tile>, c: seq<nat>, k: nat): (a: nat) {
    if k < |c| && c[k] < |tiles| then tiles[c[k]].addr else NULL
  }

  /** A free list: distinct freed tiles of the class, threaded through their own first words. */
  predicate ListOk(p: Pool, cls: nat)
    requires |p.tiles| == |p.live| && |p.slabs| == |p.free| && cls < |p.free|
  {
    var c := p.free[cls];
    && Distinct(c)
    && (forall k :: 0 <= k < |c| ==> c[k] < |p.tiles| && p.tiles[c[k]].cls == cls && !p.live[c[k]])
    && p.slabs[cls] == Head(p.tiles, c, 0)
    && (forall k :: 0 <= k < |c| ==> Word(p.mem, p.tiles[c[k]].addr) == Head(p.tiles, c, k + 1))
  }

  predicate TileOk(p: Pool, i: nat)
    requires |p.tiles| == |p.live| && i < |p.tiles|
  {
    p.tiles[i].cls < |p.free| && (!p.live[i] ==> i in p.free[p.tiles[i].cls])
  }

  predicate Inv(p: Pool) {
    && p.start > 0 && |p.tiles| == |p.live| && |p.slabs| == |p.free|
    && Tiled(p.start, p.tiles) && p.bump == End(p.start, p.tiles)
    && p.remain + Bytes(p.tiles, p.live, true) == p.total
    && (forall cls {:trigger ListOk(p, cls)} :: 0 <= cls < |p.free| ==> ListOk(p, cls))
    && (forall i {:trigger TileOk(p, i)} :: 0 <= i < |p.tiles| ==> TileOk(p, i))
  }

  // ---------------------------------------------------------------------------------------------
  // Tiles and sums

  lemma {:induction false} TileOrder(start: nat, tiles: seq<Tile>, i: nat, j: nat)
    requires Tiled(start, tiles) && i < j < |tiles|
    ensures tiles[i].addr + Size(tiles[i].cls) <= tiles[j].addr
  {
    var k := |tiles| - 1;
    if j < k {
      TileOrder(start, tiles[..k], i, j);
    } else if i < k - 1 {
      TileOrder(start, tiles[..k], i, k - 1);
    }
  }

  /** Any two blocks are disjoint. */
  lemma TilesApart(start: nat, tiles: seq<Tile>, i: nat, j: nat)
    requires Tiled(start, tiles) && i < |tiles| && j < |tiles| && i != j
    ensures tiles[i].addr + Size(tiles[i].cls) <= tiles[j].addr || tiles[j].addr + Size(tiles[j].cls) <= tiles[i].addr
  {
    if i < j { TileOrder(start, tiles, i, j); } else { TileOrder(start, tiles, j, i); }
  }

  /** Every block lies in the cut span. */
  lemma {:induction false} TileInside(start: nat, tiles: seq<Tile>, i: nat)
    requires Tiled(start, tiles) && i < |tiles|
    ensures start <= tiles[i].addr && tiles[i].addr + Size(tiles[i].cls) <= End(start, tiles)
  {
    var k := |tiles| - 1;
    if k > 0 {
      TileInside(start, tiles[..k], k - 1);
    }
    if i < k {
      TileInside(start, tiles[..k], i);
    }
  }

  /** Blocks are a multiple of 8 long, so they are a multiple of 8 from the start. */
  function Eights(tiles: seq<Tile>): (n: nat) {
    if tiles == [] then 0 else Eights(tiles[..|tiles| - 1]) + Pow2(tiles[|tiles| - 1].cls)
  }

  lemma {:induction false} EndAligned(start: nat, tiles: seq<Tile>)
    requires Tiled(start, tiles)
    ensures End(start, tiles) == start + 8 * Eights(tiles)
  {
    if tiles != [] {
      EndAligned(start, tiles[..|tiles| - 1]);
    }
  }

  lemma {:induction false} TileAligned(start: nat, tiles: seq<Tile>, i: nat)
    requires Tiled(start, tiles) && i < |tiles|
    ensures tiles[i].addr == start + 8 * Eights(tiles[..i])
  {
    var k := |tiles| - 1;
    if i < k {
      TileAligned(start, tiles[..k], i);
      assert tiles[..k][..i] == tiles[..i];
    } else {
      EndAligned(start, tiles[..k]);
    }
  }

  /** Every block lies in the cut span, at a multiple of 8 from its start. */
  lemma TileInSpan(start: nat, tiles: seq<Tile>, i: nat)
    requires Tiled(start, tiles) && i < |tiles|
    ensures start <= tiles[i].addr && tiles[i].addr + Size(tiles[i].cls) <= End(start, tiles)
    ensures (tiles[i].addr - start) % 8 == 0
  {
    TileInside(start, tiles, i);
    TileAligned(start, tiles, i);
  }

  /** The span is exactly the live bytes and the freed bytes. */
  lemma {:induction false} SpanIsSum(start: nat, tiles: seq<Tile>, live: seq<bool>)
    requires Tiled(start, tiles) && |tiles| == |live|
    ensures End(start, tiles) == start + Bytes(tiles, live, true) + Bytes(tiles, live, false)
  {
    if tiles != [] {
      var k := |tiles| - 1;
      SpanIsSum(start, tiles[..k], live[..k]);
    }
  }

  lemma {:induction false} BytesUpdate(tiles: seq<Tile>, live: seq<bool>, i: nat, b: bool, which: bool)
    requires |tiles| == |live| && i < |live|
    ensures Bytes(tiles, live[i := b], which) ==
      Bytes(tiles, live, which) + (if b == which then Size(tiles[i].cls) else 0)
      - (if live[i] == which then Size(tiles[i].cls) else 0)
  {
    var k := |tiles| - 1;
    if i < k {
      assert live[i := b][..k] == live[..k][i := b];
      BytesUpdate(tiles[..k], live[..k], i, b, which);
    } else {
      assert live[i := b][..k] == live[..k];
    }
  }

  // ---------------------------------------------------------------------------------------------
  // Every operation keeps the invariant

  lemma InitInv(start: nat, total: nat, classes: nat, mem: map<nat, nat>)
    requires start > 0
    ensures Inv(Init(start, total, classes, mem))
  {
  }

  lemma BumpKeeps(p: Pool, cls: nat)
    requires Inv(p) && cls < |p.slabs| && Size(cls) <= p.remain
    ensures Inv(Bump(p, cls).0)
  {
    var p' := Bump(p, cls).0;
    var k := |p.tiles|;
    assert p'.tiles[..k] == p.tiles && p'.live[..k] == p.live;
    forall c | 0 <= c < |p'.free| ensures ListOk(p', c) {
      assert ListOk(p, c);
    }
    forall i | 0 <= i < |p'.tiles| ensures TileOk(p', i) {
      assert i < k ==> TileOk(p, i);
    }
  }

  lemma PopList(p: Pool, cls: nat)
    requires Inv(p) && cls < |p.slabs| && Size(cls) <= p.remain && p.slabs[cls] != NULL
    ensures p.free[cls] != [] && p.free[cls][0] < |p.tiles| && p.slabs[cls] == p.tiles[p.free[cls][0]].addr
    ensures !p.live[p.free[cls][0]] && p.tiles[p.free[cls][0]].cls == cls
    ensures ListOk(Pop(p, cls).0, cls)
  {
    assert ListOk(p, cls);
    var p', c := Pop(p, cls).0, p.free[cls];
    var c' := c[1..];
    assert p'.free[cls] == c';
    forall k | 0 <= k < |c'| ensures c'[k] == c[k + 1] && Head(p.tiles, c', k + 1) == Head(p.tiles, c, k + 2) {
    }
    assert Head(p.tiles, c', 0) == Head(p.tiles, c, 1);
  }

  lemma PopKeeps(p: Pool, cls: nat)
    requires Inv(p) && cls < |p.slabs| && Size(cls) <= p.remain && p.slabs[cls] != NULL
    ensures Inv(Pop(p, cls).0)
  {
    var p' := Pop(p, cls).0;
    PopList(p, cls);
    var i := p.free[cls][0];
    BytesUpdate(p.tiles, p.live, i, true, true);
    forall c | 0 <= c < |p'.free| ensures ListOk(p', c) {
      assert ListOk(p, c);
    }
    forall j | 0 <= j < |p'.tiles| ensures TileOk(p', j) {
      assert TileOk(p, j);
      assert p.free[cls] == [i] + p.free[cls][1..];
    }
  }

  predicate HoldsBlock(p: Pool, i: nat, size: nat) {
    i < |p.tiles| == |p.live| && p.live[i] && 1 <= size < 0x1_0000_0000_0000_0000 && p.tiles[i].cls == ClassOf(size)
  }

  lemma FreeDoes(p: Pool, i: nat, size: nat)
    requires Inv(p) && HoldsBlock(p, i, size)
    ensures ClassOf(size) < |p.slabs|
    ensures var a, cls := p.tiles[i].addr, ClassOf(size);
      Free(p, i, size) ==
        p.(mem := p.mem[a := p.slabs[cls]], slabs := p.slabs[cls := a], remain := p.remain + Size(cls),
           live := p.live[i := false], free := p.free[cls := [i] + p.free[cls]])
  {
    assert TileOk(p, i);
    TileInSpan(p.start, p.tiles, i);
  }

  /** Writing a link into the freed block leaves the links of every listed block alone. */
  lemma FreeLinks(p: Pool, i: nat, w: nat, c: nat, k: nat)
    requires Inv(p) && i < |p.tiles| && p.live[i] && c < |p.free| && k < |p.free[c]|
    ensures p.free[c][k] < |p.tiles|
    ensures Word(p.mem[p.tiles[i].addr := w], p.tiles[p.free[c][k]].addr) == Head(p.tiles, p.free[c], k + 1)
  {
    assert ListOk(p, c);
    TilesApart(p.start, p.tiles, p.free[c][k], i);
  }

  lemma FreeList(p: Pool, i: nat, size: nat, c: nat)
    requires Inv(p) && HoldsBlock(p, i, size) && c < |p.free| && ClassOf(size) < |p.slabs|
    ensures ListOk(Free(p, i, size), c)
  {
    FreeDoes(p, i, size);
    assert ListOk(p, c);
    var p', list := Free(p, i, size), p.free[c];
    forall k | 0 <= k < |list| ensures Word(p'.mem, p.tiles[list[k]].addr) == Head(p.tiles, list, k + 1) {
      FreeLinks(p, i, p.slabs[ClassOf(size)], c, k);
    }
    if c == ClassOf(size) {
      PushFront(p, p'.mem, i, list);
    }
  }

  lemma PushFront(p: Pool, mem': map<nat, nat>, i: nat, list: seq<nat>)
    requires i < |p.tiles| && forall k :: 0 <= k < |list| ==> list[k] < |p.tiles|
    requires Word(mem', p.tiles[i].addr) == Head(p.tiles, list, 0)
    requires forall k :: 0 <= k < |list| ==> Word(mem', p.tiles[list[k]].addr) == Head(p.tiles, list, k + 1)
    ensures forall k :: 0 <= k < |[i] + list| ==>
      Word(mem', p.tiles[([i] + list)[k]].addr) == Head(p.tiles, [i] + list, k + 1)
  {
    var c := [i] + list;
    forall k | 0 <= k < |c| ensures Word(mem', p.tiles[c[k]].addr) == Head(p.tiles, c, k + 1) {
      assert Head(p.tiles, c, k + 1) == Head(p.tiles, list, k);
      if k > 0 {
        assert c[k] == list[k - 1];
      }
    }
  }

  lemma FreeKeeps(p: Pool, i: nat, size: nat)
    requires Inv(p) && HoldsBlock(p, i, size) && ClassOf(size) < |p.slabs|
    ensures Inv(Free(p, i, size))
  {
    var p' := Free(p, i, size);
    FreeDoes(p, i, size);
    BytesUpdate(p.tiles, p.live, i, false, true);
    forall c | 0 <= c < |p'.free| ensures ListOk(p', c) {
      FreeList(p, i, size, c);
    }
    forall j | 0 <= j < |p'.tiles| ensures TileOk(p', j) {
      assert TileOk(p, j);
      assert i in [i] + p.free[ClassOf(size)];
    }
  }

  /** The user wrote something: any word that does not overlap a live block is as it was. */
  ghost predicate WroteOnlyLive(p: Pool, mem': map<nat, nat>)
    requires |p.tiles| == |p.live|
  {
    forall a: nat {:trigger Word(mem', a)} ::
      (forall i :: 0 <= i < |p.tiles| && p.live[i] ==>
         a + 8 <= p.tiles[i].addr || p.tiles[i].addr + Size(p.tiles[i].cls) <= a) ==>
      Word(mem', a) == Word(p.mem, a)
  }

  /** Writes into live blocks never disturb the lists kept in freed memory. */
  lemma WriteKeeps(p: Pool, mem': map<nat, nat>)
    requires Inv(p) && WroteOnlyLive(p, mem')
    ensures Inv(p.(mem := mem'))
  {
    var p' := p.(mem := mem');
    forall c | 0 <= c < |p'.free| ensures ListOk(p', c) {
      assert ListOk(p, c);
      var l := p.free[c];
      forall k | 0 <= k < |l| ensures Word(mem', p.tiles[l[k]].addr) == Word(p.mem, p.tiles[l[k]].addr) {
        forall i | 0 <= i < |p.tiles| && p.live[i]
          ensures p.tiles[l[k]].addr + 8 <= p.tiles[i].addr
                  || p.tiles[i].addr + Size(p.tiles[i].cls) <= p.tiles[l[k]].addr
        {
          TilesApart(p.start, p.tiles, i, l[k]);
        }
      }
    }
    forall j | 0 <= j < |p'.tiles| ensures TileOk(p', j) {
      assert TileOk(p, j);
    }
  }

  // ---------------------------------------------------------------------------------------------
  // Whole runs

  datatype Op = Malloc(size: nat) | Release(i: nat, size: nat) | Write(mem: map<nat, nat>)

  /** What the allocator expects of its callers. */
  ghost predicate Allowed(p: Pool, op: Op) {
    match op
    case Malloc(size) => size < 0x1_0000_0000_0000_0000 && !OffTheEnd(p, size)
    case Release(i, size) => HoldsBlock(p, i, size) && ClassOf(size) < |p.slabs| == |p.free|
    case Write(mem) => |p.tiles| == |p.live| && WroteOnlyLive(p, mem)
  }

  ghost function Exec(p: Pool, op: Op): (p': Pool)
    requires Allowed(p, op)
  {
    match op
    case Malloc(size) => Alloc(p, size).0
    case Release(i, size) => Free(p, i, size)
    case Write(mem) => p.(mem := mem)
  }

  lemma ExecKeepsInv(p: Pool, op: Op)
    requires Inv(p) && Allowed(p, op)
    ensures Inv(Exec(p, op))
  {
    match op
    case Malloc(size) =>
      if size > 0 && Size(ClassOf(size)) <= p.remain && ClassOf(size) <= |p.slabs| {
        if p.slabs[ClassOf(size)] != NULL {
          PopKeeps(p, ClassOf(size));
        } else {
          BumpKeeps(p, ClassOf(size));
        }
      }
    case Release(i, size) => FreeKeeps(p, i, size);
    case Write(mem) => WriteKeeps(p, mem);
  }

  /** `trace` is a run: each state follows from the one before by the allowed operation between them. */
  ghost predicate IsRun(trace: seq<Pool>, ops: seq<Op>) {
    && |trace| == |ops| + 1
    && forall k :: 0 <= k < |ops| ==> Allowed(trace[k], ops[k]) && trace[k + 1] == Exec(trace[k], ops[k])
  }

  lemma {:induction false} RunKeepsInv(trace: seq<Pool>, ops: seq<Op>, k: nat)
    requires IsRun(trace, ops) && Inv(trace[0]) && k < |trace|
    ensures Inv(trace[k])
  {
    if k > 0 {
      RunKeepsInv(trace, ops, k - 1);
      assert Allowed(trace[k - 1], ops[k - 1]) && trace[k - 1 + 1] == Exec(trace[k - 1], ops[k - 1]);
      ExecKeepsInv(trace[k - 1], ops[k - 1]);
    }
  }

  // ---------------------------------------------------------------------------------------------
  // What a caller gets

  /** The tile an allocation hands out: the head of the class's list, or a new one. */
  function Given(p: Pool, size: nat): (i: nat) {
    var cls := ClassOf(size);
    if cls < |p.slabs| == |p.free| && p.slabs[cls] != NULL && p.free[cls] != [] then p.free[cls][0] else |p.tiles|
  }

  lemma AllocTile(p: Pool, size: nat)
    requires Inv(p) && 1 <= size < 0x1_0000_0000_0000_0000
    requires Size(ClassOf(size)) <= p.remain && ClassOf(size) < |p.slabs|
    ensures var (p', a) := Alloc(p, size); var i := Given(p, size);
      && a != NULL && i < |p'.tiles| == |p'.live| && p'.tiles[i] == Tile(a, ClassOf(size))
      && (i < |p.live| ==> !p.live[i]) && p'.start == p.start && p.tiles <= p'.tiles
      && (forall j :: 0 <= j < |p.live| ==> p'.live[j] == (p.live[j] || j == i))
  {
    if p.slabs[ClassOf(size)] != NULL {
      PopList(p, ClassOf(size));
    }
    assert p.bump > 0 by {
      if p.tiles != [] {
        TileInSpan(p.start, p.tiles, 0);
      }
    }
  }

  /** Where the block lies: in line with the start, and apart from every block the user holds. */
  lemma BlockPlaced(start: nat, tiles: seq<Tile>, i: nat, live: seq<bool>, before: seq<Tile>)
    requires Tiled(start, tiles) && i < |tiles| && |live| == |before| && before <= tiles && (i < |live| ==> !live[i])
    ensures tiles[i].addr >= start && (tiles[i].addr - start) % 8 == 0
    ensures forall j :: 0 <= j < |live| && live[j] ==>
      || tiles[i].addr + Size(tiles[i].cls) <= before[j].addr
      || before[j].addr + Size(before[j].cls) <= tiles[i].addr
  {
    TileInSpan(start, tiles, i);
    forall j | 0 <= j < |live| && live[j]
      ensures tiles[i].addr + Size(tiles[i].cls) <= before[j].addr || before[j].addr + Size(before[j].cls) <= tiles[i].addr
    {
      assert tiles[j] == before[j];
      TilesApart(start, tiles, i, j);
    }
  }

  /**
   An allocation succeeds exactly when the rounded size is within what remains and its class exists. The block
   is at least as large as asked, aligned to 8, disjoint from every block the user holds, and the only change.
   */
  lemma AllocGives(p: Pool, size: nat)
    requires Inv(p) && size < 0x1_0000_0000_0000_0000 && !OffTheEnd(p, size)
    ensures var (p', a) := Alloc(p, size); var cls := ClassOf(size); var i := Given(p, size);
      && (a != NULL <==> size > 0 && Size(cls) <= p.remain && cls < |p.slabs|)
      && (a == NULL ==> p' == p)
      && (a != NULL ==>
            && i < |p'.tiles| == |p'.live| && p'.tiles[i] == Tile(a, cls) && size <= Size(cls)
            && a >= p.start && (a - p.start) % 8 == 0
            && (forall j :: 0 <= j < |p.live| ==> p'.live[j] == (p.live[j] || j == i))
            && (forall j :: 0 <= j < |p.live| && p.live[j] ==>
                  a + Size(cls) <= p.tiles[j].addr || p.tiles[j].addr + Size(p.tiles[j].cls) <= a))
  {
    var cls := ClassOf(size);
    if size > 0 && Size(cls) <= p.remain && cls < |p.slabs| {
      AllocTile(p, size);
      var (p', a) := Alloc(p, size);
      SizeBitsLeast(size, SizeBits(size));
      ExecKeepsInv(p, Malloc(size));
      var i := Given(p, size);
      BlockPlaced(p'.start, p'.tiles, i, p.live, p.tiles);
    }
  }

  /** Remaining and live bytes make up the total; live and freed bytes make up the span cut so far. */
  lemma Accounts(p: Pool)
    requires Inv(p)
    ensures p.remain + Bytes(p.tiles, p.live, true) == p.total
    ensures p.bump == p.start + Bytes(p.tiles, p.live, true) + Bytes(p.tiles, p.live, false)
  {
    SpanIsSum(p.start, p.tiles, p.live);
  }

  /**
   The bump pointer is not tested against the end of the region. A new block stays inside exactly when the
   bytes parked on free lists, of whatever class, leave room for it in what remains.
   */
  lemma BumpInsideIff(p: Pool, cls: nat)
    requires Inv(p) && Size(cls) <= p.remain
    ensures Bump(p, cls).0.bump <= p.start + p.total <==> Size(cls) + Bytes(p.tiles, p.live, false) <= p.remain
  {
    Accounts(p);
  }

  // ---------------------------------------------------------------------------------------------
  // The class test admits one class too many

  /**
   An allocation reads `slabs` past its end exactly when the request needs a block of twice the largest class and
   that much remains.
   */
  lemma PastTheEndIff(p: Pool, size: nat)
    requires 1 <= size < 0x1_0000_0000_0000_0000
    ensures OffTheEnd(p, size) <==> Reads(p, size).Some? && Reads(p, size).value >= |p.slabs|
    ensures var n := |p.slabs|;
      OffTheEnd(p, size) <==> (n > 0 ==> Pow2(n + 2) < size) && size <= Pow2(n + MIN_BITS) && Pow2(n + MIN_BITS) <= p.remain
  {
    var n := |p.slabs|;
    SizeBitsLeast(size, n + MIN_BITS);
    if n > 0 {
      SizeBitsLeast(size, n + 2);
    }
  }

  ghost predicate CanReadPast(p: Pool) {
    exists size: nat {:trigger OffTheEnd(p, size)} :: 1 <= size < 0x1_0000_0000_0000_0000 && OffTheEnd(p, size)
  }

  /** In any state, some request reads past the end exactly when a block of twice the largest class remains. */
  lemma CanReadPastIff(p: Pool)
    requires p.remain < 0x1_0000_0000_0000_0000
    ensures CanReadPast(p) <==> Pow2(|p.slabs| + MIN_BITS) <= p.remain
  {
    var n := |p.slabs|;
    if Pow2(n + MIN_BITS) <= p.remain {
      Pow2Mono(n + 2, n + MIN_BITS);
      PastTheEndIff(p, Pow2(n + MIN_BITS));
    }
    forall size: nat | 1 <= size < 0x1_0000_0000_0000_0000 && OffTheEnd(p, size) ensures Pow2(n + MIN_BITS) <= p.remain {
      PastTheEndIff(p, size);
    }
  }

  /** Sixteen bytes and one class: a first request of 16 reads `slabs[1]`, and there is only `slabs[0]`. */
  lemma SixteenPastTheEnd(start: nat)
    requires start > 0
    ensures var p := Init(start, 16, 1, map[]); Inv(p) && Reads(p, 16) == Some(1) && |p.slabs| == 1
  {
    InitInv(start, 16, 1, map[]);
    ClassOf8And16();
  }

  // ---------------------------------------------------------------------------------------------
  // One class at a time never leaves the region

  predicate OneClass(p: Pool, cls: nat) {
    && p.bump <= p.start + p.total
    && forall i :: 0 <= i < |p.tiles| ==> p.tiles[i].cls == cls
  }

  lemma {:induction false} NothingFreed(tiles: seq<Tile>, live: seq<bool>)
    requires |tiles| == |live| && forall i :: 0 <= i < |live| ==> live[i]
    ensures Bytes(tiles, live, false) == 0
  {
    if tiles != [] {
      NothingFreed(tiles[..|tiles| - 1], live[..|live| - 1]);
    }
  }

  lemma OneClassStep(p: Pool, op: Op, cls: nat)
    requires Inv(p) && Allowed(p, op) && OneClass(p, cls)
    requires op.Malloc? && op.size > 0 ==> ClassOf(op.size) == cls
    ensures OneClass(Exec(p, op), cls)
  {
    if op.Malloc? && op.size > 0 && Size(cls) <= p.remain && cls < |p.slabs| && p.slabs[cls] == NULL {
      assert ListOk(p, cls);
      forall i | 0 <= i < |p.live| ensures p.live[i] {
        assert TileOk(p, i);
        TileInSpan(p.start, p.tiles, i);
        EmptyList(p, cls);
      }
      NothingFreed(p.tiles, p.live);
      BumpInsideIff(p, cls);
    }
  }

  lemma EmptyList(p: Pool, cls: nat)
    requires Inv(p) && cls < |p.slabs| && p.slabs[cls] == NULL
    ensures p.free[cls] == []
  {
    assert ListOk(p, cls);
    if p.free[cls] != [] {
      TileInSpan(p.start, p.tiles, p.free[cls][0]);
    }
  }

  /** If every request of a run rounds to one class, the bump pointer never passes the end of the region. */
  lemma {:induction false} OneClassRun(trace: seq<Pool>, ops: seq<Op>, cls: nat, k: nat)
    requires IsRun(trace, ops) && k < |trace| && Inv(trace[0]) && OneClass(trace[0], cls)
    requires forall j :: 0 <= j < |ops| && ops[j].Malloc? && ops[j].size > 0 ==> ClassOf(ops[j].size) == cls
    ensures OneClass(trace[k], cls)
  {
    if k > 0 {
      OneClassRun(trace, ops, cls, k - 1);
      RunKeepsInv(trace, ops, k - 1);
      assert Allowed(trace[k - 1], ops[k - 1]) && trace[k - 1 + 1] == Exec(trace[k - 1], ops[k - 1]);
      OneClassStep(trace[k - 1], ops[k - 1], cls);
    }
  }

  /**
   Sixteen bytes and two classes: two blocks of 8 are taken and returned, and the block of 16 then granted
   starts at the end of the region.
   */
  lemma BumpLeavesRegion(start: nat)
    requires start > 0
    ensures var p0 := Init(start, 16, 2, map[]);
      var p1 := Bump(p0, 0).0;
      var p2 := Bump(p1, 0).0;
      && Allowed(p0, Malloc(8)) && p1 == Exec(p0, Malloc(8))
      && Allowed(p1, Malloc(8)) && p2 == Exec(p1, Malloc(8))
      && Allowed(p2, Release(0, 8)) && var p3 := Exec(p2, Release(0, 8));
      && Allowed(p3, Release(1, 8)) && var p4 := Exec(p3, Release(1, 8));
      && Allowed(p4, Malloc(16)) && Alloc(p4, 16).1 == start + 16 == p4.start + p4.total
  {
    ClassOf8And16();
  }

  lemma ClassOf8And16()
    ensures ClassOf(8) == 0 && ClassOf(16) == 1 && Size(0) == 8 && Size(1) == 16
  {
    assert Pow2(3) == 8;
    assert Pow2(4) == 16;
    SizeBitsLeast(8, 3);
    SizeBitsLeast(16, 3);
    SizeBitsLeast(16, 4);
  }
}
