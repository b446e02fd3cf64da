/**
 Allocation of data blocks (userfs/userfs_file_ctrl.c): the group with the most free blocks, found at the root
 of a heap, gives its first free block. Which of several such groups is taken depends on the heap's history,
 so one allocation is a relation between states.
 */
module BlockAlloc {
  import opened Common
  import opened Arith
  import opened MaxHeap
  import Bitmap

  /** A block group descriptor: bg_free_block_count and the group's bitmap. */
  datatype Group = Group(free: nat, bm: Bitmap.Map)

  /** `handed` is history: the block numbers given out so far. */
  datatype Fs = Fs(bpg: nat, groups: seq<Group>, heap: multiset<Entry>, sbFree: nat, handed: set<nat>)

  /** A 32-bit decrement. */
  function Dec(n: nat): (m: nat) {
    if n == 0 then WORD - 1 else n - 1
  }

  /** All blocks of the groups. */
  function Capacity(s: Fs): (n: nat) {
    Blocks(|s.groups|, s.bpg)
  }

  /** The blocks of `count` groups; a product, written so that proofs need no multiplication. */
  function Blocks(count: nat, bpg: nat): (n: nat) {
    if count == 0 then 0 else Blocks(count - 1, bpg) + bpg
  }

  lemma {:induction false} BlocksIsProduct(count: nat, bpg: nat)
    ensures Blocks(count, bpg) == count * bpg
  {
    if count > 0 {
      BlocksIsProduct(count - 1, bpg);
      MulNext(count - 1, bpg);
    }
  }

  /** Block `pos` of group `g`. */
  function BlockNr(g: nat, pos: nat, bpg: nat): (b: nat) {
    Blocks(g, bpg) + pos
  }

  /** The group an allocation may take: at the root, that is with the most free blocks. */
  predicate AtRoot(heap: multiset<Entry>, e: Entry) {
    e in heap && forall x :: x in heap ==> x.free <= e.free
  }

  /** The state after block `pos` of group `g` is taken. */
  function Taken(s: Fs, g: nat, pos: nat, bm': Bitmap.Map): (s': Fs)
    requires g < |s.groups| && s.groups[g].free > 0
  {
    var f := s.groups[g].free;
    s.(groups := s.groups[g := Group(f - 1, bm')],
       heap := s.heap - multiset{Entry(g, f)} + multiset{Entry(g, f - 1)},
       sbFree := Dec(s.sbFree),
       handed := s.handed + {BlockNr(g, pos, s.bpg)})
  }

  /** userfs_get_new_dblock with `e` at the root of the heap gives block `r`, or -1. */
  predicate AllocatesFrom(s: Fs, s': Fs, r: int, e: Entry) {
    if e.free == 0 then r == -1 && s' == s
    else
      && e.nr < |s.groups| && s.groups[e.nr].free == e.free && GroupReady(s.groups[e.nr])
      && var (bm', pos) := Bitmap.GetFirstFree(s.groups[e.nr].bm);
         if pos == -1 then r == -1 && s' == s
         else r == BlockNr(e.nr, pos, s.bpg) && s' == Taken(s, e.nr, pos, bm')
  }

  ghost predicate Allocates(s: Fs, s': Fs, r: int) {
    exists e :: AtRoot(s.heap, e) && AllocatesFrom(s, s', r, e)
  }

  predicate GroupReady(g: Group) {
    Bitmap.Exact(g.bm) && Bitmap.Sentinel(g.bm)
  }

  // ---------------------------------------------------------------------------------------------
  // The invariant

  function HeapOf(groups: seq<Group>): (h: multiset<Entry>) {
    if groups == [] then multiset{}
    else HeapOf(groups[..|groups| - 1]) + multiset{Entry(|groups| - 1, groups[|groups| - 1].free)}
  }

  function SumFree(groups: seq<Group>): (n: nat) {
    if groups == [] then 0 else SumFree(groups[..|groups| - 1]) + groups[|groups| - 1].free
  }

  /** The descriptor's count is the number of clear bits. */
  predicate GroupOk(g: Group, bpg: nat) {
    GroupReady(g) && g.bm.n == bpg && g.free + g.bm.used == bpg
  }

  /** The numbers given out from group `g` are those whose bit is set. */
  predicate Recorded(s: Fs, g: nat)
    requires g < |s.groups| && s.bpg <= |s.groups[g].bm.bits|
  {
    forall pos :: 0 <= pos < s.bpg ==> (s.groups[g].bm.bits[pos] <==> BlockNr(g, pos, s.bpg) in s.handed)
  }

  predicate GroupAt(s: Fs, g: nat)
    requires g < |s.groups|
  {
    GroupOk(s.groups[g], s.bpg) && Recorded(s, g)
  }

  predicate Inv(s: Fs) {
    && s.bpg > 0 && s.sbFree < WORD
    && (forall g {:trigger GroupAt(s, g)} :: 0 <= g < |s.groups| ==> GroupAt(s, g))
    && s.heap == HeapOf(s.groups)
    && |s.handed| + SumFree(s.groups) == Capacity(s)
    && (forall b :: b in s.handed ==> b < Capacity(s))
  }

  lemma {:induction false} HeapHolds(groups: seq<Group>, e: Entry)
    ensures e in HeapOf(groups) <==> e.nr < |groups| && groups[e.nr].free == e.free
  {
    if groups != [] {
      HeapHolds(groups[..|groups| - 1], e);
    }
  }

  lemma {:induction false} HeapUpdate(groups: seq<Group>, g: nat, x: Group)
    requires g < |groups|
    ensures HeapOf(groups[g := x]) == HeapOf(groups) - multiset{Entry(g, groups[g].free)} + multiset{Entry(g, x.free)}
  {
    var k := |groups| - 1;
    if g < k {
      assert groups[g := x][..k] == groups[..k][g := x];
      HeapUpdate(groups[..k], g, x);
      HeapHolds(groups[..k], Entry(g, groups[g].free));
    } else {
      assert groups[g := x][..k] == groups[..k];
    }
  }

  lemma {:induction false} SumUpdate(groups: seq<Group>, g: nat, x: Group)
    requires g < |groups|
    ensures SumFree(groups[g := x]) == SumFree(groups) - groups[g].free + x.free
  {
    var k := |groups| - 1;
    if g < k {
      assert groups[g := x][..k] == groups[..k][g := x];
      SumUpdate(groups[..k], g, x);
    } else {
      assert groups[g := x][..k] == groups[..k];
    }
  }

  lemma {:induction false} SumZero(groups: seq<Group>)
    ensures SumFree(groups) == 0 <==> forall g :: 0 <= g < |groups| ==> groups[g].free == 0
  {
    if groups != [] {
      var p := groups[..|groups| - 1];
      SumZero(p);
      assert forall g :: 0 <= g < |p| ==> p[g] == groups[g];
    }
  }

  /** Different places have different numbers, all below groups x blocks per group. */
  lemma BlockNrUnique(g: nat, pos: nat, g': nat, pos': nat, bpg: nat)
    requires pos < bpg && pos' < bpg
    ensures BlockNr(g, pos, bpg) == BlockNr(g', pos', bpg) <==> g == g' && pos == pos'
    ensures BlockNr(g, pos, bpg) / bpg == g && BlockNr(g, pos, bpg) % bpg == pos
  {
    BlocksIsProduct(g, bpg);
    BlocksIsProduct(g', bpg);
    DivModUnique(BlockNr(g, pos, bpg), g, pos, bpg);
    DivModUnique(BlockNr(g', pos', bpg), g', pos', bpg);
  }

  lemma BlockNrBelow(g: nat, pos: nat, count: nat, bpg: nat)
    requires g < count && pos < bpg
    ensures BlockNr(g, pos, bpg) < Blocks(count, bpg)
  {
    BlocksIsProduct(g, bpg);
    BlocksIsProduct(count, bpg);
    MulLe(g + 1, count, bpg);
    MulNext(g, bpg);
  }

  // ---------------------------------------------------------------------------------------------
  // One allocation

  /** A group that counts a free block has a clear bit, so its bitmap never answers "full". */
  lemma GroupGives(g: Group, bpg: nat)
    requires GroupOk(g, bpg)
    ensures g.free == 0 <==> Bitmap.Full(g.bm)
    ensures var (bm', pos) := Bitmap.GetFirstFree(g.bm);
      g.free > 0 ==>
        && 0 <= pos < bpg && !g.bm.bits[pos] && bm'.bits == g.bm.bits[pos := true]
        && GroupOk(Group(g.free - 1, bm'), bpg)
  {
    Bitmap.CountAll(g.bm.bits[..bpg]);
    assert (forall k :: 0 <= k < bpg ==> g.bm.bits[..bpg][k]) <==> Bitmap.Full(g.bm);
    Bitmap.FirstFreeExact(g.bm);
  }

  /** Nothing is free exactly when the fullest group in the heap has nothing. */
  lemma RootTells(s: Fs, e: Entry)
    requires Inv(s) && AtRoot(s.heap, e)
    ensures e.nr < |s.groups| && s.groups[e.nr].free == e.free
    ensures e.free == 0 <==> SumFree(s.groups) == 0
    ensures forall g :: 0 <= g < |s.groups| ==> s.groups[g].free <= e.free
  {
    HeapHolds(s.groups, e);
    SumZero(s.groups);
    forall g | 0 <= g < |s.groups| ensures s.groups[g].free <= e.free {
      HeapHolds(s.groups, Entry(g, s.groups[g].free));
    }
  }

  lemma TakenRecorded(s: Fs, g: nat, pos: nat, bm': Bitmap.Map, h: nat)
    requires Inv(s) && g < |s.groups| && s.groups[g].free > 0 && h < |s.groups| && pos < s.bpg && GroupAt(s, g)
    requires (bm', pos as int) == Bitmap.GetFirstFree(s.groups[g].bm)
    ensures GroupAt(Taken(s, g, pos, bm'), h)
  {
    var s' := Taken(s, g, pos, bm');
    assert GroupAt(s, g) && GroupAt(s, h);
    GroupGives(s.groups[g], s.bpg);
    forall q | 0 <= q < s.bpg ensures s'.groups[h].bm.bits[q] <==> BlockNr(h, q, s.bpg) in s'.handed {
      BlockNrUnique(h, q, g, pos, s.bpg);
    }
  }

  lemma TakenCounts(s: Fs, g: nat, pos: nat, bm': Bitmap.Map)
    requires Inv(s) && g < |s.groups| && s.groups[g].free > 0 && pos < s.bpg && GroupAt(s, g)
    requires (bm', pos as int) == Bitmap.GetFirstFree(s.groups[g].bm)
    ensures BlockNr(g, pos, s.bpg) !in s.handed && BlockNr(g, pos, s.bpg) < Capacity(s)
    ensures SumFree(Taken(s, g, pos, bm').groups) == SumFree(s.groups) - 1
  {
    GroupGives(s.groups[g], s.bpg);
    BlockNrBelow(g, pos, |s.groups|, s.bpg);
    SumUpdate(s.groups, g, Group(s.groups[g].free - 1, bm'));
  }

  lemma TakenHeap(s: Fs, g: nat, pos: nat, bm': Bitmap.Map)
    requires g < |s.groups| && s.groups[g].free > 0 && s.heap == HeapOf(s.groups)
    ensures Taken(s, g, pos, bm').heap == HeapOf(Taken(s, g, pos, bm').groups)
  {
    var s' := Taken(s, g, pos, bm');
    var f := s.groups[g].free;
    var x := Group(f - 1, bm');
    HeapUpdate(s.groups, g, x);
    assert s'.groups == s.groups[g := x];
    assert s'.heap == s.heap - multiset{Entry(g, f)} + multiset{Entry(g, f - 1)};
    assert HeapOf(s.groups[g := x]) == s.heap - multiset{Entry(g, f)} + multiset{Entry(g, x.free)};
  }

  lemma TakenKeepsInv(s: Fs, g: nat, pos: nat, bm': Bitmap.Map)
    requires Inv(s) && g < |s.groups| && s.groups[g].free > 0 && pos < s.bpg && GroupAt(s, g)
    requires (bm', pos as int) == Bitmap.GetFirstFree(s.groups[g].bm)
    ensures Inv(Taken(s, g, pos, bm')) && BlockNr(g, pos, s.bpg) !in s.handed
    ensures BlockNr(g, pos, s.bpg) < Capacity(s)
    ensures SumFree(Taken(s, g, pos, bm').groups) == SumFree(s.groups) - 1
  {
    var s' := Taken(s, g, pos, bm');
    TakenCounts(s, g, pos, bm');
    TakenHeap(s, g, pos, bm');
    forall h | 0 <= h < |s'.groups| ensures GroupAt(s', h) {
      TakenRecorded(s, g, pos, bm', h);
    }
  }

  lemma FullIffNoneFree(s: Fs)
    requires Inv(s)
    ensures SumFree(s.groups) == 0 <==> forall g :: 0 <= g < |s.groups| ==> Bitmap.Full(s.groups[g].bm)
  {
    SumZero(s.groups);
    forall g | 0 <= g < |s.groups| ensures s.groups[g].free == 0 <==> Bitmap.Full(s.groups[g].bm) {
      assert GroupAt(s, g);
      GroupGives(s.groups[g], s.bpg);
    }
  }

  /** With a free block anywhere the bitmap-full exit is unreachable. */
  lemma FromRoot(s: Fs, s': Fs, r: int, e: Entry)
    requires Inv(s) && AtRoot(s.heap, e) && AllocatesFrom(s, s', r, e)
    ensures e.free > 0 ==>
      var (bm', pos) := Bitmap.GetFirstFree(s.groups[e.nr].bm);
      0 <= pos < s.bpg && r == BlockNr(e.nr, pos, s.bpg) && s' == Taken(s, e.nr, pos, bm')
  {
    if e.free > 0 {
      assert GroupAt(s, e.nr);
      GroupGives(s.groups[e.nr], s.bpg);
    }
  }

  /** What an allocation that gives `r` changes. */
  predicate Gives(s: Fs, s': Fs, r: int) {
    && 0 <= r < Capacity(s) && r !in s.handed && s'.handed == s.handed + {r}
    && SumFree(s'.groups) == SumFree(s.groups) - 1 && s'.sbFree == Dec(s.sbFree)
  }

  lemma GivesFrom(s: Fs, s': Fs, r: int, e: Entry)
    requires Inv(s) && AtRoot(s.heap, e) && AllocatesFrom(s, s', r, e) && e.free > 0
    ensures Inv(s') && |s'.groups| == |s.groups| && s'.bpg == s.bpg && r != -1 && Gives(s, s', r)
  {
    FromRoot(s, s', r, e);
    assert GroupAt(s, e.nr);
    var (bm', pos) := Bitmap.GetFirstFree(s.groups[e.nr].bm);
    TakenKeepsInv(s, e.nr, pos, bm');
  }

  /**
   One allocation: it fails exactly when every group is full, changing nothing; otherwise it hands out a number
   never handed out before, below groups x blocks per group, and lowers the sum of the groups' counts and the
   superblock's count by one each.
   */
  lemma AllocStep(s: Fs, s': Fs, r: int)
    requires Inv(s) && Allocates(s, s', r)
    ensures Inv(s') && |s'.groups| == |s.groups| && s'.bpg == s.bpg
    ensures r == -1 <==> forall g :: 0 <= g < |s.groups| ==> Bitmap.Full(s.groups[g].bm)
    ensures if r == -1 then s' == s else Gives(s, s', r)
  {
    var e :| AtRoot(s.heap, e) && AllocatesFrom(s, s', r, e);
    RootTells(s, e);
    FullIffNoneFree(s);
    if e.free > 0 {
      GivesFrom(s, s', r, e);
    }
  }

  /** No two groups differ by more than one free block. */
  predicate Balanced(groups: seq<Group>) {
    forall g, h :: 0 <= g < |groups| && 0 <= h < |groups| ==> groups[g].free <= groups[h].free + 1
  }

  lemma BalanceStep(s: Fs, s': Fs, r: int)
    requires Inv(s) && Allocates(s, s', r) && Balanced(s.groups)
    ensures Balanced(s'.groups)
  {
    var e :| AtRoot(s.heap, e) && AllocatesFrom(s, s', r, e);
    RootTells(s, e);
    FromRoot(s, s', r, e);
  }

  // ---------------------------------------------------------------------------------------------
  // Whole runs

  /**
   A fresh descriptor: the count is the group size cut to 16 bits, the map has the group size shifted right by three
   as bytes, and `behind` are the bits behind the map.
   */
  function FormatGroup(bpg: nat, behind: seq<bool>): (g: Group) {
    Group(bpg % 65536, Bitmap.Init(8 * (bpg / 8), behind))
  }

  /** A freshly formatted disk. */
  function Format(count: nat, bpg: nat, sbFree: nat, behind: seq<bool>): (s: Fs) {
    var groups := seq(count, _ => FormatGroup(bpg, behind));
    Fs(bpg, groups, HeapOf(groups), sbFree, {})
  }

  lemma {:induction false} SumEqual(groups: seq<Group>, f: nat)
    requires forall g :: 0 <= g < |groups| ==> groups[g].free == f
    ensures SumFree(groups) == Blocks(|groups|, f)
  {
    if groups != [] {
      SumEqual(groups[..|groups| - 1], f);
    }
  }

  /** A fresh format satisfies the invariant exactly when the group size is a multiple of 8 and fits in 16 bits. */
  lemma FormatInvIff(count: nat, bpg: nat, sbFree: nat, behind: seq<bool>)
    requires bpg > 0 && sbFree < WORD && |behind| > 0 && !behind[0] && count > 0
    ensures Inv(Format(count, bpg, sbFree, behind)) <==> bpg % 8 == 0 && bpg < 65536
    ensures Balanced(Format(count, bpg, sbFree, behind).groups)
  {
    var s := Format(count, bpg, sbFree, behind);
    Bitmap.InitExact(8 * (bpg / 8), behind);
    if bpg % 8 == 0 && bpg < 65536 {
      SumEqual(s.groups, bpg);
      forall g | 0 <= g < |s.groups| ensures GroupAt(s, g) {
      }
    } else {
      assert !GroupAt(s, 0);
    }
  }

  /** `rs[k]` is what the k-th allocation of the run gave. */
  ghost predicate IsRun(trace: seq<Fs>, rs: seq<int>) {
    |trace| == |rs| + 1 && forall k {:trigger StepAt(trace, rs, k)} :: 0 <= k < |rs| ==> StepAt(trace, rs, k)
  }

  ghost predicate StepAt(trace: seq<Fs>, rs: seq<int>, k: nat)
    requires |trace| == |rs| + 1 && k < |rs|
  {
    Allocates(trace[k], trace[k + 1], rs[k])
  }

  lemma {:induction false} RunKeepsInv(trace: seq<Fs>, rs: seq<int>, k: nat)
    requires IsRun(trace, rs) && Inv(trace[0]) && k < |trace|
    ensures Inv(trace[k]) && |trace[k].groups| == |trace[0].groups| && trace[k].bpg == trace[0].bpg
  {
    if k > 0 {
      var j := k - 1;
      RunKeepsInv(trace, rs, j);
      assert StepAt(trace, rs, j);
      AllocStep(trace[j], trace[k], rs[j]);
    }
  }

  /** From groups that differ by at most one free block, no run ever takes them further apart. */
  lemma {:induction false} RunStaysBalanced(trace: seq<Fs>, rs: seq<int>, k: nat)
    requires IsRun(trace, rs) && Inv(trace[0]) && Balanced(trace[0].groups) && k < |trace|
    ensures Balanced(trace[k].groups)
  {
    if k > 0 {
      var j := k - 1;
      RunStaysBalanced(trace, rs, j);
      RunKeepsInv(trace, rs, j);
      assert StepAt(trace, rs, j);
      BalanceStep(trace[j], trace[k], rs[j]);
    }
  }

  /** A 32-bit count after `k` decrements. */
  function CountedDown(sb: nat, k: nat): (n: nat) {
    if k == 0 then sb else Dec(CountedDown(sb, k - 1))
  }

  /** From `s0` to `s` the superblock's count went down once per block, and so did the groups' together. */
  predicate Counts(s0: Fs, s: Fs) {
    && |s0.handed| <= |s.handed| && s.sbFree == CountedDown(s0.sbFree, |s.handed| - |s0.handed|)
    && SumFree(s.groups) + |s.handed| == SumFree(s0.groups) + |s0.handed|
  }

  lemma CountsStep(s0: Fs, s: Fs, s': Fs, r: int)
    requires Inv(s) && Allocates(s, s', r) && Counts(s0, s)
    ensures Counts(s0, s')
  {
    AllocStep(s, s', r);
    if r != -1 {
      CountsGive(s0, s, s', r);
    }
  }

  lemma CountsGive(s0: Fs, s: Fs, s': Fs, r: int)
    requires Gives(s, s', r) && Counts(s0, s)
    ensures Counts(s0, s')
  {
    assert |s'.handed| == |s.handed| + 1;
  }

  /** Throughout a run the superblock's count and the sum of the groups' counts fall together. */
  lemma {:induction false} SuperblockCounts(trace: seq<Fs>, rs: seq<int>, k: nat)
    requires IsRun(trace, rs) && Inv(trace[0]) && k < |trace|
    ensures Counts(trace[0], trace[k])
  {
    if k > 0 {
      var j := k - 1;
      SuperblockCounts(trace, rs, j);
      RunKeepsInv(trace, rs, j);
      assert StepAt(trace, rs, j);
      CountsStep(trace[0], trace[j], trace[k], rs[j]);
    }
  }

  lemma {:induction false} HandedGrows(trace: seq<Fs>, rs: seq<int>, i: nat, k: nat)
    requires IsRun(trace, rs) && Inv(trace[0]) && i < k < |trace| && rs[i] != -1
    ensures rs[i] in trace[k].handed
  {
    var j := k - 1;
    RunKeepsInv(trace, rs, j);
    assert StepAt(trace, rs, j);
    AllocStep(trace[j], trace[k], rs[j]);
    if i < j {
      HandedGrows(trace, rs, i, j);
    }
  }

  /** Over every run no block number is handed out twice, and each is below groups x blocks per group. */
  lemma NeverTwice(trace: seq<Fs>, rs: seq<int>, i: nat, k: nat)
    requires IsRun(trace, rs) && Inv(trace[0]) && i < k < |rs| && rs[i] != -1 && rs[k] != -1
    ensures rs[i] != rs[k] && 0 <= rs[k] < Capacity(trace[0])
  {
    HandedGrows(trace, rs, i, k);
    RunKeepsInv(trace, rs, k);
    assert StepAt(trace, rs, k);
    AllocStep(trace[k], trace[k + 1], rs[k]);
  }

  /** Once nothing is free, every number below groups x blocks per group has been handed out. */
  lemma AllHanded(s: Fs, b: nat)
    requires Inv(s) && SumFree(s.groups) == 0 && b < Capacity(s)
    ensures b in s.handed
  {
    PlaceOf(b, |s.groups|, s.bpg);
    PlaceHanded(s, b / s.bpg, b % s.bpg);
  }

  lemma PlaceHanded(s: Fs, g: nat, pos: nat)
    requires Inv(s) && SumFree(s.groups) == 0 && g < |s.groups| && pos < s.bpg
    ensures BlockNr(g, pos, s.bpg) in s.handed
  {
    FullIffNoneFree(s);
    assert GroupAt(s, g);
    assert s.groups[g].bm.bits[pos];
  }

  lemma PlaceOf(b: nat, count: nat, bpg: nat)
    requires bpg > 0 && b < Blocks(count, bpg)
    ensures b / bpg < count && b % bpg < bpg && b == BlockNr(b / bpg, b % bpg, bpg)
  {
    BlocksIsProduct(count, bpg);
    BlocksIsProduct(b / bpg, bpg);
    DivModBasic(b, bpg);
    if b / bpg >= count {
      MulLe(count, b / bpg, bpg);
    }
  }

  /** Groups needed for `count` blocks, as the format rounds up. */
  function GroupCount(count: nat, bpg: nat): (n: nat)
    requires bpg > 0
  {
    (count + bpg - 1) / bpg
  }

  /**
   Numbers are not tested against s_data_block_count: on a disk filled up, one at or past it has been handed
   out exactly when the count is not a multiple of the group size.
   */
  lemma PastTheDiskIff(s: Fs, count: nat)
    requires Inv(s) && SumFree(s.groups) == 0 && |s.groups| == GroupCount(count, s.bpg)
    ensures (exists b :: b in s.handed && b >= count) <==> count % s.bpg != 0
  {
    GroupsCover(count, s.bpg);
    if count % s.bpg != 0 {
      AllHanded(s, count);
    }
  }

  lemma GroupsCover(count: nat, bpg: nat)
    requires bpg > 0
    ensures count % bpg == 0 ==> Blocks(GroupCount(count, bpg), bpg) == count
    ensures count % bpg != 0 ==> Blocks(GroupCount(count, bpg), bpg) > count
  {
    BlocksIsProduct(GroupCount(count, bpg), bpg);
    var q, r := count / bpg, count % bpg;
    DivModBasic(count, bpg);
    MulNext(q, bpg);
    if r == 0 {
      DivModUnique(count + bpg - 1, q, bpg - 1, bpg);
    } else {
      DivModUnique(count + bpg - 1, q + 1, r - 1, bpg);
    }
  }

  lemma {:induction false} CountedToZero(n: nat)
    ensures CountedDown(n, n) == 0 && CountedDown(n, n + 1) == WORD - 1
  {
    CountedBelow(n, n);
  }

  lemma {:induction false} CountedBelow(n: nat, k: nat)
    requires k <= n
    ensures CountedDown(n, k) == n - k
  {
    if k > 0 {
      CountedBelow(n, k - 1);
    }
  }

  /**
   The format records one block fewer than the disk has. So the allocation of the last block of the disk takes
   the superblock's count from 0 to 2^32 - 1.
   */
  lemma SuperblockWraps(s: Fs, count: nat, bpg: nat, behind: seq<bool>)
    requires bpg > 0 && 1 <= count
    requires Counts(Format(GroupCount(count, bpg), bpg, count - 1, behind), s) && |s.handed| == count
    ensures s.sbFree == WORD - 1
  {
    CountedToZero(count - 1);
  }

  // ---------------------------------------------------------------------------------------------
  // Runs from a format of any group size

  /** The group has `n` bits, and its count and its set bits make up `f`. */
  predicate GroupTallies(g: Group, f: nat, n: nat) {
    GroupReady(g) && g.bm.n == n && g.free + g.bm.used == f
  }

  predicate Counted(s: Fs, f: nat, n: nat) {
    && |s.groups| > 0 && s.heap == HeapOf(s.groups)
    && forall g {:trigger s.groups[g]} :: 0 <= g < |s.groups| ==> GroupTallies(s.groups[g], f, n)
  }

  lemma GroupTallied(g: Group, f: nat, n: nat)
    requires GroupTallies(g, f, n) && g.free > 0
    ensures var (bm', pos) := Bitmap.GetFirstFree(g.bm); pos != -1 ==> pos >= 0 && GroupTallies(Group(g.free - 1, bm'), f, n)
  {
    Bitmap.FirstFreeExact(g.bm);
  }

  lemma CountedTaken(s: Fs, g: nat, pos: nat, bm': Bitmap.Map, f: nat, n: nat)
    requires Counted(s, f, n) && g < |s.groups| && s.groups[g].free > 0 && GroupTallies(Group(s.groups[g].free - 1, bm'), f, n)
    ensures var s' := Taken(s, g, pos, bm');
      Counted(s', f, n) && |s'.groups| == |s.groups| && SumFree(s'.groups) == SumFree(s.groups) - 1
  {
    HeapUpdate(s.groups, g, Group(s.groups[g].free - 1, bm'));
    SumUpdate(s.groups, g, Group(s.groups[g].free - 1, bm'));
  }

  lemma CountedStep(s: Fs, s': Fs, r: int, f: nat, n: nat)
    requires Counted(s, f, n) && Allocates(s, s', r)
    ensures Counted(s', f, n) && |s'.groups| == |s.groups|
    ensures if r == -1 then s' == s else SumFree(s'.groups) == SumFree(s.groups) - 1
  {
    var e :| AtRoot(s.heap, e) && AllocatesFrom(s, s', r, e);
    if e.free > 0 {
      GroupTallied(s.groups[e.nr], f, n);
      var (bm', pos) := Bitmap.GetFirstFree(s.groups[e.nr].bm);
      if pos != -1 {
        CountedTaken(s, e.nr, pos, bm', f, n);
      }
    }
  }

  lemma {:induction false} Fullest(groups: seq<Group>) returns (g: nat)
    requires groups != []
    ensures g < |groups| && forall h :: 0 <= h < |groups| ==> groups[h].free <= groups[g].free
  {
    var k := |groups| - 1;
    g := k;
    if k > 0 {
      var h := Fullest(groups[..k]);
      if groups[h].free > groups[k].free {
        g := h;
      }
    }
  }

  /** An allocation can always be made, if only to fail. */
  lemma CanAllocate(s: Fs, f: nat, n: nat) returns (s': Fs, r: int)
    requires Counted(s, f, n)
    ensures Allocates(s, s', r)
  {
    var g := Fullest(s.groups);
    var e := Entry(g, s.groups[g].free);
    HeapHolds(s.groups, e);
    forall x: Entry | x in s.heap ensures x.free <= e.free {
      HeapHolds(s.groups, x);
    }
    Bitmap.FirstFreeExact(s.groups[g].bm);
    var (bm', pos) := Bitmap.GetFirstFree(s.groups[g].bm);
    if e.free == 0 || pos == -1 {
      s', r := s, -1;
    } else {
      s', r := Taken(s, g, pos, bm'), BlockNr(g, pos, s.bpg);
    }
    assert AtRoot(s.heap, e) && AllocatesFrom(s, s', r, e);
  }

  lemma FormatCounted(count: nat, bpg: nat, sbFree: nat, behind: seq<bool>)
    requires count > 0 && |behind| > 0 && !behind[0]
    ensures Counted(Format(count, bpg, sbFree, behind), bpg % 65536, 8 * (bpg / 8))
  {
    Bitmap.InitExact(8 * (bpg / 8), behind);
  }

  lemma {:induction false} RunCounted(trace: seq<Fs>, rs: seq<int>, f: nat, n: nat, k: nat)
    requires IsRun(trace, rs) && Counted(trace[0], f, n) && k < |trace|
    ensures Counted(trace[k], f, n) && |trace[k].groups| == |trace[0].groups|
  {
    if k > 0 {
      RunCounted(trace, rs, f, n, k - 1);
      assert StepAt(trace, rs, k - 1);
      CountedStep(trace[k - 1], trace[k], rs[k - 1], f, n);
    }
  }

  /** Some run goes on until an allocation fails. */
  lemma {:induction false} RunToFailure(s: Fs, f: nat, n: nat) returns (trace: seq<Fs>, rs: seq<int>)
    requires Counted(s, f, n)
    ensures IsRun(trace, rs) && trace[0] == s && |rs| > 0 && rs[|rs| - 1] == -1
    decreases SumFree(s.groups)
  {
    var s', r := CanAllocate(s, f, n);
    CountedStep(s, s', r, f, n);
    var trace', rs' := [s'], [];
    if r != -1 {
      trace', rs' := RunToFailure(s', f, n);
    }
    PrependRun(s, r, trace', rs');
    trace, rs := [s] + trace', [r] + rs';
  }

  lemma PrependRun(s: Fs, r: int, trace: seq<Fs>, rs: seq<int>)
    requires IsRun(trace, rs) && Allocates(s, trace[0], r)
    ensures IsRun([s] + trace, [r] + rs)
  {
    forall k | 0 <= k < |[r] + rs| ensures StepAt([s] + trace, [r] + rs, k) {
      if k > 0 {
        assert StepAt(trace, rs, k - 1);
      }
    }
  }

  /** Every group has all its bits set and counts nothing free. */
  predicate AllFull(s: Fs) {
    forall g {:trigger s.groups[g]} :: 0 <= g < |s.groups| ==> s.groups[g].free == 0 && Bitmap.Full(s.groups[g].bm)
  }

  /** Every allocation of the run fails exactly when all groups are full. */
  ghost predicate Honest(trace: seq<Fs>, rs: seq<int>)
    requires |trace| == |rs| + 1
  {
    forall k {:trigger rs[k]} :: 0 <= k < |rs| ==> (rs[k] == -1 <==> AllFull(trace[k]))
  }

  lemma HonestRun(trace: seq<Fs>, rs: seq<int>)
    requires IsRun(trace, rs) && Inv(trace[0])
    ensures Honest(trace, rs)
  {
    forall k | 0 <= k < |rs| ensures rs[k] == -1 <==> AllFull(trace[k]) {
      RunKeepsInv(trace, rs, k);
      assert StepAt(trace, rs, k);
      AllocStep(trace[k], trace[k + 1], rs[k]);
      FullIffNoneFree(trace[k]);
      SumZero(trace[k].groups);
    }
  }

  /** Where count and bits of a group start out different, a run that fails does so with some group not full. */
  lemma DishonestRun(trace: seq<Fs>, rs: seq<int>, f: nat, n: nat)
    requires IsRun(trace, rs) && Counted(trace[0], f, n) && f != n && |rs| > 0 && rs[|rs| - 1] == -1
    ensures !Honest(trace, rs)
  {
    var k := |rs| - 1;
    RunCounted(trace, rs, f, n, k);
    var g := trace[k].groups[0];
    assert !(g.free == 0 && Bitmap.Full(g.bm)) by {
      Bitmap.CountAll(g.bm.bits[..n]);
    }
    assert !AllFull(trace[k]);
  }

  ghost predicate AlwaysHonest(s: Fs) {
    forall trace: seq<Fs>, rs: seq<int> {:trigger IsRun(trace, rs)} ::
      IsRun(trace, rs) && trace[0] == s ==> Honest(trace, rs)
  }

  /**
   From a format, allocations fail exactly when every group is full, in every run, if and only if the group size is a
   multiple of 8 and fits in 16 bits.
   */
  lemma FormatHonestIff(count: nat, bpg: nat, sbFree: nat, behind: seq<bool>)
    requires bpg > 0 && sbFree < WORD && |behind| > 0 && !behind[0] && count > 0
    ensures AlwaysHonest(Format(count, bpg, sbFree, behind)) <==> bpg % 8 == 0 && bpg < 65536
  {
    var s := Format(count, bpg, sbFree, behind);
    FormatInvIff(count, bpg, sbFree, behind);
    if bpg % 8 == 0 && bpg < 65536 {
      forall trace: seq<Fs>, rs: seq<int> | IsRun(trace, rs) && trace[0] == s ensures Honest(trace, rs) {
        HonestRun(trace, rs);
      }
    } else {
      FormatCounted(count, bpg, sbFree, behind);
      var trace, rs := RunToFailure(s, bpg % 65536, 8 * (bpg / 8));
      DishonestRun(trace, rs, bpg % 65536, 8 * (bpg / 8));
    }
  }

  lemma OneGroupStep(s: Fs, s': Fs, r: int, f: nat, n: nat)
    requires Counted(s, f, n) && Allocates(s, s', r) && |s.groups| == 1
    ensures r == -1 <==> s.groups[0].free == 0 || f - s.groups[0].free == n
    ensures |s'.groups| == 1 && s'.groups[0].free == s.groups[0].free - if r == -1 then 0 else 1
  {
    CountedStep(s, s', r, f, n);
    var e :| AtRoot(s.heap, e) && AllocatesFrom(s, s', r, e);
    HeapHolds(s.groups, e);
    var bm := s.groups[0].bm;
    Bitmap.FirstFreeExact(bm);
    Bitmap.CountAll(bm.bits[..n]);
  }

  /** What is left of one group after `k` allocations, when the first `m` succeed. */
  function Left(f: nat, m: nat, k: nat): (n: int) {
    if k < m then f - k else f - m
  }

  lemma {:induction false} OneGroupRun(trace: seq<Fs>, rs: seq<int>, f: nat, n: nat, m: nat, k: nat)
    requires IsRun(trace, rs) && Counted(trace[0], f, n) && |trace[0].groups| == 1 && trace[0].groups[0].free == f
    requires k < |trace| && m == Min(f, n)
    ensures |trace[k].groups| == 1 && trace[k].groups[0].free == Left(f, m, k)
  {
    if k > 0 {
      OneGroupRun(trace, rs, f, n, m, k - 1);
      RunCounted(trace, rs, f, n, k - 1);
      assert StepAt(trace, rs, k - 1);
      OneGroupStep(trace[k - 1], trace[k], rs[k - 1], f, n);
    }
  }

  /** With one group, an allocation succeeds exactly while both bits and counted blocks are left. */
  lemma OneGroupAnswers(trace: seq<Fs>, rs: seq<int>, f: nat, n: nat, m: nat, k: nat)
    requires IsRun(trace, rs) && Counted(trace[0], f, n) && |trace[0].groups| == 1 && trace[0].groups[0].free == f
    requires k < |rs| && m == Min(f, n)
    ensures |trace[k].groups| == 1 && trace[k].groups[0].free == Left(f, m, k)
    ensures rs[k] == -1 <==> k >= m
  {
    OneGroupRun(trace, rs, f, n, m, k);
    RunCounted(trace, rs, f, n, k);
    assert StepAt(trace, rs, k);
    OneGroupStep(trace[k], trace[k + 1], rs[k], f, n);
  }

  /**
   One group of a size that is no multiple of 8 has fewer bits than blocks: allocation fails once the bits are used
   up, with the remainder of the size still counted free.
   */
  lemma LeftoverStuck(trace: seq<Fs>, rs: seq<int>, bpg: nat, sbFree: nat, behind: seq<bool>, k: nat)
    requires bpg < 65536 && |behind| > 0 && !behind[0] && IsRun(trace, rs) && k < |rs|
    requires trace[0] == Format(1, bpg, sbFree, behind)
    ensures rs[k] == -1 <==> k >= 8 * (bpg / 8)
    ensures rs[k] == -1 ==> |trace[k].groups| == 1 && trace[k].groups[0].free == bpg % 8
  {
    var n := 8 * (bpg / 8);
    FormatCounted(1, bpg, sbFree, behind);
    OneGroupAnswers(trace, rs, bpg, n, n, k);
  }

  /** A group of 65536 blocks or more counts only what 16 bits hold of its size, and gives no more. */
  lemma CountedShort(trace: seq<Fs>, rs: seq<int>, bpg: nat, sbFree: nat, behind: seq<bool>, k: nat)
    requires bpg >= 65536 && |behind| > 0 && !behind[0] && IsRun(trace, rs) && k < |rs|
    requires trace[0] == Format(1, bpg, sbFree, behind)
    ensures rs[k] == -1 <==> k >= bpg % 65536
  {
    FormatCounted(1, bpg, sbFree, behind);
    OneGroupAnswers(trace, rs, bpg % 65536, 8 * (bpg / 8), bpg % 65536, k);
  }

  /** A group of twelve: the ninth allocation of a run fails, and no earlier one, with four blocks counted free. */
  lemma NinthOfTwelve(trace: seq<Fs>, rs: seq<int>, sbFree: nat, behind: seq<bool>, k: nat)
    requires |behind| > 0 && !behind[0] && IsRun(trace, rs) && trace[0] == Format(1, 12, sbFree, behind) && k < |rs|
    ensures (rs[k] == -1 <==> k >= 8) && (k == 8 ==> |trace[k].groups| == 1 && trace[k].groups[0].free == 4)
  {
    LeftoverStuck(trace, rs, 12, sbFree, behind, k);
  }

  // ---------------------------------------------------------------------------------------------
  // The allocator in memory

  lemma TakesFromRoot(s: Fs, e: Entry)
    requires Inv(s) && AtRoot(s.heap, e) && e.free > 0
    requires e.nr < |s.groups| && s.groups[e.nr].free == e.free && GroupAt(s, e.nr)
    ensures var (bm', pos) := Bitmap.GetFirstFree(s.groups[e.nr].bm);
      && 0 <= pos < s.bpg && Inv(Taken(s, e.nr, pos, bm'))
      && Allocates(s, Taken(s, e.nr, pos, bm'), BlockNr(e.nr, pos, s.bpg))
  {
    GroupGives(s.groups[e.nr], s.bpg);
    var (bm', pos) := Bitmap.GetFirstFree(s.groups[e.nr].bm);
    TakenKeepsInv(s, e.nr, pos, bm');
    assert AllocatesFrom(s, Taken(s, e.nr, pos, bm'), BlockNr(e.nr, pos, s.bpg), e);
  }

  /**
   The mounted file system's allocation state. The descriptors of a metadata block are values of one array;
   a group's bitmap inside them is the one class Bitmap.Bitmap updates byte by byte.
   */
  class Allocator {
    const bpg: nat
    const heap: Heap
    var groups: seq<Group>
    var sbFree: nat
    ghost var handed: set<nat>

    ghost function State(): (s: Fs)
      reads this, heap
    {
      Fs(bpg, groups, heap.contents, sbFree, handed)
    }

    ghost predicate Valid()
      reads this, heap, heap.heap
    {
      heap.Valid() && Inv(State())
    }

    /** The mounted state: `heap` was filled from the descriptors. */
    constructor (bpg: nat, groups: seq<Group>, heap: Heap, sbFree: nat, ghost handed: set<nat>)
      requires heap.Valid() && Inv(Fs(bpg, groups, heap.contents, sbFree, handed))
      ensures Valid() && this.heap == heap && State() == Fs(bpg, groups, heap.contents, sbFree, handed)
    {
      this.bpg, this.groups, this.heap, this.sbFree, this.handed := bpg, groups, heap, sbFree, handed;
    }

    /** The group at the root of the heap. */
    method Lightest() returns (e: Option<Entry>)
      requires Valid()
      ensures e.None? <==> groups == []
      ensures e.Some? ==> heap.size > 0 && e.value == heap.heap[0] && AtRoot(heap.contents, e.value)
      ensures e.Some? ==> e.value.nr < |groups| && groups[e.value.nr].free == e.value.free && GroupAt(State(), e.value.nr)
    {
      e := heap.Top();
      if groups != [] {
        HeapHolds(groups, Entry(0, groups[0].free));
        RootTells(State(), e.value);
        assert GroupAt(State(), e.value.nr);
      }
    }

    /** The updates of a successful allocation from the root `e`. */
    method Take(e: Entry, bm': Bitmap.Map, pos: nat) returns (r: nat)
      requires heap.Valid() && heap.size > 0 && e == heap.heap[0] && e.free > 0
      requires e.nr < |groups| && groups[e.nr].free == e.free
      modifies this`groups, this`sbFree, this`handed, heap, heap.heap
      ensures heap.Valid() && State() == Taken(old(State()), e.nr, pos, bm') && r == BlockNr(e.nr, pos, bpg)
    {
      heap.LowerRoot();
      sbFree := Dec(sbFree);
      groups := groups[e.nr := Group(groups[e.nr].free - 1, bm')];
      r := Number(e.nr, pos, bpg);
      handed := handed + {r};
    }

    /** userfs_get_new_dblock; without groups the heap is empty and the allocation fails. */
    method GetNewBlock() returns (r: int)
      requires Valid()
      modifies this`groups, this`sbFree, this`handed, heap, heap.heap
      ensures Valid()
      ensures if old(groups) == [] then r == -1 && State() == old(State()) else Allocates(old(State()), State(), r)
    {
      var top := Lightest();
      if top.None? {
        return -1;
      }
      var e := top.value;
      if e.free == 0 {
        assert AllocatesFrom(State(), State(), -1, e);
        return -1;
      }
      var (bm', pos) := Bitmap.GetFirstFree(groups[e.nr].bm);
      if pos == -1 {
        assert AllocatesFrom(State(), State(), -1, e);
        return -1;
      }
      TakesFromRoot(State(), e);
      r := Take(e, bm', pos);
    }
  }

  method Number(g: nat, pos: nat, bpg: nat) returns (b: nat)
    ensures b == BlockNr(g, pos, bpg)
  {
    BlocksIsProduct(g, bpg);
    b := g * bpg + pos;
  }
}
