/** The allocator of mempool/mempool.c over its controller, proved to perform the operations of module Slab. */
module Mempool {
  import opened Bits
  import opened Slab

  class Ctrl {
    const svaddr: nat
    const totalsize: nat
    var rvaddr: nat
    var remainsize: nat
    var slabs: array<nat>
    /** The memory, one entry per address at which a word was written. */
    var mem: map<nat, nat>

    ghost predicate Matches(p: Pool)
      reads this, slabs
    {
      && svaddr == p.start && totalsize == p.total && rvaddr == p.bump && remainsize == p.remain
      && slabs[..] == p.slabs && mem == p.mem
    }

    /** mempool_ctrl_init */
    constructor (vaddr: nat, size: nat, classes: nat, mem: map<nat, nat>)
      requires vaddr > 0
      ensures Matches(Init(vaddr, size, classes, mem)) && Inv(Init(vaddr, size, classes, mem)) && fresh(slabs)
    {
      svaddr, totalsize, rvaddr, remainsize, this.mem := vaddr, size, vaddr, size, mem;
      slabs := new nat[classes](_ => NULL);
      new;
      InitInv(vaddr, size, classes, mem);
    }

    /** mempool_ctrl_alloc_default */
    method Allocate(size: nat, ghost p: Pool) returns (a: nat, ghost p': Pool)
      requires Matches(p) && Inv(p) && size < 0x1_0000_0000_0000_0000 && !OffTheEnd(p, size)
      modifies this`rvaddr, this`remainsize, slabs
      ensures (p', a) == Alloc(p, size) && Matches(p') && Inv(p')
    {
      p' := Alloc(p, size).0;
      ExecKeepsInv(p, Malloc(size));
      if size == 0 {
        return NULL, p';
      }
      var slot := SizeBits(size);
      var realSize := Pow2(slot);
      slot := slot - MIN_BITS;
      assert realSize == Size(ClassOf(size)) && slot == ClassOf(size);
      if realSize > remainsize || slot > slabs.Length {
        return NULL, p';
      }
      remainsize := remainsize - realSize;
      if slabs[slot] != NULL {
        a := slabs[slot];
        slabs[slot] := Word(mem, a);
        return;
      }
      a := rvaddr;
      rvaddr := rvaddr + realSize;
    }

    /** mempool_ctrl_free_default on a block the caller holds, with a size of the block's class. */
    method Release(ptr: nat, size: nat, ghost p: Pool, ghost i: nat) returns (ghost p': Pool)
      requires Matches(p) && Inv(p) && HoldsBlock(p, i, size) && ptr == p.tiles[i].addr
      modifies this`remainsize, this`mem, slabs
      ensures ClassOf(size) < |p.slabs| && p' == Free(p, i, size) && Matches(p') && Inv(p')
    {
      FreeDoes(p, i, size);
      FreeKeeps(p, i, size);
      p' := Free(p, i, size);
      TileInSpan(p.start, p.tiles, i);
      if ptr < svaddr || ptr > rvaddr + totalsize {
        return;
      }
      var slot := SizeBits(size);
      var realSize := Pow2(slot);
      slot := slot - MIN_BITS;
      assert realSize == Size(ClassOf(size)) && slot == ClassOf(size);
      mem := mem[ptr := slabs[slot]];
      slabs[slot] := ptr;
      remainsize := remainsize + realSize;
    }
  }
}
