/**
 The root directory as the program keeps it: a dentry array rewritten in place, its header, the hash table object
 and the inode buffers. Every method is tied to the function of the same step in module Directory.
 */
module RootDir {
  import opened Common
  import opened DentryHash
  import opened Directory
  import opened HashNodes

  class Root {
    const slots: array<Dentry>
    var used: nat
    var first: nat
    var free: nat
    const hash: LinkHash
    var bufs: map<nat, Buf>

    ghost predicate IsRing(r: Ring)
      reads this, slots
    {
      r == Ring(slots[..], used, first, free)
    }

    ghost predicate Is(d: Dir)
      reads this, slots, hash, hash.starts, hash.counts
    {
      && IsRing(d.ring) && hash.Is(d.hash) && bufs == d.bufs
      && slots as object != hash.starts && slots as object != hash.counts
      && RingOk(d.ring) && |d.hash.buckets| == |d.hash.counts| > 0
    }

    /** userfs_dentry_table_block_init, with an empty index. */
    constructor (slots: array<Dentry>, n: nat, held: int)
      requires slots.Length > 0 && n > 0
      ensures this.slots == slots && fresh(hash) && fresh(hash.starts) && fresh(hash.counts)
      ensures Is(Dir(Ring(slots[..], 0, 0, 0), Empty(n, held), map[]))
    {
      this.slots := slots;
      used, first, free := 0, 0, 0;
      hash := new LinkHash(n, held);
      bufs := map[];
    }

    /** userfs_alloc_dentry */
    method TakeDentry(ghost r: Ring) returns (pos: Option<nat>)
      requires IsRing(r) && slots.Length > 0
      modifies this`used, this`free
      ensures IsRing(AllocDentry(r).0) && pos == AllocDentry(r).1
    {
      if used == slots.Length {
        return None;
      }
      used := used + 1;
      pos := Some(free);
      free := (free + 1) % slots.Length;
    }

    /** userfs_free_dentry: the first dentry changes places with the freed one. */
    method DropDentry(pos: nat, ghost r: Ring) returns (moved: bool)
      requires IsRing(r) && pos < slots.Length && first < slots.Length && used > 0
      modifies this`used, this`first, slots
      ensures IsRing(FreeDentry(r, pos).0) && moved == FreeDentry(r, pos).1
    {
      if pos < first && pos >= free {
        return false;
      }
      moved := pos != first;
      if moved {
        slots[pos], slots[first] := slots[first], slots[pos];
      }
      first := (first + 1) % slots.Length;
      used := used - 1;
    }

    /** userfs_file_create */
    method CreateFile(name: Name, inode: Option<(nat, nat)>, ghost d: Dir) returns (out: Outcome)
      requires Is(d)
      modifies this, slots, hash, hash.starts, hash.counts
      ensures out == Create(d, name, inode).1
      ensures IsRing(Create(d, name, inode).0.ring) && hash.Is(Create(d, name, inode).0.hash)
      ensures bufs == Create(d, name, inode).0.bufs
    {
      if |name| > MAX_NAME {
        return TooLong;
      }
      ghost var r1 := AllocDentry(d.ring).0;
      var pos := TakeDentry(d.ring);
      if pos.None? {
        return TableFull;
      }
      if inode.None? {
        var _ := DropDentry(pos.value, r1);
        return NoInode;
      }
      var (block, buf) := inode.value;
      slots[pos.value] := Dentry(block, name);
      ghost var r2 := r1.(slots := r1.slots[pos.value := Dentry(block, name)]);
      var ok := hash.Add(Obj(name, InMemory(buf), pos.value), d.hash);
      if !ok {
        var _ := DropDentry(pos.value, r2);
        return Exists;
      }
      bufs := bufs[buf := Buf(block, 1)];
      out := Created;
    }

    /** userfs_file_open */
    method OpenFile(name: Name, buf: nat, ghost d: Dir) returns (ok: bool)
      requires Is(d)
      modifies this`bufs, hash, hash.starts, hash.counts
      ensures Is(Open(d, name, buf).0) && ok == Open(d, name, buf).1
    {
      if |name| > MAX_NAME {
        return false;
      }
      var o := hash.Lookup(name, d.hash);
      if o.None? {
        return false;
      }
      match o.value.loc {
        case OnDisk(block) =>
          var _ := hash.Modify(name, Some(InMemory(buf)), None, d.hash);
          bufs := bufs[buf := Buf(block, 1)];
        case InMemory(b) =>
          if b !in bufs {
            return false;
          }
          bufs := bufs[b := bufs[b].(refs := bufs[b].refs + 1)];
      }
      ok := true;
    }

    /** userfs_file_close */
    method CloseFile(name: Name, ghost d: Dir) returns (ok: bool)
      requires Is(d)
      modifies this`bufs, hash, hash.starts, hash.counts
      ensures Is(Close(d, name).0) && ok == Close(d, name).1
    {
      if |name| > MAX_NAME {
        return false;
      }
      var o := hash.Lookup(name, d.hash);
      if o.None? || o.value.loc.OnDisk? || o.value.loc.buf !in bufs {
        return false;
      }
      var b := o.value.loc.buf;
      bufs := bufs[b := bufs[b].(refs := bufs[b].refs - 1)];
      if bufs[b].refs <= 0 {
        var _ := hash.Modify(name, Some(OnDisk(bufs[b].block)), None, d.hash);
      }
      ok := true;
    }

    /** userfs_file_delete */
    method DeleteFile(name: Name, ghost d: Dir) returns (ok: bool)
      requires Is(d)
      modifies this, slots, hash, hash.starts, hash.counts
      ensures ok == Delete(d, name).1 && bufs == Delete(d, name).0.bufs
      ensures IsRing(Delete(d, name).0.ring) && hash.Is(Delete(d, name).0.hash)
    {
      if |name| > MAX_NAME {
        return false;
      }
      ghost var h1 := Remove(d.hash, name).0;
      var o := hash.Delete(name, d.hash);
      if o.None? || o.value.pos >= slots.Length || used == 0 {
        return false;
      }
      var moved := DropDentry(o.value.pos, d.ring);
      ok := true;
      if moved {
        ok := hash.Modify(slots[o.value.pos].name, None, Some(o.value.pos), h1);
      }
    }

    /** The entry mount makes of the dentry `i` places behind the first. */
    method ReadEntry(i: nat, ghost r: Ring) returns (o: Obj)
      requires IsRing(r) && i < slots.Length && first < slots.Length
      ensures o == EntryAt(r, i)
    {
      var p := (i + first) % slots.Length;
      PosIsMod(r, i);
      o := Obj(slots[p].name, OnDisk(slots[p].block), p);
    }

    /** One turn of the mount loop. */
    method MountStep(h: LinkHash, i: nat, ghost r: Ring, ghost ts: seq<Option<Table>>) returns (ok: bool)
      requires IsRing(r) && first < slots.Length && i < used <= slots.Length && |ts| == used + 1
      requires ts[i].Some? && |ts[i].value.buckets| == |ts[i].value.counts| > 0 && Turns(r, ts, i) && h.Is(ts[i].value)
      requires slots as object != h.starts && slots as object != h.counts
      modifies h, h.starts, h.counts
      ensures ok == ts[i + 1].Some? && (ok ==> h.Is(ts[i + 1].value))
    {
      var o := ReadEntry(i, r);
      ok := h.Add(o, ts[i].value);
    }

    /** userfs_mount_dentry_hashtable_init: the index built by a walk of the ring, unless an insertion is refused. */
    method MountIndex(n: nat, held: int, ghost r: Ring) returns (h: LinkHash, ok: bool)
      requires IsRing(r) && RingOk(r) && n > 0
      ensures fresh(h) && fresh(h.starts) && fresh(h.counts)
      ensures ok == Rebuilt(r, n, held, r.used).Some? && (ok ==> h.Is(Rebuilt(r, n, held, r.used).value))
    {
      ghost var ts := Tables(r, n, held);
      h, ok := MountLoop(n, held, r, ts);
    }

    method MountLoop(n: nat, held: int, ghost r: Ring, ghost ts: seq<Option<Table>>) returns (h: LinkHash, ok: bool)
      requires IsRing(r) && first < slots.Length && used <= slots.Length && n > 0 && AllTurns(r, n, held, ts)
      ensures fresh(h) && fresh(h.starts) && fresh(h.counts)
      ensures ok == ts[used].Some? && (ok ==> h.Is(ts[used].value))
    {
      h := new LinkHash(n, held);
      for i := 0 to used
        invariant fresh(h.starts) && fresh(h.counts) && ts[i].Some? && h.Is(ts[i].value)
      {
        assert Turns(r, ts, i);
        ok := MountStep(h, i, r, ts);
        if !ok {
          RefusedStays(r, n, held, ts, i + 1);
          return;
        }
      }
      ok := true;
    }
  }

  /** The tables of a mount, from the empty one on; none from the first refusal on. */
  ghost predicate AllTurns(r: Ring, n: nat, held: int, ts: seq<Option<Table>>) {
    && n > 0 && r.first < |r.slots| && |ts| == r.used + 1 <= |r.slots| + 1 && ts[0] == Some(Empty(n, held))
    && (forall k {:trigger ts[k]} :: 0 <= k < |ts| && ts[k].Some? ==> |ts[k].value.buckets| == |ts[k].value.counts| == n)
    && (forall k: nat {:trigger Turns(r, ts, k)} :: k < r.used ==> Turns(r, ts, k))
  }

  ghost predicate Turns(r: Ring, ts: seq<Option<Table>>, k: nat)
    requires k + 1 < |ts| && r.first < |r.slots| && k < |r.slots|
    requires ts[k].Some? ==> |ts[k].value.buckets| == |ts[k].value.counts| > 0
  {
    ts[k + 1] ==
      if ts[k].None? then None
      else
        var (t, ok) := Insert(ts[k].value, EntryAt(r, k));
        if ok then Some(t) else None
  }

  lemma Tables(r: Ring, n: nat, held: int) returns (ts: seq<Option<Table>>)
    requires RingOk(r) && n > 0
    ensures AllTurns(r, n, held, ts) && ts[r.used] == Rebuilt(r, n, held, r.used)
  {
    ts := [Some(Empty(n, held))];
    for k := 0 to r.used
      invariant |ts| == k + 1 && forall i {:trigger ts[i]} :: 0 <= i <= k ==> ts[i] == Rebuilt(r, n, held, i)
    {
      ts := ts + [Rebuilt(r, n, held, k + 1)];
    }
    forall k: nat | k < r.used ensures Turns(r, ts, k) {
      assert ts[k] == Rebuilt(r, n, held, k) && ts[k + 1] == Rebuilt(r, n, held, k + 1);
    }
  }

  lemma {:induction false} RefusedStays(r: Ring, n: nat, held: int, ts: seq<Option<Table>>, k: nat)
    requires AllTurns(r, n, held, ts) && k < |ts| && ts[k].None?
    ensures ts[r.used].None?
    decreases |ts| - k
  {
    if k < r.used {
      assert Turns(r, ts, k);
      RefusedStays(r, n, held, ts, k + 1);
    }
  }
}
