/**
 The root directory: a ring of dentries on disk (userfs/userfs_file_ctrl.c) indexed by the hash table of module
 DentryHash, kept together by create, open, close and delete (userfs/userfs_file_ops.c), and the index rebuilt
 from the ring at mount (userfs/userfs_init.c).
 */
module Directory {
  import opened Common
  import opened Arith
  import opened DentryHash

  datatype Dentry = Dentry(block: nat, name: Name)

  /** The dentry table with its header: dfd_used_dentry_count, dfd_first_dentry and dfd_first_free_dentry. */
  datatype Ring = Ring(slots: seq<Dentry>, used: nat, first: nat, free: nat)

  /** An inode buffer: the block it holds and how often the file is open. */
  datatype Buf = Buf(block: nat, refs: int)

  datatype Dir = Dir(ring: Ring, hash: Table, bufs: map<nat, Buf>)

  // ---------------------------------------------------------------------------------------------
  // The ring

  /** userfs_alloc_dentry */
  function AllocDentry(r: Ring): (x: (Ring, Option<nat>))
    requires |r.slots| > 0
  {
    if r.used == |r.slots| then (r, None)
    else (r.(used := r.used + 1, free := (r.free + 1) % |r.slots|), Some(r.free))
  }

  /** userfs_free_dentry; the flag says that the first dentry was moved to `pos`. */
  function FreeDentry(r: Ring, pos: nat): (x: (Ring, bool))
    requires pos < |r.slots| && r.first < |r.slots| && r.used > 0
  {
    if pos < r.first && pos >= r.free then (r, false)
    else
      var slots := if pos != r.first then r.slots[pos := r.slots[r.first]][r.first := r.slots[pos]] else r.slots;
      (r.(slots := slots, first := (r.first + 1) % |r.slots|, used := r.used - 1), pos != r.first)
  }

  /** How far `p` lies behind the first dentry. */
  function Offset(r: Ring, p: nat): (k: int) {
    if p >= r.first then p - r.first else p + |r.slots| - r.first
  }

  predicate InArc(r: Ring, p: nat) {
    p < |r.slots| && Offset(r, p) < r.used
  }

  /** The k-th used position. */
  function Pos(r: Ring, k: nat): (p: nat)
    requires r.first < |r.slots| && k < |r.slots|
    ensures p < |r.slots| && Offset(r, p) == k
  {
    if r.first + k < |r.slots| then r.first + k else r.first + k - |r.slots|
  }

  lemma PosIsMod(r: Ring, k: nat)
    requires r.first < |r.slots| && k < |r.slots|
    ensures Pos(r, k) == (k + r.first) % |r.slots|
  {
    ModStep(r.first, k, |r.slots|);
    ModSmall(r.first, |r.slots|);
  }

  predicate RingOk(r: Ring) {
    && r.used <= |r.slots| && r.first < |r.slots| && r.free < |r.slots|
    && Offset(r, r.free) == if r.used == |r.slots| then 0 else r.used
  }

  lemma ArcPush(r: Ring)
    requires RingOk(r) && r.used < |r.slots|
    ensures var (r', pos) := AllocDentry(r);
      && RingOk(r') && pos == Some(r.free) && !InArc(r, r.free) && r'.slots == r.slots && r'.first == r.first
      && (forall p: nat :: InArc(r', p) <==> InArc(r, p) || p == r.free)
  {
    ModStep(r.free, 1, |r.slots|);
    ModSmall(r.free, |r.slots|);
  }

  lemma ArcPop(r: Ring, pos: nat)
    requires RingOk(r) && InArc(r, pos)
    ensures var (r', moved) := FreeDentry(r, pos);
      && RingOk(r') && |r'.slots| == |r.slots| && moved == (pos != r.first) && InArc(r, r.first)
      && (forall p: nat :: InArc(r', p) <==> InArc(r, p) && p != r.first)
      && (forall p: nat :: InArc(r', p) ==> r'.slots[p] == r.slots[if p == pos then r.first else p])
  {
    ModStep(r.first, 1, |r.slots|);
    ModSmall(r.first, |r.slots|);
  }

  /** Freeing is refused exactly for a position not in use, and only where the used arc wraps around. */
  lemma FreeRefusedIff(r: Ring, pos: nat)
    requires RingOk(r) && r.used > 0 && pos < |r.slots|
    ensures FreeDentry(r, pos) == (r, false) <==> !InArc(r, pos) && r.free < r.first
  {
  }

  // ---------------------------------------------------------------------------------------------
  // Operations

  /** The block an entry's location leads to. */
  function BlockOf(d: Dir, loc: Loc): (b: Option<nat>) {
    match loc
    case OnDisk(block) => Some(block)
    case InMemory(buf) => if buf in d.bufs then Some(d.bufs[buf].block) else None
  }

  datatype Outcome = TooLong | TableFull | NoInode | Exists | Created

  /** userfs_file_create; `inode` is the block and buffer userfs_get_new_inode gave, if it gave any. */
  function Create(d: Dir, name: Name, inode: Option<(nat, nat)>): (x: (Dir, Outcome))
    requires RingOk(d.ring) && |d.hash.buckets| == |d.hash.counts| > 0
  {
    if |name| > MAX_NAME then (d, TooLong)
    else
      var (r1, pos) := AllocDentry(d.ring);
      if pos.None? then (d, TableFull)
      else if inode.None? then (d.(ring := FreeDentry(r1, pos.value).0), NoInode)
      else
        var (block, buf) := inode.value;
        var r2 := r1.(slots := r1.slots[pos.value := Dentry(block, name)]);
        var (h, ok) := Insert(d.hash, Obj(name, InMemory(buf), pos.value));
        if !ok then (d.(ring := FreeDentry(r2, pos.value).0), Exists)
        else (Dir(r2, h, d.bufs[buf := Buf(block, 1)]), Created)
  }

  /** userfs_file_open; `buf` is the buffer a first open reads the inode into. */
  function Open(d: Dir, name: Name, buf: nat): (x: (Dir, bool))
    requires |d.hash.buckets| == |d.hash.counts| > 0
  {
    var o := Get(d.hash, name);
    if |name| > MAX_NAME || o.None? then (d, false)
    else match o.value.loc
      case OnDisk(block) =>
        (d.(hash := Change(d.hash, name, Some(InMemory(buf)), None).0, bufs := d.bufs[buf := Buf(block, 1)]), true)
      case InMemory(b) =>
        if b in d.bufs then (d.(bufs := d.bufs[b := d.bufs[b].(refs := d.bufs[b].refs + 1)]), true) else (d, false)
  }

  /** userfs_file_close */
  function Close(d: Dir, name: Name): (x: (Dir, bool))
    requires |d.hash.buckets| == |d.hash.counts| > 0
  {
    var o := Get(d.hash, name);
    if |name| > MAX_NAME || o.None? || o.value.loc.OnDisk? || o.value.loc.buf !in d.bufs then (d, false)
    else
      var b := o.value.loc.buf;
      var refs := d.bufs[b].refs - 1;
      var d1 := d.(bufs := d.bufs[b := d.bufs[b].(refs := refs)]);
      if refs > 0 then (d1, true)
      else (d1.(hash := Change(d.hash, name, Some(OnDisk(d.bufs[b].block)), None).0), true)
  }

  /**
   userfs_file_delete, as far as the directory is concerned. An entry with a position outside the table, which
   no indexed name has, is refused here where the program would read beyond the table.
   */
  function Delete(d: Dir, name: Name): (x: (Dir, bool))
    requires RingOk(d.ring) && |d.hash.buckets| == |d.hash.counts| > 0
  {
    if |name| > MAX_NAME then (d, false)
    else
      var (h1, o) := Remove(d.hash, name);
      if o.None? then (d, false)
      else if o.value.pos >= |d.ring.slots| || d.ring.used == 0 then (d.(hash := h1), false)
      else
        var (r1, moved) := FreeDentry(d.ring, o.value.pos);
        if !moved then (d.(ring := r1, hash := h1), true)
        else
          var (h2, ok) := Change(h1, r1.slots[o.value.pos].name, None, Some(o.value.pos));
          (d.(ring := r1, hash := h2), ok)
  }

  // ---------------------------------------------------------------------------------------------
  // The invariant

  /** The dentry at `p` is indexed under its name, at its position, by an entry that leads to its block. */
  predicate Indexed(d: Dir, p: nat)
    requires p < |d.ring.slots| && |d.hash.buckets| > 0
  {
    var e := d.ring.slots[p];
    var o := Lookup(d.hash, e.name);
    o.Some? && o.value.pos == p && BlockOf(d, o.value.loc) == Some(e.block)
  }

  /** An indexed name is the name of the dentry at the position stored. */
  predicate Points(d: Dir, m: Name)
    requires |d.hash.buckets| > 0
  {
    var o := Lookup(d.hash, m);
    o.Some? ==> InArc(d.ring, o.value.pos) && d.ring.slots[o.value.pos].name == m
  }

  /** The index holds exactly the names in the used arc, each with the position of its dentry. */
  ghost predicate Agrees(d: Dir)
    requires |d.hash.buckets| > 0
  {
    && (forall p: nat {:trigger Indexed(d, p)} :: InArc(d.ring, p) ==> Indexed(d, p))
    && (forall m: Name {:trigger Points(d, m)} :: Points(d, m))
  }

  ghost predicate NamesIn(t: Table, names: iset<Name>)
    requires |t.buckets| > 0
  {
    forall m: Name {:trigger Lookup(t, m)} :: Lookup(t, m).Some? ==> m in names
  }

  ghost predicate Inv(d: Dir, names: iset<Name>) {
    RingOk(d.ring) && Wf(d.hash) && Agrees(d) && NamesIn(d.hash, names) && PrefixFree(names)
  }

  lemma Plain(t: Table, names: iset<Name>, name: Name)
    requires Wf(t) && NamesIn(t, names) && PrefixFree(names) && name in names
    ensures Unshadowed(Chain(t, name), name) && Get(t, name) == Lookup(t, name)
  {
    var b := Bucket(name, |t.buckets|);
    forall i | 0 <= i < |t.buckets[b]| ensures t.buckets[b][i].name in names {
      LookupNamed(t, b, i);
    }
    PrefixFreeUnshadowed(Chain(t, name), name, names);
    GetIsLookupIff(t, name);
  }

  // ---------------------------------------------------------------------------------------------
  // Every successful operation keeps the invariant

  lemma CreatedKeeps(d: Dir, names: iset<Name>, name: Name, block: nat, buf: nat)
    requires Inv(d, names) && name in names && buf !in d.bufs && |name| <= MAX_NAME
    requires d.ring.used < |d.ring.slots| && Lookup(d.hash, name).None?
    ensures var (d', out) := Create(d, name, Some((block, buf))); out == Created && Inv(d', names)
  {
    var (d', out) := Create(d, name, Some((block, buf)));
    var o := Obj(name, InMemory(buf), d.ring.free);
    ArcPush(d.ring);
    Plain(d.hash, names, name);
    InsertActs(d.hash, o);
    forall p: nat | InArc(d'.ring, p) ensures Indexed(d', p) {
      if p != d.ring.free {
        assert Indexed(d, p);
        assert Lookup(d'.hash, d.ring.slots[p].name) == Lookup(d.hash, d.ring.slots[p].name);
      }
    }
    forall m: Name ensures Points(d', m) {
      assert Points(d, m);
      assert Lookup(d'.hash, m) == if m == name then Some(o) else Lookup(d.hash, m);
    }
  }

  /** Positions and names of a directory whose index changed only where entries lead. */
  lemma RelocatedKeeps(d: Dir, d': Dir, names: iset<Name>)
    requires Inv(d, names) && d'.ring == d.ring && Wf(d'.hash)
    requires forall m: Name {:trigger Lookup(d'.hash, m)} ::
      && Lookup(d'.hash, m).Some? == Lookup(d.hash, m).Some?
      && (Lookup(d.hash, m).Some? ==> Lookup(d'.hash, m).value.pos == Lookup(d.hash, m).value.pos)
    requires forall m: Name {:trigger Lookup(d'.hash, m)} :: Lookup(d.hash, m).Some? ==>
      BlockOf(d', Lookup(d'.hash, m).value.loc) == BlockOf(d, Lookup(d.hash, m).value.loc)
    ensures Inv(d', names)
  {
    forall p: nat | InArc(d'.ring, p) ensures Indexed(d', p) {
      assert Indexed(d, p);
      assert Lookup(d'.hash, d.ring.slots[p].name).Some?;
    }
    forall m: Name ensures Points(d', m) {
      assert Points(d, m);
      assert Lookup(d'.hash, m).Some? == Lookup(d.hash, m).Some?;
    }
  }

  lemma OpenKeeps(d: Dir, names: iset<Name>, name: Name, buf: nat)
    requires Inv(d, names) && name in names && buf !in d.bufs
    ensures Inv(Open(d, name, buf).0, names)
    ensures |name| <= MAX_NAME ==> (Open(d, name, buf).1 <==> Lookup(d.hash, name).Some?)
  {
    var (d', ok) := Open(d, name, buf);
    Plain(d.hash, names, name);
    var o := Lookup(d.hash, name);
    if o.Some? {
      assert Points(d, name);
      assert Indexed(d, o.value.pos);
      if ok && o.value.loc.OnDisk? {
        ChangeActs(d.hash, name, Some(InMemory(buf)), None);
      }
      if ok {
        AllLead(d, names);
        RelocatedKeeps(d, d', names);
      }
    }
  }

  /** Every entry leads to a block: the buffers of open files are known. */
  lemma AllLead(d: Dir, names: iset<Name>)
    requires Inv(d, names)
    ensures forall m: Name {:trigger Lookup(d.hash, m)} :: Lookup(d.hash, m).Some? ==>
      BlockOf(d, Lookup(d.hash, m).value.loc).Some?
  {
    forall m: Name | Lookup(d.hash, m).Some? ensures BlockOf(d, Lookup(d.hash, m).value.loc).Some? {
      assert Points(d, m);
      assert Indexed(d, Lookup(d.hash, m).value.pos);
    }
  }

  lemma CloseKeeps(d: Dir, names: iset<Name>, name: Name)
    requires Inv(d, names) && name in names
    ensures Inv(Close(d, name).0, names)
  {
    var (d', ok) := Close(d, name);
    Plain(d.hash, names, name);
    if ok {
      var b := Lookup(d.hash, name).value.loc.buf;
      ChangeActs(d.hash, name, Some(OnDisk(d.bufs[b].block)), None);
      AllLead(d, names);
      RelocatedKeeps(d, d', names);
    }
  }

  function At(o: Option<Obj>, q: nat): (x: Option<Obj>) {
    if o.Some? then Some(o.value.(pos := q)) else None
  }

  /** The index after a delete: the name is gone, and the first dentry, if moved, is known at its new place. */
  ghost predicate Deleted(d: Dir, d': Dir, name: Name, q: nat)
    requires |d.hash.buckets| > 0 && d.ring.first < |d.ring.slots|
  {
    && Wf(d'.hash) && d'.bufs == d.bufs
    && forall m: Name {:trigger Lookup(d'.hash, m)} :: Lookup(d'.hash, m) ==
         if m == name then None
         else if q != d.ring.first && m == d.ring.slots[d.ring.first].name then At(Lookup(d.hash, m), q)
         else Lookup(d.hash, m)
  }

  lemma DeleteActs(d: Dir, names: iset<Name>, name: Name, q: nat)
    requires Inv(d, names) && name in names && |name| <= MAX_NAME
    requires Lookup(d.hash, name).Some? && Lookup(d.hash, name).value.pos == q
    ensures InArc(d.ring, q) && d.ring.slots[q].name == name
    ensures Delete(d, name).1 && Delete(d, name).0.ring == FreeDentry(d.ring, q).0
    ensures Deleted(d, Delete(d, name).0, name, q)
  {
    Plain(d.hash, names, name);
    RemoveActs(d.hash, name);
    var h1 := Remove(d.hash, name).0;
    assert Points(d, name);
    ArcPop(d.ring, q);
    if q != d.ring.first {
      var f := d.ring.slots[d.ring.first].name;
      assert Indexed(d, d.ring.first);
      assert Lookup(h1, f) == Lookup(d.hash, f);
      Plain(h1, names, f);
      ChangeActs(h1, f, None, Some(q));
    }
  }

  lemma DeletedIndexed(d: Dir, d': Dir, name: Name, q: nat, p: nat)
    requires |d.hash.buckets| > 0 && RingOk(d.ring) && Agrees(d) && InArc(d.ring, q) && d.ring.slots[q].name == name
    requires d'.ring == FreeDentry(d.ring, q).0 && Deleted(d, d', name, q) && InArc(d'.ring, p)
    ensures Indexed(d', p)
  {
    ArcPop(d.ring, q);
    var was := if p == q then d.ring.first else p;
    assert Indexed(d, d.ring.first) && Indexed(d, q) && Indexed(d, was);
    assert d'.ring.slots[p] == d.ring.slots[was];
  }

  lemma DeletedPoints(d: Dir, d': Dir, name: Name, q: nat, m: Name)
    requires |d.hash.buckets| > 0 && RingOk(d.ring) && Agrees(d) && InArc(d.ring, q) && d.ring.slots[q].name == name
    requires d'.ring == FreeDentry(d.ring, q).0 && Deleted(d, d', name, q)
    ensures Points(d', m) && (Lookup(d'.hash, m).Some? ==> Lookup(d.hash, m).Some?)
  {
    ArcPop(d.ring, q);
    assert Indexed(d, d.ring.first) && Indexed(d, q) && Points(d, m);
  }

  lemma DeletedKeeps(d: Dir, d': Dir, names: iset<Name>, name: Name, q: nat)
    requires Inv(d, names) && InArc(d.ring, q) && d.ring.slots[q].name == name
    requires d'.ring == FreeDentry(d.ring, q).0 && Deleted(d, d', name, q)
    ensures Inv(d', names)
  {
    ArcPop(d.ring, q);
    forall p: nat | InArc(d'.ring, p) ensures Indexed(d', p) {
      DeletedIndexed(d, d', name, q, p);
    }
    forall m: Name ensures Points(d', m) && (Lookup(d'.hash, m).Some? ==> Lookup(d.hash, m).Some?) {
      DeletedPoints(d, d', name, q, m);
    }
  }

  lemma DeleteKeeps(d: Dir, names: iset<Name>, name: Name)
    requires Inv(d, names) && name in names && |name| <= MAX_NAME && Lookup(d.hash, name).Some?
    ensures Inv(Delete(d, name).0, names) && Delete(d, name).1
    ensures Lookup(Delete(d, name).0.hash, name).None?
  {
    var q := Lookup(d.hash, name).value.pos;
    DeleteActs(d, names, name, q);
    DeletedKeeps(d, Delete(d, name).0, names, name, q);
  }

  lemma DeleteAbsent(d: Dir, names: iset<Name>, name: Name)
    requires Inv(d, names) && name in names && (|name| > MAX_NAME || Lookup(d.hash, name).None?)
    ensures Delete(d, name) == (d, false)
  {
    Plain(d.hash, names, name);
  }

  // ---------------------------------------------------------------------------------------------
  // A create that fails after taking a dentry

  /** The same dentries are in use, but the first one stands where the free one was. */
  ghost predicate FirstMoved(r: Ring, r': Ring)
    requires RingOk(r)
  {
    && RingOk(r') && |r'.slots| == |r.slots| && r'.used == r.used
    && (r.used > 0 ==> forall p: nat {:trigger InArc(r', p)} ::
          && (InArc(r', p) <==> (InArc(r, p) && p != r.first) || p == r.free)
          && (InArc(r', p) ==> r'.slots[p] == r.slots[if p == r.free then r.first else p]))
  }

  /** Freeing the dentry just taken drops it, but moves the first dentry into its place. */
  lemma TakeBack(r: Ring, e: Dentry)
    requires RingOk(r) && r.used < |r.slots|
    ensures var r1 := AllocDentry(r).0; var r2 := r1.(slots := r1.slots[r.free := e]);
      RingOk(r2) && InArc(r2, r.free) && FirstMoved(r, FreeDentry(r2, r.free).0)
    ensures r.used > 0 ==> InArc(r, r.first) && r.free != r.first
  {
    ArcPush(r);
    var r1 := AllocDentry(r).0;
    var r2 := r1.(slots := r1.slots[r.free := e]);
    assert forall p: nat :: InArc(r2, p) <==> InArc(r1, p);
    ArcPop(r2, r.free);
  }

  /** The dentries in use. */
  ghost function Used(r: Ring): (es: iset<Dentry>) {
    iset p: nat | InArc(r, p) :: r.slots[p]
  }

  lemma SameUsed(r: Ring, r': Ring)
    requires RingOk(r) && FirstMoved(r, r') && (r.used > 0 ==> InArc(r, r.first) && r.free != r.first)
    ensures Used(r') == Used(r)
  {
    if r.used > 0 {
      forall p: nat | InArc(r, p) ensures r.slots[p] in Used(r') {
        assert InArc(r', if p == r.first then r.free else p);
      }
      forall p: nat | InArc(r', p) ensures r'.slots[p] in Used(r) {
        assert InArc(r, if p == r.free then r.first else p);
      }
    }
  }

  /**
   A create that fails after taking a dentry leaves the index, the buffers and the dentries in use as they were; only
   the place of the first dentry may differ.
   */
  lemma FailedCreateKeeps(d: Dir, name: Name, inode: Option<(nat, nat)>)
    requires RingOk(d.ring) && |d.hash.buckets| == |d.hash.counts| > 0
    ensures var (d', out) := Create(d, name, inode);
      && (out == TooLong || out == TableFull ==> d' == d)
      && (out == NoInode || out == Exists ==>
            d'.hash == d.hash && d'.bufs == d.bufs && FirstMoved(d.ring, d'.ring) && Used(d'.ring) == Used(d.ring))
  {
    if |name| <= MAX_NAME && d.ring.used < |d.ring.slots| {
      var (d', out) := Create(d, name, inode);
      if out == NoInode || out == Exists {
        var e := if inode.None? then d.ring.slots[d.ring.free] else Dentry(inode.value.0, name);
        var r1 := AllocDentry(d.ring).0;
        assert inode.None? ==> r1.(slots := r1.slots[d.ring.free := e]) == r1;
        TakeBack(d.ring, e);
        SameUsed(d.ring, d'.ring);
      }
    }
  }

  lemma LostFirst(d: Dir, d': Dir, names: iset<Name>)
    requires Inv(d, names) && d'.hash == d.hash && d'.bufs == d.bufs && FirstMoved(d.ring, d'.ring)
    requires d.ring.used > 0 ==> d.ring.free != d.ring.first
    ensures Inv(d', names) <==> d.ring.used == 0
  {
    if d.ring.used > 0 {
      assert InArc(d.ring, d.ring.first);
      assert Indexed(d, d.ring.first);
      assert !Points(d', d.ring.slots[d.ring.first].name);
    } else {
      forall m: Name ensures Points(d', m) {
        assert Points(d, m);
      }
    }
  }

  /**
   A create keeps the directory and its index in agreement exactly when it stops before it takes a dentry, when
   the directory is empty, or when an inode is to be had and the name is new. The other failures displace the
   first dentry without telling the index.
   */
  lemma CreateKeepsIff(d: Dir, names: iset<Name>, name: Name, inode: Option<(nat, nat)>)
    requires Inv(d, names) && name in names && (inode.Some? ==> inode.value.1 !in d.bufs)
    ensures Inv(Create(d, name, inode).0, names) <==>
      || |name| > MAX_NAME || d.ring.used == |d.ring.slots| || d.ring.used == 0
      || (inode.Some? && Lookup(d.hash, name).None?)
  {
    var d' := Create(d, name, inode).0;
    if |name| <= MAX_NAME && d.ring.used < |d.ring.slots| {
      Plain(d.hash, names, name);
      if inode.None? {
        var r1 := AllocDentry(d.ring).0;
        TakeBack(d.ring, d.ring.slots[d.ring.free]);
        assert r1.slots[d.ring.free := d.ring.slots[d.ring.free]] == r1.slots;
        LostFirst(d, d', names);
      } else {
        var (block, buf) := inode.value;
        InsertActs(d.hash, Obj(name, InMemory(buf), d.ring.free));
        if Lookup(d.hash, name).None? {
          CreatedKeeps(d, names, name, block, buf);
        } else {
          TakeBack(d.ring, Dentry(block, name));
          LostFirst(d, d', names);
        }
      }
    }
  }

  /** Creating a name that exists therefore always breaks the agreement. */
  lemma CreateExistingBreaks(d: Dir, names: iset<Name>, name: Name, block: nat, buf: nat)
    requires Inv(d, names) && name in names && |name| <= MAX_NAME && buf !in d.bufs
    requires Lookup(d.hash, name).Some? && d.ring.used < |d.ring.slots|
    ensures var (d', out) := Create(d, name, Some((block, buf))); out == Exists && !Inv(d', names)
  {
    assert Points(d, name);
    Plain(d.hash, names, name);
    InsertActs(d.hash, Obj(name, InMemory(buf), d.ring.free));
    CreateKeepsIff(d, names, name, Some((block, buf)));
  }

  // ---------------------------------------------------------------------------------------------
  // The directory refines a map from names to files

  datatype File = File(block: nat, opens: int)

  datatype Event =
    | Creating(name: Name, inode: Option<(nat, nat)>)
    | Opening(name: Name, buf: nat)
    | Closing(name: Name)
    | Deleting(name: Name)

  function Step(d: Dir, e: Event): (x: (Dir, bool))
    requires RingOk(d.ring) && |d.hash.buckets| == |d.hash.counts| > 0
  {
    match e
    case Creating(name, inode) => var (d', out) := Create(d, name, inode); (d', out.Created?)
    case Opening(name, buf) => Open(d, name, buf)
    case Closing(name) => Close(d, name)
    case Deleting(name) => Delete(d, name)
  }

  /** What the same event does to a map with room for `cap` names. */
  function MapStep(m: map<Name, File>, cap: nat, e: Event): (x: (map<Name, File>, bool)) {
    if |e.name| > MAX_NAME then (m, false)
    else if e.Creating? then
      if |m| >= cap || e.inode.None? then (m, false) else (m[e.name := File(e.inode.value.0, 1)], true)
    else if e.name !in m then (m, false)
    else match e
      case Opening(name, _) => (m[name := m[name].(opens := m[name].opens + 1)], true)
      case Closing(name) => if m[name].opens == 0 then (m, false) else (m[name := m[name].(opens := m[name].opens - 1)], true)
      case Deleting(name) => (m - {name}, true)
  }

  /** A name is indexed exactly when the map has it, by its block while closed and by a counted buffer while open. */
  predicate Stands(d: Dir, m: map<Name, File>, n: Name)
    requires |d.hash.buckets| > 0
  {
    var o := Lookup(d.hash, n);
    && (o.Some? <==> n in m)
    && (o.Some? ==> match o.value.loc
          case OnDisk(block) => m[n] == File(block, 0)
          case InMemory(b) => b in d.bufs && m[n] == File(d.bufs[b].block, d.bufs[b].refs) && d.bufs[b].refs > 0)
  }

  predicate Uses(d: Dir, n: Name, b: nat)
    requires |d.hash.buckets| > 0
  {
    Lookup(d.hash, n).Some? && Lookup(d.hash, n).value.loc == InMemory(b)
  }

  /** No two names share a buffer. */
  ghost predicate OwnBuffers(d: Dir)
    requires |d.hash.buckets| > 0
  {
    forall n1: Name, n2: Name, b: nat {:trigger Uses(d, n1, b), Uses(d, n2, b)} ::
      Uses(d, n1, b) && Uses(d, n2, b) ==> n1 == n2
  }

  ghost predicate StandsFor(d: Dir, m: map<Name, File>)
    requires |d.hash.buckets| > 0
  {
    |m| == d.ring.used && OwnBuffers(d) && forall n: Name {:trigger Stands(d, m, n)} :: Stands(d, m, n)
  }

  /** What an event's caller can see to: its name is in use, a buffer is fresh, and a create meets CreateKeepsIff. */
  ghost predicate Allowed(d: Dir, names: iset<Name>, e: Event)
    requires |d.hash.buckets| > 0
  {
    && e.name in names
    && (e.Opening? ==> e.buf !in d.bufs)
    && (e.Creating? && e.inode.Some? ==> e.inode.value.1 !in d.bufs)
    && (e.Creating? ==> |e.name| > MAX_NAME || d.ring.used == |d.ring.slots| || d.ring.used == 0
                        || (e.inode.Some? && Lookup(d.hash, e.name).None?))
  }

  lemma CreateStands(d: Dir, names: iset<Name>, m: map<Name, File>, name: Name, block: nat, buf: nat)
    requires Inv(d, names) && StandsFor(d, m) && name in names && buf !in d.bufs && |name| <= MAX_NAME
    requires d.ring.used < |d.ring.slots| && Lookup(d.hash, name).None?
    ensures var (d', out) := Create(d, name, Some((block, buf)));
      && out == Created && |d'.hash.buckets| > 0 && StandsFor(d', m[name := File(block, 1)])
  {
    var d' := Create(d, name, Some((block, buf))).0;
    var m' := m[name := File(block, 1)];
    Plain(d.hash, names, name);
    InsertActs(d.hash, Obj(name, InMemory(buf), d.ring.free));
    assert Stands(d, m, name);
    forall n: Name ensures Stands(d', m', n) {
      assert Stands(d, m, n);
    }
    forall n1: Name, n2: Name, b: nat | Uses(d', n1, b) && Uses(d', n2, b) ensures n1 == n2 {
      assert Stands(d, m, n1) && Stands(d, m, n2);
      assert n1 != name ==> Uses(d, n1, b);
      assert n2 != name ==> Uses(d, n2, b);
    }
  }

  /** One name's entry and count changed, in a buffer of its own. */
  lemma CountStands(d: Dir, d': Dir, m: map<Name, File>, name: Name, f: File, b: nat)
    requires |d.hash.buckets| > 0 && |d'.hash.buckets| > 0 && StandsFor(d, m) && name in m && d'.ring == d.ring
    requires Uses(d, name, b) || b !in d.bufs
    requires forall n: Name {:trigger Lookup(d'.hash, n)} :: n != name ==> Lookup(d'.hash, n) == Lookup(d.hash, n)
    requires b in d'.bufs && d'.bufs == d.bufs[b := d'.bufs[b]]
    requires Stands(d', m[name := f], name)
    requires forall x: nat {:trigger Uses(d', name, x)} :: Uses(d', name, x) ==> x == b
    ensures StandsFor(d', m[name := f])
  {
    var m' := m[name := f];
    assert m'.Keys == m.Keys && |m'| == |m| by {
      assert |m.Keys| == |m| && |m'.Keys| == |m'|;
    }
    forall n: Name | n != name && Lookup(d.hash, n).Some? && Lookup(d.hash, n).value.loc.InMemory?
      ensures Lookup(d.hash, n).value.loc.buf != b
    {
      assert Stands(d, m, n);
      assert Uses(d, n, Lookup(d.hash, n).value.loc.buf);
    }
    forall n: Name ensures Stands(d', m', n) {
      if n != name {
        assert Stands(d, m, n);
      }
    }
    forall n1: Name, n2: Name, x: nat | Uses(d', n1, x) && Uses(d', n2, x) ensures n1 == n2 {
      assert n1 != name ==> Uses(d, n1, x);
      assert n2 != name ==> Uses(d, n2, x);
    }
  }

  lemma OpenStands(d: Dir, names: iset<Name>, m: map<Name, File>, name: Name, buf: nat)
    requires Inv(d, names) && StandsFor(d, m) && name in names && buf !in d.bufs
    ensures var (d', ok) := Open(d, name, buf); var (m', ok') := MapStep(m, |d.ring.slots|, Opening(name, buf));
      ok == ok' && |d'.hash.buckets| > 0 && StandsFor(d', m')
  {
    var d' := Open(d, name, buf).0;
    Plain(d.hash, names, name);
    assert Stands(d, m, name);
    if |name| <= MAX_NAME && name in m {
      var o := Lookup(d.hash, name).value;
      var b := if o.loc.OnDisk? then buf else o.loc.buf;
      ChangeActs(d.hash, name, Some(InMemory(buf)), None);
      CountStands(d, d', m, name, m[name].(opens := m[name].opens + 1), b);
    }
  }

  lemma CloseStands(d: Dir, names: iset<Name>, m: map<Name, File>, name: Name)
    requires Inv(d, names) && StandsFor(d, m) && name in names
    ensures var (d', ok) := Close(d, name); var (m', ok') := MapStep(m, |d.ring.slots|, Closing(name));
      ok == ok' && |d'.hash.buckets| > 0 && StandsFor(d', m')
  {
    var d' := Close(d, name).0;
    Plain(d.hash, names, name);
    assert Stands(d, m, name);
    if |name| <= MAX_NAME && name in m && m[name].opens != 0 {
      var b := Lookup(d.hash, name).value.loc.buf;
      assert Uses(d, name, b);
      ChangeActs(d.hash, name, Some(OnDisk(d.bufs[b].block)), None);
      CountStands(d, d', m, name, m[name].(opens := m[name].opens - 1), b);
    }
  }

  lemma DeleteStands(d: Dir, names: iset<Name>, m: map<Name, File>, name: Name)
    requires Inv(d, names) && StandsFor(d, m) && name in names
    ensures var (d', ok) := Delete(d, name); var (m', ok') := MapStep(m, |d.ring.slots|, Deleting(name));
      ok == ok' && |d'.hash.buckets| > 0 && StandsFor(d', m')
  {
    assert Stands(d, m, name);
    if |name| > MAX_NAME || name !in m {
      DeleteAbsent(d, names, name);
    } else {
      var q := Lookup(d.hash, name).value.pos;
      DeleteActs(d, names, name, q);
      DeletedStands(d, Delete(d, name).0, m, name, q);
    }
  }

  lemma DeletedStands(d: Dir, d': Dir, m: map<Name, File>, name: Name, q: nat)
    requires |d.hash.buckets| > 0 && RingOk(d.ring) && InArc(d.ring, q) && StandsFor(d, m) && name in m
    requires d'.ring == FreeDentry(d.ring, q).0 && Deleted(d, d', name, q)
    ensures StandsFor(d', m - {name})
  {
    var m' := m - {name};
    assert |m'| == |m| - 1 by {
      assert m'.Keys == m.Keys - {name} && |m.Keys| == |m| && |m'.Keys| == |m'|;
    }
    ArcPop(d.ring, q);
    forall n: Name ensures Stands(d', m', n) {
      assert Stands(d, m, n);
    }
    forall n1: Name, n2: Name, b: nat | Uses(d', n1, b) && Uses(d', n2, b) ensures n1 == n2 {
      assert Uses(d, n1, b) && Uses(d, n2, b);
    }
  }

  lemma CreateRefines(d: Dir, names: iset<Name>, m: map<Name, File>, name: Name, inode: Option<(nat, nat)>)
    requires Inv(d, names) && StandsFor(d, m) && Allowed(d, names, Creating(name, inode))
    ensures var (d', out) := Create(d, name, inode); var (m', ok) := MapStep(m, |d.ring.slots|, Creating(name, inode));
      out.Created? == ok && |d'.hash.buckets| > 0 && StandsFor(d', m')
  {
    if |name| <= MAX_NAME && d.ring.used < |d.ring.slots| {
      if inode.Some? {
        EmptyHasNone(d, name);
        CreateStands(d, names, m, name, inode.value.0, inode.value.1);
      } else {
        TakeBack(d.ring, d.ring.slots[d.ring.free]);
        var r1 := AllocDentry(d.ring).0;
        assert r1.slots[d.ring.free := d.ring.slots[d.ring.free]] == r1.slots;
        SameStands(d, Create(d, name, inode).0, m);
      }
    }
  }

  lemma DeleteInv(d: Dir, names: iset<Name>, name: Name)
    requires Inv(d, names) && name in names
    ensures Inv(Delete(d, name).0, names)
  {
    if |name| > MAX_NAME || Lookup(d.hash, name).None? {
      DeleteAbsent(d, names, name);
    } else {
      DeleteKeeps(d, names, name);
    }
  }

  lemma StepKeepsInv(d: Dir, names: iset<Name>, e: Event)
    requires Inv(d, names) && Allowed(d, names, e)
    ensures Inv(Step(d, e).0, names)
  {
    match e {
      case Creating(name, inode) => CreateKeepsIff(d, names, name, inode);
      case Opening(name, buf) => OpenKeeps(d, names, name, buf);
      case Closing(name) => CloseKeeps(d, names, name);
      case Deleting(name) => DeleteInv(d, names, name);
    }
  }

  lemma StepKeepsSlots(d: Dir, e: Event)
    requires RingOk(d.ring) && |d.hash.buckets| == |d.hash.counts| > 0
    ensures |Step(d, e).0.ring.slots| == |d.ring.slots|
  {
  }

  lemma StepRefines(d: Dir, names: iset<Name>, m: map<Name, File>, e: Event)
    requires Inv(d, names) && StandsFor(d, m) && Allowed(d, names, e)
    ensures var (d', ok) := Step(d, e); var (m', ok') := MapStep(m, |d.ring.slots|, e);
      |d'.hash.buckets| > 0 && ok == ok' && StandsFor(d', m')
  {
    match e {
      case Creating(name, inode) => CreateRefines(d, names, m, name, inode);
      case Opening(name, buf) => OpenStands(d, names, m, name, buf);
      case Closing(name) => CloseStands(d, names, m, name);
      case Deleting(name) => DeleteStands(d, names, m, name);
    }
  }

  lemma EmptyHasNone(d: Dir, name: Name)
    requires |d.hash.buckets| > 0 && RingOk(d.ring) && Agrees(d)
    ensures d.ring.used == 0 ==> Lookup(d.hash, name).None?
  {
    assert Points(d, name);
  }

  lemma SameStands(d: Dir, d': Dir, m: map<Name, File>)
    requires |d.hash.buckets| > 0 && StandsFor(d, m)
    requires d'.hash == d.hash && d'.bufs == d.bufs && d'.ring.used == d.ring.used
    ensures StandsFor(d', m)
  {
    forall n: Name ensures Stands(d', m, n) {
      assert Stands(d, m, n);
    }
    forall n1: Name, n2: Name, b: nat | Uses(d', n1, b) && Uses(d', n2, b) ensures n1 == n2 {
      assert Uses(d, n1, b) && Uses(d, n2, b);
    }
  }

  // ---------------------------------------------------------------------------------------------
  // Runs

  /** The states and answers of a run of events from `d`, every event allowed where it happens. */
  ghost predicate IsRun(d: Dir, names: iset<Name>, es: seq<Event>)
    decreases |es|
  {
    es == [] ||
    (&& RingOk(d.ring) && |d.hash.buckets| == |d.hash.counts| > 0 && Allowed(d, names, es[0])
     && IsRun(Step(d, es[0]).0, names, es[1..]))
  }

  function Run(d: Dir, es: seq<Event>): (x: (Dir, seq<bool>))
    decreases |es|
  {
    if es == [] || !RingOk(d.ring) || !(|d.hash.buckets| == |d.hash.counts| > 0) then (d, [])
    else
      var (d1, ok) := Step(d, es[0]);
      var (d2, oks) := Run(d1, es[1..]);
      (d2, [ok] + oks)
  }

  function MapRun(m: map<Name, File>, cap: nat, es: seq<Event>): (x: (map<Name, File>, seq<bool>))
    decreases |es|
  {
    if es == [] then (m, [])
    else
      var (m1, ok) := MapStep(m, cap, es[0]);
      var (m2, oks) := MapRun(m1, cap, es[1..]);
      (m2, [ok] + oks)
  }

  /** Every run keeps dentry ring and index in agreement and answers as the map of files does. */
  lemma {:induction false} RunRefines(d: Dir, names: iset<Name>, m: map<Name, File>, es: seq<Event>)
    requires Inv(d, names) && StandsFor(d, m) && IsRun(d, names, es)
    ensures var (d', oks) := Run(d, es); var (m', oks') := MapRun(m, |d.ring.slots|, es);
      Inv(d', names) && StandsFor(d', m') && oks == oks'
    decreases |es|
  {
    if es != [] {
      StepKeepsInv(d, names, es[0]);
      StepKeepsSlots(d, es[0]);
      StepRefines(d, names, m, es[0]);
      RunRefines(Step(d, es[0]).0, names, MapStep(m, |d.ring.slots|, es[0]).0, es[1..]);
    }
  }

  // ---------------------------------------------------------------------------------------------
  // Mount

  /** The entry mount makes of the k-th used dentry. */
  function EntryAt(r: Ring, k: nat): (o: Obj)
    requires r.first < |r.slots| && k < |r.slots|
  {
    var p := Pos(r, k);
    Obj(r.slots[p].name, OnDisk(r.slots[p].block), p)
  }

  /** The index mount builds from the first `k` dentries of the ring; it gives up when an insertion is refused. */
  function Rebuilt(r: Ring, n: nat, held: int, k: nat): (x: Option<Table>)
    requires n > 0 && r.first < |r.slots| && k <= r.used <= |r.slots|
    ensures x.Some? ==> |x.value.buckets| == |x.value.counts| == n
  {
    if k == 0 then Some(Empty(n, held))
    else
      var x := Rebuilt(r, n, held, k - 1);
      if x.None? then None
      else
        var (t, ok) := Insert(x.value, EntryAt(r, k - 1));
        if ok then Some(t) else None
  }

  ghost predicate AllClosed(d: Dir)
    requires |d.hash.buckets| > 0
  {
    forall m: Name {:trigger Lookup(d.hash, m)} :: Lookup(d.hash, m).Some? ==> Lookup(d.hash, m).value.loc.OnDisk?
  }

  function Below(d: Dir, m: Name, k: nat): (o: Option<Obj>)
    requires |d.hash.buckets| > 0
  {
    var o := Lookup(d.hash, m);
    if o.Some? && Offset(d.ring, o.value.pos) < k then o else None
  }

  /** The k-th dentry's entry is the one the index has, and it alone is added by looking one dentry further. */
  ghost predicate Fits(d: Dir, names: iset<Name>, k: nat)
    requires |d.hash.buckets| > 0 && d.ring.first < |d.ring.slots| && k < |d.ring.slots|
  {
    var o := EntryAt(d.ring, k);
    && o.name in names && Below(d, o.name, k) == None
    && forall m: Name {:trigger Below(d, m, k)} ::
         Below(d, m, k + 1) == if m == o.name then Some(o) else Below(d, m, k)
  }

  lemma ClosedFits(d: Dir, names: iset<Name>, k: nat)
    requires Inv(d, names) && AllClosed(d) && k < d.ring.used
    ensures Fits(d, names, k)
  {
    var o := EntryAt(d.ring, k);
    assert Indexed(d, o.pos);
    assert Lookup(d.hash, o.name) == Some(o);
    forall m: Name ensures Below(d, m, k + 1) == if m == o.name then Some(o) else Below(d, m, k) {
      assert Points(d, m);
    }
  }

  /** The table holds exactly the entries of the first `k` dentries. */
  ghost predicate Holds(t: Table, d: Dir, k: nat)
    requires |d.hash.buckets| > 0
  {
    Wf(t) && forall m: Name {:trigger Lookup(t, m)} :: Lookup(t, m) == Below(d, m, k)
  }

  lemma RebuiltNone(d: Dir, names: iset<Name>, n: nat, held: int)
    requires Inv(d, names) && n > 0
    ensures Holds(Empty(n, held), d, 0)
  {
    EmptyWf(n, held);
    forall m: Name ensures Below(d, m, 0) == None {
      assert Points(d, m);
    }
  }

  lemma RebuiltNext(t: Table, d: Dir, names: iset<Name>, k: nat)
    requires |d.hash.buckets| > 0 && d.ring.first < |d.ring.slots| && k < |d.ring.slots|
    requires PrefixFree(names) && NamesIn(d.hash, names) && Holds(t, d, k) && Fits(d, names, k)
    ensures var (t', ok) := Insert(t, EntryAt(d.ring, k)); ok && Holds(t', d, k + 1)
  {
    Plain(t, names, EntryAt(d.ring, k).name);
    InsertActs(t, EntryAt(d.ring, k));
  }

  lemma RebuiltUnfolds(r: Ring, n: nat, held: int, k: nat)
    requires n > 0 && r.first < |r.slots| && k < r.used <= |r.slots|
    requires Rebuilt(r, n, held, k).Some? && Insert(Rebuilt(r, n, held, k).value, EntryAt(r, k)).1
    ensures Rebuilt(r, n, held, k + 1) == Some(Insert(Rebuilt(r, n, held, k).value, EntryAt(r, k)).0)
  {
  }

  lemma {:induction false} RebuiltHolds(d: Dir, names: iset<Name>, n: nat, held: int, k: nat)
    requires |d.hash.buckets| > 0 && d.ring.first < |d.ring.slots| && k <= d.ring.used <= |d.ring.slots| && n > 0
    requires PrefixFree(names) && NamesIn(d.hash, names) && Holds(Empty(n, held), d, 0)
    requires forall j: nat {:trigger Fits(d, names, j)} :: j < k ==> Fits(d, names, j)
    ensures Rebuilt(d.ring, n, held, k).Some? && Holds(Rebuilt(d.ring, n, held, k).value, d, k)
  {
    if k > 0 {
      var j: nat := k - 1;
      RebuiltHolds(d, names, n, held, j);
      assert Fits(d, names, j);
      RebuiltNext(Rebuilt(d.ring, n, held, j).value, d, names, j);
      RebuiltUnfolds(d.ring, n, held, j);
    }
  }

  /**
   Once every file is closed, mount succeeds and the index it rebuilds from the ring is, as a map, the index that
   creates and deletes maintained, whatever the number of buckets; the mounted directory stands for the same files.
   */
  lemma MountRebuilds(d: Dir, names: iset<Name>, m: map<Name, File>, n: nat, held: int)
    requires Inv(d, names) && StandsFor(d, m) && AllClosed(d) && n > 0
    ensures Rebuilt(d.ring, n, held, d.ring.used).Some?
    ensures var t := Rebuilt(d.ring, n, held, d.ring.used).value;
      && (forall x: Name {:trigger Lookup(t, x)} :: Lookup(t, x) == Lookup(d.hash, x))
      && Inv(Dir(d.ring, t, map[]), names) && StandsFor(Dir(d.ring, t, map[]), m)
  {
    RebuiltNone(d, names, n, held);
    forall j: nat | j < d.ring.used ensures Fits(d, names, j) {
      ClosedFits(d, names, j);
    }
    RebuiltHolds(d, names, n, held, d.ring.used);
    var t := Rebuilt(d.ring, n, held, d.ring.used).value;
    forall x: Name ensures Lookup(t, x) == Lookup(d.hash, x) {
      assert Points(d, x);
    }
    var d' := Dir(d.ring, t, map[]);
    RelocatedKeeps(d, d', names);
    forall x: Name ensures Stands(d', m, x) {
      assert Stands(d, m, x);
    }
  }

  /** The index a failed create should have left: the first dentry is known at its new place. */
  lemma MovedInv(d: Dir, d': Dir, names: iset<Name>, f: Name)
    requires Inv(d, names) && InArc(d.ring, d.ring.first) && d.ring.slots[d.ring.first].name == f && d.ring.used > 0
    requires FirstMoved(d.ring, d'.ring) && d.ring.free != d.ring.first && !InArc(d.ring, d.ring.free)
    requires Wf(d'.hash) && d'.bufs == d.bufs
    requires forall x: Name {:trigger Lookup(d'.hash, x)} ::
      Lookup(d'.hash, x) == if x == f then At(Lookup(d.hash, x), d.ring.free) else Lookup(d.hash, x)
    ensures Inv(d', names)
  {
    assert Indexed(d, d.ring.first);
    forall p: nat | InArc(d'.ring, p) ensures Indexed(d', p) {
      var was := if p == d.ring.free then d.ring.first else p;
      assert InArc(d.ring, was) && d'.ring.slots[p] == d.ring.slots[was];
      assert Indexed(d, was);
    }
    forall x: Name ensures Points(d', x) && (Lookup(d'.hash, x).Some? ==> x in names) {
      assert Points(d, x);
      if x == f {
        assert InArc(d'.ring, d.ring.free);
      } else if Lookup(d.hash, x).Some? {
        assert InArc(d'.ring, Lookup(d.hash, x).value.pos);
      }
    }
  }

  lemma MovedStands(d: Dir, d': Dir, m: map<Name, File>, f: Name, q: nat)
    requires |d.hash.buckets| > 0 && StandsFor(d, m) && AllClosed(d) && |d'.hash.buckets| > 0
    requires d'.ring.used == d.ring.used && d'.bufs == d.bufs
    requires forall x: Name {:trigger Lookup(d'.hash, x)} ::
      Lookup(d'.hash, x) == if x == f then At(Lookup(d.hash, x), q) else Lookup(d.hash, x)
    ensures StandsFor(d', m) && AllClosed(d')
  {
    forall x: Name ensures Stands(d', m, x) {
      assert Stands(d, m, x);
    }
  }

  /**
   Although a failed create leaves index and ring at odds, the files are safe on disk: with all files closed, the
   index mounted from the ring it leaves stands for the same map of files.
   */
  lemma FailedCreateMounts(d: Dir, names: iset<Name>, m: map<Name, File>, name: Name, inode: Option<(nat, nat)>,
                           n: nat, held: int)
    requires Inv(d, names) && StandsFor(d, m) && AllClosed(d) && n > 0 && !Create(d, name, inode).1.Created?
    ensures var r := Create(d, name, inode).0.ring;
      && RingOk(r) && Rebuilt(r, n, held, r.used).Some?
      && var t := Rebuilt(r, n, held, r.used).value; Inv(Dir(r, t, map[]), names) && StandsFor(Dir(r, t, map[]), m)
  {
    var (d1, out) := Create(d, name, inode);
    FailedCreateKeeps(d, name, inode);
    if out == TooLong || out == TableFull || d.ring.used == 0 {
      if out == NoInode || out == Exists {
        EmptiedInv(d, d1, names);
        SameStands(d, d1, m);
      }
      MountRebuilds(d1, names, m, n, held);
    } else {
      var q, f := d.ring.free, d.ring.slots[d.ring.first].name;
      TakeBack(d.ring, d.ring.slots[q]);
      ArcPush(d.ring);
      assert Indexed(d, d.ring.first);
      Plain(d.hash, names, f);
      ChangeActs(d.hash, f, None, Some(q));
      var d2 := Dir(d1.ring, Change(d.hash, f, None, Some(q)).0, d.bufs);
      MovedInv(d, d2, names, f);
      MovedStands(d, d2, m, f, q);
      MountRebuilds(d2, names, m, n, held);
    }
  }

  lemma EmptiedInv(d: Dir, d': Dir, names: iset<Name>)
    requires Inv(d, names) && d.ring.used == 0
    requires d'.hash == d.hash && d'.bufs == d.bufs && RingOk(d'.ring) && d'.ring.used == 0
    ensures Inv(d', names)
  {
    forall x: Name ensures Points(d', x) {
      assert Points(d, x);
    }
  }

  /** A freshly formatted dentry table with an empty index. */
  lemma FreshStands(slots: seq<Dentry>, n: nat, held: int, names: iset<Name>)
    requires |slots| > 0 && n > 0 && PrefixFree(names)
    ensures var d := Dir(Ring(slots, 0, 0, 0), Empty(n, held), map[]); Inv(d, names) && StandsFor(d, map[])
  {
    EmptyWf(n, held);
    var d := Dir(Ring(slots, 0, 0, 0), Empty(n, held), map[]);
    forall x: Name ensures Lookup(d.hash, x).None? {
    }
    assert Agrees(d);
    forall x: Name ensures Stands(d, map[], x) {
    }
  }

  /** From a fresh format, every run answers as the map of files does, and unmounting and mounting keeps the files. */
  lemma FormatRunMount(slots: seq<Dentry>, n: nat, held: int, names: iset<Name>, es: seq<Event>)
    requires |slots| > 0 && n > 0 && PrefixFree(names)
    requires IsRun(Dir(Ring(slots, 0, 0, 0), Empty(n, held), map[]), names, es)
    ensures var (d, oks) := Run(Dir(Ring(slots, 0, 0, 0), Empty(n, held), map[]), es);
      var (m, oks') := MapRun(map[], |slots|, es);
      && oks == oks' && Inv(d, names) && StandsFor(d, m)
      && (AllClosed(d) ==>
            && Rebuilt(d.ring, n, held, d.ring.used).Some?
            && StandsFor(Dir(d.ring, Rebuilt(d.ring, n, held, d.ring.used).value, map[]), m))
  {
    FreshStands(slots, n, held, names);
    var d0 := Dir(Ring(slots, 0, 0, 0), Empty(n, held), map[]);
    RunRefines(d0, names, map[], es);
    var d := Run(d0, es).0;
    if AllClosed(d) {
      MountRebuilds(d, names, MapRun(map[], |slots|, es).0, n, held);
    }
  }
}
