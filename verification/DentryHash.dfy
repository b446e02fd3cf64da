/**
 The chained hash table from file names to inodes (userfs/userfs_dentry_hash.c and its header). Lookups compare
 only as many characters as the query has, so a query also matches any stored name it is a prefix of.
 */
module DentryHash {
  import opened Common

  /** A character of a C string. */
  type Char = x: int | 0 < x < 256 witness 1
  type Name = seq<Char>

  const MAX_NAME: nat := 27

  // ---------------------------------------------------------------------------------------------
  // Hashing

  /** Bitwise and. */
  function And(a: nat, b: nat): (r: nat)
    ensures r <= a && r <= b && (r % 2 == 1 <==> a % 2 == 1 && b % 2 == 1)
    decreases a
  {
    if a == 0 then 0 else 2 * And(a / 2, b / 2) + if a % 2 == 1 && b % 2 == 1 then 1 else 0
  }

  /** Bitwise exclusive or. */
  function Xor(a: nat, b: nat): (r: nat)
    decreases a + b
  {
    if a == 0 && b == 0 then 0 else 2 * Xor(a / 2, b / 2) + if a % 2 == b % 2 then 0 else 1
  }

  /** One turn of str2hash_u32: the next hash0. */
  function HashStep(hash0: nat, hash1: nat, c: Char): (h: nat)
    ensures h < WORD
  {
    var h := (hash1 + Xor(hash0, c * 7152373)) % WORD;
    if h >= 0x8000_0000 then h - 0x7fff_ffff else h
  }

  function HashFrom(hash0: nat, hash1: nat, name: Name): (h: nat)
    decreases name
  {
    if name == [] then hash0 else HashFrom(HashStep(hash0, hash1, name[0]), hash0, name[1..])
  }

  /** str2hash_u32 */
  function Hash(name: Name): (h: nat) {
    HashFrom(0x12a3fe2d, 0x37abe8f9, name) * 2 % WORD
  }

  function Bucket(name: Name, n: nat): (b: nat)
    requires n > 0
    ensures b < n
  {
    And(Hash(name), n - 1)
  }

  /** The final shift makes every hash even, so no name ever lands in an odd bucket. */
  lemma OddBucketsUnused(name: Name, n: nat)
    requires n > 0
    ensures Bucket(name, n) % 2 == 0
  {
  }

  // ---------------------------------------------------------------------------------------------
  // Tagged addresses

  /** What an entry leads to: the inode's block on disk, or its buffer while the file is open. */
  datatype Loc = OnDisk(block: nat) | InMemory(buf: nat)

  const TOP: nat := 0x8000_0000_0000_0000
  const NOT_FOUND: nat := 0xFFFF_FFFF

  /** USERFS_INODEADDRINFO_CAL on a 64-bit address; or-ing the tag into a set top bit changes nothing. */
  function Tagged(open: bool, addr: nat): (w: nat) {
    if open && addr < TOP then TOP + addr else addr
  }

  function TypeOf(w: nat): (open: bool) {
    w / TOP != 0
  }

  function AddrOf(w: nat): (addr: nat) {
    w % TOP
  }

  /** Type and address come back exactly when the address leaves the top bit clear. */
  lemma TagRoundTrip(open: bool, addr: nat)
    requires addr < 2 * TOP
    ensures TypeOf(Tagged(open, addr)) == open && AddrOf(Tagged(open, addr)) == addr <==> addr < TOP
    ensures addr < TOP && Tagged(open, addr) == NOT_FOUND ==> !open && addr == NOT_FOUND
    ensures Tagged(open, addr) < 2 * TOP
  {
  }

  // ---------------------------------------------------------------------------------------------
  // The table

  datatype Obj = Obj(name: Name, loc: Loc, pos: nat)

  /**
   `counts` are the buckets' reference counts and `total` the table's object count; `held` is history, what the object
   count held when the table was allocated.
   */
  datatype Table = Table(buckets: seq<seq<Obj>>, counts: seq<int>, total: int, held: int)

  /** strncmp(stored, query, |query|) == 0 */
  predicate Matches(query: Name, stored: Name) {
    query <= stored
  }

  /** The first entry of a chain that a query matches, or the chain's length. */
  function Find(chain: seq<Obj>, query: Name): (i: nat)
    ensures i <= |chain| && (i < |chain| ==> Matches(query, chain[i].name))
    ensures forall k :: 0 <= k < i ==> !Matches(query, chain[k].name)
  {
    if chain == [] || Matches(query, chain[0].name) then 0 else 1 + Find(chain[1..], query)
  }

  function Chain(t: Table, name: Name): (c: seq<Obj>)
    requires |t.buckets| > 0
  {
    t.buckets[Bucket(name, |t.buckets|)]
  }

  /** userfs_dentry_hash_create; its atomic_store adds 0 to whatever the object count held. */
  function Empty(n: nat, held: int): (t: Table) {
    Table(seq(n, _ => []), seq(n, _ => 0), held, held)
  }

  /** userfs_dentry_hash_get */
  function Get(t: Table, name: Name): (r: Option<Obj>)
    requires |t.buckets| > 0
  {
    var c := Chain(t, name);
    var i := Find(c, name);
    if i < |c| then Some(c[i]) else None
  }

  /** A bucket's chain replaced; `d` entries more. */
  function WithChain(t: Table, b: nat, c: seq<Obj>, d: int): (t': Table)
    requires b < |t.buckets| == |t.counts|
  {
    Table(t.buckets[b := c], t.counts[b := t.counts[b] + d], t.total + d, t.held)
  }

  /** userfs_dentry_hash_insert; refused when the name matches an entry already. */
  function Insert(t: Table, o: Obj): (r: (Table, bool))
    requires |t.buckets| == |t.counts| > 0
  {
    var c := Chain(t, o.name);
    if Find(c, o.name) < |c| then (t, false)
    else (WithChain(t, Bucket(o.name, |t.buckets|), [o] + c, 1), true)
  }

  /** userfs_dentry_hash_update and userfs_dentry_hash_update_dentrypos on the entry matched. */
  function Change(t: Table, name: Name, loc: Option<Loc>, pos: Option<nat>): (r: (Table, bool))
    requires |t.buckets| == |t.counts| > 0
  {
    var c := Chain(t, name);
    var i := Find(c, name);
    if i == |c| then (t, false)
    else
      var o := Obj(c[i].name, if loc.Some? then loc.value else c[i].loc, if pos.Some? then pos.value else c[i].pos);
      (WithChain(t, Bucket(name, |t.buckets|), c[i := o], 0), true)
  }

  /** userfs_dentry_hash_remove */
  function Remove(t: Table, name: Name): (r: (Table, Option<Obj>))
    requires |t.buckets| == |t.counts| > 0
  {
    var c := Chain(t, name);
    var i := Find(c, name);
    if i == |c| then (t, None)
    else (WithChain(t, Bucket(name, |t.buckets|), c[..i] + c[i + 1..], -1), Some(c[i]))
  }

  // ---------------------------------------------------------------------------------------------
  // The map the table stands for

  /** The entry stored under exactly this name. */
  function ExactIn(chain: seq<Obj>, name: Name): (r: Option<Obj>)
    ensures r.Some? ==> r.value in chain && r.value.name == name
    ensures r.None? ==> forall k :: 0 <= k < |chain| ==> chain[k].name != name
  {
    if chain == [] then None else if chain[0].name == name then Some(chain[0]) else ExactIn(chain[1..], name)
  }

  function Lookup(t: Table, name: Name): (r: Option<Obj>)
    requires |t.buckets| > 0
  {
    ExactIn(Chain(t, name), name)
  }

  function Lengths(buckets: seq<seq<Obj>>): (n: nat) {
    if buckets == [] then 0 else Lengths(buckets[..|buckets| - 1]) + |buckets[|buckets| - 1]|
  }

  predicate DistinctNames(c: seq<Obj>) {
    forall i, j :: 0 <= i < j < |c| ==> c[i].name != c[j].name
  }

  /** Every entry is in its bucket, no name is stored twice, and the counters count. */
  predicate BucketOk(t: Table, b: nat)
    requires b < |t.buckets| == |t.counts|
  {
    && DistinctNames(t.buckets[b]) && t.counts[b] == |t.buckets[b]|
    && (forall i :: 0 <= i < |t.buckets[b]| ==> Bucket(t.buckets[b][i].name, |t.buckets|) == b)
  }

  predicate Wf(t: Table) {
    && |t.buckets| == |t.counts| > 0 && t.total == t.held + Lengths(t.buckets)
    && forall b {:trigger BucketOk(t, b)} :: 0 <= b < |t.buckets| ==> BucketOk(t, b)
  }

  /** No proper extension of the name stands before it in its chain, or anywhere when it is absent. */
  predicate Unshadowed(chain: seq<Obj>, name: Name) {
    chain == [] || chain[0].name == name || (!Matches(name, chain[0].name) && Unshadowed(chain[1..], name))
  }

  lemma {:induction false} FindIsExact(chain: seq<Obj>, name: Name)
    requires DistinctNames(chain)
    ensures var i := Find(chain, name);
      Unshadowed(chain, name) <==> ExactIn(chain, name) == if i < |chain| then Some(chain[i]) else None
  {
    if chain != [] && !Matches(name, chain[0].name) {
      FindIsExact(chain[1..], name);
    }
  }

  /** A lookup finds exactly what is stored under the name if and only if the name is not shadowed. */
  lemma GetIsLookupIff(t: Table, name: Name)
    requires Wf(t)
    ensures Get(t, name) == Lookup(t, name) <==> Unshadowed(Chain(t, name), name)
  {
    assert BucketOk(t, Bucket(name, |t.buckets|));
    FindIsExact(Chain(t, name), name);
  }

  // ---------------------------------------------------------------------------------------------
  // Every operation acts on that map

  lemma {:induction false} ExactAt(c: seq<Obj>, i: nat)
    requires DistinctNames(c) && i < |c|
    ensures ExactIn(c, c[i].name) == Some(c[i])
  {
    if i > 0 {
      assert c[0].name != c[i].name;
      ExactAt(c[1..], i - 1);
    }
  }

  /** Two chains with the same entry, or none, under a name. */
  lemma ExactSame(c: seq<Obj>, c': seq<Obj>, m: Name)
    requires DistinctNames(c) && DistinctNames(c')
    requires forall o: Obj :: o.name == m ==> (o in c <==> o in c')
    ensures ExactIn(c, m) == ExactIn(c', m)
  {
    if ExactIn(c, m).Some? {
      var o := ExactIn(c, m).value;
      var j :| 0 <= j < |c'| && c'[j] == o;
      ExactAt(c', j);
    }
  }

  lemma {:induction false} LengthsUpdate(buckets: seq<seq<Obj>>, b: nat, c: seq<Obj>)
    requires b < |buckets|
    ensures Lengths(buckets[b := c]) == Lengths(buckets) - |buckets[b]| + |c|
  {
    var k := |buckets| - 1;
    if b < k {
      assert buckets[b := c][..k] == buckets[..k][b := c];
      LengthsUpdate(buckets[..k], b, c);
    } else {
      assert buckets[b := c][..k] == buckets[..k];
    }
  }

  /** Replacing one chain by a good one keeps the table good and every other bucket's lookups. */
  lemma WithChainOk(t: Table, b: nat, c: seq<Obj>, d: int)
    requires Wf(t) && b < |t.buckets| && DistinctNames(c) && |c| == |t.buckets[b]| + d
    requires forall i :: 0 <= i < |c| ==> Bucket(c[i].name, |t.buckets|) == b
    ensures Wf(WithChain(t, b, c, d))
    ensures forall m: Name {:trigger Lookup(WithChain(t, b, c, d), m)} ::
      Lookup(WithChain(t, b, c, d), m) == if Bucket(m, |t.buckets|) == b then ExactIn(c, m) else Lookup(t, m)
  {
    var t' := WithChain(t, b, c, d);
    LengthsUpdate(t.buckets, b, c);
    assert BucketOk(t, b);
    forall x | 0 <= x < |t'.buckets| ensures BucketOk(t', x) {
      assert BucketOk(t, x);
      if x != b {
        assert t'.buckets[x] == t.buckets[x] && t'.counts[x] == t.counts[x];
      }
    }
    forall m: Name
      ensures Lookup(t', m) == if Bucket(m, |t.buckets|) == b then ExactIn(c, m) else Lookup(t, m)
    {
      assert |t'.buckets| == |t.buckets|;
    }
  }

  /** Insertion of an unshadowed name: refused exactly when it is stored, else it adds that one entry. */
  lemma InsertActs(t: Table, o: Obj)
    requires Wf(t) && Unshadowed(Chain(t, o.name), o.name)
    ensures var (t', ok) := Insert(t, o);
      && Wf(t') && |t'.buckets| == |t.buckets| && (ok <==> Lookup(t, o.name).None?) && (!ok ==> t' == t)
      && (ok ==> forall m: Name {:trigger Lookup(t', m)} ::
            Lookup(t', m) == if m == o.name then Some(o) else Lookup(t, m))
  {
    GetIsLookupIff(t, o.name);
    var b := Bucket(o.name, |t.buckets|);
    var c := t.buckets[b];
    assert BucketOk(t, b);
    if Find(c, o.name) == |c| {
      WithChainOk(t, b, [o] + c, 1);
    }
  }

  /** Updates of an unshadowed name: refused exactly when it is not stored, else they change that entry only. */
  lemma ChangeActs(t: Table, name: Name, loc: Option<Loc>, pos: Option<nat>)
    requires Wf(t) && Unshadowed(Chain(t, name), name)
    ensures var (t', ok) := Change(t, name, loc, pos); var was := Lookup(t, name);
      && Wf(t') && |t'.buckets| == |t.buckets| && (ok <==> was.Some?) && (!ok ==> t' == t)
      && (ok ==> forall m: Name {:trigger Lookup(t', m)} ::
            Lookup(t', m) ==
              if m != name then Lookup(t, m)
              else Some(Obj(name, if loc.Some? then loc.value else was.value.loc,
                            if pos.Some? then pos.value else was.value.pos)))
  {
    GetIsLookupIff(t, name);
    var b := Bucket(name, |t.buckets|);
    var c := t.buckets[b];
    var i := Find(c, name);
    assert BucketOk(t, b);
    if i < |c| {
      var o := Obj(c[i].name, if loc.Some? then loc.value else c[i].loc, if pos.Some? then pos.value else c[i].pos);
      var c' := c[i := o];
      WithChainOk(t, b, c', 0);
      forall m: Name ensures ExactIn(c', m) == if m == name then Some(o) else ExactIn(c, m) {
        if m == name {
          ExactAt(c', i);
        } else {
          forall x: Obj | x.name == m ensures x in c <==> x in c' {
            Elsewhere(c, i, o, x);
          }
          ExactSame(c, c', m);
        }
      }
    }
  }

  lemma Elsewhere(c: seq<Obj>, i: nat, o: Obj, x: Obj)
    requires i < |c| && x != o && x != c[i]
    ensures x in c <==> x in c[i := o]
  {
    forall k | 0 <= k < |c| && c[k] == x ensures x in c[i := o] {
      assert c[i := o][k] == x;
    }
  }

  /** Removal of an unshadowed name: it returns what was stored and forgets that entry only. */
  lemma RemoveActs(t: Table, name: Name)
    requires Wf(t) && Unshadowed(Chain(t, name), name)
    ensures var (t', r) := Remove(t, name);
      && Wf(t') && |t'.buckets| == |t.buckets| && r == Lookup(t, name) && (r.None? ==> t' == t)
      && (r.Some? ==> forall m: Name {:trigger Lookup(t', m)} ::
            Lookup(t', m) == if m == name then None else Lookup(t, m))
  {
    GetIsLookupIff(t, name);
    var b := Bucket(name, |t.buckets|);
    var c := t.buckets[b];
    var i := Find(c, name);
    assert BucketOk(t, b);
    if i < |c| {
      var c' := c[..i] + c[i + 1..];
      forall m: Name ensures ExactIn(c', m) == if m == name then None else ExactIn(c, m) {
        ExactWithout(c, i, m);
      }
      assert forall k :: 0 <= k < |c'| ==> c'[k] == c[if k < i then k else k + 1];
      WithChainOk(t, b, c', -1);
    }
  }

  lemma ExactWithout(c: seq<Obj>, i: nat, m: Name)
    requires DistinctNames(c) && i < |c|
    ensures ExactIn(c[..i] + c[i + 1..], m) == if m == c[i].name then None else ExactIn(c, m)
  {
    var c' := c[..i] + c[i + 1..];
    assert c == c[..i] + [c[i]] + c[i + 1..];
    if m != c[i].name {
      forall x: Obj | x.name == m ensures x in c <==> x in c' {
      }
      ExactSame(c, c', m);
    }
  }

  // ---------------------------------------------------------------------------------------------
  // Names that are not prefixes of each other

  ghost predicate PrefixFree(names: iset<Name>) {
    forall a, b :: a in names && b in names && Matches(a, b) ==> a == b
  }

  /** Among prefix-free names nothing is shadowed. */
  lemma {:induction false} PrefixFreeUnshadowed(chain: seq<Obj>, name: Name, names: iset<Name>)
    requires PrefixFree(names) && name in names && forall i :: 0 <= i < |chain| ==> chain[i].name in names
    ensures Unshadowed(chain, name)
  {
    if chain != [] {
      PrefixFreeUnshadowed(chain[1..], name, names);
    }
  }

  /** One bucket, "ab" stored: a lookup of "a" finds it, and "a" cannot be inserted. */
  lemma PrefixConfuses(o: Obj, held: int)
    requires o.name == [97, 98]
    ensures var t := Insert(Empty(1, held), o).0;
      Wf(t) && Lookup(t, [97]).None? && Get(t, [97]) == Some(o) && !Insert(t, Obj([97], o.loc, o.pos)).1
  {
    InsertActs(Empty(1, held), o);
  }

  // ---------------------------------------------------------------------------------------------
  // Whole runs against a finite map

  datatype Op = Put(obj: Obj) | Edit(name: Name, loc: Option<Loc>, pos: Option<nat>) | Look(name: Name) | Drop(name: Name)

  function KeyOf(op: Op): (name: Name) {
    match op
    case Put(o) => o.name
    case Edit(name, _, _) => name
    case Look(name) => name
    case Drop(name) => name
  }

  /** The table's operation; the result is the entry found or, for a successful insertion, nothing. */
  function TableStep(t: Table, op: Op): (r: (Table, bool, Option<Obj>))
    requires |t.buckets| == |t.counts| > 0
  {
    match op
    case Put(o) => var (t', ok) := Insert(t, o); (t', ok, None)
    case Edit(name, loc, pos) => var (t', ok) := Change(t, name, loc, pos); (t', ok, None)
    case Look(name) => (t, Get(t, name).Some?, Get(t, name))
    case Drop(name) => var (t', o) := Remove(t, name); (t', o.Some?, o)
  }

  /** The same operation on a map. */
  function MapStep(m: map<Name, Obj>, op: Op): (r: (map<Name, Obj>, bool, Option<Obj>)) {
    var k := KeyOf(op);
    var found := if k in m then Some(m[k]) else None;
    match op
    case Put(o) => if k in m then (m, false, None) else (m[k := o], true, None)
    case Edit(_, loc, pos) =>
      if k !in m then (m, false, None)
      else (m[k := Obj(k, if loc.Some? then loc.value else m[k].loc, if pos.Some? then pos.value else m[k].pos)], true, None)
    case Look(_) => (m, k in m, found)
    case Drop(_) => (m - {k}, k in m, found)
  }

  ghost predicate StandsFor(t: Table, m: map<Name, Obj>)
    requires |t.buckets| > 0
  {
    forall n: Name {:trigger Lookup(t, n)} :: Lookup(t, n) == if n in m then Some(m[n]) else None
  }

  lemma LookupNamed(t: Table, b: nat, i: nat)
    requires Wf(t) && b < |t.buckets| && i < |t.buckets[b]|
    ensures Lookup(t, t.buckets[b][i].name) == Some(t.buckets[b][i])
  {
    assert BucketOk(t, b);
    ExactAt(t.buckets[b], i);
  }

  lemma KeysWithin(t: Table, m: map<Name, Obj>, names: iset<Name>, name: Name)
    requires Wf(t) && StandsFor(t, m) && PrefixFree(names) && name in names && forall n :: n in m ==> n in names
    ensures Unshadowed(Chain(t, name), name)
  {
    var b := Bucket(name, |t.buckets|);
    forall i | 0 <= i < |t.buckets[b]| ensures t.buckets[b][i].name in names {
      LookupNamed(t, b, i);
    }
    PrefixFreeUnshadowed(Chain(t, name), name, names);
  }

  lemma StepRefines(t: Table, m: map<Name, Obj>, names: iset<Name>, op: Op)
    requires Wf(t) && StandsFor(t, m) && PrefixFree(names) && KeyOf(op) in names && forall n :: n in m ==> n in names
    ensures var (t', ok, o) := TableStep(t, op); var (m', ok', o') := MapStep(m, op);
      Wf(t') && StandsFor(t', m') && ok == ok' && o == o' && forall n :: n in m' ==> n in names
  {
    var k := KeyOf(op);
    KeysWithin(t, m, names, k);
    assert Lookup(t, k) == if k in m then Some(m[k]) else None;
    match op
    case Put(o) => InsertActs(t, o);
    case Edit(name, loc, pos) => ChangeActs(t, name, loc, pos);
    case Look(name) => GetIsLookupIff(t, name);
    case Drop(name) => RemoveActs(t, name);
  }

  ghost predicate TableRun(ts: seq<Table>, ops: seq<Op>) {
    && |ts| == |ops| + 1
    && forall k :: 0 <= k < |ops| ==> |ts[k].buckets| == |ts[k].counts| > 0 && ts[k + 1] == TableStep(ts[k], ops[k]).0
  }

  ghost predicate MapRun(ms: seq<map<Name, Obj>>, ops: seq<Op>) {
    |ms| == |ops| + 1 && forall k :: 0 <= k < |ops| ==> ms[k + 1] == MapStep(ms[k], ops[k]).0
  }

  /**
   Over every run of insertions, updates, lookups and removals of prefix-free names, the table stands for the
   map the same run produces, every call answers as the map would, and the counters stay right.
   */
  lemma {:induction false} RefinesMap(ts: seq<Table>, ms: seq<map<Name, Obj>>, ops: seq<Op>, names: iset<Name>, k: nat)
    requires TableRun(ts, ops) && MapRun(ms, ops) && k <= |ops|
    requires Wf(ts[0]) && StandsFor(ts[0], ms[0]) && forall n :: n in ms[0] ==> n in names
    requires PrefixFree(names) && forall j :: 0 <= j < |ops| ==> KeyOf(ops[j]) in names
    ensures Wf(ts[k]) && StandsFor(ts[k], ms[k]) && forall n :: n in ms[k] ==> n in names
    ensures ts[k].held == ts[0].held
    ensures k < |ops| ==> TableStep(ts[k], ops[k]).1 == MapStep(ms[k], ops[k]).1
    ensures k < |ops| ==> TableStep(ts[k], ops[k]).2 == MapStep(ms[k], ops[k]).2
  {
    if k > 0 {
      RefinesMap(ts, ms, ops, names, k - 1);
      StepRefines(ts[k - 1], ms[k - 1], names, ops[k - 1]);
      assert ts[k - 1 + 1] == TableStep(ts[k - 1], ops[k - 1]).0 && ms[k - 1 + 1] == MapStep(ms[k - 1], ops[k - 1]).0;
    }
    if k < |ops| {
      StepRefines(ts[k], ms[k], names, ops[k]);
    }
  }

  /** From a new table, the object count is right after every such run if the allocation held 0, and else never. */
  lemma CountRightIff(ts: seq<Table>, ms: seq<map<Name, Obj>>, ops: seq<Op>, names: iset<Name>, n: nat, held: int, k: nat)
    requires TableRun(ts, ops) && MapRun(ms, ops) && k <= |ops| && n > 0 && ts[0] == Empty(n, held) && ms[0] == map[]
    requires PrefixFree(names) && forall j :: 0 <= j < |ops| ==> KeyOf(ops[j]) in names
    ensures ts[k].total == Lengths(ts[k].buckets) <==> held == 0
  {
    EmptyWf(n, held);
    RefinesMap(ts, ms, ops, names, k);
  }

  lemma EmptyWf(n: nat, held: int)
    requires n > 0
    ensures Wf(Empty(n, held)) && StandsFor(Empty(n, held), map[])
  {
    LengthsZero(Empty(n, held).buckets);
  }

  lemma {:induction false} LengthsZero(buckets: seq<seq<Obj>>)
    requires forall b :: 0 <= b < |buckets| ==> buckets[b] == []
    ensures Lengths(buckets) == 0
  {
    if buckets != [] {
      LengthsZero(buckets[..|buckets| - 1]);
    }
  }
}
