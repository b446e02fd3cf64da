/**
 The dentry hash table in memory (userfs/userfs_dentry_hash.c): each bucket points to the first node of its conflict
 list, each node to the next. The operations walk and relink the nodes; they are proved to be those of module
 DentryHash on the chains that the links spell.
 */
module HashNodes {
  import opened Common
  import opened DentryHash

  const NULL: nat := 0

  datatype Node = Node(next: nat, obj: Obj)

  function HeadOf(list: seq<nat>, k: nat): (a: nat) {
    if k < |list| then list[k] else NULL
  }

  /** From `start` the links lead through the nodes of `list`, which hold `chain`. */
  predicate Threads(nodes: map<nat, Node>, start: nat, list: seq<nat>, chain: seq<Obj>) {
    && |list| == |chain| && start == HeadOf(list, 0)
    && forall k {:trigger list[k]} :: 0 <= k < |list| ==>
         list[k] != NULL && list[k] in nodes && nodes[list[k]] == Node(HeadOf(list, k + 1), chain[k])
  }

  /** And they are different nodes, all of bucket `b`. */
  predicate ListOk(nodes: map<nat, Node>, start: nat, list: seq<nat>, chain: seq<Obj>, owner: map<nat, nat>, b: nat) {
    && Threads(nodes, start, list, chain) && Distinct(list)
    && forall k {:trigger list[k]} :: 0 <= k < |list| ==> list[k] in owner && owner[list[k]] == b
  }

  /** Nothing changes at the nodes of bucket `b`. */
  predicate SameNodes(nodes: map<nat, Node>, nodes': map<nat, Node>, owner: map<nat, nat>, owner': map<nat, nat>, b: nat) {
    forall a {:trigger owner[a]} :: a in nodes && a in owner && owner[a] == b ==>
      a in nodes' && nodes'[a] == nodes[a] && a in owner' && owner'[a] == b
  }

  lemma ListKept(nodes: map<nat, Node>, nodes': map<nat, Node>, start: nat, list: seq<nat>, chain: seq<Obj>,
                 owner: map<nat, nat>, owner': map<nat, nat>, b: nat)
    requires ListOk(nodes, start, list, chain, owner, b) && SameNodes(nodes, nodes', owner, owner', b)
    ensures ListOk(nodes', start, list, chain, owner', b)
  {
    forall k | 0 <= k < |list|
      ensures list[k] in nodes' && nodes'[list[k]] == nodes[list[k]] && list[k] in owner' && owner'[list[k]] == b
    {
      assert owner[list[k]] == b;
    }
  }

  /** A new node in front. */
  lemma ListPush(nodes: map<nat, Node>, start: nat, list: seq<nat>, chain: seq<Obj>, owner: map<nat, nat>, b: nat,
                 a: nat, o: Obj)
    requires ListOk(nodes, start, list, chain, owner, b) && a != NULL && a !in nodes
    ensures ListOk(nodes[a := Node(start, o)], a, [a] + list, [o] + chain, owner[a := b], b)
  {
    var list', nodes' := [a] + list, nodes[a := Node(start, o)];
    forall k | 0 <= k < |list'|
      ensures list'[k] in nodes' && nodes'[list'[k]] == Node(HeadOf(list', k + 1), ([o] + chain)[k])
      ensures list'[k] != NULL && list'[k] in owner[a := b] && owner[a := b][list'[k]] == b
    {
      if k > 0 {
        assert list'[k] == list[k - 1];
      }
    }
  }

  /** The i-th node's object changed. */
  lemma ListSet(nodes: map<nat, Node>, start: nat, list: seq<nat>, chain: seq<Obj>, owner: map<nat, nat>, b: nat,
                i: nat, o: Obj)
    requires ListOk(nodes, start, list, chain, owner, b) && i < |list|
    ensures list[i] in nodes
    ensures ListOk(nodes[list[i] := nodes[list[i]].(obj := o)], start, list, chain[i := o], owner, b)
  {
  }

  /** The memory after node `cur` behind `prev` is unlinked and freed. */
  function Unlinked(nodes: map<nat, Node>, prev: nat, cur: nat): (nodes': map<nat, Node>)
    requires cur in nodes && (prev != NULL ==> prev in nodes)
  {
    (if prev == NULL then nodes else nodes[prev := nodes[prev].(next := nodes[cur].next)]) - {cur}
  }

  function Before(list: seq<nat>, i: nat): (a: nat)
    requires i <= |list|
  {
    if i == 0 then NULL else list[i - 1]
  }

  function Without<T>(c: seq<T>, i: nat): (c': seq<T>)
    requires i < |c|
    ensures |c'| == |c| - 1 && forall k {:trigger c'[k]} :: 0 <= k < |c'| ==> c'[k] == c[if k < i then k else k + 1]
  {
    c[..i] + c[i + 1..]
  }

  lemma CutNode(nodes: map<nat, Node>, start: nat, list: seq<nat>, chain: seq<Obj>, i: nat, k: nat)
    requires Threads(nodes, start, list, chain) && Distinct(list) && i < |list| && k < |list| - 1
    ensures list[i] in nodes && (i > 0 ==> list[i - 1] in nodes)
    ensures var nodes', list' := Unlinked(nodes, Before(list, i), list[i]), Without(list, i);
      list'[k] in nodes' && nodes'[list'[k]] == Node(HeadOf(list', k + 1), Without(chain, i)[k])
  {
    var j := if k < i then k else k + 1;
    var list' := Without(list, i);
    assert list[i] != NULL && list[j] != list[i] && list'[k] == list[j];
    assert i > 0 ==> list[i - 1] != NULL;
    assert HeadOf(list', k + 1) == if k + 1 == i then HeadOf(list, i + 1) else HeadOf(list, j + 1);
  }

  lemma ListCut(nodes: map<nat, Node>, start: nat, list: seq<nat>, chain: seq<Obj>, owner: map<nat, nat>, b: nat, i: nat)
    requires ListOk(nodes, start, list, chain, owner, b) && i < |list|
    ensures list[i] in nodes && (i > 0 ==> list[i - 1] in nodes)
    ensures ListOk(Unlinked(nodes, Before(list, i), list[i]), if i == 0 then nodes[list[i]].next else start,
                   Without(list, i), Without(chain, i), owner, b)
  {
    assert list[i] != NULL && (i > 0 ==> list[i - 1] != NULL);
    var list' := Without(list, i);
    forall k | 0 <= k < |list'|
      ensures list'[k] in Unlinked(nodes, Before(list, i), list[i])
      ensures Unlinked(nodes, Before(list, i), list[i])[list'[k]] == Node(HeadOf(list', k + 1), Without(chain, i)[k])
    {
      CutNode(nodes, start, list, chain, i, k);
    }
  }

  // ---------------------------------------------------------------------------------------------
  // The memory as a whole

  /** `lists` and `owner` are history: the nodes of each bucket in order, and the bucket of each node. */
  datatype Mem = Mem(starts: seq<nat>, nodes: map<nat, Node>, brk: nat, lists: seq<seq<nat>>, owner: map<nat, nat>)

  predicate Spelled(m: Mem, buckets: seq<seq<Obj>>, b: nat)
    requires b < |buckets| == |m.starts| == |m.lists|
  {
    ListOk(m.nodes, m.starts[b], m.lists[b], buckets[b], m.owner, b)
  }

  /** The links spell the chains of `buckets`. */
  ghost predicate Spells(m: Mem, buckets: seq<seq<Obj>>) {
    && |buckets| == |m.starts| == |m.lists| && m.brk > 0
    && (forall a {:trigger a in m.nodes} :: a in m.nodes ==> 0 < a < m.brk && a in m.owner)
    && (forall b: nat {:trigger Spelled(m, buckets, b)} :: b < |buckets| ==> Spelled(m, buckets, b))
  }

  function Push(m: Mem, b: nat, o: Obj): (m': Mem)
    requires b < |m.starts| == |m.lists|
  {
    Mem(m.starts[b := m.brk], m.nodes[m.brk := Node(m.starts[b], o)], m.brk + 1, m.lists[b := [m.brk] + m.lists[b]],
        m.owner[m.brk := b])
  }

  lemma PushSpells(m: Mem, buckets: seq<seq<Obj>>, b: nat, o: Obj)
    requires Spells(m, buckets) && b < |buckets|
    ensures Spells(Push(m, b, o), buckets[b := [o] + buckets[b]])
  {
    var m', buckets' := Push(m, b, o), buckets[b := [o] + buckets[b]];
    forall x: nat | x < |buckets| ensures Spelled(m', buckets', x) {
      assert Spelled(m, buckets, x);
      if x == b {
        ListPush(m.nodes, m.starts[b], m.lists[b], buckets[b], m.owner, b, m.brk, o);
      } else {
        ListKept(m.nodes, m'.nodes, m.starts[x], m.lists[x], buckets[x], m.owner, m'.owner, x);
      }
    }
  }

  function Overwrite(m: Mem, cur: nat, o: Obj): (m': Mem)
    requires cur in m.nodes
  {
    m.(nodes := m.nodes[cur := m.nodes[cur].(obj := o)])
  }

  lemma OverwriteSpells(m: Mem, buckets: seq<seq<Obj>>, b: nat, i: nat, o: Obj)
    requires Spells(m, buckets) && b < |buckets| && i < |buckets[b]|
    ensures |m.lists[b]| == |buckets[b]| && m.lists[b][i] in m.nodes
    ensures Spells(Overwrite(m, m.lists[b][i], o), buckets[b := buckets[b][i := o]])
  {
    assert Spelled(m, buckets, b);
    ListSet(m.nodes, m.starts[b], m.lists[b], buckets[b], m.owner, b, i, o);
    var m', buckets' := Overwrite(m, m.lists[b][i], o), buckets[b := buckets[b][i := o]];
    forall x: nat | x < |buckets| ensures Spelled(m', buckets', x) {
      assert Spelled(m, buckets, x);
      if x != b {
        ListKept(m.nodes, m'.nodes, m.starts[x], m.lists[x], buckets[x], m.owner, m.owner, x);
      }
    }
  }

  function Cut(m: Mem, b: nat, i: nat): (m': Mem)
    requires b < |m.starts| == |m.lists| && i < |m.lists[b]| && m.lists[b][i] in m.nodes
    requires i > 0 ==> m.lists[b][i - 1] in m.nodes
  {
    var list := m.lists[b];
    Mem(if i == 0 then m.starts[b := m.nodes[list[i]].next] else m.starts, Unlinked(m.nodes, Before(list, i), list[i]), m.brk,
        m.lists[b := Without(list, i)], m.owner)
  }

  lemma CutSpells(m: Mem, buckets: seq<seq<Obj>>, b: nat, i: nat)
    requires Spells(m, buckets) && b < |buckets| && i < |buckets[b]|
    ensures |m.lists[b]| == |buckets[b]| && m.lists[b][i] in m.nodes && (i > 0 ==> m.lists[b][i - 1] in m.nodes)
    ensures Spells(Cut(m, b, i), buckets[b := Without(buckets[b], i)])
  {
    assert Spelled(m, buckets, b);
    var list := m.lists[b];
    ListCut(m.nodes, m.starts[b], list, buckets[b], m.owner, b, i);
    var m', buckets' := Cut(m, b, i), buckets[b := Without(buckets[b], i)];
    assert m.owner[list[i]] == b && (i > 0 ==> m.owner[list[i - 1]] == b && list[i - 1] != NULL);
    forall x: nat | x < |buckets| ensures Spelled(m', buckets', x) {
      assert Spelled(m, buckets, x);
      if x != b {
        ListKept(m.nodes, m'.nodes, m.starts[x], m.lists[x], buckets[x], m.owner, m.owner, x);
      }
    }
  }

  class LinkHash {
    const starts: array<nat>
    const counts: array<int>
    var total: int
    var nodes: map<nat, Node>
    var brk: nat

    ghost var lists: seq<seq<nat>>
    ghost var owner: map<nat, nat>

    ghost function Memory(): (m: Mem)
      reads this, starts
    {
      Mem(starts[..], nodes, brk, lists, owner)
    }

    ghost predicate Is(t: Table)
      reads this, starts, counts
    {
      starts as object != counts && counts[..] == t.counts && total == t.total && Spells(Memory(), t.buckets)
    }

    /** userfs_dentry_hash_create: the buckets are emptied, the object count keeps what it held. */
    constructor (n: nat, held: int)
      requires n > 0
      ensures Is(Empty(n, held)) && fresh(starts) && fresh(counts)
    {
      starts := new nat[n](_ => NULL);
      counts := new int[n](_ => 0);
      total, nodes, brk := held, map[], 1;
      lists, owner := seq(n, _ => []), map[];
    }

    /** str2hash_u32 reduced to a bucket. */
    method BucketOf(name: Name) returns (b: nat)
      requires starts.Length > 0
      ensures b == Bucket(name, starts.Length)
    {
      var hash0, hash1 := 0x12a3fe2d, 0x37abe8f9;
      for i := 0 to |name|
        invariant 0 <= hash0 && 0 <= hash1 && HashFrom(hash0, hash1, name[i..]) == HashFrom(0x12a3fe2d, 0x37abe8f9, name)
      {
        assert name[i..][0] == name[i] && name[i..][1..] == name[i + 1..];
        hash0, hash1 := HashStep(hash0, hash1, name[i]), hash0;
      }
      b := And(hash0 * 2 % WORD, starts.Length - 1);
    }

    /** The walk of every operation: the first node that matches and the one before it. */
    method Search(b: nat, name: Name, ghost t: Table) returns (prev: nat, cur: nat, ghost i: nat)
      requires Is(t) && b < starts.Length
      ensures i == Find(t.buckets[b], name) && |lists[b]| == |t.buckets[b]|
      ensures cur == HeadOf(lists[b], i) && prev == Before(lists[b], i)
      ensures cur == NULL <==> i == |t.buckets[b]|
    {
      assert Spelled(Memory(), t.buckets, b);
      ghost var c := t.buckets[b];
      prev, cur, i := NULL, starts[b], 0;
      assert c[0..] == c;
      while cur != NULL && !Matches(name, nodes[cur].obj.name)
        invariant i <= |c| && cur == HeadOf(lists[b], i) && prev == Before(lists[b], i)
        invariant cur != NULL ==> cur in nodes && nodes[cur].obj == c[i]
        invariant Find(c, name) == i + Find(c[i..], name)
        decreases |c| - i
      {
        assert c[i..][0] == c[i] && c[i..][1..] == c[i + 1..];
        assert nodes[lists[b][i]] == Node(HeadOf(lists[b], i + 1), c[i]);
        prev := cur;
        cur := nodes[cur].next;
        i := i + 1;
        assert i < |c| ==> lists[b][i] in nodes;
      }
    }

    method Lookup(name: Name, ghost t: Table) returns (r: Option<Obj>)
      requires Is(t) && |t.buckets| == |t.counts| > 0
      ensures r == Get(t, name)
    {
      var b := BucketOf(name);
      ghost var i;
      var prev, cur;
      prev, cur, i := Search(b, name, t);
      assert Spelled(Memory(), t.buckets, b);
      assert cur != NULL ==> lists[b][i] == cur;
      r := if cur == NULL then None else Some(nodes[cur].obj);
    }

    method Add(o: Obj, ghost t: Table) returns (ok: bool)
      requires Is(t) && |t.buckets| == |t.counts| > 0
      modifies this, starts, counts
      ensures Is(Insert(t, o).0) && ok == Insert(t, o).1
    {
      var b := BucketOf(o.name);
      ghost var i;
      var prev, cur;
      prev, cur, i := Search(b, o.name, t);
      if cur != NULL {
        return false;
      }
      Link(b, o, t);
      ok := true;
    }

    /** A new node becomes the first of its bucket. */
    method Link(b: nat, o: Obj, ghost t: Table)
      requires Is(t) && b < starts.Length == |t.counts|
      modifies this, starts, counts
      ensures Is(WithChain(t, b, [o] + t.buckets[b], 1))
    {
      PushSpells(Memory(), t.buckets, b, o);
      ghost var m' := Push(Memory(), b, o);
      lists, owner := lists[b := [brk] + lists[b]], owner[brk := b];
      nodes := nodes[brk := Node(starts[b], o)];
      starts[b] := brk;
      brk := brk + 1;
      counts[b] := counts[b] + 1;
      total := total + 1;
      assert Memory() == m';
    }

    method Modify(name: Name, loc: Option<Loc>, pos: Option<nat>, ghost t: Table) returns (ok: bool)
      requires Is(t) && |t.buckets| == |t.counts| > 0
      modifies this, starts, counts
      ensures Is(Change(t, name, loc, pos).0) && ok == Change(t, name, loc, pos).1
    {
      var b := BucketOf(name);
      ghost var i;
      var prev, cur;
      prev, cur, i := Search(b, name, t);
      if cur == NULL {
        return false;
      }
      assert Spelled(Memory(), t.buckets, b);
      assert lists[b][i] == cur;
      var was := nodes[cur].obj;
      var o := Obj(was.name, if loc.Some? then loc.value else was.loc, if pos.Some? then pos.value else was.pos);
      Rewrite(b, cur, o, i, t);
      ok := true;
    }

    /** The object of a node is replaced. */
    method Rewrite(b: nat, cur: nat, o: Obj, ghost i: nat, ghost t: Table)
      requires Is(t) && b < starts.Length == |t.counts| && i < |t.buckets[b]| == |lists[b]| && cur == lists[b][i]
      modifies this`nodes
      ensures Is(WithChain(t, b, t.buckets[b][i := o], 0))
    {
      OverwriteSpells(Memory(), t.buckets, b, i, o);
      ghost var m' := Overwrite(Memory(), cur, o);
      nodes := nodes[cur := nodes[cur].(obj := o)];
      assert Memory() == m';
    }

    method Delete(name: Name, ghost t: Table) returns (r: Option<Obj>)
      requires Is(t) && |t.buckets| == |t.counts| > 0
      modifies this, starts, counts
      ensures Is(Remove(t, name).0) && r == Remove(t, name).1
    {
      var b := BucketOf(name);
      ghost var i;
      var prev, cur;
      prev, cur, i := Search(b, name, t);
      if cur == NULL {
        return None;
      }
      assert Spelled(Memory(), t.buckets, b);
      assert lists[b][i] == cur;
      r := Some(nodes[cur].obj);
      Unlink(b, prev, cur, i, t);
    }

    /** A node is taken out of its list and freed. */
    method Unlink(b: nat, prev: nat, cur: nat, ghost i: nat, ghost t: Table)
      requires Is(t) && b < starts.Length == |t.counts| && i < |t.buckets[b]| == |lists[b]| && cur == lists[b][i]
      requires prev == Before(lists[b], i)
      modifies this, starts, counts
      ensures Is(WithChain(t, b, Without(t.buckets[b], i), -1))
    {
      CutSpells(Memory(), t.buckets, b, i);
      ghost var m' := Cut(Memory(), b, i);
      assert i > 0 ==> prev != NULL by {
        assert Spelled(Memory(), t.buckets, b);
        assert i > 0 ==> lists[b][i - 1] != NULL;
      }
      counts[b] := counts[b] - 1;
      total := total - 1;
      Relink(b, prev, cur);
      lists := lists[b := Without(lists[b], i)];
      assert Memory() == m';
    }

    /** The pointer to `cur` is made to skip it. */
    method Relink(b: nat, prev: nat, cur: nat)
      requires b < starts.Length && cur in nodes && (prev != NULL ==> prev in nodes)
      modifies this`nodes, starts
      ensures nodes == Unlinked(old(nodes), prev, cur)
      ensures starts[..] == if prev == NULL then old(starts[..])[b := old(nodes)[cur].next] else old(starts[..])
    {
      if prev == NULL {
        starts[b] := nodes[cur].next;
      } else {
        nodes := nodes[prev := nodes[prev].(next := nodes[cur].next)];
      }
      nodes := nodes - {cur};
    }
  }
}
