/**
 The nodes as the program keeps them, each with its own cache, and the three request handlers as loops of remote
 calls. A handler that runs alone on its key does what the steps of module Sdcs do one by one.
 */
module SdcsCluster {
  import opened Common
  import opened Sdcs

  class Node {
    var cache: map<Key, Entry>

    constructor ()
      ensures cache == map[]
    {
      cache := map[];
    }

    /** The SetIndex service */
    method SetIndex(key: Key, node: int)
      modifies this
      ensures cache == old(cache)[key := Entry("", node)]
    {
      cache := cache[key := Entry("", node)];
    }

    /** The SetData service */
    method SetData(key: Key, val: Value)
      modifies this
      ensures cache == old(cache)[key := Entry(val, HERE)]
    {
      cache := cache[key := Entry(val, HERE)];
    }

    /** The GetData service: Go's zero values when the key is missing. */
    method GetData(key: Key) returns (val: Value, node: int, res: bool)
      ensures res <==> key in cache
      ensures (val, node) == if key in cache then (cache[key].val, cache[key].node) else ("", 0)
    {
      if key in cache {
        return cache[key].val, cache[key].node, true;
      }
      return "", 0, false;
    }

    /** The DeleteIndex service */
    method DeleteIndex(key: Key) returns (res: bool)
      modifies this
      ensures cache == old(cache) - {key} && (res <==> key in old(cache))
    {
      res := key in cache;
      if res {
        cache := cache - {key};
      }
    }
  }

  class Cluster {
    const nodes: seq<Node>

    /** The nodes are different objects. */
    ghost predicate Valid() {
      forall i, j :: 0 <= i < j < |nodes| ==> nodes[i] != nodes[j]
    }

    function Caches(): (cs: seq<map<Key, Entry>>)
      reads nodes
      ensures |cs| == |nodes| && forall j :: 0 <= j < |nodes| ==> cs[j] == nodes[j].cache
    {
      seq(|nodes|, j requires 0 <= j < |nodes| reads nodes => nodes[j].cache)
    }

    constructor (nodes: seq<Node>)
      requires forall i, j :: 0 <= i < j < |nodes| ==> nodes[i] != nodes[j]
      ensures Valid() && this.nodes == nodes
    {
      this.nodes := nodes;
    }

    /** http_post_handler: the posting node owns the key and every other node points to it. */
    method HandlePost(key: Key, val: Value, local: nat)
      requires Valid() && local < |nodes|
      modifies nodes
      ensures OwnedBy(Caches(), key, val, local)
      ensures forall j :: 0 <= j < |nodes| ==> nodes[j].cache - {key} == old(nodes[j].cache) - {key}
    {
      for i := 0 to |nodes|
        invariant forall j :: 0 <= j < i ==>
          nodes[j].cache == old(nodes[j].cache)[key := if j == local then Entry(val, HERE) else Entry("", local)]
        invariant forall j :: i <= j < |nodes| ==> nodes[j].cache == old(nodes[j].cache)
      {
        if i == local {
          nodes[i].SetData(key, val);
        } else {
          nodes[i].SetIndex(key, local);
        }
      }
    }

    /** http_delete_func: true exactly when every node had the key; a node without it stops the loop. */
    method HandleDelete(key: Key) returns (ok: bool)
      requires Valid()
      modifies nodes
      ensures ok <==> forall j :: 0 <= j < |nodes| ==> key in old(nodes[j].cache)
      ensures ok ==> Agreed(Caches(), key, None)
      ensures forall j :: 0 <= j < |nodes| ==>
        nodes[j].cache == if forall k :: 0 <= k <= j ==> key in old(nodes[k].cache) then old(nodes[j].cache) - {key}
                          else old(nodes[j].cache)
    {
      for i := 0 to |nodes|
        invariant forall j :: 0 <= j < i ==> key in old(nodes[j].cache) && nodes[j].cache == old(nodes[j].cache) - {key}
        invariant forall j :: i <= j < |nodes| ==> nodes[j].cache == old(nodes[j].cache)
      {
        var res := nodes[i].DeleteIndex(key);
        if !res {
          assert nodes[i].cache == old(nodes[i].cache);
          return false;
        }
      }
      ok := true;
    }

    /** http_get_handler */
    method HandleGet(key: Key, local: nat) returns (r: Option<Value>)
      requires local < |nodes| && Follows(Caches(), key, local)
      ensures r == Fetch(Caches(), key, local)
      ensures forall v: Option<Value> {:trigger Agreed(Caches(), key, v)} :: Agreed(Caches(), key, v) ==> r == v
    {
      var val, node, res := nodes[local].GetData(key);
      if res && node != HERE {
        val, node, res := nodes[node].GetData(key);
      }
      r := if res then Some(val) else None;
      forall v: Option<Value> | Agreed(Caches(), key, v) ensures r == v {
        FetchAgreed(Caches(), key, local, v);
      }
    }
  }

  /** A pointer at `local` names a node. */
  predicate Follows(caches: seq<map<Key, Entry>>, key: Key, local: nat)
    requires local < |caches|
  {
    key in caches[local] && caches[local][key].node != HERE ==> 0 <= caches[local][key].node < |caches|
  }

  /** What a get at `local` finds: its own data, or the data of the node it points to. */
  function Fetch(caches: seq<map<Key, Entry>>, key: Key, local: nat): (r: Option<Value>)
    requires local < |caches| && Follows(caches, key, local)
  {
    if key !in caches[local] then None
    else
      var o := if caches[local][key].node == HERE then local else caches[local][key].node;
      if key in caches[o] then Some(caches[o][key].val) else None
  }

  /** Where the nodes agree on a key, a get at any of them finds what the key holds. */
  lemma FetchAgreed(caches: seq<map<Key, Entry>>, key: Key, local: nat, v: Option<Value>)
    requires local < |caches| && Agreed(caches, key, v)
    ensures Follows(caches, key, local) && Fetch(caches, key, local) == v
  {
    if v.Some? {
      var o: nat :| OwnedBy(caches, key, v.value, o);
      assert caches[local][key] == if local == o then Entry(v.value, HERE) else Entry("", o);
      assert caches[o][key].val == v.value;
    }
  }
}
