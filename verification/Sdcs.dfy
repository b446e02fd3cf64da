/**
 The replicated cache index (sdcs/sdcs.go, sdcs/sdcs_grpc_service.go): every node maps a key to its data or to the
 node that has it. Posting, deleting and getting are sequences of remote calls, one step each here, so operations
 on different keys interleave between any two calls. Operations on one key are serialised, gets among themselves
 excepted. A call may fail, which ends its operation half done.
 */
module Sdcs {
  import opened Common

  type Key = string
  type Value = string

  const HERE: int := -1

  /** SdcsCacheValue: data, or the id of the node that has it. */
  datatype Entry = Entry(val: Value, node: int)

  datatype Op = Post(val: Value) | Delete | Get

  /** `Lost` is the end of a write one of whose calls failed; `left` is what the nodes hold then. */
  datatype Answer = Posted | Deleted(was: bool) | Got(val: Option<Value>) | Lost(left: Option<Value>)

  /**
   An operation under way: `at` calls are done; a get that found a pointer asks `remote` next. `was` is the node that
   had the key when the operation began.
   */
  datatype Task = Task(key: Key, op: Op, local: nat, at: nat, remote: nat, was: Option<nat>)

  /** An operation that has ended. */
  datatype Done = Done(key: Key, op: Op, answer: Answer)

  /** `log` is history, `torn` the keys on which the nodes disagreed when the last write ended. */
  datatype Sys = Sys(nodes: seq<map<Key, Entry>>, tasks: map<nat, Task>, torn: set<Key>, log: seq<Done>)

  // ---------------------------------------------------------------------------------------------
  // Steps

  /** The remote call of a post to node `i`: SetData at home, SetIndex elsewhere. */
  function Set(cache: map<Key, Entry>, t: Task, i: nat): (c: map<Key, Entry>)
    requires t.op.Post?
  {
    cache[t.key := if i == t.local then Entry(t.op.val, HERE) else Entry("", t.local)]
  }

  /** What the next call of a task leads to: the caller goes on, or answers. */
  datatype Outcome = Goes(t: Task) | Answers(a: Answer)

  predicate Calls(s: Sys, t: Task) {
    t.local < |s.nodes| && t.remote < |s.nodes| && (!t.op.Get? ==> t.at < |s.nodes|)
  }

  /** The nodes after a task's next call. */
  function NodesAfter(s: Sys, t: Task): (nodes: seq<map<Key, Entry>>)
    requires Calls(s, t)
    ensures |nodes| == |s.nodes|
  {
    match t.op
    case Post(_) => s.nodes[t.at := Set(s.nodes[t.at], t, t.at)]
    case Delete => s.nodes[t.at := s.nodes[t.at] - {t.key}]
    case Get => s.nodes
  }

  /** What the caller makes of the call's reply; ids stored are HERE or a node's. */
  function Next(s: Sys, t: Task): (o: Outcome)
    requires Calls(s, t)
  {
    match t.op
    case Post(_) => if t.at + 1 == |s.nodes| then Answers(Posted) else Goes(t.(at := t.at + 1))
    case Delete =>
      if t.key !in s.nodes[t.at] then Answers(Deleted(false))
      else if t.at + 1 == |s.nodes| then Answers(Deleted(true)) else Goes(t.(at := t.at + 1))
    case Get =>
      var cache := s.nodes[if t.at == 0 then t.local else t.remote];
      if t.key !in cache then Answers(Got(None))
      else if t.at == 0 && 0 <= cache[t.key].node < |s.nodes| then Goes(t.(at := 1, remote := cache[t.key].node))
      else Answers(Got(Some(cache[t.key].val)))
  }

  datatype Event = Begin(id: nat, key: Key, op: Op, local: nat) | Call(id: nat) | Fail(id: nat, applied: bool)

  /** Writes exclude everything else on their key. */
  predicate Serialised(s: Sys, key: Key, op: Op) {
    forall i {:trigger s.tasks[i]} :: i in s.tasks && s.tasks[i].key == key ==> op.Get? && s.tasks[i].op.Get?
  }

  predicate Enabled(s: Sys, e: Event) {
    match e
    case Begin(id, key, op, local) => id !in s.tasks && local < |s.nodes| && Serialised(s, key, op)
    case Call(id) => id in s.tasks && Calls(s, s.tasks[id])
    case Fail(id, _) => id in s.tasks && Calls(s, s.tasks[id])
  }

  /** The node that has the key, as the first node tells it. */
  function OwnerOf(nodes: seq<map<Key, Entry>>, key: Key): (o: Option<nat>) {
    if |nodes| == 0 || key !in nodes[0] then None
    else Some(if nodes[0][key].node < 0 then 0 else nodes[0][key].node)
  }

  /** An operation ends with an answer; a write leaves its key torn or whole. */
  ghost function Ended(s: Sys, id: nat, nodes: seq<map<Key, Entry>>, a: Answer): (s': Sys)
    requires id in s.tasks
  {
    var t := s.tasks[id];
    Sys(nodes, s.tasks - {id},
        if t.op.Get? then s.torn else if Whole(nodes, t.key) then s.torn - {t.key} else s.torn + {t.key},
        s.log + [Done(t.key, t.op, a)])
  }

  /** A call that failed may have been applied: only its reply was lost. */
  function NodesFailed(s: Sys, t: Task, applied: bool): (nodes: seq<map<Key, Entry>>)
    requires Calls(s, t)
    ensures |nodes| == |s.nodes|
  {
    if applied then NodesAfter(s, t) else s.nodes
  }

  ghost function Exec(s: Sys, e: Event): (s': Sys)
    requires Enabled(s, e)
  {
    match e
    case Begin(id, key, op, local) =>
      s.(tasks := s.tasks[id := Task(key, op, local, 0, 0, OwnerOf(s.nodes, key))])
    case Call(id) =>
      var t := s.tasks[id];
      (match Next(s, t)
       case Goes(t') => s.(nodes := NodesAfter(s, t), tasks := s.tasks[id := t'])
       case Answers(a) => Ended(s, id, NodesAfter(s, t), a))
    case Fail(id, applied) =>
      var nodes := NodesFailed(s, s.tasks[id], applied);
      Ended(s, id, nodes, Lost(Held(nodes, s.tasks[id].key)))
  }

  function Init(n: nat): (s: Sys) {
    Sys(seq(n, _ => map[]), map[], {}, [])
  }

  // ---------------------------------------------------------------------------------------------
  // The index as one map

  /** What the writes that ended say a key holds: the last post, nothing after a delete, what a lost write left. */
  function Latest(log: seq<Done>, key: Key): (v: Option<Value>) {
    if log == [] then None
    else
      var d := log[|log| - 1];
      if d.key != key || d.op.Get? then Latest(log[..|log| - 1], key)
      else if d.answer.Lost? then d.answer.left
      else if d.op.Post? then Some(d.op.val)
      else None
  }

  /** What one map would answer. */
  function MapAnswer(v: Option<Value>, op: Op): (a: Answer) {
    match op
    case Post(_) => Posted
    case Delete => Deleted(v.Some?)
    case Get => Got(v)
  }

  /** The key is absent everywhere, or one node has the data and all others point to it. */
  ghost predicate Agreed(nodes: seq<map<Key, Entry>>, key: Key, v: Option<Value>) {
    if v.None? then forall j {:trigger nodes[j]} :: 0 <= j < |nodes| ==> key !in nodes[j]
    else exists o: nat {:trigger OwnedBy(nodes, key, v.value, o)} :: OwnedBy(nodes, key, v.value, o)
  }

  predicate OwnedBy(nodes: seq<map<Key, Entry>>, key: Key, v: Value, o: nat) {
    && o < |nodes|
    && forall j {:trigger nodes[j]} :: 0 <= j < |nodes| ==>
         key in nodes[j] && nodes[j][key] == if j == o then Entry(v, HERE) else Entry("", o)
  }

  /** What a get at the first node finds. */
  function Held(nodes: seq<map<Key, Entry>>, key: Key): (v: Option<Value>) {
    var o := OwnerOf(nodes, key);
    if o.Some? && o.value < |nodes| && key in nodes[o.value] then Some(nodes[o.value][key].val) else None
  }

  /** The nodes agree on the key. */
  ghost predicate Whole(nodes: seq<map<Key, Entry>>, key: Key) {
    Agreed(nodes, key, Held(nodes, key))
  }

  /** Nodes agree on one value at most, and it is the one held. */
  lemma AgreedHeld(nodes: seq<map<Key, Entry>>, key: Key, w: Option<Value>)
    requires |nodes| > 0 && Agreed(nodes, key, w)
    ensures Held(nodes, key) == w && Whole(nodes, key)
  {
    if w.Some? {
      var o: nat :| OwnedBy(nodes, key, w.value, o);
      assert nodes[0][key] == if 0 == o then Entry(w.value, HERE) else Entry("", o);
      assert nodes[o][key] == Entry(w.value, HERE);
    }
  }

  lemma OwnerKnown(nodes: seq<map<Key, Entry>>, key: Key, v: Value, o: nat)
    requires OwnedBy(nodes, key, v, o)
    ensures OwnerOf(nodes, key) == Some(o)
  {
    assert nodes[0][key] == if 0 == o then Entry(v, HERE) else Entry("", o);
  }

  predicate NoWrite(s: Sys, key: Key) {
    forall i {:trigger s.tasks[i]} :: i in s.tasks && s.tasks[i].key == key ==> s.tasks[i].op.Get?
  }

  /** A key without a write in flight is torn exactly when the nodes disagree on it, and else holds the latest value. */
  ghost predicate KeyOk(s: Sys, key: Key) {
    NoWrite(s, key) ==> if key in s.torn then !Whole(s.nodes, key) else Agreed(s.nodes, key, Latest(s.log, key))
  }

  /** How far a task has got. */
  ghost predicate TaskOk(s: Sys, t: Task) {
    && Calls(s, t)
    && (t.op.Post? ==> forall j {:trigger s.nodes[j]} :: 0 <= j < t.at ==>
          t.key in s.nodes[j] && s.nodes[j][t.key] == if j == t.local then Entry(t.op.val, HERE) else Entry("", t.local))
    && (t.op.Delete? ==> forall j {:trigger s.nodes[j]} :: 0 <= j < t.at ==> t.key !in s.nodes[j])
    && (t.op.Delete? && t.key !in s.torn && t.at > 0 ==> t.was.Some?)
    && (!t.op.Get? && t.key !in s.torn ==> RestOk(s, t))
    && (t.op.Get? && t.key !in s.torn && t.at > 0 ==>
          t.key in s.nodes[t.remote] && Latest(s.log, t.key) == Some(s.nodes[t.remote][t.key].val))
  }

  /** The nodes that a write has not called yet are as they were: absent, or naming the old owner. */
  predicate RestOk(s: Sys, t: Task) {
    match Latest(s.log, t.key)
    case None => t.was.None? && forall j {:trigger s.nodes[j]} :: t.at <= j < |s.nodes| ==> t.key !in s.nodes[j]
    case Some(v) =>
      && t.was.Some? && t.was.value < |s.nodes|
      && forall j {:trigger s.nodes[j]} :: t.at <= j < |s.nodes| ==>
           && t.key in s.nodes[j]
           && s.nodes[j][t.key] == if j == t.was.value then Entry(v, HERE) else Entry("", t.was.value)
  }

  ghost predicate TaskAt(s: Sys, id: nat) {
    id in s.tasks ==> TaskOk(s, s.tasks[id]) && AloneOk(s, id)
  }

  /** A write in flight is alone on its key. */
  predicate AloneOk(s: Sys, id: nat)
    requires id in s.tasks
  {
    !s.tasks[id].op.Get? ==>
      forall i {:trigger s.tasks[i]} :: i in s.tasks && s.tasks[i].key == s.tasks[id].key ==> i == id
  }

  ghost predicate Inv(s: Sys) {
    && (forall id: nat {:trigger TaskAt(s, id)} :: TaskAt(s, id))
    && (forall key: Key {:trigger KeyOk(s, key)} :: KeyOk(s, key))
  }

  lemma InitInv(n: nat)
    ensures Inv(Init(n))
  {
  }

  // ---------------------------------------------------------------------------------------------
  // Starting an operation

  lemma BeginKeeps(s: Sys, e: Event)
    requires Inv(s) && e.Begin? && Enabled(s, e)
    ensures Inv(Exec(s, e))
  {
    var s' := Exec(s, e);
    forall id: nat ensures TaskAt(s', id) {
      assert TaskAt(s, id);
      if id == e.id {
        BeginTask(s, e);
      }
    }
    forall key: Key ensures KeyOk(s', key) {
      assert KeyOk(s, key);
      assert NoWrite(s', key) ==> NoWrite(s, key) by {
        forall i | NoWrite(s', key) && i in s.tasks && s.tasks[i].key == key ensures s.tasks[i].op.Get? {
          assert s'.tasks[i] == s.tasks[i];
        }
      }
    }
  }

  lemma BeginTask(s: Sys, e: Event)
    requires Inv(s) && e.Begin? && Enabled(s, e)
    ensures TaskOk(Exec(s, e), Exec(s, e).tasks[e.id]) && AloneOk(Exec(s, e), e.id)
  {
    assert KeyOk(s, e.key);
    if !e.op.Get? && e.key !in s.torn {
      assert NoWrite(s, e.key);
      if Latest(s.log, e.key).Some? {
        var o: nat :| OwnedBy(s.nodes, e.key, Latest(s.log, e.key).value, o);
        OwnerKnown(s.nodes, e.key, Latest(s.log, e.key).value, o);
      }
    }
  }

  // ---------------------------------------------------------------------------------------------
  // What a step leaves alone

  predicate SameAt(a: map<Key, Entry>, b: map<Key, Entry>, key: Key) {
    (key in a <==> key in b) && (key in a ==> a[key] == b[key])
  }

  predicate SameNodes(nodes: seq<map<Key, Entry>>, nodes': seq<map<Key, Entry>>, key: Key) {
    && |nodes| == |nodes'|
    && forall j {:trigger nodes[j]} {:trigger nodes'[j]} :: 0 <= j < |nodes| ==> SameAt(nodes[j], nodes'[j], key)
  }

  /** Two states that look the same to a key. */
  predicate SameFor(s: Sys, s': Sys, key: Key) {
    && (key in s.torn <==> key in s'.torn) && Latest(s.log, key) == Latest(s'.log, key)
    && SameNodes(s.nodes, s'.nodes, key)
  }

  lemma AgreedSame(nodes: seq<map<Key, Entry>>, nodes': seq<map<Key, Entry>>, key: Key, w: Option<Value>)
    requires SameNodes(nodes, nodes', key) && Agreed(nodes, key, w)
    ensures Agreed(nodes', key, w)
  {
    if w.Some? {
      var o: nat :| OwnedBy(nodes, key, w.value, o);
      assert OwnedBy(nodes', key, w.value, o);
    }
  }

  lemma TornSame(nodes: seq<map<Key, Entry>>, nodes': seq<map<Key, Entry>>, key: Key)
    requires SameNodes(nodes, nodes', key) && Whole(nodes', key)
    ensures Whole(nodes, key)
  {
    AgreedSame(nodes', nodes, key, Held(nodes', key));
    if |nodes| > 0 {
      AgreedHeld(nodes, key, Held(nodes', key));
    }
  }

  lemma TaskSame(s: Sys, s': Sys, t: Task)
    requires SameFor(s, s', t.key) && TaskOk(s, t)
    ensures TaskOk(s', t)
  {
  }

  lemma EndedSame(s: Sys, id: nat, nodes: seq<map<Key, Entry>>, a: Answer, key: Key)
    requires id in s.tasks && (key != s.tasks[id].key || s.tasks[id].op.Get?) && SameNodes(s.nodes, nodes, key)
    ensures SameFor(s, Ended(s, id, nodes, a), key)
  {
    var s' := Ended(s, id, nodes, a);
    assert s'.log[..|s'.log| - 1] == s.log;
  }

  lemma CallSame(s: Sys, id: nat, key: Key)
    requires id in s.tasks && Calls(s, s.tasks[id])
    requires key != s.tasks[id].key || s.tasks[id].op.Get?
    ensures SameFor(s, Exec(s, Call(id)), key)
  {
    if Next(s, s.tasks[id]).Answers? {
      EndedSame(s, id, NodesAfter(s, s.tasks[id]), Next(s, s.tasks[id]).a, key);
    }
  }

  lemma FailSame(s: Sys, id: nat, applied: bool, key: Key)
    requires id in s.tasks && Calls(s, s.tasks[id])
    requires key != s.tasks[id].key || s.tasks[id].op.Get?
    ensures SameFor(s, Exec(s, Fail(id, applied)), key)
  {
    var nodes := NodesFailed(s, s.tasks[id], applied);
    EndedSame(s, id, nodes, Lost(Held(nodes, s.tasks[id].key)), key);
  }

  /** A key or a task that a step does not concern. */
  lemma OthersKeep(s: Sys, s': Sys, id: nat, key: Key)
    requires Inv(s) && id in s.tasks && SameFor(s, s', key)
    requires forall i {:trigger i in s'.tasks} :: i != id && i in s.tasks ==> i in s'.tasks && s'.tasks[i] == s.tasks[i]
    requires key != s.tasks[id].key || s.tasks[id].op.Get?
    ensures KeyOk(s', key)
  {
    assert KeyOk(s, key);
    if NoWrite(s', key) {
      forall i | i in s.tasks && s.tasks[i].key == key ensures s.tasks[i].op.Get? {
        if i != id {
          assert s'.tasks[i] == s.tasks[i];
        }
      }
      if key !in s.torn {
        AgreedSame(s.nodes, s'.nodes, key, Latest(s.log, key));
      } else if Whole(s'.nodes, key) {
        TornSame(s.nodes, s'.nodes, key);
      }
    }
  }

  // ---------------------------------------------------------------------------------------------
  // A call

  lemma PostGoes(s: Sys, t: Task)
    requires Calls(s, t) && TaskOk(s, t) && t.op.Post? && t.at + 1 < |s.nodes|
    ensures TaskOk(s.(nodes := NodesAfter(s, t)), t.(at := t.at + 1))
  {
  }

  lemma PostEnds(s: Sys, t: Task)
    requires Calls(s, t) && TaskOk(s, t) && t.op.Post? && t.at + 1 == |s.nodes|
    ensures OwnedBy(NodesAfter(s, t), t.key, t.op.val, t.local)
  {
  }

  lemma DeleteGoes(s: Sys, t: Task)
    requires Calls(s, t) && TaskOk(s, t) && t.op.Delete? && t.at + 1 < |s.nodes| && t.key in s.nodes[t.at]
    ensures TaskOk(s.(nodes := NodesAfter(s, t)), t.(at := t.at + 1))
  {
  }

  lemma DeleteEnds(s: Sys, t: Task)
    requires Calls(s, t) && TaskOk(s, t) && t.op.Delete? && t.at + 1 == |s.nodes|
    ensures Agreed(NodesAfter(s, t), t.key, None)
  {
  }

  /** On a key that is not torn, a delete that finds the key missing found it so at the first node, and so everywhere. */
  lemma DeleteMisses(s: Sys, t: Task)
    requires Calls(s, t) && TaskOk(s, t) && t.op.Delete? && t.key !in s.nodes[t.at] && t.key !in s.torn
    ensures Latest(s.log, t.key) == None && t.at == 0 && Agreed(NodesAfter(s, t), t.key, None)
  {
    assert RestOk(s, t);
  }

  lemma GetGoes(s: Sys, t: Task)
    requires Calls(s, t) && t.op.Get? && Next(s, t).Goes?
    requires t.key !in s.torn ==> Agreed(s.nodes, t.key, Latest(s.log, t.key))
    ensures TaskOk(s, Next(s, t).t)
  {
    if t.key !in s.torn && Latest(s.log, t.key).Some? {
      var o: nat :| OwnedBy(s.nodes, t.key, Latest(s.log, t.key).value, o);
    }
  }

  lemma GetEnds(s: Sys, t: Task)
    requires TaskOk(s, t) && t.op.Get? && Next(s, t).Answers? && t.key !in s.torn
    requires Agreed(s.nodes, t.key, Latest(s.log, t.key))
    ensures Next(s, t).a == Got(Latest(s.log, t.key))
  {
    if Latest(s.log, t.key).Some? {
      var o: nat :| OwnedBy(s.nodes, t.key, Latest(s.log, t.key).value, o);
    }
  }

  /** No write is in flight on the key of a get. */
  lemma GetQuiet(s: Sys, id: nat)
    requires Inv(s) && id in s.tasks && s.tasks[id].op.Get? && s.tasks[id].key !in s.torn
    ensures Agreed(s.nodes, s.tasks[id].key, Latest(s.log, s.tasks[id].key))
  {
    var key := s.tasks[id].key;
    forall i | i in s.tasks && s.tasks[i].key == key ensures s.tasks[i].op.Get? {
      assert TaskAt(s, i);
    }
    assert KeyOk(s, key);
  }

  /** Every completed operation on a key that is not torn answers as one map holding the last posts would. */
  lemma CallAnswers(s: Sys, id: nat)
    requires Inv(s) && id in s.tasks && s.tasks[id].key !in s.torn
    ensures Calls(s, s.tasks[id])
    ensures var t := s.tasks[id]; Next(s, t).Answers? ==> Next(s, t).a == MapAnswer(Latest(s.log, t.key), t.op)
  {
    assert TaskAt(s, id);
    var t := s.tasks[id];
    if Next(s, t).Answers? {
      match t.op {
        case Post(_) =>
        case Delete => if t.key !in s.nodes[t.at] { DeleteMisses(s, t); }
        case Get => GetQuiet(s, id); GetEnds(s, t);
      }
    }
  }

  /** The task that made the call, if it goes on. */
  lemma CallSelf(s: Sys, id: nat)
    requires Inv(s) && id in s.tasks && Calls(s, s.tasks[id]) && Next(s, s.tasks[id]).Goes?
    ensures var s' := Exec(s, Call(id)); id in s'.tasks && TaskOk(s', s'.tasks[id])
  {
    assert TaskAt(s, id);
    var t := s.tasks[id];
    match t.op {
      case Post(_) => PostGoes(s, t);
      case Delete => DeleteGoes(s, t);
      case Get =>
        if t.key !in s.torn {
          GetQuiet(s, id);
        }
        GetGoes(s, t);
    }
  }

  /** A key after the end of a write on it. */
  lemma EndedKey(s: Sys, id: nat, nodes: seq<map<Key, Entry>>, a: Answer)
    requires id in s.tasks && !s.tasks[id].op.Get? && !a.Got?
    requires var t := s.tasks[id]; Whole(nodes, t.key) ==>
      Held(nodes, t.key) == if a.Lost? then a.left else if t.op.Post? then Some(t.op.val) else None
    ensures KeyOk(Ended(s, id, nodes, a), s.tasks[id].key)
  {
    var s' := Ended(s, id, nodes, a);
    assert s'.log[..|s'.log| - 1] == s.log;
  }

  /** The key of a write that made the call. */
  lemma CallKey(s: Sys, id: nat)
    requires Inv(s) && id in s.tasks && Calls(s, s.tasks[id]) && !s.tasks[id].op.Get?
    ensures KeyOk(Exec(s, Call(id)), s.tasks[id].key)
  {
    assert TaskAt(s, id);
    var t := s.tasks[id];
    match Next(s, t) {
      case Goes(t') => assert Exec(s, Call(id)).tasks[id] == t';
      case Answers(a) =>
        var nodes := NodesAfter(s, t);
        if t.op.Post? {
          PostEnds(s, t);
          AgreedHeld(nodes, t.key, Some(t.op.val));
        } else {
          assert t.key !in nodes[t.at];
        }
        EndedKey(s, id, nodes, a);
    }
  }

  lemma CallTask(s: Sys, id: nat, i: nat)
    requires Inv(s) && id in s.tasks && Calls(s, s.tasks[id])
    ensures TaskAt(Exec(s, Call(id)), i)
  {
    var s' := Exec(s, Call(id));
    assert TaskAt(s, i) && TaskAt(s, id);
    if i in s'.tasks {
      if i == id {
        CallSelf(s, id);
      } else {
        assert s.tasks[i].key != s.tasks[id].key || s.tasks[id].op.Get?;
        CallSame(s, id, s.tasks[i].key);
        TaskSame(s, s', s.tasks[i]);
      }
    }
  }

  lemma CallKeeps(s: Sys, id: nat)
    requires Inv(s) && id in s.tasks && Calls(s, s.tasks[id])
    ensures Inv(Exec(s, Call(id)))
  {
    var s' := Exec(s, Call(id));
    forall i: nat ensures TaskAt(s', i) {
      CallTask(s, id, i);
    }
    forall key: Key ensures KeyOk(s', key) {
      if key != s.tasks[id].key || s.tasks[id].op.Get? {
        CallSame(s, id, key);
        OthersKeep(s, s', id, key);
      } else {
        CallKey(s, id);
      }
    }
  }

  lemma FailKeeps(s: Sys, id: nat, applied: bool)
    requires Inv(s) && id in s.tasks && Calls(s, s.tasks[id])
    ensures Inv(Exec(s, Fail(id, applied)))
  {
    var s' := Exec(s, Fail(id, applied));
    forall i: nat ensures TaskAt(s', i) {
      assert TaskAt(s, i) && TaskAt(s, id);
      if i in s'.tasks {
        FailSame(s, id, applied, s.tasks[i].key);
        TaskSame(s, s', s.tasks[i]);
      }
    }
    forall key: Key ensures KeyOk(s', key) {
      if key != s.tasks[id].key || s.tasks[id].op.Get? {
        FailSame(s, id, applied, key);
        OthersKeep(s, s', id, key);
      } else {
        var nodes := NodesFailed(s, s.tasks[id], applied);
        EndedKey(s, id, nodes, Lost(Held(nodes, key)));
      }
    }
  }

  // ---------------------------------------------------------------------------------------------
  // Runs

  /** The states of a run, each reached by an enabled event. */
  ghost predicate IsRun(trace: seq<Sys>, es: seq<Event>) {
    |trace| == |es| + 1 && forall k {:trigger StepAt(trace, es, k)} :: 0 <= k < |es| ==> StepAt(trace, es, k)
  }

  ghost predicate StepAt(trace: seq<Sys>, es: seq<Event>, k: nat)
    requires |trace| == |es| + 1 && k < |es|
  {
    Enabled(trace[k], es[k]) && trace[k + 1] == Exec(trace[k], es[k])
  }

  lemma ExecKeepsInv(s: Sys, e: Event)
    requires Inv(s) && Enabled(s, e)
    ensures Inv(Exec(s, e))
  {
    match e {
      case Begin(_, _, _, _) => BeginKeeps(s, e);
      case Call(id) => CallKeeps(s, id);
      case Fail(id, applied) => FailKeeps(s, id, applied);
    }
  }

  lemma {:induction false} RunKeepsInv(trace: seq<Sys>, es: seq<Event>, n: nat, k: nat)
    requires IsRun(trace, es) && trace[0] == Init(n) && k < |trace|
    ensures Inv(trace[k])
  {
    InitInv(n);
    if k > 0 {
      RunKeepsInv(trace, es, n, k - 1);
      assert StepAt(trace, es, k - 1);
      ExecKeepsInv(trace[k - 1], es[k - 1]);
    }
  }

  /**
   In every run, a key without a write in flight is torn exactly when the nodes agree on nothing about it, and
   otherwise is absent everywhere or owned by one node, with the latest value.
   */
  lemma QuietKeyAgreed(trace: seq<Sys>, es: seq<Event>, n: nat, k: nat, key: Key)
    requires IsRun(trace, es) && trace[0] == Init(n) && k < |trace| && NoWrite(trace[k], key)
    ensures var s := trace[k];
      if key in s.torn then forall w: Option<Value> {:trigger Agreed(s.nodes, key, w)} :: !Agreed(s.nodes, key, w)
      else Agreed(s.nodes, key, Latest(s.log, key))
  {
    RunKeepsInv(trace, es, n, k);
    var s := trace[k];
    assert KeyOk(s, key);
    if key in s.torn {
      NotWhole(s.nodes, key);
    }
  }

  lemma NotWhole(nodes: seq<map<Key, Entry>>, key: Key)
    requires !Whole(nodes, key)
    ensures forall w: Option<Value> {:trigger Agreed(nodes, key, w)} :: !Agreed(nodes, key, w)
  {
    forall w: Option<Value> | Agreed(nodes, key, w) ensures false {
      AgreedHeld(nodes, key, w);
    }
  }

  /** In every run, each answer is that of one map: a get returns the last post, a delete tells whether there was one. */
  lemma AnswersExact(trace: seq<Sys>, es: seq<Event>, n: nat, k: nat)
    requires IsRun(trace, es) && trace[0] == Init(n) && k < |es| && es[k].Call? && Enabled(trace[k], es[k])
    requires trace[k].tasks[es[k].id].key !in trace[k].torn
    ensures var s, t := trace[k], trace[k].tasks[es[k].id];
      Next(s, t).Answers? ==> Next(s, t).a == MapAnswer(Latest(s.log, t.key), t.op)
  {
    RunKeepsInv(trace, es, n, k);
    CallAnswers(trace[k], es[k].id);
  }

  /** The operation begun by event `i` has not ended before event `j`. */
  ghost predicate UnderWay(trace: seq<Sys>, es: seq<Event>, id: nat, i: nat, j: nat) {
    && i < j <= |es| == |trace| - 1 && es[i].Begin? && es[i].id == id
    && forall k {:trigger trace[k]} :: i < k <= j ==> id in trace[k].tasks
  }

  /** How many calls of `id` are among the events from `i` up to `j`. */
  function CallsOf(es: seq<Event>, id: nat, i: nat, j: nat): (n: nat)
    requires i <= j <= |es|
    decreases j
  {
    if i == j then 0 else CallsOf(es, id, i, j - 1) + if es[j - 1] == Call(id) then 1 else 0
  }

  lemma CallCounts(s: Sys, e: Event, id: nat)
    requires Enabled(s, e) && id in s.tasks && id in Exec(s, e).tasks && (s.tasks[id].op.Get? ==> s.tasks[id].at <= 1)
    ensures var t, t' := s.tasks[id], Exec(s, e).tasks[id];
      && |Exec(s, e).nodes| == |s.nodes| && t'.op == t.op && t'.at == t.at + (if e == Call(id) then 1 else 0)
      && (e == Call(id) ==> t'.at < if t.op.Get? then 2 else |s.nodes|)
  {
  }

  /**
   In every run, a get answers within two calls and a write within as many as there are nodes: an operation that has
   not ended has made fewer, and its next call can be made.
   */
  lemma {:induction false} AnswersSoon(trace: seq<Sys>, es: seq<Event>, n: nat, id: nat, i: nat, j: nat)
    requires IsRun(trace, es) && trace[0] == Init(n) && UnderWay(trace, es, id, i, j)
    ensures var t := trace[j].tasks[id];
      && t.op == es[i].op && |trace[j].nodes| == n && Enabled(trace[j], Call(id))
      && CallsOf(es, id, i, j) == t.at < if t.op.Get? then 2 else n
    decreases j
  {
    RunKeepsInv(trace, es, n, j);
    RunKeepsNodes(trace, es, n, j);
    assert TaskAt(trace[j], id);
    var k: nat := j - 1;
    assert StepAt(trace, es, k);
    if k == i {
      assert CallsOf(es, id, i, i) == 0;
    } else {
      AnswersSoon(trace, es, n, id, i, k);
      CallCounts(trace[k], es[k], id);
    }
  }

  lemma {:induction false} RunKeepsNodes(trace: seq<Sys>, es: seq<Event>, n: nat, k: nat)
    requires IsRun(trace, es) && trace[0] == Init(n) && k < |trace|
    ensures |trace[k].nodes| == n
  {
    if k > 0 {
      RunKeepsNodes(trace, es, n, k - 1);
      assert StepAt(trace, es, k - 1);
    }
  }

  /** A write on a key that is not torn leaves it whole unless one of its calls fails. */
  lemma CallTearsNothing(s: Sys, id: nat)
    requires Inv(s) && id in s.tasks && Calls(s, s.tasks[id]) && s.torn == {}
    ensures Exec(s, Call(id)).torn == {}
  {
    assert TaskAt(s, id);
    var t := s.tasks[id];
    if Next(s, t).Answers? && !t.op.Get? {
      if t.op.Post? {
        PostEnds(s, t);
        AgreedHeld(NodesAfter(s, t), t.key, Some(t.op.val));
      } else {
        if t.key in s.nodes[t.at] {
          DeleteEnds(s, t);
        } else {
          DeleteMisses(s, t);
        }
        AgreedHeld(NodesAfter(s, t), t.key, None);
      }
    }
  }

  /** Where no call fails, no key is ever torn. */
  lemma {:induction false} NothingTorn(trace: seq<Sys>, es: seq<Event>, n: nat, k: nat)
    requires IsRun(trace, es) && trace[0] == Init(n) && k < |trace|
    requires forall i {:trigger es[i]} :: 0 <= i < |es| ==> !es[i].Fail?
    ensures trace[k].torn == {}
  {
    if k > 0 {
      NothingTorn(trace, es, n, k - 1);
      assert StepAt(trace, es, k - 1) && !es[k - 1].Fail?;
      RunKeepsInv(trace, es, n, k - 1);
      if es[k - 1].Call? {
        CallTearsNothing(trace[k - 1], es[k - 1].id);
      }
    }
  }

  /** So where no call fails, every answer is exact. */
  lemma AllAnswersExact(trace: seq<Sys>, es: seq<Event>, n: nat, k: nat)
    requires IsRun(trace, es) && trace[0] == Init(n) && k < |es| && es[k].Call? && Enabled(trace[k], es[k])
    requires forall i {:trigger es[i]} :: 0 <= i < |es| ==> !es[i].Fail?
    ensures var s, t := trace[k], trace[k].tasks[es[k].id];
      Next(s, t).Answers? ==> Next(s, t).a == MapAnswer(Latest(s.log, t.key), t.op)
  {
    NothingTorn(trace, es, n, k);
    AnswersExact(trace, es, n, k);
  }

  // ---------------------------------------------------------------------------------------------
  // Failed calls

  /** What a write leaves that stops after `k` of `n` calls. */
  datatype Fate = Holds(v: Option<Value>) | Tears

  /** The calls of a task whose next call fails. */
  function Applied(t: Task, applied: bool): (k: nat) {
    if applied then t.at + 1 else t.at
  }

  /** `v` is what the key held. A delete makes no call after the first on an absent key. */
  function FateOf(t: Task, k: nat, n: nat, v: Option<Value>): (f: Fate) {
    if k == 0 then Holds(v)
    else if t.op.Post? then
      if k == n then Holds(Some(t.op.val))
      else if t.was == Some(t.local) then Holds(if t.local < k then Some(t.op.val) else v)
      else Tears
    else if k == n || t.was.None? then Holds(None)
    else Tears
  }

  /** A post that stopped half way on a key owned by its own node: only the data may have changed. */
  lemma FailedOwnPost(s: Sys, t: Task, applied: bool)
    requires TaskOk(s, t) && t.op.Post? && t.key !in s.torn && t.was == Some(t.local)
    ensures Latest(s.log, t.key).Some?
    ensures OwnedBy(NodesFailed(s, t, applied), t.key,
                    if t.local < Applied(t, applied) then t.op.val else Latest(s.log, t.key).value, t.local)
  {
    assert RestOk(s, t);
  }

  /** A post that stopped half way on a key of another node, or of none: the first node names the poster, the last not. */
  lemma FailedPost(s: Sys, t: Task, applied: bool, w: Option<Value>)
    requires TaskOk(s, t) && t.op.Post? && t.key !in s.torn && t.was != Some(t.local)
    requires 0 < Applied(t, applied) < |s.nodes|
    ensures !Agreed(NodesFailed(s, t, applied), t.key, w)
  {
    assert RestOk(s, t);
    var nodes := NodesFailed(s, t, applied);
    var k := Applied(t, applied);
    assert t.key in nodes[0] && nodes[k] == s.nodes[k];
    if w.Some? {
      forall o: nat ensures !OwnedBy(nodes, t.key, w.value, o) {
        if o == t.local && t.key in nodes[k] {
          assert nodes[k][t.key].node == if t.was == Some(k) then HERE else t.was.value;
        }
      }
    }
  }

  /** A delete that stopped half way: the first node has lost the key, the last has not. */
  lemma FailedDelete(s: Sys, t: Task, applied: bool, w: Option<Value>)
    requires TaskOk(s, t) && t.op.Delete? && t.key !in s.torn && t.was.Some?
    requires 0 < Applied(t, applied) < |s.nodes|
    ensures var nodes := NodesFailed(s, t, applied); t.key !in nodes[0] && !Agreed(nodes, t.key, w)
  {
    assert RestOk(s, t);
    var nodes := NodesFailed(s, t, applied);
    var k := Applied(t, applied);
    assert t.key !in nodes[0] && nodes[k] == s.nodes[k] && t.key in nodes[k];
  }

  /** A write that stopped before its first call, or whose last reply alone was lost. */
  lemma FailedWhole(s: Sys, t: Task, applied: bool)
    requires TaskOk(s, t) && !t.op.Get? && t.key !in s.torn
    requires Applied(t, applied) in {0, |s.nodes|} || (t.op.Delete? && t.was.None?)
    ensures var f := FateOf(t, Applied(t, applied), |s.nodes|, Latest(s.log, t.key));
      f.Holds? && Agreed(NodesFailed(s, t, applied), t.key, f.v)
  {
    assert RestOk(s, t);
    if !applied && t.at == 0 {
      if Latest(s.log, t.key).Some? {
        assert OwnedBy(s.nodes, t.key, Latest(s.log, t.key).value, t.was.value);
      }
    } else if t.op.Post? {
      PostEnds(s, t);
    }
  }

  /**
   What a failed call does to a key that was not torn. With `k` calls applied of `n`, the nodes still agree if and
   only if k is 0 or n, or the operation is a post by the node that had the key, or a delete of an absent key; and
   what they hold then is the old value, or the new one where the call that stores it was applied.
   */
  lemma FailTearsIff(s: Sys, id: nat, applied: bool)
    requires Inv(s) && id in s.tasks && !s.tasks[id].op.Get? && s.tasks[id].key !in s.torn
    ensures Calls(s, s.tasks[id])
    ensures var t := s.tasks[id]; var s', k, n := Exec(s, Fail(id, applied)), Applied(t, applied), |s.nodes|;
      && (t.key in s'.torn <==> !exists w {:trigger Agreed(s'.nodes, t.key, w)} :: Agreed(s'.nodes, t.key, w))
      && (t.key !in s'.torn <==> k == 0 || k == n || if t.op.Post? then t.was == Some(t.local) else t.was.None?)
      && (t.key !in s'.torn ==> FateOf(t, k, n, Latest(s.log, t.key)) == Holds(Latest(s'.log, t.key)))
  {
    assert TaskAt(s, id);
    var t := s.tasks[id];
    var s', k, n := Exec(s, Fail(id, applied)), Applied(t, applied), |s.nodes|;
    if k == 0 || k == n || (t.op.Delete? && t.was.None?) {
      FailedWhole(s, t, applied);
      AgreedHeld(s'.nodes, t.key, FateOf(t, k, n, Latest(s.log, t.key)).v);
    } else if t.op.Post? && t.was == Some(t.local) {
      FailedOwnPost(s, t, applied);
      AgreedHeld(s'.nodes, t.key, FateOf(t, k, n, Latest(s.log, t.key)).v);
    } else {
      forall w: Option<Value> ensures !Agreed(s'.nodes, t.key, w) {
        if t.op.Post? {
          FailedPost(s, t, applied, w);
        } else {
          FailedDelete(s, t, applied, w);
        }
      }
    }
  }

  /** A post that completes mends a torn key. */
  lemma PostMends(s: Sys, id: nat)
    requires Inv(s) && id in s.tasks && s.tasks[id].op.Post? && s.tasks[id].at + 1 == |s.nodes|
    ensures Enabled(s, Call(id))
    ensures var s' := Exec(s, Call(id)); var t := s.tasks[id];
      t.key !in s'.torn && Agreed(s'.nodes, t.key, Some(t.op.val)) && Latest(s'.log, t.key) == Some(t.op.val)
  {
    assert TaskAt(s, id);
    PostEnds(s, s.tasks[id]);
    AgreedHeld(NodesAfter(s, s.tasks[id]), s.tasks[id].key, Some(s.tasks[id].op.val));
  }

  /**
   A delete of a present key that fails after some of its calls, but not all, leaves the key torn, and deleting again
   does not help: the first node has lost it, so every later delete stops there and changes nothing.
   */
  lemma HalfDeleteStuck(s: Sys, id: nat, applied: bool, t': Task)
    requires Inv(s) && id in s.tasks && s.tasks[id].op.Delete? && s.tasks[id].key !in s.torn && s.tasks[id].was.Some?
    requires 0 < Applied(s.tasks[id], applied) < |s.nodes|
    requires t'.key == s.tasks[id].key && t'.op.Delete? && t'.at == 0 && Calls(s, t')
    ensures Calls(s, s.tasks[id])
    ensures var t := s.tasks[id]; var s' := Exec(s, Fail(id, applied));
      t.key in s'.torn && Next(s', t') == Answers(Deleted(false)) && NodesAfter(s', t') == s'.nodes
  {
    assert TaskAt(s, id);
    FailTearsIff(s, id, applied);
    FailedDelete(s, s.tasks[id], applied, None);
    var s' := Exec(s, Fail(id, applied));
    assert s'.nodes[0] - {t'.key} == s'.nodes[0];
  }
}
