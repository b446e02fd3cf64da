/**
 All files of a volume and the allocator they share (userfs/userfs_file_ops.c, userfs/userfs_file_ctrl.c): creating a
 file takes a block for its inode, and a write takes one when it reaches a block that was never allocated.
 */
module Volume {
  import opened Common
  import opened FileBlocks
  import BA = BlockAlloc

  datatype Vol = Vol(fs: BA.Fs, files: seq<State>, disk: seq<seq<Byte>>)

  /** `r` is what the allocator gave the new file's inode. */
  datatype Event = NewFile(r: int, len: nat, data: seq<Byte>) | Access(f: nat, e: FileBlocks.Event)

  /** What the allocator gave a write. */
  function Number(got: Grant): (r: int) {
    if got.Some? then got.value.0 else -1
  }

  /** An access asks the allocator exactly when it writes to a block that is not there. */
  predicate Asks(s: State, e: FileBlocks.Event) {
    e.Writing? && e.p.v < |s.table| && s.table[e.p.v].Hole?
  }

  ghost predicate Next(v: Vol, v': Vol, g: Geo, ev: Event) {
    && v'.disk == v.disk
    && match ev
       case NewFile(r, len, data) =>
         && len > 0 && |data| == g.shard && BA.Allocates(v.fs, v'.fs, r)
         && v'.files == if r < 0 then v.files
                        else v.files + [State(0, [Held(r, 0, data)] + seq(len - 1, _ => Hole), v.disk)]
       case Access(f, e) =>
         && f < |v.files| && StateOk(v.files[f], g) && Allowed(v.files[f], g, e)
         && v'.files == v.files[f := Step(v.files[f], g, e)]
         && if Asks(v.files[f], e) then BA.Allocates(v.fs, v'.fs, Number(e.got)) else v'.fs == v.fs
  }

  /** Entry `x` of file `f` leads to block `nr`. */
  predicate Names(files: seq<State>, f: nat, x: nat, nr: nat) {
    f < |files| && x < |files[f].table| && !files[f].table[x].Hole? && files[f].table[x].nr == nr
  }

  /** Every block in a table was given out by the allocator, and is in one place of one file only. */
  ghost predicate Inv(v: Vol, g: Geo) {
    && BA.Inv(v.fs)
    && (forall f {:trigger v.files[f]} :: 0 <= f < |v.files| ==> StateOk(v.files[f], g))
    && (forall f: nat, x: nat, nr: nat {:trigger Names(v.files, f, x, nr)} :: Names(v.files, f, x, nr) ==> nr in v.fs.handed)
    && (forall f: nat, x: nat, f': nat, x': nat, nr: nat {:trigger Names(v.files, f, x, nr), Names(v.files, f', x', nr)} ::
          Names(v.files, f, x, nr) && Names(v.files, f', x', nr) ==> f == f' && x == x')
  }

  /** What an access changes in its file's table: the block it goes to, whose number stays or is the one given. */
  lemma StepNumbers(s: State, g: Geo, e: FileBlocks.Event)
    requires StateOk(s, g) && Allowed(s, g, e)
    ensures var s' := Step(s, g, e);
      && StateOk(s', g) && |s'.table| == |s.table|
      && forall x: nat {:trigger s'.table[x]} :: x < |s.table| ==>
           if x == e.p.v && Asks(s, e) && e.got.Some? then s'.table[x].Held? && s'.table[x].nr == e.got.value.0
           else s'.table[x].Hole? == s.table[x].Hole? && (!s.table[x].Hole? ==> s'.table[x].nr == s.table[x].nr)
  {
    StepOk(s, g, e);
    match e {
      case Writing(p, end, buf, got) =>
        if Succeeds(s, p.v, got) {
          PutBlock(s, g, p, end, buf, got);
        } else {
          PutFails(s, g, p, end, buf, got);
        }
      case Reading(p, end, size) => assert BlockOk(s, g, s.table[p.v]);
    }
  }

  lemma NewFileKeeps(v: Vol, v': Vol, g: Geo, ev: Event)
    requires Inv(v, g) && Next(v, v', g, ev) && ev.NewFile?
    ensures Inv(v', g)
  {
    BA.AllocStep(v.fs, v'.fs, ev.r);
    forall f: nat, x: nat, nr: nat | Names(v'.files, f, x, nr)
      ensures Names(v.files, f, x, nr) || (f == |v.files| && x == 0 && nr == ev.r)
    {
    }
  }

  lemma AccessKeeps(v: Vol, v': Vol, g: Geo, ev: Event)
    requires Inv(v, g) && Next(v, v', g, ev) && ev.Access?
    ensures Inv(v', g)
  {
    var f, e := ev.f, ev.e;
    StepNumbers(v.files[f], g, e);
    if Asks(v.files[f], e) {
      BA.AllocStep(v.fs, v'.fs, Number(e.got));
    }
    forall h: nat, x: nat, nr: nat | Names(v'.files, h, x, nr)
      ensures Names(v.files, h, x, nr) || (h == f && x == e.p.v && Asks(v.files[f], e) && e.got.Some? && nr == e.got.value.0)
    {
      if h == f {
        assert v'.files[f].table[x] == Step(v.files[f], g, e).table[x];
      }
    }
  }

  // ---------------------------------------------------------------------------------------------
  // Runs

  ghost predicate StepAt(vs: seq<Vol>, g: Geo, evs: seq<Event>, k: nat)
    requires |vs| == |evs| + 1 && k < |evs|
  {
    Next(vs[k], vs[k + 1], g, evs[k])
  }

  ghost predicate IsRun(vs: seq<Vol>, g: Geo, evs: seq<Event>) {
    |vs| == |evs| + 1 && forall k: nat {:trigger StepAt(vs, g, evs, k)} :: k < |evs| ==> StepAt(vs, g, evs, k)
  }

  lemma {:induction false} RunKeepsInv(vs: seq<Vol>, g: Geo, evs: seq<Event>, k: nat)
    requires IsRun(vs, g, evs) && Inv(vs[0], g) && k < |vs|
    ensures Inv(vs[k], g)
  {
    if k > 0 {
      RunKeepsInv(vs, g, evs, k - 1);
      assert StepAt(vs, g, evs, k - 1);
      if evs[k - 1].NewFile? {
        NewFileKeeps(vs[k - 1], vs[k], g, evs[k - 1]);
      } else {
        AccessKeeps(vs[k - 1], vs[k], g, evs[k - 1]);
      }
    }
  }

  /** From a fresh format, no block is ever held by two files, or twice by one. */
  lemma BlocksNeverShared(vs: seq<Vol>, g: Geo, evs: seq<Event>, count: nat, bpg: nat, sbFree: nat, behind: seq<bool>,
                          k: nat, f: nat, x: nat, f': nat, x': nat, nr: nat)
    requires IsRun(vs, g, evs) && k < |vs| && vs[0].fs == BA.Format(count, bpg, sbFree, behind) && vs[0].files == []
    requires count > 0 && bpg > 0 && bpg % 8 == 0 && bpg < 65536 && sbFree < WORD && |behind| > 0 && !behind[0]
    requires Names(vs[k].files, f, x, nr) && Names(vs[k].files, f', x', nr)
    ensures f == f' && x == x' && nr < BA.Capacity(vs[k].fs)
  {
    BA.FormatInvIff(count, bpg, sbFree, behind);
    RunKeepsInv(vs, g, evs, k);
  }
}
