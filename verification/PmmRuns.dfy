/** Every run of frame allocations and frees by owners, over the frame allocator's states. */
module PmmRuns {
  import opened Arith
  import opened Pmm
  import opened PageEntry
  import opened Seqs

  /** A run of frames handed out and not yet given back. */
  datatype Run = Run(base: nat, count: nat)

  /** The allocator as its callers see it: which frames are in use, the used-frame counter, the runs
  outstanding, and how many frames were ever freed. */
  datatype State = State(u: seq<bool>, used: nat, owned: set<Run>, freed: nat)

  datatype Op = Allocate(count: nat, alignment: nat) | Free(run: Run)

  ghost function Scan(s: State, count: nat, alignment: nat): Option<nat> {
    if count == 0 then None else FirstFit(s.u, 0, count, StepOf(alignment))
  }

  /** One call that does not panic. A caller only frees what it owns. */
  ghost predicate Next(s: State, op: Op, s': State) {
    match op
    case Allocate(count, alignment) =>
      (match Scan(s, count, alignment)
       case None => s' == s
       case Some(b) =>
         && b + count <= |s.u|
         && s' == State(Filled(s.u, b, count, true), s.used + count, s.owned + {Run(b, count)}, s.freed))
    case Free(run) =>
      && run in s.owned && run.base + run.count <= |s.u|
      && s' == State(Filled(s.u, run.base, run.count, false), s.used, s.owned - {run}, s.freed + run.count)
  }

  ghost predicate InRun(r: Run, f: int) { r.base <= f < r.base + r.count }

  function CountUsed(u: seq<bool>): nat {
    if u == [] then 0 else (if u[0] then 1 else 0) + CountUsed(u[1..])
  }

  /** What every state of a run from `s0` satisfies. */
  ghost predicate Inv(s0: State, s: State) {
    && |s.u| == |s0.u|
    && (forall r :: r in s.owned ==> r.count > 0 && r.base + r.count <= |s.u|)
    && (forall r, f :: r in s.owned && InRun(r, f) && f < |s.u| ==> s.u[f] && !s0.u[f])
    && (forall r, q, f :: r in s.owned && q in s.owned && InRun(r, f) && InRun(q, f) ==> r == q)
    && (forall f :: 0 <= f < |s0.u| && s0.u[f] ==> s.u[f])
    && CountUsed(s.u) + s.freed == CountUsed(s0.u) + (s.used - s0.used)
  }

  function One(b: bool): int { if b then 1 else 0 }

  lemma {:induction false} CountStore(u: seq<bool>, i: int, b: bool)
    requires 0 <= i < |u|
    ensures CountUsed(u[i := b]) == CountUsed(u) - One(u[i]) + One(b)
  {
    if i > 0 {
      assert u[i := b][1..] == u[1..][i - 1 := b];
      CountStore(u[1..], i - 1, b);
    } else {
      assert u[i := b][1..] == u[1..];
    }
  }

  lemma {:induction false} CountFilled(u: seq<bool>, base: nat, count: nat, b: bool)
    requires base + count <= |u| && forall i :: base <= i < base + count ==> u[i] == !b
    ensures CountUsed(Filled(u, base, count, b)) == CountUsed(u) + count * (One(b) - One(!b))
  {
    if count == 0 {
      assert Filled(u, base, 0, b) == u;
    } else {
      var m := Filled(u, base, count - 1, b);
      CountFilled(u, base, count - 1, b);
      assert Filled(u, base, count, b) == m[base + count - 1 := b];
      CountStore(m, base + count - 1, b);
    }
  }

  /** One step keeps the invariant, and what it hands out was free. */
  lemma {:induction false} StepKeeps(s0: State, s: State, op: Op, s': State)
    requires Inv(s0, s) && Next(s, op, s')
    ensures Inv(s0, s')
    ensures op.Allocate? && s' != s ==> forall f :: 0 <= f < |s.u| && s'.u[f] && !s.u[f] ==> !s0.u[f]
  {
    match op
    case Allocate(count, alignment) =>
      var fit := Scan(s, count, alignment);
      if fit.Some? {
        FirstFitIsLowest(s.u, 0, count, StepOf(alignment));
        TakeKeeps(s0, s, Run(fit.value, count), s');
      }
    case Free(run) =>
      GiveKeeps(s0, s, run, s');
  }

  lemma {:induction false} TakeKeeps(s0: State, s: State, run: Run, s': State)
    requires Inv(s0, s) && run.count > 0 && RunFree(s.u, run.base, run.count)
    requires s' == State(Filled(s.u, run.base, run.count, true), s.used + run.count, s.owned + {run}, s.freed)
    ensures Inv(s0, s')
  {
    CountFilled(s.u, run.base, run.count, true);
    forall q, f | q in s.owned && InRun(q, f) ensures !InRun(run, f) {
      assert s.u[f];
    }
  }

  lemma {:induction false} GiveKeeps(s0: State, s: State, run: Run, s': State)
    requires Inv(s0, s) && run in s.owned
    requires s' == State(Filled(s.u, run.base, run.count, false), s.used, s.owned - {run}, s.freed + run.count)
    ensures Inv(s0, s')
  {
    assert forall i :: run.base <= i < run.base + run.count ==> InRun(run, i) && s.u[i];
    CountFilled(s.u, run.base, run.count, false);
  }

  ghost predicate IsRun(states: seq<State>, ops: seq<Op>) {
    && |states| == |ops| + 1
    && states[0].owned == {} && states[0].freed == 0
    && forall i :: 0 <= i < |ops| ==> Next(states[i], ops[i], states[i + 1])
  }

  /** Over every run: outstanding allocations are pairwise disjoint and marked used, frames in use at
  the start are never handed out, and set bits plus frames ever freed equals the initial set bits
  plus the growth of the used counter. */
  lemma {:induction false} RunKeeps(states: seq<State>, ops: seq<Op>, n: nat)
    requires IsRun(states, ops) && n < |states|
    ensures Inv(states[0], states[n])
  {
    if n > 0 {
      RunKeeps(states, ops, n - 1);
      StepKeeps(states[0], states[n - 1], ops[n - 1], states[n]);
    }
  }

  // ----- the allocator takes these steps -----

  ghost predicate Shows(pmm: FrameAllocator, s: State)
    requires pmm.Valid()
    reads pmm, pmm.bitmap
  {
    pmm.Used() == s.u && pmm.used == s.used
  }

  /** An allocation is a step, and it hands out zeroed frames and changes no other. */
  method AllocateRun(pmm: FrameAllocator, ghost s: State, count: nat, alignment: nat)
      returns (addr: nat, ghost s': State)
    requires pmm.Valid() && Shows(pmm, s)
    modifies pmm`used, pmm.bitmap, pmm.ram
    ensures Shows(pmm, s') && Next(s, Allocate(count, alignment), s')
    ensures match Scan(s, count, alignment)
      case None => addr == 0 && pmm.Mem() == old(pmm.Mem())
      case Some(b) =>
        addr == b * FRAME_SIZE && b + count <= pmm.frames && pmm.Mem() == old(Filled(pmm.Mem(), b, count, ZeroFrame()))
  {
    ghost var fit := pmm.Fit(count, alignment);
    addr := pmm.AllocateFrames(count, alignment);
    s' := if fit.None? then s
          else State(Filled(s.u, fit.value, count, true), s.used + count, s.owned + {Run(fit.value, count)}, s.freed);
  }

  /** In every state a run of steps reaches, giving back an outstanding run is a step and never panics. */
  method FreeRun(pmm: FrameAllocator, ghost s0: State, ghost s: State, run: Run)
      returns (r: FreeResult, ghost s': State)
    requires pmm.Valid() && Shows(pmm, s) && pmm.frames * FRAME_SIZE <= U64
    requires Inv(s0, s) && run in s.owned
    modifies pmm.bitmap
    ensures r == Freed && Shows(pmm, s') && Next(s, Free(run), s')
  {
    assert forall i :: run.base <= i < run.base + run.count ==> InRun(run, i) && s.u[i];
    assert run.base < pmm.frames && run.base * FRAME_SIZE / FRAME_SIZE == run.base;
    r := pmm.FreeFrames(run.base * FRAME_SIZE, run.count);
    s' := State(Filled(s.u, run.base, run.count, false), s.used, s.owned - {run}, s.freed + run.count);
  }
}
