/** `alloc_frame` and `free_frame` of memory.c: descriptors, the bitmap and the mapping
    of each descriptor's own page to its frame. */
module FrameAllocator {
  import opened FrameBitmap
  import KernelHeap
  import opened PageTables
  import opened Prelude

  /** The frames taken of all limit frames, the page tables, and the used descriptors by
      their addresses. */
  datatype Pool = Pool(taken: set<nat>, limit: nat, space: Space, used: set<Address>)
  {
    ghost predicate Valid() {
      && 0 < limit <= MAX_PAGES
      && (forall f | f in taken :: f < limit)
      && space.Valid() && space.Backed() && space.Separate()
      && (forall d | d in used :: Mapped(d))
    }

    /** The directory entry of the descriptor's page is present. */
    ghost predicate Mapped(d: Address)
      requires space.Valid()
    {
      Present(space.dir[DirIndex(d)])
    }

    ghost predicate IsFull() {
      forall f: nat | f < limit :: f in taken
    }

    /** What `first_free_frame` answers: the least free frame, or 0. */
    ghost predicate IsFirstFree(f: nat) {
      if IsFull() then f == 0 else f < limit && f !in taken && forall g: nat | g < f :: g in taken
    }

    /** The frame that `free_frame` finds for a descriptor. */
    ghost function FrameOf(d: Address): nat
      requires space.Valid() && space.Backed()
    {
      space.GetPhysaddr(d) / PAGE_SIZE
    }

    /** `alloc_frame`, when `first_free_frame` answers f. */
    ghost function Alloc(d: Address, f: nat, flags: bv12): (p: Pool)
      requires Valid() && Mapped(d) && f < limit
      ensures p.Valid() && p.limit == limit && p.space.dir == space.dir
    {
      if d in used then this
      else Pool(taken + {f}, limit, space.MapPage(f * PAGE_SIZE, d, flags), used + {d})
    }

    lemma AllocUsed(d: Address, f: nat, flags: bv12)
      requires Valid() && Mapped(d) && f < limit && d in used
      ensures Alloc(d, f, flags) == this
    {
    }

    lemma AllocIs(d: Address, f: nat, flags: bv12)
      requires Valid() && Mapped(d) && f < limit && d !in used
      ensures Alloc(d, f, flags) == Pool(taken + {f}, limit, space.MapPage(f * PAGE_SIZE, d, flags), used + {d})
    {
    }

    /** `free_frame`. */
    ghost function Free(d: Address): (p: Pool)
      requires Valid()
      ensures p.Valid() && p.limit == limit && p.space == space
    {
      if d !in used then this else Pool(taken - {FrameOf(d)}, limit, space, used - {d})
    }

    /** Frames are conserved: those taken are the reserved ones and exactly one for each
        used descriptor, all different. */
    ghost predicate Conserves(reserved: set<nat>) {
      && Valid()
      && taken == reserved + FramesOf(used)
      && (forall d | d in used :: FrameOf(d) !in reserved)
      && (forall d, e | d in used && e in used && d != e :: FrameOf(d) != FrameOf(e))
    }

    ghost function FramesOf(ds: set<Address>): set<nat>
      requires space.Valid() && space.Backed()
    {
      set d | d in ds :: FrameOf(d)
    }

    /** No other used descriptor lies in the page of d. */
    ghost predicate OwnPage(d: Address) {
      forall e | e in used && e != d :: PageOf(e) != PageOf(d)
    }

    lemma AllocMaps(d: Address, f: nat, flags: bv12, e: Address)
      requires Valid() && Mapped(d) && f < limit && d !in used && Mapped(e)
      ensures Alloc(d, f, flags).FrameOf(e) == if PageOf(d) == PageOf(e) then f else FrameOf(e)
    {
      hide Space.MapPage, Space.GetPhysaddr, Space.SameSlot, Space.Separate;
      space.MapThenGet(f * PAGE_SIZE, d, flags, e);
      space.SameSlotIff(d, e);
    }

    lemma OwnPageConserves(reserved: set<nat>, d: Address, f: nat, flags: bv12)
      requires Conserves(reserved) && Mapped(d) && d !in used && f < limit && f !in taken && OwnPage(d)
      ensures Alloc(d, f, flags).Conserves(reserved)
    {
      var after := Alloc(d, f, flags);
      forall e | e in used + {d}
        ensures after.FrameOf(e) == if e == d then f else FrameOf(e)
      {
        AllocMaps(d, f, flags, e);
      }
      hide Pool.Alloc, FrameOf, Pool.Valid;
      AllocIs(d, f, flags);
      assert after.FramesOf(after.used) == FramesOf(used) + {f};
    }

    /** An allocation conserves frames exactly when a frame is free and the descriptor has its
        page to itself; from a full bitmap it hands out frame 0 again. */
    lemma AllocConservesIff(reserved: set<nat>, d: Address, f: nat, flags: bv12)
      requires Conserves(reserved) && 0 in reserved && Mapped(d) && d !in used
      requires IsFirstFree(f) && f < limit
      ensures Alloc(d, f, flags).Conserves(reserved) <==> !IsFull() && OwnPage(d)
    {
      var after := Alloc(d, f, flags);
      AllocMaps(d, f, flags, d);
      if IsFull() {
        assert after.FrameOf(d) == 0 && d in after.used;
      } else if e :| e in used && e != d && PageOf(e) == PageOf(d) {
        AllocMaps(d, f, flags, e);
        assert after.FrameOf(d) == after.FrameOf(e) && d in after.used && e in after.used;
      } else {
        OwnPageConserves(reserved, d, f, flags);
      }
    }

    /** A frame that is taken for no descriptor: none of them finds it again. */
    ghost predicate Leaked(reserved: set<nat>, f: nat)
      requires Valid()
    {
      f in taken && f !in reserved && forall d | d in used :: FrameOf(d) != f
    }

    /** An allocation in a page that another descriptor holds leaks the frame of that one. */
    lemma SharingLeaks(reserved: set<nat>, d: Address, f: nat, flags: bv12, e: Address)
      requires Conserves(reserved) && Mapped(d) && d !in used && f < limit && f !in taken
      requires e in used && PageOf(e) == PageOf(d)
      ensures Alloc(d, f, flags).Leaked(reserved, FrameOf(e))
    {
      var after := Alloc(d, f, flags);
      forall x | x in after.used
        ensures after.FrameOf(x) != FrameOf(e)
      {
        AllocMaps(d, f, flags, x);
      }
    }

    /** Freeing a descriptor conserves frames, and clears the very bit that was its own. */
    lemma FreeConserves(reserved: set<nat>, d: Address)
      requires Conserves(reserved)
      ensures Free(d).Conserves(reserved)
      ensures d in used ==> FrameOf(d) in taken && Free(d).taken == taken - {FrameOf(d)}
    {
      if d in used {
        var after := Free(d);
        assert forall e | e in after.used :: after.FrameOf(e) == FrameOf(e);
        assert after.FramesOf(after.used) == FramesOf(used) - {FrameOf(d)};
      }
    }

    /** What an allocation set, freeing the descriptor clears. */
    lemma FreeUndoesAlloc(d: Address, f: nat, flags: bv12)
      requires Valid() && Mapped(d) && d !in used && f < limit && f !in taken
      ensures Alloc(d, f, flags).Free(d).taken == taken
      ensures Alloc(d, f, flags).Free(d).used == used
    {
      AllocMaps(d, f, flags, d);
    }

    /** A second descriptor in the same page takes over its mapping: freeing the first
        then clears the frame of the second and leaves its own taken. */
    lemma SharedPageFreesTheOther(d: Address, f: nat, e: Address, g: nat, flags: bv12)
      requires Valid() && Mapped(d) && Mapped(e) && d != e && d !in used && e !in used
      requires f < limit && g < limit && f != g && f !in taken && g !in taken
      ensures var after := Alloc(d, f, flags).Alloc(e, g, flags).Free(d);
              if PageOf(d) == PageOf(e) then f in after.taken && g !in after.taken
              else f !in after.taken && g in after.taken
    {
      var one := Alloc(d, f, flags);
      AllocMaps(d, f, flags, d);
      one.AllocMaps(e, g, flags, d);
    }

    /** The number of frames taken follows the number of used descriptors. */
    lemma CountTaken(reserved: set<nat>)
      requires Conserves(reserved)
      ensures |taken| == |reserved| + |used|
    {
      CountFrames(used);
      assert reserved !! FramesOf(used);
    }

    lemma {:induction false} CountFrames(ds: set<Address>)
      requires space.Valid() && space.Backed()
      requires forall d, e | d in ds && e in ds && d != e :: FrameOf(d) != FrameOf(e)
      ensures |FramesOf(ds)| == |ds|
      decreases ds
    {
      if ds != {} {
        var d :| d in ds;
        CountFrames(ds - {d});
        assert FramesOf(ds) == FramesOf(ds - {d}) + {FrameOf(d)};
        assert FrameOf(d) !in FramesOf(ds - {d});
      }
    }
  }

  // Runs

  datatype Op = AllocOp(d: Address, flags: bv12) | FreeOp(d: Address)

  /** The descriptors in play, all of them mapped. */
  ghost predicate InPlay(pool: Pool, ds: set<Address>) {
    pool.Valid() && pool.used <= ds && forall d | d in ds :: pool.Mapped(d)
  }

  /** Each descriptor lies in a page of its own. */
  ghost predicate InOwnPages(ds: set<Address>) {
    forall d, e | d in ds && e in ds && d != e :: PageOf(d) != PageOf(e)
  }

  ghost function FirstFree(pool: Pool): (f: nat)
    requires pool.Valid()
    ensures f < pool.limit && pool.IsFirstFree(f)
  {
    if pool.IsFull() then 0
    else
      var g: nat :| g < pool.limit && g !in pool.taken;
      LeastFree(pool, g);
      var f: nat :| f < pool.limit && pool.IsFirstFree(f);
      f
  }

  lemma {:induction false} LeastFree(pool: Pool, g: nat)
    requires pool.Valid() && g < pool.limit && g !in pool.taken
    ensures exists f: nat :: f < pool.limit && pool.IsFirstFree(f)
  {
    if f: nat :| f < g && f !in pool.taken {
      LeastFree(pool, f);
    } else {
      assert pool.IsFirstFree(g);
    }
  }

  ghost function Step(pool: Pool, ds: set<Address>, op: Op): (after: Pool)
    requires InPlay(pool, ds) && op.d in ds
    ensures InPlay(after, ds)
  {
    match op
    case AllocOp(d, flags) => pool.Alloc(d, FirstFree(pool), flags)
    case FreeOp(d) => pool.Free(d)
  }

  ghost function Run(pool: Pool, ds: set<Address>, ops: seq<Op>): (after: Pool)
    requires InPlay(pool, ds) && forall op | op in ops :: op.d in ds
    ensures InPlay(after, ds)
    decreases |ops|
  {
    if ops == [] then pool
    else assert ops[0] in ops; Run(Step(pool, ds, ops[0]), ds, ops[1..])
  }

  /** Some allocation of the run finds no free frame. */
  ghost predicate RunsOut(pool: Pool, ds: set<Address>, ops: seq<Op>)
    requires InPlay(pool, ds) && forall op | op in ops :: op.d in ds
    decreases |ops|
  {
    ops != [] &&
    (assert ops[0] in ops;
     (ops[0].AllocOp? && ops[0].d !in pool.used && pool.IsFull()) || RunsOut(Step(pool, ds, ops[0]), ds, ops[1..]))
  }

  /** Some allocation of the run is in a page that another used descriptor holds. */
  ghost predicate Shares(pool: Pool, ds: set<Address>, ops: seq<Op>)
    requires InPlay(pool, ds) && forall op | op in ops :: op.d in ds
    decreases |ops|
  {
    ops != [] &&
    (assert ops[0] in ops;
     (ops[0].AllocOp? && ops[0].d !in pool.used && !pool.OwnPage(ops[0].d))
      || Shares(Step(pool, ds, ops[0]), ds, ops[1..]))
  }

  /** Frame 0, which was reserved, has been lost to a descriptor or set free. */
  ghost predicate LostFrameZero(pool: Pool)
    requires pool.Valid()
  {
    0 !in pool.taken || exists d :: d in pool.used && pool.FrameOf(d) == 0
  }

  lemma LostFrameZeroStays(pool: Pool, ds: set<Address>, op: Op)
    requires InPlay(pool, ds) && InOwnPages(ds) && op.d in ds && LostFrameZero(pool)
    ensures LostFrameZero(Step(pool, ds, op))
  {
    var after := Step(pool, ds, op);
    match op
    case AllocOp(d, flags) =>
      if d !in pool.used {
        var f := FirstFree(pool);
        pool.AllocMaps(d, f, flags, d);
        if e :| e in pool.used && pool.FrameOf(e) == 0 {
          pool.AllocMaps(d, f, flags, e);
          assert e in after.used && after.FrameOf(e) == 0;
        } else {
          assert d in after.used && after.FrameOf(d) == 0;
        }
      }
    case FreeOp(d) =>
      if e :| e in pool.used && pool.FrameOf(e) == 0 {
        if d in pool.used && d != e {
          assert e in after.used && after.FrameOf(e) == 0;
        }
      }
  }

  lemma {:induction false} LostFrameZeroForGood(pool: Pool, ds: set<Address>, ops: seq<Op>)
    requires InPlay(pool, ds) && InOwnPages(ds) && (forall op | op in ops :: op.d in ds) && LostFrameZero(pool)
    ensures LostFrameZero(Run(pool, ds, ops))
    decreases |ops|
  {
    if ops != [] {
      assert ops[0] in ops;
      LostFrameZeroStays(pool, ds, ops[0]);
      LostFrameZeroForGood(Step(pool, ds, ops[0]), ds, ops[1..]);
    }
  }

  /** Over any run of allocations and releases on descriptors in pages of their own,
      frames are conserved at the end exactly when no allocation ran out of frames. */
  lemma {:induction false} RunConservesIff(pool: Pool, reserved: set<nat>, ds: set<Address>, ops: seq<Op>)
    requires InPlay(pool, ds) && InOwnPages(ds) && forall op | op in ops :: op.d in ds
    requires pool.Conserves(reserved) && 0 in reserved
    ensures Run(pool, ds, ops).Conserves(reserved) <==> !RunsOut(pool, ds, ops)
    decreases |ops|
  {
    if ops != [] {
      var op := ops[0];
      assert op in ops;
      var next := Step(pool, ds, op);
      if op.AllocOp? && op.d !in pool.used && pool.IsFull() {
        pool.AllocMaps(op.d, 0, op.flags, op.d);
        assert op.d in next.used && next.FrameOf(op.d) == 0;
        LostFrameZeroForGood(next, ds, ops[1..]);
      } else {
        StepConserves(pool, reserved, ds, op);
        RunConservesIff(next, reserved, ds, ops[1..]);
      }
    }
  }

  lemma StepConserves(pool: Pool, reserved: set<nat>, ds: set<Address>, op: Op)
    requires InPlay(pool, ds) && op.d in ds
    requires pool.Conserves(reserved) && 0 in reserved
    requires op.AllocOp? ==> op.d in pool.used || (!pool.IsFull() && pool.OwnPage(op.d))
    ensures Step(pool, ds, op).Conserves(reserved)
  {
    match op
    case AllocOp(d, flags) =>
      if d !in pool.used {
        pool.AllocConservesIff(reserved, d, FirstFree(pool), flags);
      }
    case FreeOp(d) => pool.FreeConserves(reserved, d);
  }

  /** Frames are conserved at every time of the run. */
  ghost predicate AlwaysConserves(pool: Pool, reserved: set<nat>, ds: set<Address>, ops: seq<Op>)
    requires InPlay(pool, ds) && forall op | op in ops :: op.d in ds
    decreases |ops|
  {
    pool.Conserves(reserved) &&
    (ops != [] ==> assert ops[0] in ops; AlwaysConserves(Step(pool, ds, ops[0]), reserved, ds, ops[1..]))
  }

  /** Over any run on any descriptors, frames are conserved at every time exactly when no
      allocation runs out of frames or is in the page of another used descriptor. */
  lemma {:induction false} AlwaysConservesIff(pool: Pool, reserved: set<nat>, ds: set<Address>, ops: seq<Op>)
    requires InPlay(pool, ds) && forall op | op in ops :: op.d in ds
    requires pool.Conserves(reserved) && 0 in reserved
    ensures AlwaysConserves(pool, reserved, ds, ops) <==> !RunsOut(pool, ds, ops) && !Shares(pool, ds, ops)
    decreases |ops|
  {
    if ops != [] {
      var op := ops[0];
      assert op in ops;
      if op.AllocOp? && op.d !in pool.used && (pool.IsFull() || !pool.OwnPage(op.d)) {
        pool.AllocConservesIff(reserved, op.d, FirstFree(pool), op.flags);
      } else {
        StepConserves(pool, reserved, ds, op);
        AlwaysConservesIff(Step(pool, ds, op), reserved, ds, ops[1..]);
      }
    }
  }

  lemma LeakStays(pool: Pool, reserved: set<nat>, ds: set<Address>, op: Op, f: nat)
    requires InPlay(pool, ds) && op.d in ds && 0 in reserved && pool.Leaked(reserved, f)
    ensures Step(pool, ds, op).Leaked(reserved, f)
  {
    var after := Step(pool, ds, op);
    if op.AllocOp? && op.d !in pool.used {
      forall e | e in after.used
        ensures after.FrameOf(e) != f
      {
        pool.AllocMaps(op.d, FirstFree(pool), op.flags, e);
      }
    }
  }

  lemma {:induction false} LeakStaysForGood(pool: Pool, reserved: set<nat>, ds: set<Address>, ops: seq<Op>, f: nat)
    requires InPlay(pool, ds) && (forall op | op in ops :: op.d in ds) && 0 in reserved && pool.Leaked(reserved, f)
    ensures Run(pool, ds, ops).Leaked(reserved, f)
    decreases |ops|
  {
    if ops != [] {
      assert ops[0] in ops;
      LeakStays(pool, reserved, ds, ops[0], f);
      LeakStaysForGood(Step(pool, ds, ops[0]), reserved, ds, ops[1..], f);
    }
  }

  /** Descriptors may share pages, as neighbouring page table entries do. Over any run that
      always finds a free frame, frames are conserved at the end exactly when no allocation
      was in a page that another used descriptor held. */
  lemma {:induction false} SharedRunConservesIff(pool: Pool, reserved: set<nat>, ds: set<Address>, ops: seq<Op>)
    requires InPlay(pool, ds) && forall op | op in ops :: op.d in ds
    requires pool.Conserves(reserved) && 0 in reserved && !RunsOut(pool, ds, ops)
    ensures Run(pool, ds, ops).Conserves(reserved) <==> !Shares(pool, ds, ops)
    decreases |ops|
  {
    if ops != [] {
      var op := ops[0];
      assert op in ops;
      var next := Step(pool, ds, op);
      if op.AllocOp? && op.d !in pool.used && !pool.OwnPage(op.d) {
        var e :| e in pool.used && e != op.d && PageOf(e) == PageOf(op.d);
        var f := pool.FrameOf(e);
        pool.SharingLeaks(reserved, op.d, FirstFree(pool), op.flags, e);
        LeakStaysForGood(next, reserved, ds, ops[1..], f);
        LeakSpoils(Run(next, ds, ops[1..]), reserved, f);
      } else {
        StepConserves(pool, reserved, ds, op);
        SharedRunConservesIff(next, reserved, ds, ops[1..]);
      }
    }
  }

  lemma LeakSpoils(pool: Pool, reserved: set<nat>, f: nat)
    requires pool.Valid() && pool.Leaked(reserved, f)
    ensures !pool.Conserves(reserved)
  {
  }

  lemma RunCons(pool: Pool, ds: set<Address>, op: Op, rest: seq<Op>)
    requires InPlay(pool, ds) && op.d in ds && forall o | o in rest :: o.d in ds
    ensures Run(pool, ds, [op] + rest) == Run(Step(pool, ds, op), ds, rest)
    ensures RunsOut(pool, ds, [op] + rest) <==>
      (op.AllocOp? && op.d !in pool.used && pool.IsFull()) || RunsOut(Step(pool, ds, op), ds, rest)
  {
    assert ([op] + rest)[1..] == rest;
  }

  /** From a full pool e gets frame 0, which is taken already. */
  lemma AllocFromFull(pool: Pool, ds: set<Address>, e: Address)
    requires InPlay(pool, ds) && e in ds && e !in pool.used && pool.IsFull() && 0 in pool.taken && pool.OwnPage(e)
    ensures var p := Step(pool, ds, AllocOp(e, 1));
      && p.taken == pool.taken && p.used == pool.used + {e}
      && p.FrameOf(e) == 0 && forall y | y in pool.used :: p.FrameOf(y) == pool.FrameOf(y)
  {
    forall y | y in pool.used + {e}
      ensures pool.Alloc(e, 0, 1).FrameOf(y) == if PageOf(e) == PageOf(y) then 0 else pool.FrameOf(y)
    {
      pool.AllocMaps(e, 0, 1, y);
    }
  }

  /** The only free frame goes to d, and to all in its page. */
  lemma AllocTheOnly(pool: Pool, ds: set<Address>, d: Address, h: nat)
    requires InPlay(pool, ds) && d in ds && d !in pool.used && h < pool.limit && h !in pool.taken
    requires forall f: nat | f < pool.limit && f != h :: f in pool.taken
    ensures var p := Step(pool, ds, AllocOp(d, 1));
      && p.taken == pool.taken + {h} && p.used == pool.used + {d}
      && forall y | y in p.used :: p.FrameOf(y) == if PageOf(d) == PageOf(y) then h else pool.FrameOf(y)
  {
    forall y | y in pool.used + {d}
      ensures pool.Alloc(d, h, 1).FrameOf(y) == if PageOf(d) == PageOf(y) then h else pool.FrameOf(y)
    {
      pool.AllocMaps(d, h, 1, y);
    }
  }

  /** Running out and sharing can make up for each other, so that running out is not
      decisive when pages are shared: from a full pool e gets frame 0, which is taken; x
      gives back its frame, which d then gets in the page of e; both free that frame, and
      frames are conserved again. */
  lemma SharingMakesUpForRunningOut(pool: Pool, reserved: set<nat>, ds: set<Address>,
                                    d: Address, e: Address, x: Address)
    requires InPlay(pool, ds) && {d, e, x} <= ds && pool.Conserves(reserved) && 0 in reserved && pool.IsFull()
    requires x in pool.used && d !in pool.used && e !in pool.used && d != e
    requires PageOf(d) == PageOf(e) && pool.OwnPage(e)
    ensures var ops := [AllocOp(e, 1)] + ([FreeOp(x)] + ([AllocOp(d, 1)] + ([FreeOp(e)] + ([FreeOp(d)] + []))));
      && (forall op | op in ops :: op.d in ds)
      && RunsOut(pool, ds, ops) && Run(pool, ds, ops).Conserves(reserved)
  {
    RoundAboutConserves(pool, reserved, ds, d, e, x);
    hide Step, Run, RunsOut, Pool.Conserves, Pool.IsFull, Pool.OwnPage;
    var p1 := Step(pool, ds, AllocOp(e, 1));
    var p2 := Step(p1, ds, FreeOp(x));
    var p3 := Step(p2, ds, AllocOp(d, 1));
    var p4 := Step(p3, ds, FreeOp(e));
    RunNothing(Step(p4, ds, FreeOp(d)), ds);
    RunCons(p4, ds, FreeOp(d), []);
    RunCons(p3, ds, FreeOp(e), [FreeOp(d)] + []);
    RunCons(p2, ds, AllocOp(d, 1), [FreeOp(e)] + ([FreeOp(d)] + []));
    RunCons(p1, ds, FreeOp(x), [AllocOp(d, 1)] + ([FreeOp(e)] + ([FreeOp(d)] + [])));
    RunCons(pool, ds, AllocOp(e, 1), [FreeOp(x)] + ([AllocOp(d, 1)] + ([FreeOp(e)] + ([FreeOp(d)] + []))));
  }

  lemma RunNothing(pool: Pool, ds: set<Address>)
    requires InPlay(pool, ds)
    ensures Run(pool, ds, []) == pool
  {
  }

  lemma RoundAboutConserves(pool: Pool, reserved: set<nat>, ds: set<Address>, d: Address, e: Address, x: Address)
    requires InPlay(pool, ds) && {d, e, x} <= ds && pool.Conserves(reserved) && 0 in reserved && pool.IsFull()
    requires x in pool.used && d !in pool.used && e !in pool.used && d != e
    requires PageOf(d) == PageOf(e) && pool.OwnPage(e)
    ensures var p2 := Step(Step(pool, ds, AllocOp(e, 1)), ds, FreeOp(x));
      Step(Step(Step(p2, ds, AllocOp(d, 1)), ds, FreeOp(e)), ds, FreeOp(d)).Conserves(reserved)
  {
    var h := pool.FrameOf(x);
    AllocFromFull(pool, ds, e);
    var p2 := Step(Step(pool, ds, AllocOp(e, 1)), ds, FreeOp(x));
    assert p2.taken == pool.taken - {h} && p2.used == pool.used + {e} - {x};
    assert forall y | y in pool.used :: p2.FrameOf(y) == pool.FrameOf(y);
    assert h in pool.taken;
    SharedFrameFreedTwice(p2, ds, d, e, h);
    var p5 := Step(Step(Step(p2, ds, AllocOp(d, 1)), ds, FreeOp(e)), ds, FreeOp(d));
    hide Step;
    assert p5.used == pool.used - {x};
    WithoutOneConserves(pool, p5, reserved, x);
  }

  lemma WithoutOneConserves(pool: Pool, after: Pool, reserved: set<nat>, x: Address)
    requires pool.Conserves(reserved) && after.Valid() && x in pool.used
    requires after.taken == pool.taken - {pool.FrameOf(x)} && after.used == pool.used - {x}
    requires forall y | y in after.used :: after.FrameOf(y) == pool.FrameOf(y)
    ensures after.Conserves(reserved)
  {
    hide Pool.FrameOf;
    assert after.FramesOf(after.used) == pool.FramesOf(pool.used) - {pool.FrameOf(x)};
  }

  lemma SharedFrameFreedTwice(p2: Pool, ds: set<Address>, d: Address, e: Address, h: nat)
    requires InPlay(p2, ds) && {d, e} <= ds && d !in p2.used && e in p2.used && d != e && PageOf(d) == PageOf(e)
    requires h < p2.limit && h !in p2.taken && forall f: nat | f < p2.limit && f != h :: f in p2.taken
    requires forall y | y in p2.used && y != e :: PageOf(y) != PageOf(d)
    ensures var p5 := Step(Step(Step(p2, ds, AllocOp(d, 1)), ds, FreeOp(e)), ds, FreeOp(d));
      && p5.taken == p2.taken && p5.used == p2.used - {e}
      && forall y | y in p5.used :: p5.FrameOf(y) == p2.FrameOf(y)
  {
    AllocTheOnly(p2, ds, d, h);
    var p3 := Step(p2, ds, AllocOp(d, 1));
    assert p3.FrameOf(d) == h && p3.FrameOf(e) == h;
    assert p2.taken + {h} - {h} - {h} == p2.taken;
    assert p2.used + {d} - {e} - {d} == p2.used - {e};
  }

  ghost function Below(n: nat): (below: set<nat>)
    ensures |below| == n && forall f: nat :: f in below <==> f < n
  {
    if n == 0 then {} else Below(n - 1) + {n - 1}
  }

  lemma SubsetCount(small: set<nat>, large: set<nat>)
    requires small <= large
    ensures |small| <= |large|
  {
    assert large == small + (large - small);
  }

  /** A run does not run out of frames if there are as many as it allocates. */
  lemma {:induction false} EnoughFrames(pool: Pool, ds: set<Address>, ops: seq<Op>)
    requires InPlay(pool, ds) && (forall op | op in ops :: op.d in ds)
    requires |pool.taken| + |ops| <= pool.limit
    ensures !RunsOut(pool, ds, ops)
    decreases |ops|
  {
    if ops != [] {
      assert ops[0] in ops;
      var next := Step(pool, ds, ops[0]);
      if pool.IsFull() {
        SubsetCount(Below(pool.limit), pool.taken);
      }
      assert |next.taken| <= |pool.taken| + 1;
      EnoughFrames(next, ds, ops[1..]);
    }
  }

  /** Allocating for two descriptors in one page from the start does not conserve frames,
      though there are enough. */
  lemma NeighboursLeak(pool: Pool, reserved: set<nat>, ds: set<Address>, ops: seq<Op>)
    requires InPlay(pool, ds) && pool.Conserves(reserved) && 0 in reserved && pool.used == {}
    requires 2 <= |ops| && |pool.taken| + |ops| <= pool.limit
    requires forall op | op in ops :: op.AllocOp? && op.d in ds
    requires ops[0].d != ops[1].d && PageOf(ops[0].d) == PageOf(ops[1].d)
    ensures !RunsOut(pool, ds, ops) && !Run(pool, ds, ops).Conserves(reserved)
  {
    EnoughFrames(pool, ds, ops);
    assert ops[0] in ops && ops[1] in ops && ops[1..][0] == ops[1];
    var next := Step(pool, ds, ops[0]);
    assert next.used == {ops[0].d};
    assert Shares(next, ds, ops[1..]);
    SharedRunConservesIff(pool, reserved, ds, ops);
  }

  /** With the slots that `get_page` returns for the first 1024 pages as descriptors, the
      loop of `init_paging` does not conserve frames. */
  lemma InitPagingLeaks(pool: Pool, reserved: set<nat>, ds: set<Address>, ops: seq<Op>, s: KernelHeap.Paging)
    requires KernelHeap.TablesInHeap(s) && KernelHeap.Fits(s, KernelHeap.GetPage(0, true))
    requires InPlay(pool, ds) && pool.Conserves(reserved) && 0 in reserved && pool.used == {}
    requires |ops| == 1024 && |pool.taken| + 1024 <= pool.limit && forall op | op in ops :: op.AllocOp? && op.d in ds
    requires forall i | 0 <= i < 1024 :: ops[i].d == KernelHeap.SlotOfCall(s, i)
    ensures !RunsOut(pool, ds, ops) && !Run(pool, ds, ops).Conserves(reserved)
  {
    hide InPlay, Pool.Conserves, RunsOut, Run, KernelHeap.TablesInHeap, KernelHeap.Fits, KernelHeap.SlotOfCall;
    KernelHeap.CallsShareAPage(s, 0, 1);
    NeighboursLeak(pool, reserved, ds, ops);
  }

  // The code

  const PRESENT: bv12 := 1
  const READWRITE: bv12 := 2
  const USER: bv12 := 4

  /** The flags of a page: present, writeable or not, and the user's unless the kernel's. */
  function FlagsOf(isKernel: bool, isWriteable: bool): bv12 {
    match (isKernel, isWriteable)
    case (true, false) => 1
    case (true, true) => 3
    case (false, false) => 5
    case (false, true) => 7
  }

  /** Bit 0 of a page's flags says that it is present, bit 1 that it may be written, bit 2
      that it is the user's; no other is set. */
  lemma FlagsSay(isKernel: bool, isWriteable: bool)
    ensures var flags := FlagsOf(isKernel, isWriteable);
      && flags & 1 == 1 && (flags & 2 != 0 <==> isWriteable) && (flags & 4 != 0 <==> !isKernel)
      && flags & 0xff8 == 0
  {
  }

  /** `alloc_frame` leaves in the tables, as the entry of the descriptor's page, the frame and
      the flags asked for. */
  lemma AllocatedEntry(pool: Pool, d: Address, f: nat, isKernel: bool, isWriteable: bool)
    requires pool.Valid() && pool.Mapped(d) && f < pool.limit && d !in pool.used
    ensures pool.space.HasTable(d)
    ensures var after := pool.Alloc(d, f, FlagsOf(isKernel, isWriteable)).space;
      && after.HasTable(d) && after.EntryOf(d) == Entry(f, FlagsOf(isKernel, isWriteable))
      && forall e: Address | after.HasTable(e) && !after.SameSlot(d, e) :: after.EntryOf(e) == pool.space.EntryOf(e)
  {
    var flags := FlagsOf(isKernel, isWriteable);
    assert pool.space.HasTable(d);
    EntryKeepsFlags(f * PAGE_SIZE, flags, 1);
    assert flags | 1 == flags;
    pool.AllocIs(d, f, flags);
    hide Pool.Alloc, FlagsOf, MakeEntry;
    assert MakeEntry(f * PAGE_SIZE, flags) == Entry(f, flags);
  }

  /** `page_frame_t`, at its address. */
  class Descriptor {
    const address: Address
    var used: bool
    var kernelPage: bool
    var refCount: nat

    constructor (address: Address)
      ensures this.address == address && !used
    {
      this.address := address;
      used := false;
      kernelPage := false;
      refCount := 0;
    }
  }

  /** The bitmap holds exactly the taken frames among the first limit. */
  ghost predicate TakenIs(taken: set<nat>, limit: nat, words: seq<bv32>) {
    && (forall f | f in taken :: f < limit)
    && (forall f: nat | f < limit :: f in taken <==> Taken(words, f))
  }

  /** The descriptors marked used are those at the used addresses. */
  ghost predicate UsedIs(used: set<Address>, descriptors: set<Descriptor>)
    reads descriptors`used
  {
    && (forall d | d in descriptors :: d.used <==> d.address in used)
    && (forall d, e | d in descriptors && e in descriptors && d != e :: d.address != e.address)
    && (forall a | a in used :: exists d :: d in descriptors && d.address == a)
  }

  /** The first megabyte. */
  ghost const RESERVED: set<nat> := Below(256)

  /** The frames of 128 MB, of which the first megabyte is taken. */
  ghost function InitialPool(space: Space): Pool {
    Pool(RESERVED, 32768, space, {})
  }

  lemma InitialPoolIs(space: Space, words: seq<bv32>)
    requires space.Valid() && space.Backed() && space.Separate()
    requires forall f: nat | f < 32768 :: Taken(words, f) <==> f < 256
    ensures var pool := InitialPool(space);
      && pool.Valid() && pool.limit == 32768 && pool.space == space && pool.used == {}
      && TakenIs(pool.taken, 32768, words) && pool.Conserves(RESERVED)
  {
    hide Taken, Below;
    assert InitialPool(space).FramesOf({}) == {};
  }

  /** Physical memory: the bitmap, the page tables and the descriptors in play. */
  class Manager {
    const bitmap: Bitmap
    const memory: Memory
    ghost const descriptors: set<Descriptor>
    /** The abstract pool. */
    ghost var pool: Pool

    /** The bitmap of `init_memory`, beside given page tables and unused descriptors. */
    constructor (memory: Memory, ghost descriptors: set<Descriptor>)
      requires memory.Valid() && memory.space.Backed() && memory.space.Separate()
      requires descriptors !! memory.Repr && forall d | d in descriptors :: !d.used
      requires forall d, e | d in descriptors && e in descriptors && d != e :: d.address != e.address
      ensures Valid() && fresh(bitmap) && fresh(bitmap.frames)
      ensures this.memory == memory && this.descriptors == descriptors
      ensures pool == InitialPool(memory.space) && pool.Conserves(RESERVED)
    {
      hide Taken, Below, InitialPool, TakenIs, Pool.Valid, Pool.Conserves, Memory.Valid, Space.Backed, Space.Separate;
      memory.NotInRepr();
      var initial := new Bitmap();
      initial.Initialize();
      this.bitmap := initial;
      this.memory := memory;
      this.descriptors := descriptors;
      this.pool := InitialPool(memory.space);
      new;
      InitialPoolIs(memory.space, bitmap.frames[..]);
    }

    ghost predicate Valid()
      reads this, bitmap, bitmap.frames, memory, memory.Repr, descriptors
    {
      && bitmap.Valid() && memory.Valid() && pool.Valid()
      && {this, bitmap, bitmap.frames, memory} !! memory.Repr && descriptors !! memory.Repr
      && pool.limit == bitmap.nframes / 32 * 32
      && TakenIs(pool.taken, pool.limit, bitmap.frames[..])
      && pool.space == memory.space
      && UsedIs(pool.used, descriptors)
    }

    /** `alloc_frame`. Its test for 0xFFFFFFFF, which no frame number equals, is left out. */
    method AllocFrame(frame: Descriptor, isKernel: bool, isWriteable: bool)
      requires Valid() && frame in descriptors && pool.Mapped(frame.address)
      modifies `pool, bitmap.frames, memory`space, memory.Repr, frame
      ensures Valid()
      ensures pool == old(pool).Alloc(frame.address, FirstFree(old(pool)), FlagsOf(isKernel, isWriteable))
      ensures !old(frame.used) ==> frame.used && frame.kernelPage == isKernel && frame.refCount == 1
    {
      assert frame.used <==> frame.address in pool.used;
      assert pool.space.Valid() && pool.space.HasTable(frame.address);
      hide TakenIs, UsedIs, FlagsOf, FirstFree, Pool.Alloc, Memory.Valid;
      if frame.used {
        pool.AllocUsed(frame.address, FirstFree(pool), FlagsOf(isKernel, isWriteable));
        return;
      }
      var idx := TakeFirstFree(frame, isKernel);
      var flags := MakeFlags(isKernel, isWriteable);
      MapFrame(idx, frame, flags);
    }

    /** The part of `alloc_frame` that maps the descriptor's page to the frame. */
    method MapFrame(idx: nat, frame: Descriptor, flags: bv12)
      requires bitmap.Valid() && memory.Valid() && pool.Valid()
      requires {this, bitmap, bitmap.frames, memory} !! memory.Repr && descriptors !! memory.Repr
      requires pool.limit == bitmap.nframes / 32 * 32 && pool.space == memory.space
      requires frame in descriptors && idx < pool.limit && pool.Mapped(frame.address) && frame.address !in pool.used
      requires TakenIs(pool.taken + {idx}, pool.limit, bitmap.frames[..])
      requires UsedIs(pool.used + {frame.address}, descriptors)
      modifies `pool, memory`space, memory.Repr
      ensures Valid() && pool == old(pool).Alloc(frame.address, idx, flags)
    {
      assert pool.space.HasTable(frame.address);
      hide TakenIs, UsedIs, Pool.Alloc, Pool.Valid, Memory.Valid;
      memory.MapPage(idx * PAGE_SIZE, frame.address, flags);
      pool.AllocIs(frame.address, idx, flags);
      pool := pool.Alloc(frame.address, idx, flags);
    }

    /** The part of `alloc_frame` that marks the frame and the descriptor. */
    method TakeFirstFree(frame: Descriptor, isKernel: bool) returns (idx: nat)
      requires Valid() && frame in descriptors
      modifies bitmap.frames, frame
      ensures idx == FirstFree(pool)
      ensures TakenIs(pool.taken + {idx}, pool.limit, bitmap.frames[..])
      ensures UsedIs(pool.used + {frame.address}, descriptors)
      ensures memory.Valid()
      ensures frame.used && frame.kernelPage == isKernel && frame.refCount == 1
    {
      hide TakenIs, UsedIs, FirstFree, Memory.Valid;
      idx := FirstFreeIndex();
      SetIndex(idx);
      Mark(frame, isKernel);
    }

    method Mark(frame: Descriptor, isKernel: bool)
      requires UsedIs(pool.used, descriptors) && frame in descriptors
      modifies frame
      ensures frame.used && frame.kernelPage == isKernel && frame.refCount == 1
      ensures UsedIs(pool.used + {frame.address}, descriptors)
    {
      frame.used := true;
      frame.kernelPage := isKernel;
      frame.refCount := 1;
    }

    method Unmark(frame: Descriptor)
      requires UsedIs(pool.used, descriptors) && frame in descriptors
      modifies frame
      ensures !frame.used && frame.refCount == 0
      ensures UsedIs(pool.used - {frame.address}, descriptors)
    {
      frame.used := false;
      frame.refCount := 0;
    }

    method MakeFlags(isKernel: bool, isWriteable: bool) returns (flags: bv12)
      ensures flags == FlagsOf(isKernel, isWriteable)
    {
      flags := PRESENT;
      if isWriteable {
        flags := flags | READWRITE;
      }
      if !isKernel {
        flags := flags | USER;
      }
    }

    method FirstFreeIndex() returns (idx: nat)
      requires Valid()
      ensures idx == FirstFree(pool)
    {
      idx := bitmap.FirstFreeFrame();
      FirstFreeIs(pool, bitmap.frames[..], bitmap.nframes, idx);
    }

    method SetIndex(idx: nat)
      requires Valid() && idx < pool.limit
      modifies bitmap.frames
      ensures TakenIs(pool.taken + {idx}, pool.limit, bitmap.frames[..])
    {
      hide Taken;
      bitmap.SetFrame(idx * PAGE_SIZE);
    }

    method ClearIndex(physaddr: Address)
      requires Valid()
      modifies bitmap.frames
      ensures TakenIs(pool.taken - {physaddr / PAGE_SIZE}, pool.limit, bitmap.frames[..])
    {
      hide Taken;
      bitmap.ClearFrame(physaddr);
    }

    /** The part of `free_frame` that unmarks the frame and the descriptor. */
    method Release(frame: Descriptor, physaddr: Address)
      requires Valid() && frame in descriptors
      modifies bitmap.frames, frame
      ensures TakenIs(pool.taken - {physaddr / PAGE_SIZE}, pool.limit, bitmap.frames[..])
      ensures UsedIs(pool.used - {frame.address}, descriptors)
      ensures memory.Valid() && !frame.used && frame.refCount == 0
    {
      hide TakenIs, UsedIs, Pool.Valid, Memory.Valid;
      ClearIndex(physaddr);
      Unmark(frame);
    }

    /** `free_frame`. */
    method FreeFrame(frame: Descriptor)
      requires Valid() && frame in descriptors
      modifies `pool, bitmap.frames, frame
      ensures Valid() && pool == old(pool).Free(frame.address)
      ensures old(frame.used) ==> !frame.used && frame.refCount == 0
    {
      assert frame.used <==> frame.address in pool.used;
      assert pool.space.Valid() && pool.space.Backed();
      hide TakenIs, UsedIs, Pool.Valid, Memory.Valid;
      if !frame.used {
        return;
      }
      var physaddr := memory.GetPhysaddr(frame.address);
      Release(frame, physaddr);
      pool := pool.Free(frame.address);
    }
  }

  /** What `init_paging` asks for: a read-only kernel page for each descriptor. */
  ghost function Allocations(pages: seq<Descriptor>): (ops: seq<Op>)
    ensures |ops| == |pages| && forall i | 0 <= i < |pages| :: ops[i] == AllocOp(pages[i].address, FlagsOf(true, false))
  {
    seq(|pages|, i requires 0 <= i < |pages| => AllocOp(pages[i].address, FlagsOf(true, false)))
  }

  /** One allocation, as the first step of what is left of a run. */
  lemma RunFrom(pool: Pool, ds: set<Address>, ops: seq<Op>, i: nat)
    requires InPlay(pool, ds) && i < |ops| && ops[i].AllocOp? && forall op | op in ops :: op.d in ds
    ensures pool.Valid() && pool.Mapped(ops[i].d)
    ensures var after := pool.Alloc(ops[i].d, FirstFree(pool), ops[i].flags);
      InPlay(after, ds) && Run(pool, ds, ops[i..]) == Run(after, ds, ops[i + 1..])
  {
    hide Pool.Alloc, FirstFree, Pool.Valid;
    assert ops[i] in ops && ops[i..] == [ops[i]] + ops[i + 1..];
    RunCons(pool, ds, ops[i], ops[i + 1..]);
  }

  lemma RunEnds(pool: Pool, ds: set<Address>, ops: seq<Op>)
    requires InPlay(pool, ds) && forall op | op in ops :: op.d in ds
    ensures Run(pool, ds, ops[|ops|..]) == pool && ops[0..] == ops
  {
  }

  /** The loop of `init_paging`, over the descriptors that `get_page` returns. */
  method AllocatePages(manager: Manager, pages: seq<Descriptor>, ghost ds: set<Address>)
    requires manager.Valid() && InPlay(manager.pool, ds)
    requires forall p | p in pages :: p in manager.descriptors && p.address in ds
    modifies manager`pool, manager.bitmap.frames, manager.memory`space, manager.memory.Repr, manager.descriptors
    ensures manager.Valid() && manager.pool == Run(old(manager.pool), ds, Allocations(pages))
  {
    hide Manager.Valid, InPlay, Run, Pool.Alloc, Pool.Valid, FirstFree, FlagsOf;
    ghost var ops := Allocations(pages);
    assert forall op | op in ops :: op.d in ds;
    ghost var end := Run(manager.pool, ds, ops);
    RunEnds(manager.pool, ds, ops);
    for i := 0 to |pages|
      invariant manager.Valid() && InPlay(manager.pool, ds) && Run(manager.pool, ds, ops[i..]) == end
    {
      RunFrom(manager.pool, ds, ops, i);
      manager.AllocFrame(pages[i], true, false);
    }
    RunEnds(manager.pool, ds, ops);
  }

  lemma FirstFreeIs(pool: Pool, words: seq<bv32>, nframes: nat, idx: nat)
    requires pool.Valid() && nframes / 32 <= |words| && pool.limit == nframes / 32 * 32
    requires TakenIs(pool.taken, pool.limit, words)
    requires if Full(words, nframes / 32) then idx == 0 else IsFirstFree(words, nframes / 32, idx)
    ensures idx == FirstFree(pool)
  {
    hide Taken;
    var f := FirstFree(pool);
    if !pool.IsFull() {
      assert !Taken(words, f);
    }
  }
}
