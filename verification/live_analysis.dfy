/**
 * process_live_temps_per_block and live_var_analysis: the worklist
 * algorithm that grows every block's live-out set until each block's needs
 * are met, marking kill flags on the way, and that stops the compiler when
 * a temporary is live into the first block.
 */
module LiveAnalysis {
  import opened Wrappers
  import opened LiveSets
  import opened KillFlags

  /** The flags of a block: per instruction after the phis, and per phi definition. */
  datatype BlockFlags = BlockFlags(instrs: seq<InstrFlags>, phiDefKill: seq<bool>)

  /**
   * What a block's flags mean when `out` is its live-out set: each
   * instruction's flags follow from what is live after it, and a phi
   * definition is killed when it is not live after the phis or a later
   * phi defines the same temporary.
   */
  predicate BlockFlagsMatch(blk: Block, out: set<Temp>, f: BlockFlags)
  {
    && |f.instrs| == |blk.instrs|
    && (forall k :: 0 <= k < |blk.instrs| ==> FlagsMatch(blk.instrs[k], LiveAfter(blk, out, k), f.instrs[k]))
    && |f.phiDefKill| == |blk.phis|
    && (forall k :: 0 <= k < |blk.phis| ==>
          (f.phiDefKill[k] <==>
             blk.phis[k].def !in Backward(blk.instrs, out + ExecLive(blk))
             || blk.phis[k].def in PhiDefs(blk.phis[k + 1..])))
  }

  /** The result of the pass: every block's live-out set and flags. */
  datatype Liveness = Liveness(liveOut: seq<set<Temp>>, flags: seq<BlockFlags>)

  /**
   * Adds `s` to the live-out set of block `p`, queueing `p` again when
   * that inserted anything. `requeue` holds exactly the blocks whose sets
   * have grown since `lo`.
   */
  method AddLiveOut(next: seq<set<Temp>>, requeue: set<nat>, p: nat, s: set<Temp>, ghost lo: seq<set<Temp>>)
    returns (next': seq<set<Temp>>, requeue': set<nat>)
    requires |next| == |lo| && p < |lo|
    requires forall q :: 0 <= q < |lo| ==> lo[q] <= next[q]
    requires forall q: nat :: q in requeue <==> q < |lo| && next[q] != lo[q]
    ensures |next'| == |lo| && next'[p] == next[p] + s
    ensures forall q :: 0 <= q < |lo| && q != p ==> next'[q] == next[q]
    ensures forall q :: 0 <= q < |lo| ==> lo[q] <= next'[q]
    ensures forall q: nat :: q in requeue' <==> q < |lo| && next'[q] != lo[q]
  {
    next' := next[p := next[p] + s];
    requeue' := requeue;
    if !(s <= next[p]) {
      requeue' := requeue' + {p};
    }
  }

  /** Adds `s` to the live-out set of every block in `preds`, queueing those that grew. */
  method MergeInto(next: seq<set<Temp>>, requeue: set<nat>, preds: seq<nat>, s: set<Temp>, ghost lo: seq<set<Temp>>)
    returns (next': seq<set<Temp>>, requeue': set<nat>)
    requires |next| == |lo| && forall i :: 0 <= i < |preds| ==> preds[i] < |lo|
    requires forall q :: 0 <= q < |lo| ==> lo[q] <= next[q]
    requires forall q: nat :: q in requeue <==> q < |lo| && next[q] != lo[q]
    ensures |next'| == |lo|
    ensures forall p :: 0 <= p < |lo| ==> next'[p] == next[p] + (if p in preds then s else {})
    ensures forall q :: 0 <= q < |lo| ==> lo[q] <= next'[q]
    ensures forall q: nat :: q in requeue' <==> q < |lo| && next'[q] != lo[q]
  {
    next', requeue' := next, requeue;
    for i := 0 to |preds|
      invariant |next'| == |lo|
      invariant forall p :: 0 <= p < |lo| ==> next'[p] == next[p] + (if p in preds[..i] then s else {})
      invariant forall q :: 0 <= q < |lo| ==> lo[q] <= next'[q]
      invariant forall q: nat :: q in requeue' <==> q < |lo| && next'[q] != lo[q]
    {
      assert preds[..i + 1] == preds[..i] + [preds[i]];
      next', requeue' := AddLiveOut(next', requeue', preds[i], s, lo);
    }
    assert preds[..|preds|] == preds;
  }

  /** Adds each temporary operand of a phi to the live-out set of its predecessor. */
  method MergePhiOperands(next: seq<set<Temp>>, requeue: set<nat>, ph: Phi, preds: seq<nat>, ghost lo: seq<set<Temp>>)
    returns (next': seq<set<Temp>>, requeue': set<nat>)
    requires |next| == |lo| && |ph.operands| >= |preds| && forall i :: 0 <= i < |preds| ==> preds[i] < |lo|
    requires forall q :: 0 <= q < |lo| ==> lo[q] <= next[q]
    requires forall q: nat :: q in requeue <==> q < |lo| && next[q] != lo[q]
    ensures |next'| == |lo|
    ensures forall p :: 0 <= p < |lo| ==> next'[p] == next[p] + PhiOperandUses(ph, preds, |preds|, p)
    ensures forall q :: 0 <= q < |lo| ==> lo[q] <= next'[q]
    ensures forall q: nat :: q in requeue' <==> q < |lo| && next'[q] != lo[q]
  {
    next', requeue' := next, requeue;
    for i := 0 to |preds|
      invariant |next'| == |lo|
      invariant forall p :: 0 <= p < |lo| ==> next'[p] == next[p] + PhiOperandUses(ph, preds, i, p)
      invariant forall q :: 0 <= q < |lo| ==> lo[q] <= next'[q]
      invariant forall q: nat :: q in requeue' <==> q < |lo| && next'[q] != lo[q]
    {
      if ph.operands[i].Some? {
        next', requeue' := AddLiveOut(next', requeue', preds[i], {ph.operands[i].value}, lo);
      }
    }
  }

  /**
   * process_live_temps_per_block: walks block `b` backwards from its
   * live-out set and the exec mask, marking kill flags, takes out the phi
   * definitions, then adds the block's needs to its predecessors'
   * live-out sets. `requeue` is the set of predecessors whose sets grew;
   * `ok` is false when `b` is the first block and something is live into
   * it (the compiler aborts).
   */
  method ProcessBlock(prog: seq<Block>, lo: seq<set<Temp>>, b: nat)
    returns (next: seq<set<Temp>>, requeue: set<nat>, flags: BlockFlags, ok: bool)
    requires WellFormed(prog) && |lo| == |prog| && b < |prog|
    ensures |next| == |lo|
    ensures forall p :: 0 <= p < |lo| ==> next[p] == lo[p] + Demanded(prog, lo, b, p)
    ensures forall p: nat :: p in requeue <==> p < |lo| && next[p] != lo[p]
    ensures ok <==> b != 0 || LiveIn(prog[b], lo[b]) == {}
    ensures BlockFlagsMatch(prog[b], lo[b], flags)
  {
    var blk := prog[b];
    var instrFlags, phiKill, live;
    live, instrFlags := WalkInstrs(blk, lo[b]);
    live, phiKill := RemovePhiDefs(blk.phis, live);
    assert live == LiveIn(blk, lo[b]);
    flags := BlockFlags(instrFlags, phiKill);

    // the non-linear live-ins go to the logical predecessors, the linear ones to the linear predecessors
    next, requeue := MergeInto(lo, {}, blk.logicalPreds, NonLinear(live), lo);
    next, requeue := MergeInto(next, requeue, blk.linearPreds, Linear(live), lo);
    next, requeue := MergePhis(next, requeue, blk, lo);
    ok := b != 0 || live == {};
  }

  /**
   * The backward walk over the instructions after the phis, starting from
   * the live-out set and the exec mask; each instruction's flags follow
   * from what is live after it.
   */
  method WalkInstrs(blk: Block, out: set<Temp>) returns (live: set<Temp>, flags: seq<InstrFlags>)
    ensures live == Backward(blk.instrs, out + ExecLive(blk))
    ensures |flags| == |blk.instrs|
    ensures forall k :: 0 <= k < |blk.instrs| ==> FlagsMatch(blk.instrs[k], LiveAfter(blk, out, k), flags[k])
  {
    var start := out + ExecLive(blk);
    live := start;
    flags := seq(|blk.instrs|, _ => InstrFlags([], [], []));
    var idx := |blk.instrs|;
    while idx > 0
      invariant 0 <= idx <= |blk.instrs|
      invariant live == Backward(blk.instrs[idx..], start)
      invariant |flags| == |blk.instrs|
      invariant forall k :: idx <= k < |blk.instrs| ==> FlagsMatch(blk.instrs[k], LiveAfter(blk, out, k), flags[k])
    {
      idx := idx - 1;
      BackwardStep(blk.instrs, idx, start);
      var before, f := InstrStep(blk.instrs[idx], live);
      flags := flags[idx := f];
      live := before;
    }
    assert blk.instrs[0..] == blk.instrs;
  }

  /**
   * The phi definitions, last phi first: each is erased from the live
   * set and killed when it was not there.
   */
  method RemovePhiDefs(phis: seq<Phi>, live0: set<Temp>) returns (live: set<Temp>, kill: seq<bool>)
    ensures live == live0 - PhiDefs(phis)
    ensures |kill| == |phis|
    ensures forall j :: 0 <= j < |phis| ==> (kill[j] <==> phis[j].def !in live0 || phis[j].def in PhiDefs(phis[j + 1..]))
  {
    live := live0;
    kill := seq(|phis|, _ => false);
    var k := |phis|;
    while k > 0
      invariant 0 <= k <= |phis|
      invariant live == live0 - PhiDefs(phis[k..])
      invariant |kill| == |phis|
      invariant forall j :: k <= j < |phis| ==> (kill[j] <==> phis[j].def !in live0 || phis[j].def in PhiDefs(phis[j + 1..]))
    {
      k := k - 1;
      assert phis[k..] == [phis[k]] + phis[k + 1..];
      var d := phis[k].def;
      kill := kill[k := d !in live];
      live := live - {d};
    }
    assert phis[0..] == phis;
  }

  /** Each phi operand, last phi first, goes straight to the live-out set of its predecessor. */
  method MergePhis(next: seq<set<Temp>>, requeue: set<nat>, blk: Block, ghost lo: seq<set<Temp>>)
    returns (next': seq<set<Temp>>, requeue': set<nat>)
    requires PhisWellFormed(blk) && |next| == |lo|
    requires forall i :: 0 <= i < |blk.logicalPreds| ==> blk.logicalPreds[i] < |lo|
    requires forall i :: 0 <= i < |blk.linearPreds| ==> blk.linearPreds[i] < |lo|
    requires forall q :: 0 <= q < |lo| ==> lo[q] <= next[q]
    requires forall q: nat :: q in requeue <==> q < |lo| && next[q] != lo[q]
    ensures |next'| == |lo|
    ensures forall p :: 0 <= p < |lo| ==> next'[p] == next[p] + PhiUses(blk, 0, p)
    ensures forall q :: 0 <= q < |lo| ==> lo[q] <= next'[q]
    ensures forall q: nat :: q in requeue' <==> q < |lo| && next'[q] != lo[q]
  {
    next', requeue' := next, requeue;
    var k := |blk.phis|;
    while k > 0
      invariant 0 <= k <= |blk.phis|
      invariant |next'| == |lo|
      invariant forall q :: 0 <= q < |lo| ==> lo[q] <= next'[q]
      invariant forall p :: 0 <= p < |lo| ==> next'[p] == next[p] + PhiUses(blk, k, p)
      invariant forall q: nat :: q in requeue' <==> q < |lo| && next'[q] != lo[q]
    {
      k := k - 1;
      var ph := blk.phis[k];
      next', requeue' := MergePhiOperands(next', requeue', ph, PhiPreds(blk, ph), lo);
    }
  }

  /** Every nonempty set of block indices has a largest element. */
  lemma {:induction false} MaxExists(s: set<nat>)
    requires s != {}
    ensures exists m :: m in s && forall x :: x in s ==> x <= m
    decreases |s|
  {
    var y :| y in s;
    var rest := s - {y};
    if rest == {} {
      assert s == {y};
    } else {
      MaxExists(rest);
      var m :| m in rest && forall x :: x in rest ==> x <= m;
      var top := if y > m then y else m;
      forall x | x in s
        ensures x <= top
      {
        if x != y {
          assert x in rest;
        }
      }
      assert top in s;
    }
  }

  /** The indices of `n` blocks. */
  function AllBlocks(n: nat): (r: set<nat>)
    ensures forall b: nat :: b in r <==> b < n
  {
    if n == 0 then {} else AllBlocks(n - 1) + {n - 1}
  }

  /** How many temporaries of `u` the live-out sets still lack, summed over the blocks. */
  function Missing(u: set<Temp>, lo: seq<set<Temp>>): nat
  {
    if |lo| == 0 then 0 else |u - lo[0]| + Missing(u, lo[1..])
  }

  /** Growing live-out sets within `u` never raise the count, and strictly lower it when any set grows. */
  lemma {:induction false} MissingDecreases(u: set<Temp>, lo: seq<set<Temp>>, hi: seq<set<Temp>>)
    requires |lo| == |hi|
    requires forall p :: 0 <= p < |lo| ==> lo[p] <= hi[p] <= u
    ensures Missing(u, hi) <= Missing(u, lo)
    ensures lo != hi ==> Missing(u, hi) < Missing(u, lo)
    decreases |lo|
  {
    if |lo| > 0 {
      MissingDecreases(u, lo[1..], hi[1..]);
      SubsetCardinality(u - hi[0], u - lo[0]);
      if lo[0] != hi[0] {
        var t :| t in hi[0] && t !in lo[0];
        assert t in u - lo[0] && t !in u - hi[0];
      } else if lo != hi {
        assert lo == [lo[0]] + lo[1..] && hi == [hi[0]] + hi[1..];
      }
    }
  }

  /** A subset is no larger, and a proper subset is smaller. */
  lemma SubsetCardinality(a: set<Temp>, b: set<Temp>)
    requires a <= b
    ensures |a| <= |b|
    ensures a != b ==> |a| < |b|
  {
    assert b == a + (b - a);
    if a != b {
      var t :| t in b && t !in a;
      assert t in b - a;
    }
  }

  /**
   * live_var_analysis: every block starts on the worklist with an empty
   * live-out set; the highest block index is processed first. The result
   * is the least assignment of live-out sets that meets every block's
   * needs, with each block's flags matching it. `None` is the abort: then
   * no assignment meeting every need leaves the first block without
   * live-ins.
   */
  method LiveVarAnalysis(prog: seq<Block>) returns (r: Option<Liveness>)
    requires WellFormed(prog)
    ensures r.Some? ==> Covers(prog, r.value.liveOut)
    ensures r.Some? ==> forall hi :: Covers(prog, hi) ==> Below(r.value.liveOut, hi)
    ensures r.Some? && |prog| > 0 ==> LiveIn(prog[0], r.value.liveOut[0]) == {}
    ensures r.Some? ==>
              && |r.value.flags| == |prog|
              && forall b :: 0 <= b < |prog| ==> BlockFlagsMatch(prog[b], r.value.liveOut[b], r.value.flags[b])
    ensures r.None? ==> |prog| > 0 && forall hi :: Covers(prog, hi) ==> LiveIn(prog[0], hi[0]) != {}
  {
    ghost var u := Mentioned(prog);
    var lo: seq<set<Temp>> := seq(|prog|, _ => {});
    var flags := seq(|prog|, _ => BlockFlags([], []));
    var worklist: set<nat> := AllBlocks(|prog|);
    InitialInvariant(prog, lo, flags, worklist);
    while worklist != {}
      invariant Invariant(prog, u, lo, flags, worklist)
      decreases Missing(u, lo), |worklist|
    {
      var next, nextFlags, nextWorklist, _, ok := Iterate(prog, u, lo, flags, worklist);
      if !ok {
        return None;
      }
      lo, flags, worklist := next, nextFlags, nextWorklist;
    }
    Finished(prog, u, lo, flags);
    return Some(Liveness(lo, flags));
  }

  /** Empty live-out sets with every block queued satisfy the invariant. */
  lemma InitialInvariant(prog: seq<Block>, lo: seq<set<Temp>>, flags: seq<BlockFlags>, worklist: set<nat>)
    requires WellFormed(prog) && |lo| == |prog| && |flags| == |prog|
    requires forall b :: 0 <= b < |lo| ==> lo[b] == {}
    requires forall b: nat :: b in worklist <==> b < |prog|
    ensures Invariant(prog, Mentioned(prog), lo, flags, worklist)
  {
  }

  /** With nothing left on the worklist the sets are the least solution and every flag matches. */
  lemma Finished(prog: seq<Block>, u: set<Temp>, lo: seq<set<Temp>>, flags: seq<BlockFlags>)
    requires Invariant(prog, u, lo, flags, {})
    ensures Covers(prog, lo)
    ensures forall hi :: Covers(prog, hi) ==> Below(lo, hi)
    ensures |prog| > 0 ==> LiveIn(prog[0], lo[0]) == {}
    ensures |flags| == |prog| && forall b :: 0 <= b < |prog| ==> BlockFlagsMatch(prog[b], lo[b], flags[b])
  {
    StableEverywhere(prog, lo, flags);
  }

  /**
   * What holds between iterations: the sets stay within the temporaries
   * the program names and below every solution, the blocks off the
   * worklist are settled, and the first block has no live-ins once it is
   * settled.
   */
  ghost predicate Invariant(prog: seq<Block>, u: set<Temp>, lo: seq<set<Temp>>, flags: seq<BlockFlags>, worklist: set<nat>)
  {
    && WellFormed(prog)
    && Mentioned(prog) <= u
    && |lo| == |prog| && |flags| == |prog|
    && (forall b :: b in worklist ==> b < |prog|)
    && (forall b :: 0 <= b < |prog| ==> lo[b] <= u)
    && (forall hi :: Covers(prog, hi) ==> Below(lo, hi))
    && Stable(prog, lo, flags, worklist)
    && (|prog| > 0 && 0 !in worklist ==> LiveIn(prog[0], lo[0]) == {})
  }

  /**
   * One round of the worklist loop: take the highest queued block `b`
   * and process it. Either the compiler aborts, which only happens when
   * every solution has live-ins at the first block, or the live-out sets
   * only grow, `b` leaves the worklist and exactly the blocks whose sets
   * grew join it, the invariant is kept, and either some live-out set grew
   * or the worklist shrank.
   */
  method Iterate(prog: seq<Block>, ghost u: set<Temp>, lo: seq<set<Temp>>, flags: seq<BlockFlags>, worklist: set<nat>)
    returns (lo': seq<set<Temp>>, flags': seq<BlockFlags>, worklist': set<nat>, b: nat, ok: bool)
    requires Invariant(prog, u, lo, flags, worklist) && worklist != {}
    ensures b in worklist && forall x :: x in worklist ==> x <= b
    ensures ok ==> Below(lo, lo')
    ensures ok ==> forall p: nat :: p in worklist' <==> (p in worklist && p != b) || (p < |lo| && lo'[p] != lo[p])
    ensures ok ==> Invariant(prog, u, lo', flags', worklist')
    ensures ok ==> Missing(u, lo') < Missing(u, lo) || (Missing(u, lo') == Missing(u, lo) && |worklist'| < |worklist|)
    ensures !ok ==> |prog| > 0 && forall hi :: Covers(prog, hi) ==> LiveIn(prog[0], hi[0]) != {}
  {
    MaxExists(worklist);
    b :| b in worklist && forall x :: x in worklist ==> x <= b;
    var requeue, f;
    lo', requeue, f, ok := ProcessBlock(prog, lo, b);
    flags', worklist' := flags, worklist;
    if !ok {
      EntryLiveInPersists(prog, lo);
      return;
    }
    StepKeepsInvariant(prog, u, lo, flags, worklist, b, lo', requeue, f);
    StepMakesProgress(prog, u, lo, worklist, b, lo', requeue);
    flags', worklist' := flags[b := f], worklist - {b} + requeue;
  }

  /** Processing a queued block keeps the invariant and makes progress. */
  lemma StepKeepsInvariant(prog: seq<Block>, u: set<Temp>, lo: seq<set<Temp>>, flags: seq<BlockFlags>,
                           worklist: set<nat>, b: nat, next: seq<set<Temp>>, requeue: set<nat>, f: BlockFlags)
    requires Invariant(prog, u, lo, flags, worklist) && b in worklist
    requires IsStep(prog, lo, next, b)
    requires forall p: nat :: p in requeue <==> p < |lo| && next[p] != lo[p]
    requires b != 0 || LiveIn(prog[b], lo[b]) == {}
    requires BlockFlagsMatch(prog[b], lo[b], f)
    ensures Invariant(prog, u, next, flags[b := f], worklist - {b} + requeue)
  {
    StepStaysWithin(prog, lo, next, b, u);
    StepStaysBelow(prog, lo, next, b);
    StepKeepsStable(prog, lo, flags, worklist, b, next, requeue, f);
  }

  /** Processing a queued block either grows some live-out set or shrinks the worklist. */
  lemma StepMakesProgress(prog: seq<Block>, u: set<Temp>, lo: seq<set<Temp>>, worklist: set<nat>,
                          b: nat, next: seq<set<Temp>>, requeue: set<nat>)
    requires WellFormed(prog) && |lo| == |prog| && b < |prog| && b in worklist
    requires IsStep(prog, lo, next, b)
    requires Mentioned(prog) <= u && forall c :: 0 <= c < |lo| ==> lo[c] <= u
    requires forall p: nat :: p in requeue <==> p < |lo| && next[p] != lo[p]
    ensures Missing(u, next) < Missing(u, lo)
            || (Missing(u, next) == Missing(u, lo) && |worklist - {b} + requeue| < |worklist|)
  {
    StepStaysWithin(prog, lo, next, b, u);
    MissingDecreases(u, lo, next);
    if requeue == {} {
      assert next == lo;
      assert worklist - {b} + requeue == worklist - {b};
    }
  }

  /** A live-in of the first block below every solution is a live-in under every solution. */
  lemma EntryLiveInPersists(prog: seq<Block>, lo: seq<set<Temp>>)
    requires WellFormed(prog) && |lo| == |prog| > 0
    requires forall hi :: Covers(prog, hi) ==> Below(lo, hi)
    requires LiveIn(prog[0], lo[0]) != {}
    ensures forall hi :: Covers(prog, hi) ==> LiveIn(prog[0], hi[0]) != {}
  {
    forall hi | Covers(prog, hi)
      ensures LiveIn(prog[0], hi[0]) != {}
    {
      assert Below(lo, hi);
      LiveInMonotone(prog[0], lo[0], hi[0]);
    }
  }

  /** With the worklist empty, every block is settled: the sets are a solution and all flags match. */
  lemma StableEverywhere(prog: seq<Block>, lo: seq<set<Temp>>, flags: seq<BlockFlags>)
    requires WellFormed(prog) && Stable(prog, lo, flags, {})
    ensures Covers(prog, lo)
    ensures forall b :: 0 <= b < |prog| ==> BlockFlagsMatch(prog[b], lo[b], flags[b])
  {
  }

  /** Every block off the worklist has its needs met and its flags up to date. */
  predicate Stable(prog: seq<Block>, lo: seq<set<Temp>>, flags: seq<BlockFlags>, worklist: set<nat>)
    requires WellFormed(prog)
  {
    && |lo| == |prog| && |flags| == |prog|
    && forall c :: 0 <= c < |prog| && c !in worklist ==>
         Satisfied(prog, lo, c) && BlockFlagsMatch(prog[c], lo[c], flags[c])
  }

  /** One processing step of block `b`: every predecessor's set gains what `b` needs of it. */
  predicate IsStep(prog: seq<Block>, lo: seq<set<Temp>>, next: seq<set<Temp>>, b: nat)
    requires WellFormed(prog) && |lo| == |prog| && b < |prog|
  {
    |next| == |lo| && forall p :: 0 <= p < |lo| ==> next[p] == lo[p] + Demanded(prog, lo, b, p)
  }

  /** A step never adds a temporary the program does not name. */
  lemma StepStaysWithin(prog: seq<Block>, lo: seq<set<Temp>>, next: seq<set<Temp>>, b: nat, u: set<Temp>)
    requires WellFormed(prog) && |lo| == |prog| && b < |prog| && IsStep(prog, lo, next, b)
    requires Mentioned(prog) <= u && forall c :: 0 <= c < |lo| ==> lo[c] <= u
    ensures forall c :: 0 <= c < |next| ==> lo[c] <= next[c] <= u
  {
    forall p | 0 <= p < |next|
      ensures next[p] <= u
    {
      NeedWithin(prog, lo, b, p, u);
    }
  }

  /** A step from below a solution stays below it. */
  lemma StepStaysBelow(prog: seq<Block>, lo: seq<set<Temp>>, next: seq<set<Temp>>, b: nat)
    requires WellFormed(prog) && |lo| == |prog| && b < |prog| && IsStep(prog, lo, next, b)
    requires forall hi :: Covers(prog, hi) ==> Below(lo, hi)
    ensures forall hi :: Covers(prog, hi) ==> Below(next, hi)
  {
    forall hi | Covers(prog, hi)
      ensures Below(next, hi)
    {
      assert Below(lo, hi);
      forall p | 0 <= p < |next|
        ensures next[p] <= hi[p]
      {
        NeedMonotone(prog[b], lo[b], hi[b], p);
        assert Satisfied(prog, hi, b);
      }
    }
  }

  /**
   * After processing `b`, every block off the new worklist has its needs
   * met and its flags up to date: `b` itself unless its own set grew, and
   * every other block whose set did not grow.
   */
  lemma StepKeepsStable(prog: seq<Block>, lo: seq<set<Temp>>, flags: seq<BlockFlags>, worklist: set<nat>,
                        b: nat, next: seq<set<Temp>>, requeue: set<nat>, f: BlockFlags)
    requires WellFormed(prog) && |lo| == |prog| && b < |prog| && IsStep(prog, lo, next, b)
    requires Stable(prog, lo, flags, worklist)
    requires forall p: nat :: p in requeue <==> p < |lo| && next[p] != lo[p]
    requires BlockFlagsMatch(prog[b], lo[b], f)
    ensures Stable(prog, next, flags[b := f], worklist - {b} + requeue)
  {
    forall c | 0 <= c < |lo| && c !in worklist - {b} + requeue
      ensures Satisfied(prog, next, c) && BlockFlagsMatch(prog[c], next[c], flags[b := f][c])
    {
      assert next[c] == lo[c];
      forall p | 0 <= p < |lo|
        ensures Demanded(prog, next, c, p) <= next[p]
      {
        assert Demanded(prog, next, c, p) == Demanded(prog, lo, c, p);
        if c != b {
          assert Satisfied(prog, lo, c);
        }
      }
    }
  }
}
