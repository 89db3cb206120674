/**
 * The liveness equations of the ACO live-variable pass, as sets of
 * temporaries: what is live before an instruction, at the start of a
 * block, what a block asks of each predecessor's live-out set, and when an
 * assignment of live-out sets satisfies every block.
 */
module LiveSets {
  import opened Wrappers

  /**
   * A temporary: its SSA id and whether it is linear (an SGPR or a linear
   * VGPR, live along the linear control flow) or not (a VGPR, live along
   * the logical control flow).
   */
  datatype Temp = Temp(id: nat, linear: bool)

  /**
   * An instruction other than a phi, reduced to its temporary definitions
   * and operands. `logicalEnd` marks p_logical_end, whose operands the
   * pass does not make live.
   */
  datatype Instr = Instr(defs: seq<Temp>, operands: seq<Temp>, logicalEnd: bool)

  /**
   * A phi: p_phi when `logical`, p_linear_phi otherwise. Operand `i`
   * flows in from predecessor `i` of the matching kind; `None` is an
   * operand that is not a temporary.
   */
  datatype Phi = Phi(logical: bool, def: Temp, operands: seq<Option<Temp>>)

  /**
   * A block: its leading phis, the instructions after them, its logical
   * and linear predecessors (as block indices), and the exec mask that is
   * live at its end, if any.
   */
  datatype Block = Block(
    phis: seq<Phi>,
    instrs: seq<Instr>,
    logicalPreds: seq<nat>,
    linearPreds: seq<nat>,
    liveOutExec: Option<Temp>)

  /** The predecessors a phi's operands follow. */
  function PhiPreds(blk: Block, ph: Phi): seq<nat>
  {
    if ph.logical then blk.logicalPreds else blk.linearPreds
  }

  /** Every phi has an operand for each of its predecessors. */
  predicate PhisWellFormed(blk: Block)
  {
    forall k :: 0 <= k < |blk.phis| ==> |blk.phis[k].operands| >= |PhiPreds(blk, blk.phis[k])|
  }

  /**
   * What the pass relies on: block `i` sits at index `i`, predecessors
   * name existing blocks, and phis are complete.
   */
  predicate WellFormed(prog: seq<Block>)
  {
    forall b :: 0 <= b < |prog| ==>
      && PhisWellFormed(prog[b])
      && (forall i :: 0 <= i < |prog[b].logicalPreds| ==> prog[b].logicalPreds[i] < |prog|)
      && (forall i :: 0 <= i < |prog[b].linearPreds| ==> prog[b].linearPreds[i] < |prog|)
  }

  function Defs(ins: Instr): set<Temp>
  {
    set t | t in ins.defs
  }

  /** The temporaries an instruction makes live; none for p_logical_end. */
  function Uses(ins: Instr): set<Temp>
  {
    if ins.logicalEnd then {} else set t | t in ins.operands
  }

  /** KILL, then GEN: the temporaries live before `ins` when `after` is live after it. */
  function LiveBeforeInstr(ins: Instr, after: set<Temp>): set<Temp>
  {
    (after - Defs(ins)) + Uses(ins)
  }

  /** The backward walk over `instrs`, starting from the set live after the last one. */
  function Backward(instrs: seq<Instr>, after: set<Temp>): set<Temp>
    decreases |instrs|
  {
    if |instrs| == 0 then after
    else Backward(instrs[..|instrs| - 1], LiveBeforeInstr(instrs[|instrs| - 1], after))
  }

  /**
   * The textbook meaning of liveness: `t` is live before `instrs` when
   * some instruction uses it and none before that one defines it, or it
   * is live after them all and none defines it.
   */
  predicate UpwardExposed(instrs: seq<Instr>, after: set<Temp>, t: Temp)
  {
    || (exists k :: 0 <= k < |instrs| && t in Uses(instrs[k]) && NotDefinedBefore(instrs, k, t))
    || (t in after && NotDefinedBefore(instrs, |instrs|, t))
  }

  predicate NotDefinedBefore(instrs: seq<Instr>, k: nat, t: Temp)
    requires k <= |instrs|
  {
    forall j :: 0 <= j < k ==> t !in Defs(instrs[j])
  }

  /** The backward walk computes exactly the upward-exposed temporaries. */
  lemma {:induction false} BackwardIsUpwardExposed(instrs: seq<Instr>, after: set<Temp>, t: Temp)
    ensures t in Backward(instrs, after) <==> UpwardExposed(instrs, after, t)
    decreases |instrs|
  {
    if |instrs| > 0 {
      var n := |instrs| - 1;
      var front, last := instrs[..n], instrs[n];
      var mid := LiveBeforeInstr(last, after);
      BackwardIsUpwardExposed(front, mid, t);
      assert forall k :: 0 <= k <= n ==> (NotDefinedBefore(front, k, t) <==> NotDefinedBefore(instrs, k, t)) by {
        forall k | 0 <= k <= n
          ensures NotDefinedBefore(front, k, t) <==> NotDefinedBefore(instrs, k, t)
        {
          assert forall j :: 0 <= j < k ==> front[j] == instrs[j];
        }
      }
      if t in Backward(instrs, after) {
        assert UpwardExposed(front, mid, t);
        if exists k :: 0 <= k < n && t in Uses(front[k]) && NotDefinedBefore(front, k, t) {
          var k :| 0 <= k < n && t in Uses(front[k]) && NotDefinedBefore(front, k, t);
          assert instrs[k] == front[k];
        } else {
          assert t in mid && NotDefinedBefore(front, n, t);
          if t in Uses(last) {
            assert t in Uses(instrs[n]) && NotDefinedBefore(instrs, n, t);
          } else {
            assert t in after && t !in Defs(instrs[n]);
            assert NotDefinedBefore(instrs, |instrs|, t);
          }
        }
      }
      if UpwardExposed(instrs, after, t) {
        if exists k :: 0 <= k < |instrs| && t in Uses(instrs[k]) && NotDefinedBefore(instrs, k, t) {
          var k :| 0 <= k < |instrs| && t in Uses(instrs[k]) && NotDefinedBefore(instrs, k, t);
          if k < n {
            assert front[k] == instrs[k];
            assert UpwardExposed(front, mid, t);
          } else {
            assert t in mid;
            assert UpwardExposed(front, mid, t);
          }
        } else {
          assert t in after && NotDefinedBefore(instrs, |instrs|, t);
          assert t !in Defs(instrs[n]);
          assert UpwardExposed(front, mid, t);
        }
      }
    }
  }

  /** A walk over `s` is the walk over its front started from the walk over its back. */
  lemma {:induction false} BackwardSplit(s: seq<Instr>, i: nat, after: set<Temp>)
    requires i <= |s|
    ensures Backward(s, after) == Backward(s[..i], Backward(s[i..], after))
    decreases |s|
  {
    if i < |s| {
      var n := |s| - 1;
      BackwardSplit(s[..n], i, LiveBeforeInstr(s[n], after));
      assert s[..n][..i] == s[..i];
      assert s[..n][i..] == s[i..n];
      var back := s[i..];
      assert back[..|back| - 1] == s[i..n] && back[|back| - 1] == s[n];
    } else {
      assert s[..i] == s;
    }
  }

  /** One step more: the walk from instruction `i` on is instruction `i`'s step after the walk from `i + 1` on. */
  lemma BackwardStep(s: seq<Instr>, i: nat, after: set<Temp>)
    requires i < |s|
    ensures Backward(s[i..], after) == LiveBeforeInstr(s[i], Backward(s[i + 1..], after))
  {
    var back := s[i..];
    BackwardSplit(back, 1, after);
    assert back[1..] == s[i + 1..];
    assert back[..1] == [s[i]];
  }

  /** More live after means at least as much live before. */
  lemma {:induction false} BackwardMonotone(instrs: seq<Instr>, a: set<Temp>, b: set<Temp>)
    requires a <= b
    ensures Backward(instrs, a) <= Backward(instrs, b)
    decreases |instrs|
  {
    if |instrs| > 0 {
      var n := |instrs| - 1;
      BackwardMonotone(instrs[..n], LiveBeforeInstr(instrs[n], a), LiveBeforeInstr(instrs[n], b));
    }
  }

  /** The exec mask live at the end of the block, as a set. */
  function ExecLive(blk: Block): set<Temp>
  {
    if blk.liveOutExec.Some? then {blk.liveOutExec.value} else {}
  }

  /** What is live after instruction `k` of the block when `out` is its live-out set. */
  function LiveAfter(blk: Block, out: set<Temp>, k: nat): set<Temp>
    requires k < |blk.instrs|
  {
    Backward(blk.instrs[k + 1..], out + ExecLive(blk))
  }

  function PhiDefs(phis: seq<Phi>): set<Temp>
  {
    set ph | ph in phis :: ph.def
  }

  /**
   * The live-in set of a block: walked back from its live-out set and the
   * exec mask, with the phi definitions taken out.
   */
  function LiveIn(blk: Block, out: set<Temp>): set<Temp>
  {
    Backward(blk.instrs, out + ExecLive(blk)) - PhiDefs(blk.phis)
  }

  /**
   * A temporary is live-in exactly when it is upward exposed from the
   * live-out set or the exec mask and no phi of the block defines it.
   */
  lemma LiveInIsUpwardExposed(blk: Block, out: set<Temp>, t: Temp)
    ensures t in LiveIn(blk, out) <==>
              UpwardExposed(blk.instrs, out + ExecLive(blk), t) && t !in PhiDefs(blk.phis)
  {
    BackwardIsUpwardExposed(blk.instrs, out + ExecLive(blk), t);
  }

  lemma LiveInMonotone(blk: Block, a: set<Temp>, b: set<Temp>)
    requires a <= b
    ensures LiveIn(blk, a) <= LiveIn(blk, b)
  {
    BackwardMonotone(blk.instrs, a + ExecLive(blk), b + ExecLive(blk));
  }

  function Linear(s: set<Temp>): set<Temp>
  {
    set t | t in s && t.linear
  }

  function NonLinear(s: set<Temp>): set<Temp>
  {
    set t | t in s && !t.linear
  }

  /** The operands among the first `n` of a phi that flow in from predecessor `p`. */
  function PhiOperandUses(ph: Phi, preds: seq<nat>, n: nat, p: nat): set<Temp>
    requires n <= |preds| && n <= |ph.operands|
  {
    if n == 0 then {}
    else
      var i := n - 1;
      PhiOperandUses(ph, preds, i, p)
        + (if preds[i] == p && ph.operands[i].Some? then {ph.operands[i].value} else {})
  }

  /** The operands of phis `k` onwards that flow in from predecessor `p`. */
  function PhiUses(blk: Block, k: nat, p: nat): set<Temp>
    requires PhisWellFormed(blk) && k <= |blk.phis|
    decreases |blk.phis| - k
  {
    if k == |blk.phis| then {}
    else
      var ph := blk.phis[k];
      PhiOperandUses(ph, PhiPreds(blk, ph), |PhiPreds(blk, ph)|, p) + PhiUses(blk, k + 1, p)
  }

  /** `t` is operand `i` of a phi at or after `k`, flowing in from predecessor `p`. */
  predicate PhiOperandFrom(blk: Block, k: nat, p: nat, t: Temp)
    requires PhisWellFormed(blk) && k <= |blk.phis|
  {
    exists j, i :: k <= j < |blk.phis| && 0 <= i < |PhiPreds(blk, blk.phis[j])|
      && PhiPreds(blk, blk.phis[j])[i] == p && blk.phis[j].operands[i] == Some(t)
  }

  lemma {:induction false} PhiOperandUsesMeaning(ph: Phi, preds: seq<nat>, n: nat, p: nat, t: Temp)
    requires n <= |preds| && n <= |ph.operands|
    ensures t in PhiOperandUses(ph, preds, n, p) <==>
              exists i :: 0 <= i < n && preds[i] == p && ph.operands[i] == Some(t)
  {
    if n > 0 {
      PhiOperandUsesMeaning(ph, preds, n - 1, p, t);
    }
  }

  /** The phi operands a block asks of predecessor `p` are exactly those that flow in from `p`. */
  lemma {:induction false} PhiUsesMeaning(blk: Block, k: nat, p: nat, t: Temp)
    requires PhisWellFormed(blk) && k <= |blk.phis|
    ensures t in PhiUses(blk, k, p) <==> PhiOperandFrom(blk, k, p, t)
    decreases |blk.phis| - k
  {
    if k < |blk.phis| {
      var ph := blk.phis[k];
      PhiUsesMeaning(blk, k + 1, p, t);
      PhiOperandUsesMeaning(ph, PhiPreds(blk, ph), |PhiPreds(blk, ph)|, p, t);
      if PhiOperandFrom(blk, k, p, t) {
        var j, i :| k <= j < |blk.phis| && 0 <= i < |PhiPreds(blk, blk.phis[j])|
          && PhiPreds(blk, blk.phis[j])[i] == p && blk.phis[j].operands[i] == Some(t);
        if j > k {
          assert PhiOperandFrom(blk, k + 1, p, t);
        }
      }
    }
  }

  /**
   * What block `blk`, with live-in set `liveIn`, needs in the live-out
   * set of predecessor `p`: its non-linear live-ins if `p` is a logical
   * predecessor, its linear live-ins if `p` is a linear predecessor, and
   * the phi operands flowing in from `p`.
   */
  function Need(blk: Block, liveIn: set<Temp>, p: nat): set<Temp>
    requires PhisWellFormed(blk)
  {
    (if p in blk.logicalPreds then NonLinear(liveIn) else {})
      + (if p in blk.linearPreds then Linear(liveIn) else {})
      + PhiUses(blk, 0, p)
  }

  lemma NeedMonotone(blk: Block, a: set<Temp>, b: set<Temp>, p: nat)
    requires PhisWellFormed(blk) && a <= b
    ensures Need(blk, LiveIn(blk, a), p) <= Need(blk, LiveIn(blk, b), p)
  {
    LiveInMonotone(blk, a, b);
  }

  /** What block `b` needs of `p` under the live-out assignment `lo`. */
  function Demanded(prog: seq<Block>, lo: seq<set<Temp>>, b: nat, p: nat): set<Temp>
    requires WellFormed(prog) && |lo| == |prog| && b < |prog|
  {
    Need(prog[b], LiveIn(prog[b], lo[b]), p)
  }

  /** Block `b`'s needs are met by the live-out sets `lo`. */
  predicate Satisfied(prog: seq<Block>, lo: seq<set<Temp>>, b: nat)
    requires WellFormed(prog) && |lo| == |prog| && b < |prog|
  {
    forall p :: 0 <= p < |prog| ==> Demanded(prog, lo, b, p) <= lo[p]
  }

  /** A solution of the liveness equations: every block's needs are met. */
  predicate Covers(prog: seq<Block>, lo: seq<set<Temp>>)
    requires WellFormed(prog)
  {
    |lo| == |prog| && forall b :: 0 <= b < |prog| ==> Satisfied(prog, lo, b)
  }

  /** `lo` is below `hi` block by block. */
  predicate Below(lo: seq<set<Temp>>, hi: seq<set<Temp>>)
  {
    |lo| == |hi| && forall b :: 0 <= b < |lo| ==> lo[b] <= hi[b]
  }

  /** Every temporary the program names as an operand, a phi operand or a live exec mask. */
  function Mentioned(prog: seq<Block>): set<Temp>
  {
    (set b, k, t | 0 <= b < |prog| && 0 <= k < |prog[b].instrs| && t in prog[b].instrs[k].operands :: t)
      + (set b, k, i | 0 <= b < |prog| && 0 <= k < |prog[b].phis| && 0 <= i < |prog[b].phis[k].operands|
           && prog[b].phis[k].operands[i].Some? :: prog[b].phis[k].operands[i].value)
      + (set b | 0 <= b < |prog| && prog[b].liveOutExec.Some? :: prog[b].liveOutExec.value)
  }

  /** A block never needs anything outside the live-out sets and the temporaries the program names. */
  lemma NeedWithin(prog: seq<Block>, lo: seq<set<Temp>>, b: nat, p: nat, u: set<Temp>)
    requires WellFormed(prog) && |lo| == |prog| && b < |prog|
    requires Mentioned(prog) <= u && lo[b] <= u
    ensures Demanded(prog, lo, b, p) <= u
  {
    var blk := prog[b];
    forall t | t in LiveIn(blk, lo[b])
      ensures t in u
    {
      LiveInIsUpwardExposed(blk, lo[b], t);
      if exists k :: 0 <= k < |blk.instrs| && t in Uses(blk.instrs[k]) && NotDefinedBefore(blk.instrs, k, t) {
        var k :| 0 <= k < |blk.instrs| && t in Uses(blk.instrs[k]) && NotDefinedBefore(blk.instrs, k, t);
        assert t in blk.instrs[k].operands;
      }
    }
    forall t | t in PhiUses(blk, 0, p)
      ensures t in u
    {
      PhiUsesMeaning(blk, 0, p, t);
      var j, i :| 0 <= j < |blk.phis| && 0 <= i < |PhiPreds(blk, blk.phis[j])|
        && PhiPreds(blk, blk.phis[j])[i] == p && blk.phis[j].operands[i] == Some(t);
      assert blk.phis[j].operands[i].Some?;
    }
  }
}
