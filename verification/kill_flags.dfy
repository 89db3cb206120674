/**
 * The kill flags the live-variable pass puts on definitions and operands
 * while it walks a block backwards. A definition is killed when nothing
 * after it reads it; an operand is killed when the instruction is its last
 * use, and the first operand naming a killed temporary also carries the
 * first-kill flag.
 *
 * Operand flags follow the header's coupling: setting first-kill also sets
 * kill, and clearing kill also clears first-kill.
 */
module KillFlags {
  import opened LiveSets

  /** The flags of one instruction, one entry per definition and per operand. */
  datatype InstrFlags = InstrFlags(defKill: seq<bool>, operandKill: seq<bool>, operandFirstKill: seq<bool>)

  /**
   * KILL: erase each definition from the live set in order. A definition
   * is killed when it was not live, or when an earlier definition of the
   * same instruction already erased it.
   */
  method Kill(defs: seq<Temp>, live0: set<Temp>) returns (live: set<Temp>, kill: seq<bool>)
    ensures live == live0 - (set t | t in defs)
    ensures |kill| == |defs|
    ensures forall k :: 0 <= k < |defs| ==> (kill[k] <==> defs[k] !in live0 || defs[k] in defs[..k])
  {
    live, kill := live0, [];
    for i := 0 to |defs|
      invariant live == live0 - (set t | t in defs[..i])
      invariant |kill| == i
      invariant forall k :: 0 <= k < i ==> (kill[k] <==> defs[k] !in live0 || defs[k] in defs[..k])
    {
      assert defs[..i + 1] == defs[..i] + [defs[i]];
      if defs[i] in live {
        live := live - {defs[i]};
        kill := kill + [false];
      } else {
        kill := kill + [true];
      }
    }
    assert defs[..|defs|] == defs;
  }

  /**
   * GEN as written: each operand not yet live becomes live with
   * first-kill (and so kill) set, and the later operands naming the same
   * temporary get kill without first-kill; an operand already live gets
   * kill cleared. The incoming flags are overwritten.
   */
  method GenAsWritten(ops: seq<Temp>, live0: set<Temp>, kill0: seq<bool>, firstKill0: seq<bool>)
    returns (live: set<Temp>, kill: seq<bool>, firstKill: seq<bool>)
    requires |kill0| == |ops| && |firstKill0| == |ops|
    ensures live == live0 + (set t | t in ops)
    ensures |kill| == |ops| && |firstKill| == |ops|
    ensures forall k :: 0 <= k < |ops| ==>
              && (kill[k] <==> ops[k] !in live0 && ops[k] !in ops[..k])
              && (firstKill[k] <==> kill[k])
  {
    live, kill, firstKill := live0, kill0, firstKill0;
    for i := 0 to |ops|
      invariant GenAsWrittenReached(ops, live0, kill0, firstKill0, i, live, kill, firstKill)
    {
      live, kill, firstKill := GenOperandAsWritten(ops, live0, kill0, firstKill0, i, live, kill, firstKill);
    }
    assert ops[..|ops|] == ops;
  }

  /**
   * The state of GEN as written once the first `i` operands are done: a
   * later operand whose dead temporary an earlier operand made live carries
   * kill without first-kill, and every other later operand still has its
   * incoming flags.
   */
  predicate GenAsWrittenReached(ops: seq<Temp>, live0: set<Temp>, kill0: seq<bool>, firstKill0: seq<bool>,
                                i: nat, live: set<Temp>, kill: seq<bool>, firstKill: seq<bool>)
    requires i <= |ops| && |kill0| == |ops| && |firstKill0| == |ops|
  {
    && live == live0 + (set t | t in ops[..i])
    && |kill| == |ops| && |firstKill| == |ops|
    && (forall k :: 0 <= k < i ==>
          && (kill[k] <==> ops[k] !in live0 && ops[k] !in ops[..k])
          && (firstKill[k] <==> kill[k]))
    && (forall k :: i <= k < |ops| && ops[k] in ops[..i] && ops[k] !in live0 ==>
          kill[k] && !firstKill[k])
    && (forall k :: i <= k < |ops| && (ops[k] !in ops[..i] || ops[k] in live0) ==>
          kill[k] == kill0[k] && firstKill[k] == firstKill0[k])
  }

  /** One operand of GEN as written. */
  method GenOperandAsWritten(ops: seq<Temp>, live0: set<Temp>, kill0: seq<bool>, firstKill0: seq<bool>,
                             i: nat, live: set<Temp>, kill: seq<bool>, firstKill: seq<bool>)
    returns (live': set<Temp>, kill': seq<bool>, firstKill': seq<bool>)
    requires i < |ops| && |kill0| == |ops| && |firstKill0| == |ops|
    requires GenAsWrittenReached(ops, live0, kill0, firstKill0, i, live, kill, firstKill)
    ensures GenAsWrittenReached(ops, live0, kill0, firstKill0, i + 1, live', kill', firstKill')
  {
    assert ops[i] in live <==> ops[i] in live0 || ops[i] in ops[..i];
    if ops[i] !in live {
      live', kill', firstKill' := GenDeadOperand(ops, live0, kill0, firstKill0, i, live, kill, firstKill);
    } else {
      live' := live;
      assert ops[..i + 1] == ops[..i] + [ops[i]];
      // setKill(false) clears first-kill as well
      kill', firstKill' := kill[i := false], firstKill[i := false];
    }
  }

  /**
   * An operand whose temporary is not yet live: it becomes live, gets
   * first-kill (and so kill), and its later duplicates get kill.
   */
  method GenDeadOperand(ops: seq<Temp>, live0: set<Temp>, kill0: seq<bool>, firstKill0: seq<bool>,
                        i: nat, live: set<Temp>, kill: seq<bool>, firstKill: seq<bool>)
    returns (live': set<Temp>, kill': seq<bool>, firstKill': seq<bool>)
    requires i < |ops| && |kill0| == |ops| && |firstKill0| == |ops|
    requires GenAsWrittenReached(ops, live0, kill0, firstKill0, i, live, kill, firstKill)
    requires ops[i] !in live0 && ops[i] !in ops[..i]
    ensures GenAsWrittenReached(ops, live0, kill0, firstKill0, i + 1, live', kill', firstKill')
  {
    assert ops[..i + 1] == ops[..i] + [ops[i]];
    live' := live + {ops[i]};
    // setFirstKill(true) sets kill as well
    kill', firstKill' := kill[i := true], firstKill[i := true];
    kill', firstKill' := MarkLaterDuplicates(ops, i, kill', firstKill');
  }

  /**
   * The inner loop of GEN: every later operand naming the same temporary
   * as operand `i` gets kill without first-kill; the others keep their
   * flags.
   */
  method MarkLaterDuplicates(ops: seq<Temp>, i: nat, kill: seq<bool>, firstKill: seq<bool>)
    returns (kill': seq<bool>, firstKill': seq<bool>)
    requires i < |ops| && |kill| == |ops| && |firstKill| == |ops|
    ensures |kill'| == |ops| && |firstKill'| == |ops|
    ensures forall k :: i < k < |ops| && ops[k] == ops[i] ==> kill'[k] && !firstKill'[k]
    ensures forall k :: 0 <= k < |ops| && !(i < k && ops[k] == ops[i]) ==>
              kill'[k] == kill[k] && firstKill'[k] == firstKill[k]
  {
    kill', firstKill' := kill, firstKill;
    for j := i + 1 to |ops|
      invariant |kill'| == |ops| && |firstKill'| == |ops|
      invariant forall k :: i < k < j && ops[k] == ops[i] ==> kill'[k] && !firstKill'[k]
      invariant forall k :: 0 <= k < |ops| && !(i < k < j && ops[k] == ops[i]) ==>
                  kill'[k] == kill[k] && firstKill'[k] == firstKill[k]
    {
      if ops[j] == ops[i] {
        // setFirstKill(false) leaves kill alone; setKill(true) sets it
        kill', firstKill' := kill'[j := true], firstKill'[j := false];
      }
    }
  }

  /**
   * GEN as evidently intended: every operand's flags are cleared first, so
   * the kill flags the inner loop gives later duplicates survive. Then an
   * operand is killed exactly when its temporary is dead after the
   * instruction, and first-killed when it is also the first operand
   * naming it.
   */
  method Gen(ops: seq<Temp>, live0: set<Temp>) returns (live: set<Temp>, kill: seq<bool>, firstKill: seq<bool>)
    ensures live == live0 + (set t | t in ops)
    ensures |kill| == |ops| && |firstKill| == |ops|
    ensures forall k :: 0 <= k < |ops| ==>
              && (kill[k] <==> ops[k] !in live0)
              && (firstKill[k] <==> ops[k] !in live0 && ops[k] !in ops[..k])
  {
    kill, firstKill := seq(|ops|, _ => false), seq(|ops|, _ => false);
    live := live0;
    for i := 0 to |ops|
      invariant GenReached(ops, live0, i, live, kill, firstKill)
    {
      live, kill, firstKill := GenOperand(ops, live0, i, live, kill, firstKill);
    }
    assert ops[..|ops|] == ops;
  }

  /**
   * The state of the corrected GEN once the first `i` operands are done:
   * their flags are final, and a later operand carries kill exactly when an
   * earlier operand already made its dead temporary live.
   */
  predicate GenReached(ops: seq<Temp>, live0: set<Temp>, i: nat, live: set<Temp>, kill: seq<bool>, firstKill: seq<bool>)
    requires i <= |ops|
  {
    && live == live0 + (set t | t in ops[..i])
    && |kill| == |ops| && |firstKill| == |ops|
    && (forall k :: 0 <= k < i ==>
          && (kill[k] <==> ops[k] !in live0)
          && (firstKill[k] <==> ops[k] !in live0 && ops[k] !in ops[..k]))
    && (forall k :: i <= k < |ops| ==>
          (kill[k] <==> ops[k] in ops[..i] && ops[k] !in live0) && !firstKill[k])
  }

  /** One operand of the corrected GEN. */
  method GenOperand(ops: seq<Temp>, live0: set<Temp>, i: nat, live: set<Temp>, kill: seq<bool>, firstKill: seq<bool>)
    returns (live': set<Temp>, kill': seq<bool>, firstKill': seq<bool>)
    requires i < |ops| && GenReached(ops, live0, i, live, kill, firstKill)
    ensures GenReached(ops, live0, i + 1, live', kill', firstKill')
  {
    assert ops[..i + 1] == ops[..i] + [ops[i]];
    live', kill', firstKill' := live, kill, firstKill;
    if ops[i] !in live {
      live' := live + {ops[i]};
      kill', firstKill' := kill[i := true], firstKill[i := true];
      kill', firstKill' := MarkLaterDuplicates(ops, i, kill', firstKill');
    }
  }

  /**
   * An instruction reading a dead temporary twice. As written, the second
   * operand ends up without its kill flag although the temporary dies
   * there; the corrected GEN kills both and first-kills only the first.
   */
  method DuplicateOperandExample() returns (asWritten: seq<bool>, corrected: seq<bool>, correctedFirst: seq<bool>)
    ensures asWritten == [true, false]
    ensures corrected == [true, true] && correctedFirst == [true, false]
  {
    var t := Temp(1, false);
    assert [t, t][..0] == [] && [t, t][..1] == [t];
    var _, k, _ := GenAsWritten([t, t], {}, [false, false], [false, false]);
    asWritten := k;
    var _, k2, f2 := Gen([t, t], {});
    corrected, correctedFirst := k2, f2;
  }

  /** What the flags of an instruction mean when `after` is live after it. */
  predicate FlagsMatch(ins: Instr, after: set<Temp>, flags: InstrFlags)
  {
    && |flags.defKill| == |ins.defs|
    && (forall k :: 0 <= k < |ins.defs| ==>
          (flags.defKill[k] <==> ins.defs[k] !in after || ins.defs[k] in ins.defs[..k]))
    && (ins.logicalEnd ==> flags.operandKill == [] && flags.operandFirstKill == [])
    && (!ins.logicalEnd ==>
          && |flags.operandKill| == |ins.operands| && |flags.operandFirstKill| == |ins.operands|
          && forall k :: 0 <= k < |ins.operands| ==>
               && (flags.operandKill[k] <==> ins.operands[k] !in after - Defs(ins))
               && (flags.operandFirstKill[k] <==> flags.operandKill[k] && ins.operands[k] !in ins.operands[..k]))
  }

  /**
   * One step of the backward walk: KILL, then GEN unless the instruction
   * is p_logical_end. The live set moves from after the instruction to
   * before it, and the flags say which definitions and operands die.
   */
  method InstrStep(ins: Instr, after: set<Temp>) returns (before: set<Temp>, flags: InstrFlags)
    ensures before == LiveBeforeInstr(ins, after)
    ensures FlagsMatch(ins, after, flags)
  {
    var live, defKill := Kill(ins.defs, after);
    assert live == after - Defs(ins);
    if ins.logicalEnd {
      before, flags := live, InstrFlags(defKill, [], []);
    } else {
      var kill, firstKill;
      before, kill, firstKill := Gen(ins.operands, live);
      flags := InstrFlags(defKill, kill, firstKill);
    }
  }
}
