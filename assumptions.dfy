/** The checkpoint/assume optimisation of the PIR compiler.

    A Checkpoint is a point to fall back to (deoptimize) when a speculation
    fails; an Assume guards a condition with a polarity and names the
    Checkpoint to fall back to. The pass
      1. splices an empty preheader block between a branch block ending in a
         Checkpoint and its fast successor when that successor is a merge
         block (a loop header), so that guards can be hoisted out of loops;
      2. drops a Checkpoint when another one is already available, sending
         every use of it to the surviving checkpoint (following the chain of
         earlier replacements);
      3. deletes an Assume whose (polarity, condition) is already available,
         retargets a surviving Assume to the available checkpoint, and stages
         it for hoisting next to the instruction that computes its condition;
      4. walks the code once more and inserts each staged Assume right after
         its guard instruction.

    The control-flow graph is an arena of blocks addressed by id and an arena
    of instructions addressed by id. The two availability analyses and the
    visitor order are computed by engines outside this model; their results
    are given as maps and sequences. */
module Assumptions {

  type InstrId = nat
  type BlockId = nat

  datatype Option<T> = None | Some(value: T)

  /** A condition operand: an instruction, or some other value (a constant,
      an argument) that is not an instruction. */
  datatype Value = InstrValue(id: InstrId) | OtherValue(id: nat)

  /** The instructions the pass distinguishes; each knows its block. */
  datatype Instr =
    | Checkpoint(bb: BlockId)
    | Assume(bb: BlockId, assumeTrue: bool, cond: Value, cp: InstrId)
    | Other(bb: BlockId)

  /** A basic block: its instructions and its two successor ids. */
  datatype Block = Block(instrs: seq<InstrId>, next0: Option<BlockId>, next1: Option<BlockId>)

  predicate IsBranch(b: Block) {
    b.next0.Some? && b.next1.Some?
  }

  /** The sequence without its element at position k. */
  function Remove(s: seq<InstrId>, k: nat): (r: seq<InstrId>)
    requires k < |s|
    ensures |r| == |s| - 1
    ensures forall j :: 0 <= j < k ==> r[j] == s[j]
    ensures forall j :: k <= j < |r| ==> r[j] == s[j + 1]
  {
    s[..k] + s[k + 1..]
  }

  // ---------------------------------------------------------------------------
  // Available assumptions

  /** What an Assume makes available: its polarity and its condition. The
      checkpoint it falls back to is not part of it. */
  datatype AAssumption = AAssumption(yesNo: bool, assumption: Value)

  function AAssumptionOf(a: Instr): (r: AAssumption)
    requires a.Assume?
    ensures r.yesNo == a.assumeTrue && r.assumption == a.cond
  {
    AAssumption(a.assumeTrue, a.cond)
  }

  /** Two assumes make the same assumption exactly when polarity and condition
      agree; retargeting an assume to another checkpoint keeps its assumption. */
  lemma AAssumptionEquality(a: Instr, b: Instr, cp: InstrId)
    requires a.Assume? && b.Assume?
    ensures AAssumptionOf(a) == AAssumptionOf(b) <==> a.assumeTrue == b.assumeTrue && a.cond == b.cond
    ensures AAssumptionOf(a.(cp := cp)) == AAssumptionOf(a)
  {
  }

  /** The transfer function of the available-assumptions analysis. */
  function Transfer(state: set<AAssumption>, i: Instr): (r: set<AAssumption>)
    ensures state <= r
    ensures i.Assume? ==> AAssumptionOf(i) in r && r - state <= {AAssumptionOf(i)}
    ensures !i.Assume? ==> r == state
  {
    if i.Assume? then state + {AAssumptionOf(i)} else state
  }

  /** The transfer function is monotone and idempotent, as the intersection
      lattice of the analysis requires. */
  lemma TransferMonotone(s: set<AAssumption>, t: set<AAssumption>, i: Instr)
    ensures s <= t ==> Transfer(s, i) <= Transfer(t, i)
    ensures Transfer(Transfer(s, i), i) == Transfer(s, i)
  {
  }

  /** The abstract state of the analysis at one program point. */
  class AvailableAssumptions {
    var available: set<AAssumption>

    constructor ()
      ensures available == {}
    {
      available := {};
    }

    /** `apply`: an Assume not yet available is added and an update reported;
        anything else leaves the state as it is. */
    method Apply(i: Instr) returns (updated: bool)
      modifies this
      ensures available == Transfer(old(available), i)
      ensures updated <==> i.Assume? && AAssumptionOf(i) !in old(available)
      ensures updated <==> available != old(available)
    {
      updated := false;
      if i.Assume? {
        if AAssumptionOf(i) !in available {
          available := available + {AAssumptionOf(i)};
          updated := true;
        }
      }
    }
  }

  // ---------------------------------------------------------------------------
  // Replacement chains

  /** Every replaced checkpoint points to one of strictly smaller rank: the
      chains are finite. */
  ghost predicate ChainOk(replaced: map<InstrId, InstrId>, rank: map<InstrId, nat>) {
    forall k :: k in replaced ==>
      k in rank && replaced[k] in rank && rank[replaced[k]] < rank[k]
  }

  /** The end of the replacement chain starting at c. */
  ghost function Resolved(replaced: map<InstrId, InstrId>, rank: map<InstrId, nat>, c: InstrId): (r: InstrId)
    requires ChainOk(replaced, rank) && c in rank
    ensures r !in replaced
    ensures r in rank && rank[r] <= rank[c]
    ensures r == c || r in replaced.Values
    ensures c !in replaced ==> r == c
    decreases rank[c]
  {
    if c in replaced then Resolved(replaced, rank, replaced[c]) else c
  }

  /** Storing the resolved end r for a checkpoint cp that was not replaced yet
      extends every chain that used to end at cp to end at r, and leaves every
      other chain's end alone. */
  lemma {:induction false} ResolvedAfterStore(replaced: map<InstrId, InstrId>, rank: map<InstrId, nat>,
                                              cp: InstrId, r: InstrId, x: InstrId)
    requires ChainOk(replaced, rank) && cp in rank && r in rank && x in rank
    requires cp !in replaced && r !in replaced && rank[r] < rank[cp]
    ensures ChainOk(replaced[cp := r], rank)
    ensures Resolved(replaced[cp := r], rank, x) ==
      (if Resolved(replaced, rank, x) == cp then r else Resolved(replaced, rank, x))
    decreases rank[x]
  {
    var m := replaced[cp := r];
    if x == cp {
      assert Resolved(m, rank, r) == r;
    } else if x in replaced {
      ResolvedAfterStore(replaced, rank, cp, r, replaced[x]);
    } else {
      assert x !in m;
    }
  }

  /** Resolving twice is resolving once. */
  lemma ResolvedIdempotent(replaced: map<InstrId, InstrId>, rank: map<InstrId, nat>, c: InstrId)
    requires ChainOk(replaced, rank) && c in rank
    ensures Resolved(replaced, rank, Resolved(replaced, rank, c)) == Resolved(replaced, rank, c)
  {
  }

  /** An instruction after `replaceUsesWith(from, to)` on checkpoint `from`. */
  function Retarget(i: Instr, from: InstrId, to: InstrId): (r: Instr)
    ensures i.Assume? && i.cp == from ==> r == i.(cp := to)
    ensures !(i.Assume? && i.cp == from) ==> r == i
  {
    if i.Assume? && i.cp == from then i.(cp := to) else i
  }

  function RetargetAll(instrs: map<InstrId, Instr>, from: InstrId, to: InstrId): (r: map<InstrId, Instr>)
    ensures r.Keys == instrs.Keys
    ensures forall k :: k in r ==> r[k] == Retarget(instrs[k], from, to)
  {
    map k | k in instrs :: Retarget(instrs[k], from, to)
  }

  /** After the retarget no assume falls back to the dropped checkpoint. */
  lemma RetargetLeavesNoUse(instrs: map<InstrId, Instr>, from: InstrId, to: InstrId)
    requires from != to
    ensures forall k :: k in RetargetAll(instrs, from, to) && RetargetAll(instrs, from, to)[k].Assume? ==>
      RetargetAll(instrs, from, to)[k].cp != from
  {
  }

  /** The block the deleted deopt successor leaves behind, if any. */
  function DeoptBlock(next1: Option<BlockId>, b: BlockId): (r: set<BlockId>)
    ensures next1.Some? && next1.value != b ==> r == {next1.value}
    ensures !(next1.Some? && next1.value != b) ==> r == {}
  {
    if next1.Some? && next1.value != b then {next1.value} else {}
  }

  // ---------------------------------------------------------------------------
  // Hoist insertion

  /** The number of instructions of s that are staged guards. */
  function Count(s: seq<InstrId>, guards: set<InstrId>): (n: nat)
    ensures n <= |s|
  {
    if s == [] then 0 else (if s[0] in guards then 1 else 0) + Count(s[1..], guards)
  }

  /** The instructions of s after the insertion walk: every staged guard is
      followed by a new id, handed out from start upwards. */
  function Expand(s: seq<InstrId>, guards: set<InstrId>, start: nat): (e: seq<InstrId>)
    ensures |e| == |s| + Count(s, guards)
    ensures forall x :: x in e ==> x in s || start <= x < start + Count(s, guards)
  {
    if s == [] then []
    else if s[0] in guards then [s[0], start] + Expand(s[1..], guards, start + 1)
    else [s[0]] + Expand(s[1..], guards, start)
  }

  /** The staged guards of s, in order: the i-th new assume of the walk is
      the one for the i-th of them. */
  function Guards(s: seq<InstrId>, guards: set<InstrId>): (r: seq<InstrId>)
    ensures |r| == Count(s, guards)
    ensures forall x :: x in r ==> x in s && x in guards
  {
    if s == [] then []
    else (if s[0] in guards then [s[0]] else []) + Guards(s[1..], guards)
  }

  /** In e, every staged guard is directly followed by an id at or above
      start whose offset from start is that guard's position in gs. */
  predicate PairsOrdered(e: seq<InstrId>, gs: seq<InstrId>, guards: set<InstrId>, start: nat) {
    forall k :: 0 <= k < |e| && e[k] in guards ==>
      k + 1 < |e| && start <= e[k + 1] < start + |gs| && gs[e[k + 1] - start] == e[k]
  }

  /** PairsOrdered survives putting a staged guard x in front, followed by
      its new id start. */
  lemma PairsConsGuard(x: InstrId, rest: seq<InstrId>, gs: seq<InstrId>, guards: set<InstrId>, start: nat)
    requires x in guards && start !in guards
    requires PairsOrdered(rest, gs, guards, start + 1)
    ensures PairsOrdered([x, start] + rest, [x] + gs, guards, start)
  {
    var e := [x, start] + rest;
    var gs1 := [x] + gs;
    forall k | 0 <= k < |e| && e[k] in guards
      ensures k + 1 < |e| && start <= e[k + 1] < start + |gs1| && gs1[e[k + 1] - start] == e[k]
    {
      if k < 2 {
        assert k == 0 && e[1] == start && gs1[0] == x;
      } else {
        assert e[k] == rest[k - 2];
        assert e[k + 1] == rest[k - 1];
      }
    }
  }

  /** PairsOrdered survives putting an instruction x that is not a staged
      guard in front. */
  lemma PairsConsOther(x: InstrId, rest: seq<InstrId>, gs: seq<InstrId>, guards: set<InstrId>, start: nat)
    requires x !in guards
    requires PairsOrdered(rest, gs, guards, start)
    ensures PairsOrdered([x] + rest, gs, guards, start)
  {
    var e := [x] + rest;
    forall k | 0 <= k < |e| && e[k] in guards
      ensures k + 1 < |e| && start <= e[k + 1] < start + |gs| && gs[e[k + 1] - start] == e[k]
    {
      assert e[k] == rest[k - 1];
      assert e[k + 1] == rest[k];
    }
  }

  /** The new id right after a staged guard in the expansion is the one
      handed out for that guard: its offset from start is the guard's
      position among the staged guards of s. */
  lemma {:induction false} ExpandPairs(s: seq<InstrId>, guards: set<InstrId>, start: nat)
    requires forall k :: 0 <= k < |s| ==> s[k] < start
    requires forall g :: g in guards ==> g < start
    ensures PairsOrdered(Expand(s, guards, start), Guards(s, guards), guards, start)
    decreases |s|
  {
    if s != [] {
      var st := if s[0] in guards then start + 1 else start;
      var rest := Expand(s[1..], guards, st);
      var gs := Guards(s[1..], guards);
      ExpandPairs(s[1..], guards, st);
      if s[0] in guards {
        PairsConsGuard(s[0], rest, gs, guards, start);
        assert Expand(s, guards, start) == [s[0], start] + rest;
        assert Guards(s, guards) == [s[0]] + gs;
      } else {
        PairsConsOther(s[0], rest, gs, guards, start);
        assert Expand(s, guards, start) == [s[0]] + rest;
        assert Guards(s, guards) == [] + gs;
      }
    }
  }

  /** The instructions of e below bound, in order. */
  function Older(e: seq<InstrId>, bound: nat): seq<InstrId>
  {
    if e == [] then []
    else (if e[0] < bound then [e[0]] else []) + Older(e[1..], bound)
  }

  /** Older on a sequence with a known head. */
  lemma OlderCons(x: InstrId, rest: seq<InstrId>, bound: nat)
    ensures Older([x] + rest, bound) == (if x < bound then [x] else []) + Older(rest, bound)
  {
    assert ([x] + rest)[0] == x && ([x] + rest)[1..] == rest;
  }

  /** Dropping the inserted assumes gives back the original block. */
  lemma {:induction false} ExpandKeepsOriginal(s: seq<InstrId>, guards: set<InstrId>, start: nat, bound: nat)
    requires forall k :: 0 <= k < |s| ==> s[k] < bound
    requires bound <= start
    ensures Older(Expand(s, guards, start), bound) == s
    decreases |s|
  {
    if s != [] {
      var next := if s[0] in guards then start + 1 else start;
      var rest := Expand(s[1..], guards, next);
      assert Older(rest, bound) == s[1..] by {
        ExpandKeepsOriginal(s[1..], guards, next, bound);
      }
      var tail := if s[0] in guards then [start] + rest else rest;
      assert Older(tail, bound) == s[1..] by {
        if s[0] in guards {
          OlderCons(start, rest, bound);
        }
      }
      assert Expand(s, guards, start) == [s[0]] + tail;
      OlderCons(s[0], tail, bound);
      assert s == [s[0]] + s[1..];
    }
  }

  /** Every instruction at or above bound directly follows a staged guard and
      is not one itself. */
  predicate InsertedAfterGuards(e: seq<InstrId>, guards: set<InstrId>, bound: nat) {
    forall k :: 0 <= k < |e| && e[k] >= bound ==>
      k > 0 && e[k - 1] < bound && e[k - 1] in guards && e[k] !in guards
  }

  /** Every staged guard below bound is directly followed by an instruction at
      or above bound. */
  predicate GuardsFollowed(e: seq<InstrId>, guards: set<InstrId>, bound: nat) {
    forall k :: 0 <= k < |e| && e[k] < bound && e[k] in guards ==> k + 1 < |e| && e[k + 1] >= bound
  }

  /** Each inserted assume directly follows a staged guard, each staged guard
      is directly followed by an inserted assume, and no inserted assume is
      itself a staged guard (the walk does not revisit it). */
  lemma {:induction false} ExpandShape(s: seq<InstrId>, guards: set<InstrId>, start: nat, bound: nat)
    requires forall k :: 0 <= k < |s| ==> s[k] < bound
    requires forall g :: g in guards ==> g < bound
    requires bound <= start
    ensures InsertedAfterGuards(Expand(s, guards, start), guards, bound)
    ensures GuardsFollowed(Expand(s, guards, start), guards, bound)
    decreases |s|
  {
    if s != [] {
      var st := if s[0] in guards then start + 1 else start;
      var rest := Expand(s[1..], guards, st);
      ExpandShape(s[1..], guards, st, bound);
      var head := if s[0] in guards then [s[0], start] else [s[0]];
      var e := head + rest;
      assert e == Expand(s, guards, start);
      forall k | 0 <= k < |e| && e[k] >= bound
        ensures k > 0 && e[k - 1] < bound && e[k - 1] in guards && e[k] !in guards
      {
        if k >= |head| {
          assert e[k] == rest[k - |head|];
          if k - |head| > 0 {
            assert e[k - 1] == rest[k - |head| - 1];
          } else {
            assert false;
          }
        }
      }
      forall k | 0 <= k < |e| && e[k] < bound && e[k] in guards
        ensures k + 1 < |e| && e[k + 1] >= bound
      {
        if k >= |head| {
          assert e[k] == rest[k - |head|];
          assert e[k + 1] == rest[k + 1 - |head|];
        }
      }
    }
  }

  /** One step of the insertion walk on Expand. */
  lemma ExpandStep(s: seq<InstrId>, j: nat, guards: set<InstrId>, n: nat)
    requires j < |s|
    ensures Expand(s[j..], guards, n) ==
      (if s[j] in guards then [s[j], n] + Expand(s[j + 1..], guards, n + 1)
       else [s[j]] + Expand(s[j + 1..], guards, n))
    ensures Count(s[j..], guards) == (if s[j] in guards then 1 else 0) + Count(s[j + 1..], guards)
  {
    assert s[j..][0] == s[j] && s[j..][1..] == s[j + 1..];
  }

  /** What the walk puts in place of one instruction x: x itself, followed
      by the new id n when x is a staged guard. */
  function Piece(x: InstrId, guards: set<InstrId>, n: nat): (p: seq<InstrId>)
    ensures |p| == 1 || |p| == 2
  {
    if x in guards then [x, n] else [x]
  }

  /** The list the walk ends with, from a state where done has been built
      and s from position j on is still to go, with next id n. */
  function Finish(s: seq<InstrId>, j: nat, guards: set<InstrId>, done: seq<InstrId>, n: nat)
    : seq<InstrId>
    requires j <= |s|
  {
    done + Expand(s[j..], guards, n)
  }

  /** The staged guards the walk ends with, from a state where gs are the
      guards met so far and s from position j on is still to go. */
  function GuardsLeft(s: seq<InstrId>, j: nat, guards: set<InstrId>, gs: seq<InstrId>)
    : seq<InstrId>
    requires j <= |s|
  {
    gs + Guards(s[j..], guards)
  }

  /** The next id the walk ends with, from the same state. */
  function FinalId(s: seq<InstrId>, j: nat, guards: set<InstrId>, n: nat): nat
    requires j <= |s|
  {
    n + Count(s[j..], guards)
  }

  /** One step of the walk, from (j0, done0, n0, gs0) to (j, done, n, gs),
      changes neither what the walk ends with, nor the id it ends at, nor
      the guards it has met at the end. */
  lemma WalkStep(s: seq<InstrId>, guards: set<InstrId>, j0: nat, done0: seq<InstrId>, n0: nat,
                 gs0: seq<InstrId>, piece: seq<InstrId>, j: nat, done: seq<InstrId>, n: nat,
                 gs: seq<InstrId>)
    requires j0 < |s| && piece == Piece(s[j0], guards, n0)
    requires j == j0 + 1 && done == done0 + piece && n == n0 + |piece| - 1
    requires gs == gs0 + (if s[j0] in guards then [s[j0]] else [])
    ensures Finish(s, j, guards, done, n) == Finish(s, j0, guards, done0, n0)
    ensures FinalId(s, j, guards, n) == FinalId(s, j0, guards, n0)
    ensures GuardsLeft(s, j, guards, gs) == GuardsLeft(s, j0, guards, gs0)
  {
    PieceStep(s, guards, j0, n0, piece, n);
    var rest := Expand(s[j..], guards, n);
    assert (done0 + piece) + rest == done0 + (piece + rest);
    GuardsStep(s, guards, j0, gs0, gs);
  }

  /** The expansion from position j0 on is the piece for s[j0] followed by
      the expansion of the rest. */
  lemma PieceStep(s: seq<InstrId>, guards: set<InstrId>, j0: nat, n0: nat, piece: seq<InstrId>, n: nat)
    requires j0 < |s| && piece == Piece(s[j0], guards, n0) && n == n0 + |piece| - 1
    ensures Expand(s[j0..], guards, n0) == piece + Expand(s[j0 + 1..], guards, n)
    ensures Count(s[j0..], guards) == |piece| - 1 + Count(s[j0 + 1..], guards)
  {
    ExpandStep(s, j0, guards, n0);
    if s[j0] in guards {
      assert piece == [s[j0], n0] && n == n0 + 1;
    } else {
      assert piece == [s[j0]] && n == n0;
    }
  }

  /** The guard half of WalkStep. */
  lemma GuardsStep(s: seq<InstrId>, guards: set<InstrId>, j0: nat, gs0: seq<InstrId>, gs: seq<InstrId>)
    requires j0 < |s|
    requires gs == gs0 + (if s[j0] in guards then [s[j0]] else [])
    ensures GuardsLeft(s, j0 + 1, guards, gs) == GuardsLeft(s, j0, guards, gs0)
  {
    assert s[j0..][0] == s[j0] && s[j0..][1..] == s[j0 + 1..];
    var mine := if s[j0] in guards then [s[j0]] else [];
    assert (gs0 + mine) + Guards(s[j0 + 1..], guards) == gs0 + (mine + Guards(s[j0 + 1..], guards));
  }

  /** The walk starts from nothing built, and at the end of s what has been
      built is all there is. */
  lemma WalkEnds(s: seq<InstrId>, guards: set<InstrId>, done: seq<InstrId>, n: nat, start: nat)
    ensures Finish(s, 0, guards, [], start) == Expand(s, guards, start)
    ensures FinalId(s, 0, guards, start) == start + Count(s, guards)
    ensures Finish(s, |s|, guards, done, n) == done && FinalId(s, |s|, guards, n) == n
    ensures GuardsLeft(s, 0, guards, []) == Guards(s, guards)
    ensures GuardsLeft(s, |s|, guards, done) == done
  {
    assert s[0..] == s;
    assert s[|s|..] == [];
  }

  // ---------------------------------------------------------------------------
  // The closure version being optimised

  class ClosureVersion {
    var blocks: map<BlockId, Block>
    var instrs: map<InstrId, Instr>
    var nextBBId: nat
    /** The next id handed to a newly allocated instruction. */
    var nextInsId: nat

    constructor (blocks: map<BlockId, Block>, instrs: map<InstrId, Instr>, nextBBId: nat, nextInsId: nat)
      ensures this.blocks == blocks && this.instrs == instrs
      ensures this.nextBBId == nextBBId && this.nextInsId == nextInsId
    {
      this.blocks := blocks;
      this.instrs := instrs;
      this.nextBBId := nextBBId;
      this.nextInsId := nextInsId;
    }

    /** Ids below the counters, blocks hold known instructions that name
        that block as their own, and every assume refers to known
        instructions. */
    ghost predicate Valid()
      reads this
    {
      && (forall b :: b in blocks ==> b < nextBBId)
      && (forall b, k :: b in blocks && 0 <= k < |blocks[b].instrs| ==>
            blocks[b].instrs[k] in instrs && instrs[blocks[b].instrs[k]].bb == b)
      && (forall i :: i in instrs ==> i < nextInsId)
      && (forall i :: i in instrs && instrs[i].Assume? ==>
            instrs[i].cp in instrs && (instrs[i].cond.InstrValue? ==> instrs[i].cond.id in instrs))
    }

    /** `bb->remove(ip)`: the instruction leaves its block; nothing else changes. */
    method RemoveInstr(b: BlockId, ip: nat)
      requires Valid() && b in blocks && ip < |blocks[b].instrs|
      modifies this
      ensures Valid()
      ensures blocks == old(blocks)[b := old(blocks[b]).(instrs := Remove(old(blocks[b].instrs), ip))]
      ensures instrs == old(instrs) && nextBBId == old(nextBBId) && nextInsId == old(nextInsId)
    {
      var rest := Remove(blocks[b].instrs, ip);
      assert forall k :: 0 <= k < |rest| ==> rest[k] in blocks[b].instrs;
      blocks := blocks[b := blocks[b].(instrs := rest)];
    }

    /** A dropped checkpoint: `replaceUsesWith(to)` moves every assume on
        the checkpoint at position ip of block b to `to`, the checkpoint
        leaves its block, and the block's deopt successor is deleted. */
    method DropCheckpoint(b: BlockId, ip: nat, to: InstrId)
      requires Valid() && b in blocks && ip < |blocks[b].instrs| && to in instrs
      modifies this
      ensures Valid()
      ensures instrs == RetargetAll(old(instrs), old(blocks[b].instrs[ip]), to)
      ensures var bb := old(blocks[b]);
        blocks == (old(blocks) - DeoptBlock(bb.next1, b))[b := Block(Remove(bb.instrs, ip), bb.next0, None)]
      ensures nextBBId == old(nextBBId) && nextInsId == old(nextInsId)
    {
      var bb := blocks[b];
      instrs := RetargetAll(instrs, bb.instrs[ip], to);
      var rest := Remove(bb.instrs, ip);
      assert forall k :: 0 <= k < |rest| ==> rest[k] in bb.instrs;
      blocks := (blocks - DeoptBlock(bb.next1, b))[b := Block(rest, bb.next0, None)];
    }

    /** `new Assume(guard, cp)` in block b: a new instruction with the next id. */
    method NewAssume(b: BlockId, assumeTrue: bool, guard: InstrId, cp: InstrId) returns (id: InstrId)
      requires Valid() && guard in instrs && cp in instrs
      modifies this
      ensures Valid()
      ensures id == old(nextInsId) && id !in old(instrs) && nextInsId == id + 1
      ensures instrs == old(instrs)[id := Assume(b, assumeTrue, InstrValue(guard), cp)]
      ensures blocks == old(blocks) && nextBBId == old(nextBBId)
    {
      id := nextInsId;
      nextInsId := nextInsId + 1;
      instrs := instrs[id := Assume(b, assumeTrue, InstrValue(guard), cp)];
    }
  }

  /** Every entry of the old map is still there, unchanged. */
  ghost predicate Extends(before: map<InstrId, Instr>, after: map<InstrId, Instr>) {
    forall x :: x in before ==> x in after && after[x] == before[x]
  }

  class OptimizeAssumptions {
    const fn: ClosureVersion
    /** The checkpoint available right before each instruction (absent: none). */
    const checkpointAt: map<InstrId, InstrId>
    /** The assumptions available right before each instruction (absent: none). */
    const assumptionsAt: map<InstrId, set<AAssumption>>
    /** The merge blocks of the control-flow graph before the splice. */
    const mergeBlocks: set<BlockId>
    /** The polarity the rebuilt hoisted assumes get. */
    const hoistPolarity: bool
    /** An available checkpoint strictly dominates the instruction; the rank
        (depth in the dominator tree) witnesses this. */
    ghost const rank: map<InstrId, nat>

    var replaced: map<InstrId, InstrId>
    var hoistAssume: map<InstrId, (InstrId, InstrId)>

    /** The part of the invariant about the analysis results and the chain. */
    ghost predicate Valid0()
      reads this
    {
      && (forall i :: i in checkpointAt ==>
            i in rank && checkpointAt[i] in rank && rank[checkpointAt[i]] < rank[i])
      && ChainOk(replaced, rank)
    }

    ghost predicate Valid()
      reads this, fn
    {
      && fn.Valid()
      && Valid0()
      && (forall i :: i in checkpointAt ==>
            i in rank && checkpointAt[i] in rank && rank[checkpointAt[i]] < rank[i]
            && checkpointAt[i] in fn.instrs)
      && ChainOk(replaced, rank)
      && replaced.Values <= fn.instrs.Keys
      && (forall g :: g in hoistAssume ==>
            g in fn.instrs && hoistAssume[g].0 == g && hoistAssume[g].1 in fn.instrs)
    }

    function AvailableAt(i: InstrId): (r: set<AAssumption>)
      reads this
      ensures i in assumptionsAt ==> r == assumptionsAt[i]
      ensures i !in assumptionsAt ==> r == {}
    {
      if i in assumptionsAt then assumptionsAt[i] else {}
    }

    constructor (fn: ClosureVersion, checkpointAt: map<InstrId, InstrId>,
                 assumptionsAt: map<InstrId, set<AAssumption>>, mergeBlocks: set<BlockId>,
                 hoistPolarity: bool, ghost rank: map<InstrId, nat>)
      requires fn.Valid()
      requires forall i :: i in checkpointAt ==>
        i in rank && checkpointAt[i] in rank && rank[checkpointAt[i]] < rank[i]
        && checkpointAt[i] in fn.instrs
      ensures Valid()
      ensures this.fn == fn && this.checkpointAt == checkpointAt && this.assumptionsAt == assumptionsAt
      ensures this.mergeBlocks == mergeBlocks && this.hoistPolarity == hoistPolarity && this.rank == rank
      ensures replaced == map[] && hoistAssume == map[]
    {
      this.fn := fn;
      this.checkpointAt := checkpointAt;
      this.assumptionsAt := assumptionsAt;
      this.mergeBlocks := mergeBlocks;
      this.hoistPolarity := hoistPolarity;
      this.rank := rank;
      replaced := map[];
      hoistAssume := map[];
    }

    /** Step 1 for one block: a branch block ending in a checkpoint whose fast
        successor is a merge block gets a fresh empty block, numbered
        nextBBId, between it and that successor. */
    method SplicePreheader(b: BlockId)
      requires Valid() && b in fn.blocks
      modifies fn
      ensures Valid()
      ensures fn.instrs == old(fn.instrs) && fn.nextInsId == old(fn.nextInsId)
      ensures var bb := old(fn.blocks[b]);
        var p := old(fn.nextBBId);
        if IsBranch(bb) && |bb.instrs| > 0 && old(fn.instrs)[bb.instrs[|bb.instrs| - 1]].Checkpoint?
           && bb.next0.value in mergeBlocks
        then
          && p !in old(fn.blocks)
          && fn.nextBBId == p + 1
          && fn.blocks == old(fn.blocks)[p := Block([], bb.next0, None)][b := bb.(next0 := Some(p))]
        else
          fn.nextBBId == p && fn.blocks == old(fn.blocks)
    {
      var bb := fn.blocks[b];
      if IsBranch(bb) && |bb.instrs| > 0 && fn.instrs[bb.instrs[|bb.instrs| - 1]].Checkpoint? {
        if bb.next0.value in mergeBlocks {
          var p := fn.nextBBId;
          fn.nextBBId := fn.nextBBId + 1;
          fn.blocks := fn.blocks[p := Block([], bb.next0, None)][b := bb.(next0 := Some(p))];
        }
      }
    }

    /** Follows the replacement chain from c to its end. */
    method Resolve(c: InstrId) returns (r: InstrId)
      requires Valid() && c in rank && c in fn.instrs
      ensures r == Resolved(replaced, rank, c)
      ensures r !in replaced && r in fn.instrs
    {
      r := c;
      while r in replaced
        invariant r in rank && r in fn.instrs
        invariant Resolved(replaced, rank, r) == Resolved(replaced, rank, c)
        decreases rank[r]
      {
        r := replaced[r];
      }
    }

    /** A checkpoint with an available checkpoint before it: the chain end r
        of that checkpoint is recorded as its replacement, every assume that
        used it falls back to r instead, the checkpoint leaves its block and
        the block's deopt successor is deleted. */
    method VisitCheckpoint(b: BlockId, ip: nat)
      requires Valid() && b in fn.blocks && ip < |fn.blocks[b].instrs|
      requires fn.instrs[fn.blocks[b].instrs[ip]].Checkpoint?
      requires fn.blocks[b].instrs[ip] in checkpointAt
      modifies this, fn
      ensures Valid()
      ensures var cp := old(fn.blocks[b].instrs[ip]);
        var r := Resolved(old(replaced), rank, checkpointAt[cp]);
        && r != cp
        && replaced == old(replaced)[cp := r]
        && fn.instrs == RetargetAll(old(fn.instrs), cp, r)
      ensures var bb := old(fn.blocks[b]);
        fn.blocks == (old(fn.blocks) - DeoptBlock(bb.next1, b))[b := Block(Remove(bb.instrs, ip), bb.next0, None)]
      ensures hoistAssume == old(hoistAssume)
      ensures fn.nextBBId == old(fn.nextBBId) && fn.nextInsId == old(fn.nextInsId)
    {
      var cp := fn.blocks[b].instrs[ip];
      var cp0 := Resolve(checkpointAt[cp]);
      replaced := replaced[cp := cp0];
      fn.DropCheckpoint(b, ip, cp0);
    }

    /** The assume a (instruction i) bound to the chain end of the checkpoint
        available before it, if there is one. */
    ghost function Bound(i: InstrId, a: Instr): (r: Instr)
      reads this
      requires Valid0() && a.Assume?
      ensures r.Assume? && AAssumptionOf(r) == AAssumptionOf(a)
    {
      if i in checkpointAt then a.(cp := Resolved(replaced, rank, checkpointAt[i])) else a
    }

    /** Whether an assume bound as a1 is staged for hoisting: its condition is
        an instruction of another block than its checkpoint, and the chain end
        of the checkpoint available before that instruction is not already
        its checkpoint. */
    ghost predicate Staged(instrs: map<InstrId, Instr>, a1: Instr)
      reads this
      requires Valid0() && a1.Assume?
    {
      && a1.cond.InstrValue? && a1.cond.id in instrs && a1.cp in instrs
      && instrs[a1.cond.id].bb != instrs[a1.cp].bb
      && a1.cond.id in checkpointAt
      && a1.cp != Resolved(replaced, rank, checkpointAt[a1.cond.id])
    }

    /** The chain end for the guard of a staged assume. */
    ghost function HoistTarget(a1: Instr): InstrId
      reads this
      requires Valid0() && a1.Assume? && a1.cond.InstrValue? && a1.cond.id in checkpointAt
    {
      Resolved(replaced, rank, checkpointAt[a1.cond.id])
    }

    /** An assume: removed when its assumption is already available;
        otherwise bound to the chain end of the checkpoint available before
        it, and staged for hoisting (and removed) when `Staged` says so.
        Returns the position of the next instruction. */
    method VisitAssume(b: BlockId, ip: nat) returns (next: nat)
      requires Valid() && b in fn.blocks && ip < |fn.blocks[b].instrs|
      requires fn.instrs[fn.blocks[b].instrs[ip]].Assume?
      modifies this, fn
      ensures Valid()
      ensures replaced == old(replaced)
      ensures fn.nextBBId == old(fn.nextBBId) && fn.nextInsId == old(fn.nextInsId)
      // an assumption already available: the assume is deleted, nothing else changes
      ensures var i := old(fn.blocks[b].instrs[ip]);
        AAssumptionOf(old(fn.instrs[i])) in AvailableAt(i) ==>
          && fn.instrs == old(fn.instrs) && hoistAssume == old(hoistAssume) && next == ip
          && fn.blocks == old(fn.blocks)[b := old(fn.blocks[b]).(instrs := Remove(old(fn.blocks[b].instrs), ip))]
      // otherwise it is bound to the available checkpoint's chain end
      ensures var i := old(fn.blocks[b].instrs[ip]);
        AAssumptionOf(old(fn.instrs[i])) !in AvailableAt(i) ==>
          fn.instrs == old(fn.instrs)[i := old(Bound(i, fn.instrs[i]))]
      // and staged next to its guard, leaving its block
      ensures var i := old(fn.blocks[b].instrs[ip]);
        AAssumptionOf(old(fn.instrs[i])) !in AvailableAt(i) && old(Staged(fn.instrs, Bound(i, fn.instrs[i]))) ==>
          var g := old(fn.instrs[i]).cond.id;
          && hoistAssume == old(hoistAssume)[g := (g, old(HoistTarget(Bound(i, fn.instrs[i]))))]
          && fn.blocks == old(fn.blocks)[b := old(fn.blocks[b]).(instrs := Remove(old(fn.blocks[b].instrs), ip))]
          && next == ip
      // or kept in place
      ensures var i := old(fn.blocks[b].instrs[ip]);
        AAssumptionOf(old(fn.instrs[i])) !in AvailableAt(i) && !old(Staged(fn.instrs, Bound(i, fn.instrs[i]))) ==>
          hoistAssume == old(hoistAssume) && fn.blocks == old(fn.blocks) && next == ip + 1
    {
      var i := fn.blocks[b].instrs[ip];
      if AAssumptionOf(fn.instrs[i]) in AvailableAt(i) {
        fn.RemoveInstr(b, ip);
        return ip;
      }
      BindAssume(i);
      next := StageAssume(b, ip);
    }

    /** The retarget half of visiting an assume that is not subsumed. */
    method BindAssume(i: InstrId)
      requires Valid() && i in fn.instrs && fn.instrs[i].Assume?
      modifies fn
      ensures Valid()
      ensures fn.instrs == old(fn.instrs)[i := Bound(i, old(fn.instrs[i]))]
      ensures fn.blocks == old(fn.blocks)
      ensures fn.nextBBId == old(fn.nextBBId) && fn.nextInsId == old(fn.nextInsId)
    {
      var a := fn.instrs[i];
      if i in checkpointAt {
        var cp0 := Resolve(checkpointAt[i]);
        if a.cp != cp0 {
          fn.instrs := fn.instrs[i := a.(cp := cp0)];
        }
      }
    }

    /** The hoisting half: a staged assume is recorded under its guard and
        leaves its block. */
    method StageAssume(b: BlockId, ip: nat) returns (next: nat)
      requires Valid() && b in fn.blocks && ip < |fn.blocks[b].instrs|
      requires fn.instrs[fn.blocks[b].instrs[ip]].Assume?
      modifies this, fn
      ensures Valid()
      ensures replaced == old(replaced) && fn.instrs == old(fn.instrs)
      ensures fn.nextBBId == old(fn.nextBBId) && fn.nextInsId == old(fn.nextInsId)
      ensures var a := old(fn.instrs[fn.blocks[b].instrs[ip]]);
        old(Staged(fn.instrs, a)) ==>
          && hoistAssume == old(hoistAssume)[a.cond.id := (a.cond.id, old(HoistTarget(a)))]
          && fn.blocks == old(fn.blocks)[b := old(fn.blocks[b]).(instrs := Remove(old(fn.blocks[b].instrs), ip))]
          && next == ip
      ensures var a := old(fn.instrs[fn.blocks[b].instrs[ip]]);
        !old(Staged(fn.instrs, a)) ==>
          hoistAssume == old(hoistAssume) && fn.blocks == old(fn.blocks) && next == ip + 1
    {
      var a := fn.instrs[fn.blocks[b].instrs[ip]];
      if a.cond.InstrValue? && fn.instrs[a.cond.id].bb != fn.instrs[a.cp].bb {
        var g := a.cond.id;
        if g in checkpointAt {
          var cp0 := Resolve(checkpointAt[g]);
          if a.cp != cp0 {
            hoistAssume := hoistAssume[g := (g, cp0)];
            fn.RemoveInstr(b, ip);
            return ip;
          }
        }
      }
      return ip + 1;
    }

    /** Step 2 and 3 for one block: the cursor walk over its instructions,
        which ends early when a checkpoint is dropped. */
    method CoalesceBlock(b: BlockId)
      requires Valid() && b in fn.blocks
      modifies this, fn
      ensures Valid()
      ensures fn.blocks.Keys <= old(fn.blocks.Keys)
      ensures fn.instrs.Keys == old(fn.instrs.Keys)
      ensures fn.nextBBId == old(fn.nextBBId) && fn.nextInsId == old(fn.nextInsId)
      ensures old(hoistAssume).Keys <= hoistAssume.Keys
    {
      var ip: nat := 0;
      while ip < |fn.blocks[b].instrs|
        invariant Valid() && b in fn.blocks
        invariant ip <= |fn.blocks[b].instrs|
        invariant fn.blocks.Keys <= old(fn.blocks.Keys)
        invariant fn.instrs.Keys == old(fn.instrs.Keys)
        invariant fn.nextBBId == old(fn.nextBBId) && fn.nextInsId == old(fn.nextInsId)
        invariant old(hoistAssume).Keys <= hoistAssume.Keys
        decreases |fn.blocks[b].instrs| - ip
      {
        var i := fn.blocks[b].instrs[ip];
        var ins := fn.instrs[i];
        if ins.Checkpoint? && i in checkpointAt {
          VisitCheckpoint(b, ip);
          return;
        }
        if ins.Assume? {
          ip := VisitAssume(b, ip);
        } else {
          ip := ip + 1;
        }
      }
    }

    /** The new assumes numbered from lo on, one per guard of gs in order:
        the one numbered lo + i sits in block b, takes the hoist polarity,
        and guards gs[i] with the checkpoint staged for it. */
    ghost predicate HoistedAssumes(instrs: map<InstrId, Instr>, b: BlockId, lo: nat, gs: seq<InstrId>)
      reads this
    {
      forall i :: 0 <= i < |gs| ==>
        && gs[i] in hoistAssume && lo + i in instrs
        && instrs[lo + i] == Assume(b, hoistPolarity, InstrValue(gs[i]), hoistAssume[gs[i]].1)
    }

    /** In the instruction list e of block b, every staged guard is directly
        followed by an assume on that guard, with the hoist polarity and the
        checkpoint staged for it. */
    ghost predicate GuardsPaired(instrs: map<InstrId, Instr>, b: BlockId, e: seq<InstrId>)
      reads this
    {
      forall k :: 0 <= k < |e| && e[k] in hoistAssume ==>
        && k + 1 < |e| && e[k + 1] in instrs
        && instrs[e[k + 1]] == Assume(b, hoistPolarity, InstrValue(e[k]), hoistAssume[e[k]].1)
    }

    /** Step 4 for one block: after each staged guard a new assume on that
        guard, falling back to the staged checkpoint, is inserted, and the
        walk steps over it. */
    method InsertHoisted(b: BlockId)
      requires Valid() && b in fn.blocks
      modifies fn
      ensures Valid()
      ensures fn.blocks == old(fn.blocks)[b := old(fn.blocks[b]).(instrs :=
                Expand(old(fn.blocks[b].instrs), hoistAssume.Keys, old(fn.nextInsId)))]
      ensures fn.nextInsId == old(fn.nextInsId) + Count(old(fn.blocks[b].instrs), hoistAssume.Keys)
      ensures fn.nextBBId == old(fn.nextBBId)
      ensures Extends(old(fn.instrs), fn.instrs)
      ensures HoistedAssumes(fn.instrs, b, old(fn.nextInsId), Guards(old(fn.blocks[b].instrs), hoistAssume.Keys))
      ensures GuardsPaired(fn.instrs, b, fn.blocks[b].instrs)
    {
      var s := fn.blocks[b].instrs;
      forall k | 0 <= k < |s|
        ensures s[k] in fn.instrs && fn.instrs[s[k]].bb == b
      {
        assert fn.blocks[b].instrs[k] == s[k];
      }
      ghost var before := fn.instrs;
      var done := WalkBlock(b, s);
      ExpandedInBlock(before, fn.instrs, b, s, old(fn.nextInsId));
      fn.blocks := fn.blocks[b := fn.blocks[b].(instrs := done)];
    }

    /** After the walk every instruction of the expanded list is known and
        sits in block b: the old ones were there already, the new ones were
        made there. */
    lemma ExpandedInBlock(before: map<InstrId, Instr>, after: map<InstrId, Instr>, b: BlockId,
                          s: seq<InstrId>, start: nat)
      requires forall k :: 0 <= k < |s| ==> s[k] in before && before[s[k]].bb == b
      requires Extends(before, after)
      requires HoistedAssumes(after, b, start, Guards(s, hoistAssume.Keys))
      ensures var e := Expand(s, hoistAssume.Keys, start);
        forall k :: 0 <= k < |e| ==> e[k] in after && after[e[k]].bb == b
    {
      var e := Expand(s, hoistAssume.Keys, start);
      var gs := Guards(s, hoistAssume.Keys);
      forall k | 0 <= k < |e|
        ensures e[k] in after && after[e[k]].bb == b
      {
        assert e[k] in e;
        if e[k] in s {
          var j :| 0 <= j < |s| && s[j] == e[k];
        } else {
          assert gs[e[k] - start] in hoistAssume;
        }
      }
    }

    /** The new assumes stay as they are when one more is allocated after them. */
    lemma HoistedStep(before: map<InstrId, Instr>, after: map<InstrId, Instr>, b: BlockId,
                      lo: nat, gs: seq<InstrId>, g: InstrId)
      requires HoistedAssumes(before, b, lo, gs)
      requires g in hoistAssume
      requires after == before[lo + |gs| := Assume(b, hoistPolarity, InstrValue(g), hoistAssume[g].1)]
      ensures HoistedAssumes(after, b, lo, gs + [g])
    {
    }

    /** New assumes numbered in the order of the staged guards of s sit right
        after their guards in the expansion of s. */
    lemma Paired(instrs: map<InstrId, Instr>, b: BlockId, s: seq<InstrId>, start: nat)
      requires HoistedAssumes(instrs, b, start, Guards(s, hoistAssume.Keys))
      requires forall k :: 0 <= k < |s| ==> s[k] < start
      requires forall g :: g in hoistAssume ==> g < start
      ensures GuardsPaired(instrs, b, Expand(s, hoistAssume.Keys, start))
    {
      ExpandPairs(s, hoistAssume.Keys, start);
    }

    /** Every staged guard and its checkpoint are instructions of instrs. */
    ghost predicate StagedIn(instrs: map<InstrId, Instr>)
      reads this
    {
      forall g :: g in hoistAssume ==>
        hoistAssume[g].0 == g && g in instrs && hoistAssume[g].1 in instrs
    }

    /** One step of the walk over instruction x: a staged guard gets a new
        assume on it right after it; any other instruction is kept alone. */
    method WalkOne(b: BlockId, x: InstrId, ghost guards: set<InstrId>, ghost lo: nat,
                   ghost gs: seq<InstrId>, ghost orig: map<InstrId, Instr>) returns (piece: seq<InstrId>)
      requires guards == hoistAssume.Keys && StagedIn(orig)
      requires fn.Valid() && Extends(orig, fn.instrs)
      requires HoistedAssumes(fn.instrs, b, lo, gs) && lo + |gs| == fn.nextInsId
      modifies fn
      ensures fn.Valid() && Extends(orig, fn.instrs)
      ensures HoistedAssumes(fn.instrs, b, lo, gs + (if x in guards then [x] else []))
      ensures fn.instrs == if x in hoistAssume
        then old(fn.instrs)[old(fn.nextInsId) := Assume(b, hoistPolarity, InstrValue(x), hoistAssume[x].1)]
        else old(fn.instrs)
      ensures piece == Piece(x, guards, old(fn.nextInsId))
      ensures fn.nextInsId == old(fn.nextInsId) + |piece| - 1
      ensures fn.blocks == old(fn.blocks) && fn.nextBBId == old(fn.nextBBId)
    {
      if x in hoistAssume {
        var h := hoistAssume[x];
        ghost var before := fn.instrs;
        var id := fn.NewAssume(b, hoistPolarity, h.0, h.1);
        HoistedStep(before, fn.instrs, b, lo, gs, x);
        piece := [x, id];
      } else {
        assert gs + [] == gs;
        piece := [x];
      }
    }

    /** The cursor walk of step 4 over the instructions s of block b: it
        allocates one assume per staged guard, right after it, and returns
        the new list. */
    method WalkBlock(b: BlockId, s: seq<InstrId>) returns (done: seq<InstrId>)
      requires Valid()
      requires forall k :: 0 <= k < |s| ==> s[k] in fn.instrs
      modifies fn
      ensures fn.Valid()
      ensures done == Expand(s, hoistAssume.Keys, old(fn.nextInsId))
      ensures fn.nextInsId == old(fn.nextInsId) + Count(s, hoistAssume.Keys)
      ensures fn.blocks == old(fn.blocks) && fn.nextBBId == old(fn.nextBBId)
      ensures Extends(old(fn.instrs), fn.instrs)
      ensures HoistedAssumes(fn.instrs, b, old(fn.nextInsId), Guards(s, hoistAssume.Keys))
      ensures GuardsPaired(fn.instrs, b, done)
    {
      ghost var start: nat := fn.nextInsId;
      ghost var guards: set<InstrId> := hoistAssume.Keys;
      ghost var orig := fn.instrs;
      assert StagedIn(orig);
      WalkEnds(s, guards, [], start, start);
      ghost var target := Finish(s, 0, guards, [], start);
      ghost var last := FinalId(s, 0, guards, start);
      ghost var all := GuardsLeft(s, 0, guards, []);
      ghost var gs: seq<InstrId> := [];
      done := [];
      var j := 0;
      while j < |s|
        invariant j <= |s|
        invariant Finish(s, j, guards, done, fn.nextInsId) == target
        invariant FinalId(s, j, guards, fn.nextInsId) == last
        invariant GuardsLeft(s, j, guards, gs) == all
        invariant start + |gs| == fn.nextInsId
        invariant fn.Valid()
        invariant fn.blocks == old(fn.blocks) && fn.nextBBId == old(fn.nextBBId)
        invariant Extends(orig, fn.instrs)
        invariant HoistedAssumes(fn.instrs, b, start, gs)
        decreases |s| - j
      {
        ghost var j0, done0, n0, gs0 := j, done, fn.nextInsId, gs;
        var piece := WalkOne(b, s[j], guards, start, gs, orig);
        done := done + piece;
        gs := gs + (if s[j] in guards then [s[j]] else []);
        j := j + 1;
        WalkStep(s, guards, j0, done0, n0, gs0, piece, j, done, fn.nextInsId, gs);
      }
      WalkEnds(s, guards, gs, fn.nextInsId, start);
      Paired(fn.instrs, b, s, start);
    }

    /** The whole pass, given the visitor's block orders for its three walks. */
    method Apply(spliceOrder: seq<BlockId>, coalesceOrder: seq<BlockId>, insertOrder: seq<BlockId>)
      requires Valid()
      modifies this, fn
      ensures Valid()
      ensures old(fn.instrs).Keys <= fn.instrs.Keys
      ensures fn.nextBBId >= old(fn.nextBBId) && fn.nextInsId >= old(fn.nextInsId)
    {
      var k := 0;
      while k < |spliceOrder|
        invariant Valid()
        invariant fn.instrs == old(fn.instrs) && fn.nextInsId == old(fn.nextInsId)
        invariant fn.nextBBId >= old(fn.nextBBId)
      {
        if spliceOrder[k] in fn.blocks {
          SplicePreheader(spliceOrder[k]);
        }
        k := k + 1;
      }
      k := 0;
      while k < |coalesceOrder|
        invariant Valid()
        invariant old(fn.instrs).Keys <= fn.instrs.Keys && fn.nextInsId == old(fn.nextInsId)
        invariant fn.nextBBId >= old(fn.nextBBId)
      {
        if coalesceOrder[k] in fn.blocks {
          CoalesceBlock(coalesceOrder[k]);
        }
        k := k + 1;
      }
      k := 0;
      while k < |insertOrder|
        invariant Valid()
        invariant old(fn.instrs).Keys <= fn.instrs.Keys && fn.nextInsId >= old(fn.nextInsId)
        invariant fn.nextBBId >= old(fn.nextBBId)
      {
        if insertOrder[k] in fn.blocks {
          InsertHoisted(insertOrder[k]);
        }
        k := k + 1;
      }
    }
  }
}
