/** The argument-evaluation signature of a function: for each formal argument,
    whether its promise has been forced and whether the variable still holds
    the original argument, each as a three-valued answer; plus whether the
    function is a leaf (makes no calls). The analysis that computes it is a
    forward analysis whose engine is not part of this model. */
module Signatures {

  type Sym = nat

  datatype Bool3 = No | Yes | Maybe

  /** The merge table of the record: equal answers stay, anything else
      (including any Maybe) becomes Maybe. */
  function Merge3(x: Bool3, y: Bool3): (r: Bool3)
    ensures x == y ==> r == x
    ensures x != y ==> r == Maybe
    ensures x == Maybe || y == Maybe ==> r == Maybe
  {
    if x != Maybe && x != y then Maybe else x
  }

  /** Merge3 is a join on the flat order No, Yes below Maybe. */
  lemma Merge3IsJoin(x: Bool3, y: Bool3, z: Bool3)
    ensures Merge3(x, y) == Merge3(y, x)
    ensures Merge3(Merge3(x, y), z) == Merge3(x, Merge3(y, z))
    ensures Merge3(x, x) == x
  {
  }

  datatype ArgumentEvaluation = ArgumentEvaluation(forced: Bool3, contains: Bool3)

  /** A fresh record: not forced, and the variable holds the argument. */
  function DefaultEvaluation(): (e: ArgumentEvaluation)
    ensures e.forced == No && e.contains == Yes
  {
    ArgumentEvaluation(No, Yes)
  }

  /** `ArgumentEvaluation::mergeWith`: the new record and whether it changed. */
  function MergeEvaluation(a: ArgumentEvaluation, b: ArgumentEvaluation): (r: (ArgumentEvaluation, bool))
    ensures r.0.forced == Merge3(a.forced, b.forced)
    ensures r.0.contains == Merge3(a.contains, b.contains)
    ensures r.1 <==> r.0 != a
  {
    var forcedChanges := a.forced != Maybe && a.forced != b.forced;
    var containsChanges := a.contains != Maybe && a.contains != b.contains;
    (ArgumentEvaluation(if forcedChanges then Maybe else a.forced,
                        if containsChanges then Maybe else a.contains),
     forcedChanges || containsChanges)
  }

  /** The record after `forceArgument` on an argument name. */
  function Forced(e: ArgumentEvaluation): (r: ArgumentEvaluation)
    ensures r.contains == e.contains
    ensures e.contains == No ==> r == e
    ensures e.contains == Yes ==> r.forced == Yes
    ensures e.contains == Maybe && e.forced == No ==> r.forced == Maybe
    ensures e.contains == Maybe && e.forced != No ==> r == e
  {
    if e.contains == No then e
    else if e.contains == Maybe && e.forced == No then e.(forced := Maybe)
    else if e.contains == Yes then e.(forced := Yes)
    else e
  }

  /** Forcing is idempotent and never makes "forced" less certain towards No. */
  lemma ForcedIdempotent(e: ArgumentEvaluation)
    ensures Forced(Forced(e)) == Forced(e)
    ensures e.forced != No ==> Forced(e).forced != No
  {
  }

  /** All formals, each with a default record. */
  function DefaultRecords(formals: seq<Sym>): (m: map<Sym, ArgumentEvaluation>)
    ensures m.Keys == set s | s in formals
    ensures forall s :: s in m ==> m[s] == DefaultEvaluation()
  {
    map s | s in formals :: DefaultEvaluation()
  }

  /** Opcodes the signature analysis reacts to; `sym` is the pool constant of
      the instruction. */
  datatype Instr =
    | LdFun(sym: Sym) | LdVar(sym: Sym) | LdDDVar(sym: Sym) | StVar(sym: Sym)
    | CallOp | DispatchOp | DispatchStackOp | CallStackOp | OtherOp

  class Signature {
    var leaf: bool
    var args: map<Sym, ArgumentEvaluation>

    /** `Signature()`: a leaf without argument records. */
    constructor ()
      ensures IsLeaf() && args == map[]
    {
      leaf := true;
      args := map[];
    }

    /** `Signature(code)`: a leaf with one default record per formal. */
    constructor FromCode(formals: seq<Sym>)
      ensures IsLeaf() && args == DefaultRecords(formals)
    {
      var records := map[];
      var i := 0;
      while i < |formals|
        invariant 0 <= i <= |formals|
        invariant records == DefaultRecords(formals[..i])
      {
        assert formals[..i + 1] == formals[..i] + [formals[i]];
        records := records[formals[i] := DefaultEvaluation()];
        i := i + 1;
      }
      assert formals[..|formals|] == formals;
      leaf := true;
      args := records;
    }

    function IsLeaf(): bool
      reads this
    {
      leaf
    }

    /** `isArgumentEvaluated`: only asked about argument names. */
    function IsArgumentEvaluated(name: Sym): (r: Bool3)
      reads this
      requires name in args
      ensures r == args[name].forced
    {
      args[name].forced
    }

    /** `mergeWith`: the leaf flag is the conjunction, every record of this
        signature is merged with the other's record of the same name, and the
        result says whether anything changed. */
    method MergeWith(other: Signature) returns (changed: bool)
      requires args.Keys <= other.args.Keys
      modifies this
      ensures IsLeaf() == (old(IsLeaf()) && old(other.IsLeaf()))
      ensures args.Keys == old(args).Keys
      ensures forall s :: s in args ==>
        args[s] == MergeEvaluation(old(args)[s], old(other.args)[s]).0
      ensures changed <==> IsLeaf() != old(IsLeaf()) || args != old(args)
    {
      var theirs := other.args;
      var result := false;
      if leaf && !other.leaf {
        leaf := false;
        result := true;
      }
      ghost var leafChanged := result;
      var todo := args.Keys;
      while todo != {}
        invariant todo <= args.Keys && args.Keys == old(args).Keys
        invariant leaf == (old(leaf) && old(other.leaf))
        invariant leafChanged <==> leaf != old(leaf)
        invariant forall s :: s in args && s !in todo ==>
          args[s] == MergeEvaluation(old(args)[s], theirs[s]).0
        invariant forall s :: s in todo ==> args[s] == old(args)[s]
        invariant result <==> leafChanged || args != old(args)
        decreases todo
      {
        var s :| s in todo;
        var m := MergeEvaluation(args[s], theirs[s]);
        ghost var before := args;
        args := args[s := m.0];
        if m.1 {
          assert args[s] != old(args)[s];
        } else {
          assert args == before;
        }
        result := m.1 || result;
        todo := todo - {s};
      }
      changed := result;
    }

    method SetAsNotLeaf()
      modifies this
      ensures !IsLeaf() && args == old(args)
    {
      leaf := false;
    }

    /** `forceArgument`: only argument names are affected, and only through
        their own record. */
    method ForceArgument(name: Sym)
      modifies this
      ensures leaf == old(leaf)
      ensures args == if name in old(args) then old(args)[name := Forced(old(args)[name])]
                      else old(args)
    {
      if name !in args {
        return;
      }
      var e := args[name];
      if e.contains == No {
        return;
      }
      if e.contains == Maybe && e.forced == No {
        args := args[name := e.(forced := Maybe)];
      } else if e.contains == Yes {
        args := args[name := e.(forced := Yes)];
      }
    }

    /** `storeArgument`: an argument name no longer holds its argument. */
    method StoreArgument(name: Sym)
      modifies this
      ensures leaf == old(leaf)
      ensures args == if name in old(args) then old(args)[name := old(args)[name].(contains := No)]
                      else old(args)
    {
      if name !in args {
        return;
      }
      args := args[name := args[name].(contains := No)];
    }

    /** The transfer hooks of `SignatureAnalysis`: calls make the function a
        non-leaf, variable and function loads force, stores store; every other
        instruction (including ldddvar_, dispatch and call_stack_) is a no-op. */
    method Transfer(ins: Instr)
      modifies this
      ensures ins.CallOp? ==> !leaf && args == old(args)
      ensures (ins.LdFun? || ins.LdVar?) ==>
        leaf == old(leaf) &&
        args == if ins.sym in old(args) then old(args)[ins.sym := Forced(old(args)[ins.sym])]
                else old(args)
      ensures ins.StVar? ==>
        leaf == old(leaf) &&
        args == if ins.sym in old(args) then old(args)[ins.sym := old(args)[ins.sym].(contains := No)]
                else old(args)
      ensures !(ins.CallOp? || ins.LdFun? || ins.LdVar? || ins.StVar?) ==>
        leaf == old(leaf) && args == old(args)
    {
      match ins
      case LdFun(sym) => ForceArgument(sym);
      case LdVar(sym) => ForceArgument(sym);
      case CallOp => SetAsNotLeaf();
      case StVar(sym) => StoreArgument(sym);
      case _ =>
    }
  }

  /** After a store, forcing the argument does nothing: the variable no longer
      holds the promise. */
  lemma StoreThenForce(e: ArgumentEvaluation)
    ensures Forced(e.(contains := No)) == e.(contains := No)
  {
  }
}
