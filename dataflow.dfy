/** Transfer functions of the bytecode dataflow analysis over the
    value-provenance lattice.

    The analysis threads an abstract state, an operand stack of `FValue`s and
    an environment from symbols to `FValue`s, through one handler per opcode.
    Operations that may run arbitrary code call `DoCall`, which in the
    conservative mode forgets everything known about the environment. The
    fixed-point engine that drives these handlers is not part of this model. */
module Dataflow {
  import opened FValues

  /** A symbol of the constant pool. */
  type Sym = nat

  /** The template parameter of the analysis: whether calls may reflect on
      (and so change) the caller's environment. */
  datatype Mode = Conservative | NoReflection

  /** Opcodes handled by the generic `any` handler. The listed ones are known
      never to push a promise; every other opcode is `OtherOp`. */
  datatype Opcode =
    | Inc | Is | IsFun | Extract1 | Subset1 | Extract2 | Subset2 | Close
    | LglOr | LglAnd | TestBounds | Seq | Names | Length | AllocOp | OtherOp

  predicate PushesNoPromise(op: Opcode) {
    op != OtherOp
  }

  /** Reading an environment entry; a symbol without entry reads as Bottom. */
  function Lookup(env: map<Sym, FValue>, sym: Sym): (v: FValue)
    ensures sym in env ==> v == env[sym]
    ensures sym !in env ==> v.t == Bottom
  {
    if sym in env then env[sym] else BottomValue()
  }

  /** The environment after an entry is read with `current()[sym]`: the
      indexing operator creates a Bottom entry for a symbol it does not find,
      and leaves every existing entry as it was. */
  function Touch(env: map<Sym, FValue>, sym: Sym): (r: map<Sym, FValue>)
    ensures r.Keys == env.Keys + {sym}
    ensures forall s :: s in env ==> r[s] == env[s]
    ensures sym !in env ==> r[sym].t == Bottom
  {
    env[sym := Lookup(env, sym)]
  }

  /** A read creates an entry that a later conservative call turns into Any,
      so the next load of the same unbound symbol is no longer pure. */
  lemma TouchThenCall(env: map<Sym, FValue>, sym: Sym)
    ensures sym in AfterCall(Conservative, Touch(env, sym))
    ensures !Pure(Lookup(AfterCall(Conservative, Touch(env, sym)), sym))
  {
  }

  /** The environment after `doCall`: in the conservative mode every entry
      becomes Any, otherwise nothing changes. */
  function AfterCall(mode: Mode, env: map<Sym, FValue>): (r: map<Sym, FValue>)
    ensures r.Keys == env.Keys
    ensures mode == NoReflection ==> r == env
    ensures mode == Conservative ==> forall s :: s in r ==> r[s] == AnyValue()
  {
    if mode == Conservative then map s | s in env :: AnyValue() else env
  }

  /** What a variable load pushes: the bound value when it is pure and known,
      otherwise a fresh value defined by the load itself. */
  function Loaded(v: FValue, ins: InsId): (r: FValue)
    ensures Pure(r) && r.t != Bottom
    ensures r == v <==> Pure(v) && v.t != Bottom
    ensures r != v ==> r == ValueOf(ins)
  {
    if Equal(v, BottomValue()) then ValueOf(ins)
    else if Pure(v) then v
    else ValueOf(ins)
  }

  /** A variable load leaves the environment exactly as it was only when the
      symbol was already bound and either its binding is pure, or calls do
      not reflect, or every entry is already Any. An unbound symbol always
      gains its Bottom entry. */
  lemma LoadEffect(mode: Mode, env: map<Sym, FValue>, sym: Sym)
    ensures (if Pure(Lookup(env, sym)) then Touch(env, sym) else AfterCall(mode, Touch(env, sym))) == env
      <==> sym in env && (Pure(env[sym]) || mode == NoReflection || forall s :: s in env ==> env[s] == AnyValue())
  {
    var t := Touch(env, sym);
    if sym !in env {
      assert sym in t && sym !in env;
      assert sym in AfterCall(mode, t);
    } else {
      assert t == env;
      if !Pure(env[sym]) && mode == Conservative {
        if forall s :: s in env ==> env[s] == AnyValue() {
          assert AfterCall(mode, env) == env;
        } else {
          var s :| s in env && env[s] != AnyValue();
          assert AfterCall(mode, env)[s] != env[s];
        }
      }
    }
  }

  /** The environment `initialState` builds: formal i is bound to Argument(i);
      a repeated name keeps its last position. */
  function InitialEnv(formals: seq<Sym>): (env: map<Sym, FValue>)
    ensures env.Keys == set i | 0 <= i < |formals| :: formals[i]
  {
    if formals == [] then map[]
    else
      var n := |formals| - 1;
      InitialEnv(formals[..n])[formals[n] := ArgumentValue(n)]
  }

  /** With distinct formal names, formal i is bound to exactly Argument(i). */
  lemma {:induction false} InitialEnvBindsArguments(formals: seq<Sym>, i: nat)
    requires i < |formals|
    requires forall j, k :: 0 <= j < k < |formals| ==> formals[j] != formals[k]
    ensures formals[i] in InitialEnv(formals)
    ensures InitialEnv(formals)[formals[i]] == ArgumentValue(i)
  {
    var n := |formals| - 1;
    if i < n {
      InitialEnvBindsArguments(formals[..n], i);
      assert formals[..n][i] == formals[i];
      assert formals[n] != formals[i];
    }
  }

  /** The abstract state at one program point: operand stack (index 0 is the
      top) and environment. */
  class AbstractState {
    var stack: seq<FValue>
    var env: map<Sym, FValue>

    constructor Empty()
      ensures stack == [] && env == map[]
    {
      stack := [];
      env := map[];
    }

    /** `stack().depth()`: the number of values on the stack. */
    function Depth(): nat
      reads this
    {
      |stack|
    }

    method Push(v: FValue)
      modifies this
      ensures stack == [v] + old(stack) && env == old(env)
    {
      stack := [v] + stack;
    }

    method Pop() returns (v: FValue)
      requires |stack| > 0
      modifies this
      ensures v == old(stack)[0] && stack == old(stack)[1..] && env == old(env)
    {
      v := stack[0];
      stack := stack[1..];
    }

    method PopN(n: nat)
      requires n <= |stack|
      modifies this
      ensures stack == old(stack)[n..] && env == old(env)
    {
      stack := stack[n..];
    }
  }

  class DataflowAnalysis {
    const mode: Mode

    constructor (mode: Mode)
      ensures this.mode == mode
    {
      this.mode := mode;
    }

    /** `initialState`: an empty stack and formal i bound to Argument(i). */
    method InitialState(formals: seq<Sym>) returns (st: AbstractState)
      ensures fresh(st)
      ensures st.stack == [] && st.env == InitialEnv(formals)
    {
      st := new AbstractState.Empty();
      var i := 0;
      while i < |formals|
        invariant 0 <= i <= |formals|
        invariant st.stack == [] && st.env == InitialEnv(formals[..i])
      {
        assert formals[..i + 1][..i] == formals[..i];
        st.env := st.env[formals[i] := ArgumentValue(i)];
        i := i + 1;
      }
      assert formals[..|formals|] == formals;
    }

    /** `doCall`. */
    method DoCall(st: AbstractState)
      modifies st
      ensures st.stack == old(st.stack) && st.env == AfterCall(mode, old(st.env))
    {
      if mode == Conservative {
        st.env := map s | s in st.env :: AnyValue();
      }
    }

    /** `ldvar_`, `ldddvar_` and `ldarg_`, which share one body. */
    method LdVar(st: AbstractState, sym: Sym, ins: InsId)
      modifies st
      ensures st.stack == [Loaded(Lookup(old(st.env), sym), ins)] + old(st.stack)
      ensures st.env == if Pure(Lookup(old(st.env), sym)) then Touch(old(st.env), sym)
                        else AfterCall(mode, Touch(old(st.env), sym))
    {
      var v := Lookup(st.env, sym);
      st.env := Touch(st.env, sym);
      if !Pure(v) {
        DoCall(st);
      }
      if Equal(v, BottomValue()) {
        st.Push(ValueOf(ins));
      } else {
        st.Push(if Pure(v) then v else ValueOf(ins));
      }
    }

    /** `ldfun_`. `knownFunction` says whether the bound constant is a closure,
        builtin or special (an inspection of the R object). */
    method LdFun(st: AbstractState, sym: Sym, ins: InsId, knownFunction: bool)
      modifies st
      ensures var v := Lookup(old(st.env), sym);
        var keeps := v.t == Value || (v.t == Constant && knownFunction);
        && st.stack == [if keeps then v else ValueOf(ins)] + old(st.stack)
        && st.env == if keeps then Touch(old(st.env), sym) else AfterCall(mode, Touch(old(st.env), sym))
    {
      var v := Lookup(st.env, sym);
      st.env := Touch(st.env, sym);
      match v.t
      case Constant =>
        if knownFunction {
          st.Push(v);
        } else {
          DoCall(st);
          st.Push(ValueOf(ins));
        }
      case Argument =>
        DoCall(st);
        st.Push(ValueOf(ins));
      case Any =>
        DoCall(st);
        st.Push(ValueOf(ins));
      case Value =>
        st.Push(v);
      case Bottom =>
        DoCall(st);
        st.Push(ValueOf(ins));
    }

    /** `force_`: a pure value stays; forcing anything else may run code. */
    method Force(st: AbstractState, ins: InsId)
      requires |st.stack| > 0
      modifies st
      ensures var v := old(st.stack)[0];
        && st.stack == [if Pure(v) then v else ValueOf(ins)] + old(st.stack)[1..]
        && st.env == if Pure(v) then old(st.env) else AfterCall(mode, old(st.env))
    {
      var v := st.Pop();
      if Pure(v) {
        st.Push(v);
      } else {
        DoCall(st);
        st.Push(ValueOf(ins));
      }
    }

    /** `stvar_`: the popped value becomes the binding of sym. */
    method StVar(st: AbstractState, sym: Sym)
      requires |st.stack| > 0
      modifies st
      ensures st.stack == old(st.stack)[1..]
      ensures st.env == old(st.env)[sym := old(st.stack)[0]]
    {
      var v := st.Pop();
      st.env := st.env[sym := v];
    }

    /** `call_`: pops the callee, runs it, pushes Any. */
    method Call(st: AbstractState)
      requires |st.stack| > 0
      modifies st
      ensures st.stack == [AnyValue()] + old(st.stack)[1..]
      ensures st.env == AfterCall(mode, old(st.env))
    {
      var _ := st.Pop();
      DoCall(st);
      st.Push(AnyValue());
    }

    /** `call_stack_`: pops nargs arguments and the callee. A call with only
        evaluated arguments to a safe builtin constant pushes a fresh value;
        `safeBuiltin` says whether the callee constant is such a builtin. */
    method CallStack(st: AbstractState, ins: InsId, nargs: nat, safeBuiltin: bool)
      requires nargs + 1 <= |st.stack|
      modifies st
      ensures var args := old(st.stack)[..nargs];
        var fun := old(st.stack)[nargs];
        var noProms := forall k :: 0 <= k < nargs ==> IsValue(args[k]);
        var safe := fun.t == Constant && safeBuiltin;
        && st.stack == [if safe then ValueOf(ins) else AnyValue()] + old(st.stack)[nargs + 1..]
        && st.env == if noProms && safe then old(st.env) else AfterCall(mode, old(st.env))
    {
      var noProms := true;
      var i := 0;
      while i < nargs
        invariant 0 <= i <= nargs
        invariant st.stack == old(st.stack)[i..] && st.env == old(st.env)
        invariant noProms <==> forall k :: 0 <= k < i ==> IsValue(old(st.stack)[k])
      {
        var a := st.Pop();
        if !IsValue(a) {
          noProms := false;
        }
        i := i + 1;
      }
      assert noProms <==> forall k :: 0 <= k < nargs ==> IsValue(old(st.stack)[..nargs][k]);
      if !noProms {
        DoCall(st);
      }
      var fun := st.Pop();
      var safeTarget := false;
      if fun.t == Constant {
        safeTarget := safeBuiltin;
      }
      if !safeTarget {
        DoCall(st);
        st.Push(AnyValue());
      } else {
        st.Push(ValueOf(ins));
      }
    }

    /** `static_call_stack_`: like `call_stack_`, but the callee comes from the
        call site; `safeTarget` says whether it is a safe builtin. */
    method StaticCallStack(st: AbstractState, ins: InsId, nargs: nat, safeTarget: bool)
      requires nargs <= |st.stack|
      modifies st
      ensures var noProms := forall k :: 0 <= k < nargs ==> IsValue(old(st.stack)[k]);
        && st.stack == [if safeTarget then ValueOf(ins) else AnyValue()] + old(st.stack)[nargs..]
        && st.env == if noProms && safeTarget then old(st.env) else AfterCall(mode, old(st.env))
    {
      var noProms := true;
      var i := 0;
      while i < nargs
        invariant 0 <= i <= nargs
        invariant st.stack == old(st.stack)[i..] && st.env == old(st.env)
        invariant noProms <==> forall k :: 0 <= k < i ==> IsValue(old(st.stack)[k])
      {
        var a := st.Pop();
        if !IsValue(a) {
          noProms := false;
        }
        i := i + 1;
      }
      if !noProms {
        DoCall(st);
      }
      if !safeTarget {
        DoCall(st);
        st.Push(AnyValue());
      } else {
        st.Push(ValueOf(ins));
      }
    }

    /** `dispatch_` pops one value, `dispatch_stack_` pops nargs; both call. */
    method Dispatch(st: AbstractState, npop: nat)
      requires npop <= |st.stack|
      modifies st
      ensures st.stack == [AnyValue()] + old(st.stack)[npop..]
      ensures st.env == AfterCall(mode, old(st.env))
    {
      st.PopN(npop);
      DoCall(st);
      st.Push(AnyValue());
    }

    /** `guard_fun_`: after the guard, sym is bound to the guarded constant. */
    method GuardFun(st: AbstractState, ins: InsId, sym: Sym)
      modifies st
      ensures st.stack == old(st.stack)
      ensures st.env == AfterCall(mode, old(st.env))[sym := ConstantValue(ins)]
    {
      DoCall(st);
      st.env := st.env[sym := ConstantValue(ins)];
    }

    /** `swap_`: both values are marked used by ins and exchanged. */
    method Swap(st: AbstractState, ins: InsId)
      requires |st.stack| >= 2
      modifies st
      ensures st.stack == [Used(old(st.stack)[1], ins), Used(old(st.stack)[0], ins)]
                          + old(st.stack)[2..]
      ensures st.env == old(st.env)
    {
      var a := st.Pop();
      var b := st.Pop();
      a := Used(a, ins);
      b := Used(b, ins);
      st.Push(a);
      st.Push(b);
    }

    /** `pull_`: the n-th value is marked used in place and a copy is pushed. */
    method Pull(st: AbstractState, ins: InsId, n: nat)
      requires n < |st.stack|
      modifies st
      ensures var s := old(st.stack);
        st.stack == [Used(s[n], ins)] + s[n := Used(s[n], ins)]
      ensures st.env == old(st.env)
    {
      var v := Used(st.stack[n], ins);
      st.stack := st.stack[n := v];
      st.Push(v);
    }

    /** `put_` as written: the top is marked used, slot i (for i < n - 1)
        receives slot i + i, and slot n receives the (marked) top. */
    method Put(st: AbstractState, ins: InsId, n: nat)
      requires n < |st.stack|
      requires n >= 2 ==> 2 * n - 4 < |st.stack|
      modifies st
      ensures |st.stack| == |old(st.stack)| && st.env == old(st.env)
      ensures var s := old(st.stack)[0 := Used(old(st.stack)[0], ins)];
        && st.stack[n] == s[0]
        && (forall k :: 0 <= k < n - 1 && k != n ==> st.stack[k] == s[k + k])
        && (forall k :: 0 <= k < |s| && n - 1 <= k && k != n ==> st.stack[k] == s[k])
    {
      ghost var s := old(st.stack)[0 := Used(old(st.stack)[0], ins)];
      st.stack := st.stack[0 := Used(st.stack[0], ins)];
      var i := 0;
      while i < n - 1
        invariant 0 <= i <= if n >= 1 then n - 1 else 0
        invariant |st.stack| == |s| && st.env == old(st.env)
        invariant forall k :: 0 <= k < i ==> st.stack[k] == s[k + k]
        invariant forall k :: i <= k < |s| ==> st.stack[k] == s[k]
      {
        st.stack := st.stack[i := st.stack[i + i]];
        i := i + 1;
      }
      st.stack := st.stack[n := st.stack[0]];
    }

    /** `pick_` as written: slot n is marked used, slots 1 .. n - 1 are
        overwritten upward (so each receives the old top), and the top receives
        the marked slot n. */
    method Pick(st: AbstractState, ins: InsId, n: nat)
      requires n < |st.stack|
      modifies st
      ensures |st.stack| == |old(st.stack)| && st.env == old(st.env)
      ensures var s := old(st.stack);
        && st.stack[0] == Used(s[n], ins)
        && (forall k :: 1 <= k < n ==> st.stack[k] == s[0])
        && (n >= 1 ==> st.stack[n] == Used(s[n], ins))
        && (forall k :: n < k < |s| ==> st.stack[k] == s[k])
    {
      var v := Used(st.stack[n], ins);
      st.stack := st.stack[n := v];
      var i := 0;
      while i < n - 1
        invariant 0 <= i <= if n >= 1 then n - 1 else 0
        invariant |st.stack| == |old(st.stack)| && st.env == old(st.env)
        invariant st.stack[0] == old(st.stack)[n := v][0]
        invariant forall k :: 1 <= k <= i ==> st.stack[k] == old(st.stack)[0]
        invariant forall k :: i < k < |st.stack| ==> st.stack[k] == old(st.stack)[n := v][k]
      {
        st.stack := st.stack[i + 1 := st.stack[i]];
        i := i + 1;
      }
      st.stack := st.stack[0 := v];
    }

    /** `uniq_` and `brobj_`: the top is marked used in place. */
    method MarkTopUsed(st: AbstractState, ins: InsId)
      requires |st.stack| > 0
      modifies st
      ensures st.stack == old(st.stack)[0 := Used(old(st.stack)[0], ins)]
      ensures st.env == old(st.env)
    {
      st.stack := st.stack[0 := Used(st.stack[0], ins)];
    }

    /** `any`: the generic handler for opcodes without their own. */
    method AnyOp(st: AbstractState, ins: InsId, op: Opcode, popCount: nat, pushCount: nat, isPure: bool)
      requires popCount <= |st.stack|
      modifies st
      ensures |st.stack| == |old(st.stack)| - popCount + pushCount
      ensures st.stack[pushCount..] == old(st.stack)[popCount..]
      ensures forall k :: 0 <= k < pushCount ==>
        st.stack[k] == if PushesNoPromise(op) then ValueOf(ins) else AnyValue()
      ensures st.env == if isPure then old(st.env) else AfterCall(mode, old(st.env))
    {
      st.PopN(popCount);
      if !isPure {
        DoCall(st);
      }
      var pushed := if PushesNoPromise(op) then ValueOf(ins) else AnyValue();
      ghost var base := st.stack;
      var i := 0;
      while i != pushCount
        invariant 0 <= i <= pushCount
        invariant |st.stack| == |base| + i && st.stack[i..] == base
        invariant forall k :: 0 <= k < i ==> st.stack[k] == pushed
        invariant st.env == if isPure then old(st.env) else AfterCall(mode, old(st.env))
      {
        st.Push(pushed);
        i := i + 1;
      }
    }

    /** `dup_`: the top is marked used and a copy of it is pushed. */
    method Dup(st: AbstractState, ins: InsId)
      requires |st.stack| > 0
      modifies st
      ensures var v := Used(old(st.stack)[0], ins);
        st.stack == [v, v] + old(st.stack)[1..]
      ensures st.env == old(st.env)
    {
      var v := Used(st.stack[0], ins);
      st.stack := st.stack[0 := v];
      st.Push(v);
    }

    /** `dup2_`: slots 0 and 1 are marked used, then slot 0 and slot 1 are
        pushed in that order. */
    method Dup2(st: AbstractState, ins: InsId)
      requires |st.stack| >= 2
      modifies st
      ensures var a := Used(old(st.stack)[0], ins);
        var b := Used(old(st.stack)[1], ins);
        st.stack == [b, a, a, b] + old(st.stack)[2..]
      ensures st.env == old(st.env)
    {
      var a := Used(st.stack[0], ins);
      var b := Used(st.stack[1], ins);
      st.stack := st.stack[0 := a][1 := b];
      st.Push(a);
      st.Push(b);
    }

    /** `return_`: leaves the function, so the whole stack is dropped. */
    method Return(st: AbstractState)
      modifies st
      ensures st.stack == [] && st.env == old(st.env)
    {
      st.PopN(st.Depth());
    }

    /** `alloc_` pushes a fresh value, `push_` a constant defined by ins. */
    method Alloc(st: AbstractState, ins: InsId)
      modifies st
      ensures st.stack == [ValueOf(ins)] + old(st.stack) && st.env == old(st.env)
    {
      st.Push(ValueOf(ins));
    }

    method PushConst(st: AbstractState, ins: InsId)
      modifies st
      ensures st.stack == [ConstantValue(ins)] + old(st.stack) && st.env == old(st.env)
    {
      st.Push(ConstantValue(ins));
    }
  }
}
