/** The call context the interpreter builds for a call: how many arguments
    were supplied and passed, where they live (on the operand stack, or as
    promise indices into the caller's code object), their names, and the
    callee. The accessors only compute from fields fixed at construction. */
module CallContexts {

  /** A 32-bit unsigned bytecode immediate. */
  newtype Immediate = x: int | 0 <= x < 0x1_0000_0000

  /** An argument that is missing: `(unsigned)-1`. */
  const MISSING_ARG_IDX: Immediate := 0xFFFF_FFFF
  /** An argument with no code object of its own (`...`): `(unsigned)-2`. */
  const DOTS_ARG_IDX: Immediate := 0xFFFF_FFFE
  /** The largest valid promise index: `(unsigned)-3`. */
  const MAX_ARG_IDX: Immediate := 0xFFFF_FFFD

  datatype Option<T> = None | Some(value: T)

  /** The R type tag of the callee, as far as the call context cares. */
  datatype SexpType = Closure | Special | Builtin | OtherType

  /** An R object on the operand stack. */
  type Sexp = nat

  /** What `argSexp` yields: a stack value, R's unbound marker, or the eager
      value of the caller's promise at an index (the promise table itself is
      not part of this model). */
  datatype Arg = StackValue(v: Sexp) | Unbound | EagerPromise(idx: Immediate)

  datatype CallContext = CallContext(
    suppliedArgs: nat,
    passedArgs: nat,
    stackArgs: Option<seq<Sexp>>,
    implicitArgs: Option<seq<Immediate>>,
    names: Option<seq<Immediate>>,
    callee: SexpType)

  /** The arrays behind the pointers are long enough for the counts. */
  predicate WellFormed(c: CallContext) {
    && (c.stackArgs.Some? ==> |c.stackArgs.value| >= c.passedArgs)
    && (c.implicitArgs.Some? ==> |c.implicitArgs.value| >= c.passedArgs)
    && (c.names.Some? ==> |c.names.value| >= c.suppliedArgs)
  }

  /** The constructor: both counts start at nargs, and the callee must be a
      closure, a special or a builtin. */
  function Make(callee: SexpType, nargs: nat, stackArgs: Option<seq<Sexp>>,
                implicitArgs: Option<seq<Immediate>>, names: Option<seq<Immediate>>): (c: CallContext)
    requires callee == Closure || callee == Special || callee == Builtin
    ensures c.suppliedArgs == nargs && c.passedArgs == nargs
    ensures c.callee != OtherType
    ensures c.stackArgs == stackArgs && c.implicitArgs == implicitArgs && c.names == names
    ensures WellFormed(c) <==>
      (stackArgs.Some? ==> |stackArgs.value| >= nargs) &&
      (implicitArgs.Some? ==> |implicitArgs.value| >= nargs) &&
      (names.Some? ==> |names.value| >= nargs)
  {
    CallContext(nargs, nargs, stackArgs, implicitArgs, names, callee)
  }

  /** The two sentinels are exactly the immediates above the largest valid index. */
  predicate IsSentinel(idx: Immediate)
    ensures IsSentinel(idx) <==> idx > MAX_ARG_IDX
  {
    idx == MISSING_ARG_IDX || idx == DOTS_ARG_IDX
  }

  function HasStackArgs(c: CallContext): bool {
    c.stackArgs.Some?
  }

  /** Only a builtin evaluates its arguments eagerly. */
  function HasEagerCallee(c: CallContext): (r: bool)
    ensures r <==> c.callee == Builtin
  {
    c.callee == Builtin
  }

  function HasNames(c: CallContext): bool {
    c.names.Some?
  }

  /** `implicitArgIdx`: the promise index of a passed argument, MISSING_ARG_IDX
      past the passed ones. */
  function ImplicitArgIdx(c: CallContext, i: Immediate): (r: Immediate)
    requires WellFormed(c) && c.implicitArgs.Some?
    ensures i as int < c.passedArgs ==> r == c.implicitArgs.value[i]
    ensures i as int >= c.passedArgs ==> r == MISSING_ARG_IDX
  {
    if (i as int) < c.passedArgs then c.implicitArgs.value[i] else MISSING_ARG_IDX
  }

  function MissingArg(c: CallContext, i: Immediate): (r: bool)
    requires WellFormed(c) && c.implicitArgs.Some?
    ensures r <==> ImplicitArgIdx(c, i) == MISSING_ARG_IDX
  {
    ImplicitArgIdx(c, i) == MISSING_ARG_IDX
  }

  /** `implicitArgEager`: the unbound marker for a missing or dots argument,
      otherwise the caller's eager promise at the index. */
  function ImplicitArgEager(c: CallContext, i: Immediate): (r: Arg)
    requires WellFormed(c) && c.implicitArgs.Some?
    ensures r == Unbound <==> IsSentinel(ImplicitArgIdx(c, i))
    ensures r != Unbound ==> r == EagerPromise(ImplicitArgIdx(c, i))
  {
    var idx := ImplicitArgIdx(c, i);
    if idx == MISSING_ARG_IDX || idx == DOTS_ARG_IDX then Unbound else EagerPromise(idx)
  }

  /** `stackArg`: only for a context with stack arguments and a passed index. */
  function StackArg(c: CallContext, i: Immediate): (r: Sexp)
    requires WellFormed(c) && c.stackArgs.Some? && (i as int) < c.passedArgs
    ensures r == c.stackArgs.value[i]
  {
    c.stackArgs.value[i]
  }

  /** `argSexp`: the stack argument when the arguments are on the stack,
      otherwise the eager implicit argument. */
  function ArgSexp(c: CallContext, i: Immediate): (r: Arg)
    requires WellFormed(c)
    requires HasStackArgs(c) ==> (i as int) < c.passedArgs
    requires !HasStackArgs(c) ==> c.implicitArgs.Some?
    ensures HasStackArgs(c) ==> r == StackValue(c.stackArgs.value[i])
    ensures !HasStackArgs(c) ==> r == ImplicitArgEager(c, i)
  {
    if HasStackArgs(c) then StackValue(StackArg(c, i)) else ImplicitArgEager(c, i)
  }

  /** `name`: the constant-pool index of a supplied argument's name. */
  function Name(c: CallContext, i: Immediate): (r: Immediate)
    requires WellFormed(c) && HasNames(c) && (i as int) < c.suppliedArgs
    ensures r == c.names.value[i]
  {
    c.names.value[i]
  }

  /** Promise indices that are all valid (none is a sentinel). */
  predicate ValidIndices(c: CallContext)
    requires WellFormed(c) && c.implicitArgs.Some?
  {
    forall k :: 0 <= k < c.passedArgs ==> c.implicitArgs.value[k] <= MAX_ARG_IDX
  }

  /** With valid promise indices, an argument is missing exactly when it was
      not passed, and every passed argument has an eager promise. */
  lemma MissingIffNotPassed(c: CallContext, i: Immediate)
    requires WellFormed(c) && c.implicitArgs.Some? && ValidIndices(c)
    ensures MissingArg(c, i) <==> (i as int) >= c.passedArgs
    ensures (i as int) < c.passedArgs ==> ImplicitArgEager(c, i) == EagerPromise(c.implicitArgs.value[i])
    ensures (i as int) >= c.passedArgs ==> ImplicitArgEager(c, i) == Unbound
  {
    if (i as int) < c.passedArgs {
      assert c.implicitArgs.value[i] <= MAX_ARG_IDX;
    }
  }

  /** Without stack arguments, an argument reads as unbound exactly when its
      promise index is one of the two sentinels: a dots argument is unbound
      although it was passed. */
  lemma UnboundIffSentinel(c: CallContext, i: Immediate)
    requires WellFormed(c) && !HasStackArgs(c) && c.implicitArgs.Some?
    ensures ArgSexp(c, i) == Unbound <==>
      ImplicitArgIdx(c, i) == MISSING_ARG_IDX || ImplicitArgIdx(c, i) == DOTS_ARG_IDX
    ensures (i as int) < c.passedArgs && c.implicitArgs.value[i] == DOTS_ARG_IDX ==>
      ArgSexp(c, i) == Unbound && !MissingArg(c, i)
  {
  }
}
