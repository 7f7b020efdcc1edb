/** The reflection guard of the interpreter: before an R builtin reads or
    changes an environment, the runtime checks whether the currently running
    code may touch that environment, by walking the parent chain from the
    current environment. When it may not and the guard asks for it, the call
    stack is tainted (that step itself is outside this model; here the guard
    functions return whether it happens). */
module Reflect {

  datatype Option<T> = None | Some(value: T)

  /** Environment identities. A handful of distinguished R objects get fixed ids. */
  type EnvId = nat

  const EmptyEnv: EnvId := 0
  const BaseEnv: EnvId := 1
  const BaseNamespace: EnvId := 2
  const GlobalEnv: EnvId := 3
  /** The marker symbol the optimizer leaves where an elided environment was. */
  const DelayedEnv: EnvId := 4
  const ReplaceFunsTable: EnvId := 5

  /** An environment object: an ordinary environment with its enclosure, or a
      lazy environment record with its materialized environment (if any) and
      its stored parent. */
  datatype Frame = Plain(enclos: EnvId) | Lazy(materialized: Option<EnvId>, parent: EnvId)

  type Heap = map<EnvId, Frame>

  /** The delayed marker stands for the global environment. */
  function Redirect(e: EnvId): (r: EnvId)
    ensures r != DelayedEnv
    ensures e != DelayedEnv ==> r == e
  {
    if e == DelayedEnv then GlobalEnv else e
  }

  /** One step up the chain: a lazy environment goes to its materialized
      environment if there is one, else to its parent; any other goes to its
      enclosure. */
  function Step(h: Heap, e: EnvId): (r: EnvId)
    requires e in h
    ensures h[e].Plain? ==> r == h[e].enclos
    ensures h[e].Lazy? && h[e].materialized.Some? ==> r == h[e].materialized.value
    ensures h[e].Lazy? && h[e].materialized.None? ==> r == h[e].parent
  {
    match h[e]
    case Plain(enclos) => enclos
    case Lazy(m, p) => if m.Some? then m.value else p
  }

  /** An environment the walk may stand on: the empty environment ends it,
      anything else (after redirection) is an object of the heap. */
  predicate OnHeap(h: Heap, e: EnvId) {
    e == EmptyEnv || Redirect(e) in h
  }

  /** Every chain ends in the empty environment: each step leads to an
      environment of strictly smaller rank (R's chains are acyclic). */
  ghost predicate Ranked(h: Heap, rank: map<EnvId, nat>) {
    && EmptyEnv !in h
    && DelayedEnv !in h
    && h.Keys <= rank.Keys
    && forall e :: e in h ==>
         && OnHeap(h, Step(h, e))
         && (Step(h, e) != EmptyEnv ==> rank[Redirect(Step(h, e))] < rank[e])
  }

  ghost function Height(h: Heap, rank: map<EnvId, nat>, e: EnvId): nat
    requires Ranked(h, rank) && OnHeap(h, e)
  {
    if e == EmptyEnv then 0 else rank[Redirect(e)] + 1
  }

  /** Whether the walk from cur meets target before the empty environment. */
  ghost function Accessible(h: Heap, rank: map<EnvId, nat>, cur: EnvId, target: EnvId): bool
    requires Ranked(h, rank) && OnHeap(h, cur)
    decreases Height(h, rank, cur)
  {
    if cur == EmptyEnv then false
    else
      var r := Redirect(cur);
      r == target || Accessible(h, rank, Step(h, r), target)
  }

  /** The environments the walk compares against the target, in order. */
  ghost function Chain(h: Heap, rank: map<EnvId, nat>, cur: EnvId): (c: seq<EnvId>)
    requires Ranked(h, rank) && OnHeap(h, cur)
    ensures cur == EmptyEnv <==> c == []
    ensures forall k :: 0 <= k < |c| ==> c[k] in h
    decreases Height(h, rank, cur)
  {
    if cur == EmptyEnv then []
    else
      var r := Redirect(cur);
      [r] + Chain(h, rank, Step(h, r))
  }

  /** The walk finds the target exactly when the target is on the chain. */
  lemma {:induction false} AccessibleIffOnChain(h: Heap, rank: map<EnvId, nat>, cur: EnvId, target: EnvId)
    requires Ranked(h, rank) && OnHeap(h, cur)
    ensures Accessible(h, rank, cur, target) <==> target in Chain(h, rank, cur)
    decreases Height(h, rank, cur)
  {
    if cur != EmptyEnv {
      var r := Redirect(cur);
      AccessibleIffOnChain(h, rank, Step(h, r), target);
    }
  }

  /** The delayed marker is never reached as such, and the empty environment
      is never accessible from anything. */
  lemma {:induction false} ChainAvoidsMarkers(h: Heap, rank: map<EnvId, nat>, cur: EnvId)
    requires Ranked(h, rank) && OnHeap(h, cur)
    ensures DelayedEnv !in Chain(h, rank, cur)
    ensures !Accessible(h, rank, cur, EmptyEnv)
    decreases Height(h, rank, cur)
  {
    AccessibleIffOnChain(h, rank, cur, EmptyEnv);
  }

  /** The delayed marker is compared as the global environment, and a lazy
      environment hands the walk to its materialized environment when it has
      one, to its stored parent otherwise. */
  lemma ChainSteps(h: Heap, rank: map<EnvId, nat>, e: EnvId)
    requires Ranked(h, rank) && e in h
    ensures OnHeap(h, DelayedEnv) ==> Chain(h, rank, DelayedEnv)[0] == GlobalEnv
    ensures h[e].Lazy? && h[e].materialized.Some? ==>
      Chain(h, rank, e) == [e] + Chain(h, rank, h[e].materialized.value)
    ensures h[e].Lazy? && h[e].materialized.None? ==>
      Chain(h, rank, e) == [e] + Chain(h, rank, h[e].parent)
    ensures h[e].Plain? ==> Chain(h, rank, e) == [e] + Chain(h, rank, h[e].enclos)
  {
  }

  /** `canEnvAccess(x, target)`: the base environment and namespace may touch
      anything, anything may touch the replace-funs table, and otherwise the
      target must lie on x's chain. */
  method CanEnvAccess(h: Heap, ghost rank: map<EnvId, nat>, x: EnvId, target: EnvId)
    returns (ok: bool)
    requires Ranked(h, rank) && OnHeap(h, x)
    ensures ok <==> x == BaseEnv || x == BaseNamespace || target == ReplaceFunsTable
                    || target in Chain(h, rank, x)
  {
    AccessibleIffOnChain(h, rank, x, target);
    if x == BaseEnv || x == BaseNamespace || target == ReplaceFunsTable {
      return true;
    }
    var cur := x;
    while cur != EmptyEnv
      invariant OnHeap(h, cur)
      invariant Accessible(h, rank, x, target) == Accessible(h, rank, cur, target)
      decreases Height(h, rank, cur)
    {
      if cur == DelayedEnv {
        cur := GlobalEnv;
      }
      if cur == target {
        return true;
      }
      var next := Step(h, cur);
      cur := next;
    }
    return false;
  }

  /** The guard a compiled function runs under (taken from its uses in the
      reflection code). */
  datatype ReflectGuard = NoGuard | Introspect

  /** How a builtin is about to access an environment. */
  datatype EnvAccessType = Get | OtherAccess

  /** `willPerformReflection`: whether the call stack gets tainted. Only a
      non-read access under Introspect does. */
  function WillPerformReflection(guard: ReflectGuard, typ: EnvAccessType): (taint: bool)
    ensures guard == NoGuard ==> !taint
    ensures typ == Get ==> !taint
    ensures guard == Introspect && typ != Get ==> taint
  {
    match guard
    case NoGuard => false
    case Introspect => typ != Get
  }

  /** The current environment: the top of the external environment stack, or
      the base environment when that stack is empty. */
  function CurrentEnv(externalTop: Option<EnvId>): (e: EnvId)
    ensures externalTop.None? ==> e == BaseEnv
    ensures externalTop.Some? ==> e == externalTop.value
  {
    if externalTop.None? then BaseEnv else externalTop.value
  }

  /** `willAccessEnv`: without a guard nothing is checked; otherwise an access
      the current environment may not make is reported as reflection. */
  method WillAccessEnv(h: Heap, ghost rank: map<EnvId, nat>, guard: ReflectGuard,
                       externalTop: Option<EnvId>, env: EnvId, typ: EnvAccessType)
    returns (taint: bool)
    requires Ranked(h, rank) && OnHeap(h, CurrentEnv(externalTop))
    ensures taint ==> guard == Introspect && typ != Get
    ensures taint <==> guard != NoGuard
                       && !(CurrentEnv(externalTop) in {BaseEnv, BaseNamespace}
                            || env == ReplaceFunsTable
                            || env in Chain(h, rank, CurrentEnv(externalTop)))
                       && WillPerformReflection(guard, typ)
  {
    taint := false;
    if guard != NoGuard {
      var ok := CanEnvAccess(h, rank, CurrentEnv(externalTop), env);
      if !ok {
        taint := WillPerformReflection(guard, typ);
      }
    }
  }
}
