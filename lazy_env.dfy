/** The lazy environment record of the interpreter: the information needed to
    create an R environment only when someone asks for it.

    The record is a runtime object with `nargs + 2` pointer entries (entry 0
    the materialized environment once there is one, entry 1 the parent, the
    arguments from entry 2 on) followed by a byte array `notMissing` that
    remembers which argument slots have been overwritten. */
module LazyEnvironments {

  /** An R object pointer; `Null` is the C null pointer the entries start as. */
  datatype Sexp = Null | Obj(id: nat)

  /** A constant-pool index. */
  type Immediate = nat

  const ArgOffset: nat := 2

  /** The interpreter's operand stack; the last element is the top. */
  class OperandStack {
    var items: seq<Sexp>

    constructor (items: seq<Sexp>)
      ensures this.items == items
    {
      this.items := items;
    }

    /** `ostack_pop`. */
    method Pop() returns (v: Sexp)
      requires |items| > 0
      modifies this
      ensures v == old(items)[|old(items)| - 1]
      ensures items == old(items)[..|old(items)| - 1]
    {
      v := items[|items| - 1];
      items := items[..|items| - 1];
    }
  }

  class LazyEnvironment {
    const nargs: nat
    const names: seq<Immediate>
    const entries: array<Sexp>
    const notMissing: array<bool>

    /** The layout: two header entries before the arguments, one flag per argument. */
    ghost predicate Valid()
      reads this
    {
      entries.Length == nargs + ArgOffset && notMissing.Length == nargs
    }

    /** The C++ constructor: the entries start null and no argument is marked
        not-missing. The parent is not stored here; `BasicNew` does that. */
    constructor (parent: Sexp, nargs: nat, names: seq<Immediate>)
      ensures Valid()
      ensures this.nargs == nargs && this.names == names
      ensures fresh(entries) && fresh(notMissing)
      ensures forall k :: 0 <= k < entries.Length ==> entries[k] == Null
      ensures forall k :: 0 <= k < notMissing.Length ==> !notMissing[k]
    {
      this.nargs := nargs;
      this.names := names;
      entries := new Sexp[nargs + ArgOffset](_ => Null);
      notMissing := new bool[nargs](_ => false);
    }

    function Materialized(): Sexp
      reads this, entries
      requires Valid()
    {
      entries[0]
    }

    function GetParent(): Sexp
      reads this, entries
      requires Valid()
    {
      entries[1]
    }

    function GetArg(i: nat): Sexp
      reads this, entries
      requires Valid() && i < nargs
    {
      entries[i + ArgOffset]
    }

    /** The arguments, in slot order. */
    function Args(): (r: seq<Sexp>)
      reads this, entries
      requires Valid()
      ensures |r| == nargs
      ensures forall i :: 0 <= i < nargs ==> r[i] == GetArg(i)
    {
      entries[ArgOffset..]
    }

    /** `materialized(m)`: only entry 0 changes. */
    method SetMaterialized(m: Sexp)
      requires Valid()
      modifies entries
      ensures Materialized() == m
      ensures GetParent() == old(GetParent()) && Args() == old(Args())
    {
      entries[0] := m;
    }

    /** `setArg(i, v, o)`: argument i becomes v, and its not-missing flag is set
        when o is; every other entry and flag is unchanged. */
    method SetArg(i: nat, v: Sexp, overrideMissing: bool)
      requires Valid() && i < nargs
      modifies entries, notMissing
      ensures entries[..] == old(entries[..])[i + ArgOffset := v]
      ensures notMissing[..] == if overrideMissing then old(notMissing[..])[i := true]
                                else old(notMissing[..])
      ensures GetArg(i) == v
      ensures forall j :: 0 <= j < nargs && j != i ==> GetArg(j) == old(GetArg(j))
      ensures Materialized() == old(Materialized()) && GetParent() == old(GetParent())
    {
      entries[i + ArgOffset] := v;
      if overrideMissing {
        notMissing[i] := true;
      }
    }

    /** `BasicNew`: a fresh record whose parent entry holds the parent and
        whose other entries are still null. */
    static method BasicNew(parent: Sexp, nargs: nat, names: seq<Immediate>)
      returns (le: LazyEnvironment)
      ensures fresh(le) && fresh(le.entries) && fresh(le.notMissing)
      ensures le.Valid() && le.nargs == nargs && le.names == names
      ensures le.GetParent() == parent && le.Materialized() == Null
      ensures forall i :: 0 <= i < nargs ==> le.GetArg(i) == Null
      ensures forall i :: 0 <= i < nargs ==> !le.notMissing[i]
    {
      le := new LazyEnvironment(parent, nargs, names);
      le.entries[1] := parent;
    }

    /** `New`: pops the nargs arguments off the operand stack, the former top
        going to the last argument. Pushing the arguments back in slot order
        restores the stack, and no argument is marked not-missing. */
    static method New(parent: Sexp, nargs: nat, names: seq<Immediate>, stack: OperandStack)
      returns (le: LazyEnvironment)
      requires |stack.items| >= nargs
      modifies stack
      ensures fresh(le) && fresh(le.entries) && fresh(le.notMissing)
      ensures le.Valid() && le.nargs == nargs && le.names == names
      ensures le.GetParent() == parent && le.Materialized() == Null
      ensures |stack.items| == |old(stack.items)| - nargs
      ensures old(stack.items) == stack.items + le.Args()
      ensures forall i :: 0 <= i < nargs ==>
        le.GetArg(i) == old(stack.items)[|old(stack.items)| - nargs + i]
      ensures forall i :: 0 <= i < nargs ==> !le.notMissing[i]
    {
      le := BasicNew(parent, nargs, names);
      ghost var base := |stack.items| - nargs;
      var i: int := nargs - 1;
      while i >= 0
        invariant -1 <= i < nargs
        invariant stack.items == old(stack.items)[..base + i + 1]
        invariant le.Valid() && le.nargs == nargs && le.names == names
        invariant le.GetParent() == parent && le.Materialized() == Null
        invariant forall k :: i < k < nargs ==> le.GetArg(k) == old(stack.items)[base + k]
        invariant forall k :: 0 <= k < nargs ==> !le.notMissing[k]
        decreases i
      {
        var v := stack.Pop();
        le.SetArg(i, v, false);
        i := i - 1;
      }
      assert stack.items + le.Args() == old(stack.items) by {
        assert |stack.items + le.Args()| == |old(stack.items)|;
        forall k | 0 <= k < |old(stack.items)|
          ensures (stack.items + le.Args())[k] == old(stack.items)[k]
        {
          if k >= base {
            assert le.Args()[k - base] == le.GetArg(k - base);
          }
        }
      }
    }
  }
}
