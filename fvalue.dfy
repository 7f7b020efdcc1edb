/** The value-provenance lattice of the bytecode dataflow analysis.

    An abstract value records where a stack slot or a variable binding may come
    from (nothing yet, a constant, a formal argument, an already evaluated value,
    or anything), together with a use/def record that tracks the single defining
    and the single using instruction, or the sentinels `Unused` and `Multiuse`.

    The C++ value type keeps the argument index and the use/def record in one
    union; here they are two fields, and the bytes the C++ leaves uninitialised
    are modelled as `UseDef(Unused, Unused)`. */
module FValues {

  /** Identity of a bytecode instruction (a code-editor iterator). */
  type InsId = nat

  /** A def or use slot: an instruction, or one of the two sentinels. */
  datatype Ref = Unused | Multiuse | At(ins: InsId)

  datatype UseDef = UseDef(def: Ref, use: Ref)

  datatype Kind = Bottom | Constant | Argument | Value | Any

  datatype FValue = FValue(t: Kind, argument: int, u: UseDef)

  const NoUseDef: UseDef := UseDef(Unused, Unused)

  /** The information order on slots: Unused, then one instruction, then Multiuse. */
  predicate RefLe(a: Ref, b: Ref) {
    a == b || a == Unused || b == Multiuse
  }

  /** The order of the lattice diagram: Bottom below everything, Constant below
      Value, and Value and Argument below Any. */
  predicate KindLe(a: Kind, b: Kind) {
    a == b || a == Bottom || b == Any || (a == Constant && b == Value)
  }

  // ---------------------------------------------------------------------------
  // Constructors

  function BottomValue(): (v: FValue)
    ensures v.t == Bottom && v.argument == -1
  {
    FValue(Bottom, -1, NoUseDef)
  }

  function AnyValue(): (v: FValue)
    ensures v.t == Any && v.argument == -1
  {
    FValue(Any, -1, NoUseDef)
  }

  function ArgumentValue(i: int): (v: FValue)
    ensures v.t == Argument && v.argument == i
  {
    FValue(Argument, i, NoUseDef)
  }

  function ConstantValue(def: InsId): (v: FValue)
    ensures v.t == Constant && v.u == UseDef(At(def), Unused)
  {
    FValue(Constant, -1, UseDef(At(def), Unused))
  }

  function ValueOf(ins: InsId): (v: FValue)
    ensures v.t == Value && v.u == UseDef(At(ins), Unused)
  {
    FValue(Value, -1, UseDef(At(ins), Unused))
  }

  // ---------------------------------------------------------------------------
  // Queries

  /** Bottom, Constant and Value need no evaluation; an argument may be an
      unforced promise and Any may be anything. */
  predicate Pure(v: FValue) {
    v.t != Any && v.t != Argument
  }

  lemma PureIff(v: FValue)
    ensures Pure(v) <==> v.t in {Bottom, Constant, Value}
    ensures !Pure(v) <==> v.t in {Argument, Any}
  {
  }

  /** `isValue()`: a Constant or a Value, which is never a promise. */
  predicate IsValue(v: FValue)
    ensures IsValue(v) ==> Pure(v) && v.t != Bottom
  {
    v.t == Value || v.t == Constant
  }

  /** A Constant or Value whose defining instruction is known, not Multiuse. */
  function SingleDef(v: FValue): (r: bool)
    requires IsValue(v) ==> v.u.def != Unused
    ensures r ==> IsValue(v) && v.u.def.At?
    ensures IsValue(v) && v.u.def != Multiuse ==> r
  {
    if IsValue(v) then v.u.def != Multiuse else false
  }

  function Def(v: FValue): (ins: InsId)
    requires IsValue(v) ==> v.u.def != Unused
    requires SingleDef(v)
    ensures v.u.def == At(ins)
  {
    v.u.def.ins
  }

  /** Whether a Constant or Value has been used by some instruction. */
  function IsUsed(v: FValue): (r: bool)
    requires IsValue(v)
    ensures r <==> v.u.use.At? || v.u.use == Multiuse
  {
    v.u.use != Unused
  }

  /** The equality operator of the C++ class: kinds agree, and so do the
      payloads that the kind makes meaningful. */
  predicate Equal(a: FValue, b: FValue) {
    if a.t != b.t then false
    else match a.t
      case Constant => a.u == b.u
      case Value => a.u == b.u
      case Argument => a.argument == b.argument
      case _ => true
  }

  lemma EqualIsEquivalence(a: FValue, b: FValue, c: FValue)
    ensures Equal(a, a)
    ensures Equal(a, b) ==> Equal(b, a)
    ensures Equal(a, b) && Equal(b, c) ==> Equal(a, c)
  {
  }

  /** Comparing against the bottom element only looks at the kind. */
  lemma EqualBottomIff(v: FValue)
    ensures Equal(v, BottomValue()) <==> v.t == Bottom
  {
  }

  // ---------------------------------------------------------------------------
  // Updates (the C++ members mutate `*this`; here they return the new value)

  /** `used(ins)`: the use slot records ins, or becomes Multiuse when another
      instruction already used the value. */
  function Used(v: FValue, ins: InsId): (r: FValue)
    ensures r.t == v.t && r.argument == v.argument && r.u.def == v.u.def
    ensures v.u.use == Unused ==> r.u.use == At(ins)
    ensures v.u.use == At(ins) ==> r == v
    ensures v.u.use != Unused && v.u.use != At(ins) ==> r.u.use == Multiuse
  {
    if v.u.use == Unused then v.(u := v.u.(use := At(ins)))
    else if v.u.use != At(ins) then v.(u := v.u.(use := Multiuse))
    else v
  }

  /** Marking a value used only ever moves its use slot up, and doing it twice
      with the same instruction is the same as doing it once. */
  lemma UsedInflationary(v: FValue, ins: InsId)
    ensures RefLe(v.u.use, Used(v, ins).u.use)
    ensures Used(Used(v, ins), ins) == Used(v, ins)
  {
  }

  /** `UseDef::mergeWith`: a slot turns Multiuse when the other side carries a
      different, real entry. Returns the new record and whether it changed. */
  function MergeUseDef(a: UseDef, b: UseDef): (r: (UseDef, bool))
    ensures a.def == Multiuse ==> r.0.def == Multiuse
    ensures a.use == Multiuse ==> r.0.use == Multiuse
    ensures b.def == Unused ==> r.0.def == a.def
    ensures b.use == Unused ==> r.0.use == a.use
    ensures r.0.def == a.def || r.0.def == Multiuse
    ensures r.0.use == a.use || r.0.use == Multiuse
    ensures r.0.def != a.def <==> (a.def != Multiuse && b.def != Unused && a.def != b.def)
    ensures r.0.use != a.use <==> (a.use != Multiuse && b.use != Unused && a.use != b.use)
    ensures r.1 <==> r.0 != a
  {
    var defChanges := a.def != Multiuse && b.def != Unused && a.def != b.def;
    var useChanges := a.use != Multiuse && b.use != Unused && a.use != b.use;
    var def := if defChanges then Multiuse else a.def;
    var use := if useChanges then Multiuse else a.use;
    (UseDef(def, use), defChanges || useChanges)
  }

  /** Merging the same record in again reports no change: one merge reaches
      a state that is stable under that operand. */
  lemma MergeUseDefStable(a: UseDef, b: UseDef)
    ensures !MergeUseDef(MergeUseDef(a, b).0, b).1
    ensures !MergeUseDef(a, a).1
  {
  }

  /** `FValue::mergeWith(other)`: the new value of `this` and the returned flag. */
  function Merge(a: FValue, b: FValue): (r: (FValue, bool))
    // a Bottom operand changes nothing
    ensures b.t == Bottom ==> r == (a, false)
    // a Bottom receiver takes the operand over, kind and payload
    ensures b.t != Bottom && a.t == Bottom ==> r == (b, true)
    // an argument survives only the same argument
    ensures a.t == Argument && b.t != Bottom ==>
      r.0.t == (if b.t == Argument && b.argument == a.argument then Argument else Any)
    ensures a.t == Argument && b.t != Bottom ==>
      r.1 == !(b.t == Argument && b.argument == a.argument)
    // constants of the same definition stay constant, different ones become a value
    ensures a.t == Constant && b.t == Constant ==>
      r.0.t == (if a.u.def == b.u.def then Constant else Value)
    // a value merged with something impure becomes Any
    ensures a.t == Value && b.t != Bottom ==> r.0.t == (if Pure(b) then Value else Any)
    // a constant merged with anything else becomes a value, or Any when the
    // other side is impure and shares its definition
    ensures a.t == Constant && b.t != Bottom && b.t != Constant ==>
      r.0.t == (if a.u.def != b.u.def || Pure(b) then Value else Any)
    // Any stays Any
    ensures a.t == Any ==> r.0.t == Any
    // a constant, value or Any receiver keeps its argument slot and joins the
    // use/def records
    ensures (a.t == Constant || a.t == Value || a.t == Any) && b.t != Bottom ==>
      r.0.u == MergeUseDef(a.u, b.u).0 && r.0.argument == a.argument
  {
    if b.t == Bottom then (a, false)
    else match a.t
      case Bottom => (b, b.t != Bottom)
      case Argument =>
        if b.t != Argument || a.argument != b.argument then (a.(t := Any), true)
        else (a, false)
      case Constant =>
        var t1 := if b.t != Constant then (if Pure(b) then Value else Any) else a.t;
        var c1 := b.t != Constant;
        var t2 := if a.u.def != b.u.def then Value else t1;
        var c2 := c1 || a.u.def != b.u.def;
        var m := MergeUseDef(a.u, b.u);
        (FValue(t2, a.argument, m.0), m.1 || c2)
      case Value =>
        var t1 := if !Pure(b) then Any else a.t;
        var m := MergeUseDef(a.u, b.u);
        (FValue(t1, a.argument, m.0), m.1 || t1 != a.t)
      case Any =>
        var m := MergeUseDef(a.u, b.u);
        (a.(u := m.0), m.1)
  }

  /** The returned flag is exactly "the value changed". */
  lemma MergeReportsChange(a: FValue, b: FValue)
    ensures Merge(a, b).1 <==> Merge(a, b).0 != a
  {
    var m := MergeUseDef(a.u, b.u);
    assert m.1 <==> m.0 != a.u;
  }

  /** Merging a value with itself is a fixed point and reports no change. */
  lemma MergeIdempotent(a: FValue)
    ensures Merge(a, a) == (a, false)
  {
    MergeUseDefStable(a.u, a.u);
  }

  /** Merging never moves a value down the lattice diagram, and a use/def slot
      never loses information. */
  lemma MergeInflationary(a: FValue, b: FValue)
    requires a.t != Bottom
    ensures KindLe(a.t, Merge(a, b).0.t)
    ensures RefLe(a.u.def, Merge(a, b).0.u.def) && RefLe(a.u.use, Merge(a, b).0.u.use)
  {
  }

  /** Same-slot arguments are a fixed point; different slots or kinds collapse
      to Any. */
  lemma ArgumentIdentity(i: int, j: int)
    ensures Merge(ArgumentValue(i), ArgumentValue(i)) == (ArgumentValue(i), false)
    ensures i != j ==> Merge(ArgumentValue(i), ArgumentValue(j)).0.t == Any
    ensures Merge(ArgumentValue(i), AnyValue()) == (ArgumentValue(i).(t := Any), true)
  {
  }

  /** Line 186 of the C++ compares the use/def record also when the operand is
      not a Constant: a constant merged with Any ends up a (pure) Value. */
  lemma ConstantMergeAnyIsValue(d: InsId)
    ensures Merge(ConstantValue(d), AnyValue()).0.t == Value
    ensures Merge(ConstantValue(d), AnyValue()).1
  {
  }
}
