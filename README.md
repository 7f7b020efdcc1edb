# rir: analysis lattices, the assume optimisation and interpreter records

This project models the core of rir, a just-in-time compiler for R, in Dafny, and proves properties of that model. It covers seven pieces of the system:

- **FValues** and **Dataflow** model `rir/src/code/dataflow.h`.
  - `FValues` is the value-provenance lattice: Bottom, Constant, Argument(i), Value and Any, each with a use/def record whose `unused` and `multiuse` sentinels are enum variants.
  - `Dataflow` holds the per-opcode transfer functions of the bytecode dataflow analysis. They act on an abstract state: an operand stack plus a symbol-to-value environment.
  - `doCall` forgets the environment in the conservative mode and does nothing in the no-reflection mode.
- **Assumptions** models `rir/src/compiler/opt/assumptions.cpp`:
  - the available-assumptions transfer function;
  - the checkpoint/assume optimisation pass over a control-flow graph. The graph is an arena of blocks (instruction ids plus `next0`/`next1` successor ids) and an arena of instructions.
- **Signatures** models `rir/src/optimizer/Signature.h`. It covers the three-valued argument-evaluation records, their merge table, the leaf flag and the signature analysis hooks.
- **BindingCaches** models `rir/src/interpreter/cache.h`. It covers the variable binding cache: slot index masking, hit, miss and update, and the cache paths of `cachedGetVar` and `cachedSetVar`.
- **LazyEnvironments** models `rir/src/interpreter/LazyEnvironment.h`. It covers the lazy environment record (header entries, argument entries, `notMissing` flags) and `New`, which fills the record from the operand stack.
- **CallContexts** models `rir/src/interpreter/call_context.h` together with the sentinels of `rir/src/interpreter/interp_incl.h`. It covers argument indexing in a call context.
- **Reflect** models `rir/src/interpreter/reflect.cpp`. It covers the reflection guard: the environment-chain walk `canEnvAccess` and the decisions `willPerformReflection` and `willAccessEnv`.

How the source's form is kept:

- Value types the C++ copies around (`FValue`, `UseDef`, `ArgumentEvaluation`, `AAssumption`) are datatypes. Their mutating members (`mergeWith`, `used`) become functions that return the new value and the returned flag.
- Objects updated in place through pointers are classes whose methods carry `modifies` clauses: the abstract state, the signature, the lazy environment, the closure version being optimised, and the pass itself.
- The binding cache is an `array` of slots.
- Loops of the source are `while` loops with invariants, proved against one of three things:
  - a specification function: `InitialState` (`InitialEnv`), `FromCode` (`DefaultRecords`), `MergeWith` (`MergeEvaluation`), `New` (`Args`), `CanEnvAccess` (`Chain`), `Resolve` (`Resolved`) and `WalkBlock` (`Expand`, `Guards`);
  - an `ensures` that states the result element by element: `CallStack`, `StaticCallStack`, `AnyOp`, `Put` and `Pick`;
  - the invariants and the frame only, as "## Left out" records: the step 2/3 cursor loop (`CoalesceBlock`) and the three visitor loops of `Apply`.

## Model

| member | source | states |
|---|---|---|
| FValues.BottomValue | rir/src/code/dataflow.h:26-30 | the default value is Bottom with argument index -1 |
| FValues.AnyValue | rir/src/code/dataflow.h:48 | `Any()` has kind Any |
| FValues.ArgumentValue | rir/src/code/dataflow.h:33-38 | `Argument(i)` has kind Argument and carries i |
| FValues.ConstantValue | rir/src/code/dataflow.h:40-46 | `Constant(def)` is defined by def and not yet used |
| FValues.ValueOf | rir/src/code/dataflow.h:50-56 | `Value(ins)` is defined by ins and not yet used |
| FValues.IsValue | rir/src/code/dataflow.h:126 | `isValue()` holds for a Constant or a Value, and such a value is pure and not Bottom |
| FValues.PureIff | rir/src/code/dataflow.h:140-143 | `pure()` is true exactly for Bottom, Constant and Value, and false exactly for Argument and Any |
| FValues.SingleDef | rir/src/code/dataflow.h:58-64 | `singleDef` holds only for a Constant or Value with a real defining instruction, and for every such value whose def is not multiuse |
| FValues.Def | rir/src/code/dataflow.h:66-69 | `def()` returns the defining instruction of a single-def value |
| FValues.IsUsed | rir/src/code/dataflow.h:78-81 | a value is used iff its use slot holds an instruction or multiuse |
| FValues.EqualIsEquivalence | rir/src/code/dataflow.h:145-159 | the equality operator is reflexive, symmetric and transitive |
| FValues.EqualBottomIff | rir/src/code/dataflow.h:145-159 | a value equals the bottom value exactly when its kind is Bottom |
| FValues.Used | rir/src/code/dataflow.h:71-76 | marking used by ins: unused becomes ins, the same ins leaves the value unchanged, a different user makes it multiuse; kind, argument and def never change |
| FValues.UsedInflationary | rir/src/code/dataflow.h:71-76 | the use slot only moves up the unused < ins < multiuse order, and marking twice with the same ins is marking once |
| FValues.MergeUseDef | rir/src/code/dataflow.h:101-114 | multiuse is absorbing; a field whose counterpart is unused is kept; a field changes iff it was not multiuse and the other side differs with a real entry, and it then becomes multiuse; the flag is true iff the record changed |
| FValues.MergeUseDefStable | rir/src/code/dataflow.h:101-114 | merging the same operand a second time, or a record with itself, reports no change |
| FValues.Merge | rir/src/code/dataflow.h:163-201 | the merge rules per kind: a Bottom operand changes nothing (false); a Bottom receiver takes the operand over (true); an argument survives only the same argument; same-def constants stay Constant and different defs give Value; a constant meeting a non-constant becomes Value, or Any when the operand is impure with the same def; a Value meeting an impure operand becomes Any; Any stays Any; a Constant, Value or Any receiver keeps its argument and joins the use/def records |
| FValues.MergeIdempotent | rir/src/code/dataflow.h:163-201 | merging a value with itself leaves it unchanged and reports no change |
| FValues.MergeReportsChange | rir/src/code/dataflow.h:163-201 | the returned flag is true exactly when the merged value differs from the receiver |
| FValues.MergeInflationary | rir/src/code/dataflow.h:163-201 | from a non-Bottom receiver, merging never moves down the lattice diagram, and the def and use slots never lose information |
| FValues.ArgumentIdentity | rir/src/code/dataflow.h:174-180 | `Argument(i) ⊔ Argument(i)` is unchanged and false; a different slot, or Any, collapses it to Any and reports a change |
| FValues.ConstantMergeAnyIsValue | rir/src/code/dataflow.h:181-190 | a Constant merged with Any ends up Value, not Any, because line 186 compares defs for any operand kind |
| Dataflow.Lookup | rir/src/code/dataflow.h:315 | reading the environment yields the binding, or Bottom for an unbound symbol |
| Dataflow.Touch | rir/src/code/dataflow.h:282 | after `current()[sym]` the environment also holds sym, bound to Bottom when it was unbound; every existing entry is kept |
| Dataflow.TouchThenCall | rir/src/code/dataflow.h:315-317 | an entry created by a read becomes Any after a conservative call, so a later load of it is impure |
| Dataflow.AfterCall | rir/src/code/dataflow.h:456-459 | after a call the environment keeps its symbols; every entry is Any in the conservative mode, and nothing changes in the no-reflection mode |
| Dataflow.Loaded | rir/src/code/dataflow.h:318-321 | a load pushes the binding itself exactly when it is pure and not Bottom, otherwise `Value(ins)`; what it pushes is always pure |
| Dataflow.LoadEffect | rir/src/code/dataflow.h:313-322 | a variable load leaves the environment exactly as it was iff the symbol was already bound and its binding is pure, or calls do not reflect, or every entry is already Any; an unbound symbol always gains an entry |
| Dataflow.InitialEnv | rir/src/code/dataflow.h:246-253 | the initial environment binds exactly the formals |
| Dataflow.InitialEnvBindsArguments | rir/src/code/dataflow.h:246-253 | with distinct formal names, formal i is bound to `Argument(i)` |
| Dataflow.AbstractState.Empty | rir/src/code/dataflow.h:247 | a new state has an empty stack and environment |
| Dataflow.AbstractState.Push | rir/src/code/dataflow.h:260-261 | the value goes on top; the environment is unchanged |
| Dataflow.AbstractState.Pop | rir/src/code/dataflow.h:256-257 | the top is returned and removed; the environment is unchanged |
| Dataflow.AbstractState.Depth | rir/src/code/dataflow.h:519 | `stack().depth()` is the number of values on the stack; `return_` pops that many |
| Dataflow.AbstractState.PopN | rir/src/code/dataflow.h:431 | the top n values are removed; the environment is unchanged |
| Dataflow.DataflowAnalysis.constructor | rir/src/code/dataflow.h:234-241 | the analysis runs in the given mode |
| Dataflow.DataflowAnalysis.InitialState | rir/src/code/dataflow.h:246-253 | the loop over the formals builds an empty stack and exactly the initial environment |
| Dataflow.DataflowAnalysis.DoCall | rir/src/code/dataflow.h:456-459 | the stack is unchanged and the environment becomes its after-call form |
| Dataflow.DataflowAnalysis.LdVar | rir/src/code/dataflow.h:313-344 | `ldvar_`, `ldddvar_` and `ldarg_` push the loaded value; the environment gains a Bottom entry for an unbound symbol, and then takes the call effect when the binding is impure |
| Dataflow.DataflowAnalysis.LdFun | rir/src/code/dataflow.h:280-311 | a Value, or a Constant that is a known function, is pushed with no effect; anything else runs a call and pushes `Value(ins)`; the read first gives an unbound symbol a Bottom entry |
| Dataflow.DataflowAnalysis.Force | rir/src/code/dataflow.h:346-354 | a pure top stays with no effect; an impure top is replaced by `Value(ins)` after a call |
| Dataflow.DataflowAnalysis.StVar | rir/src/code/dataflow.h:356-360 | the popped top becomes the binding of the symbol |
| Dataflow.DataflowAnalysis.Call | rir/src/code/dataflow.h:362-368 | the callee is replaced by Any and the call effect applies |
| Dataflow.DataflowAnalysis.CallStack | rir/src/code/dataflow.h:370-395 | pops nargs arguments and the callee; a constant safe builtin pushes `Value(ins)`, anything else Any; the environment is kept only when all arguments were values and the target was safe |
| Dataflow.DataflowAnalysis.StaticCallStack | rir/src/code/dataflow.h:397-420 | as for `call_stack_`, with the callee taken from the call site |
| Dataflow.DataflowAnalysis.Dispatch | rir/src/code/dataflow.h:422-434 | `dispatch_` and `dispatch_stack_` pop their operands, push Any and apply the call effect |
| Dataflow.DataflowAnalysis.GuardFun | rir/src/code/dataflow.h:436-443 | after the call effect, the guarded symbol is bound to `Constant(ins)` |
| Dataflow.DataflowAnalysis.Swap | rir/src/code/dataflow.h:255-262 | the two top values are marked used and exchanged |
| Dataflow.DataflowAnalysis.Pull | rir/src/code/dataflow.h:264-269 | slot n is marked used in place and a copy goes on top |
| Dataflow.DataflowAnalysis.Put | rir/src/code/dataflow.h:271-278 | as written: the top is marked used, slot i takes slot i+i for i < n-1, and slot n takes the top; every other slot is unchanged |
| Dataflow.DataflowAnalysis.Pick | rir/src/code/dataflow.h:445-452 | as written: slot n is marked used, slots 1..n-1 all end up holding the old top, and the top takes slot n |
| Dataflow.DataflowAnalysis.MarkTopUsed | rir/src/code/dataflow.h:461-465 | `uniq_` and `brobj_` mark the top used in place |
| Dataflow.DataflowAnalysis.AnyOp | rir/src/code/dataflow.h:467-500 | pops popCount and pushes pushCount values: `Value(ins)` for the opcodes known not to push promises, Any otherwise; an impure opcode applies the call effect |
| Dataflow.DataflowAnalysis.Dup | rir/src/code/dataflow.h:502-506 | the top is marked used and duplicated |
| Dataflow.DataflowAnalysis.Dup2 | rir/src/code/dataflow.h:508-515 | the two top values are marked used and pushed again in the order slot 0, then slot 1 |
| Dataflow.DataflowAnalysis.Return | rir/src/code/dataflow.h:517-520 | the whole stack is dropped |
| Dataflow.DataflowAnalysis.Alloc | rir/src/code/dataflow.h:522-524 | pushes `Value(ins)` |
| Dataflow.DataflowAnalysis.PushConst | rir/src/code/dataflow.h:526-528 | pushes `Constant(ins)` |
| Signatures.Merge3 | rir/src/optimizer/Signature.h:45-55 | the merge table: equal answers stay, unequal ones and any maybe give maybe |
| Signatures.Merge3IsJoin | rir/src/optimizer/Signature.h:45-55 | the table is commutative, associative and idempotent |
| Signatures.DefaultEvaluation | rir/src/optimizer/Signature.h:69-72 | a fresh record is not forced and holds the argument |
| Signatures.MergeEvaluation | rir/src/optimizer/Signature.h:56-67 | each field follows the merge table, and the result is true iff the record changed |
| Signatures.Forced | rir/src/optimizer/Signature.h:150-161 | forcing keeps `contains`; it does nothing when contains is no; contains yes makes forced yes; contains maybe with forced no makes forced maybe |
| Signatures.ForcedIdempotent | rir/src/optimizer/Signature.h:150-161 | forcing twice is forcing once, and a forced answer never falls back to no |
| Signatures.DefaultRecords | rir/src/optimizer/Signature.h:111-115 | exactly the formals have records, all default |
| Signatures.Signature.constructor | rir/src/optimizer/Signature.h:107-109 | a leaf with no records |
| Signatures.Signature.FromCode | rir/src/optimizer/Signature.h:111-115 | a leaf with exactly one default record per formal |
| Signatures.Signature.IsArgumentEvaluated | rir/src/optimizer/Signature.h:83-87 | only for argument names; returns the forced answer |
| Signatures.Signature.MergeWith | rir/src/optimizer/Signature.h:93-105 | the leaf flag becomes the conjunction; every record is merged with the other signature's record of the same name; the result is true iff anything changed |
| Signatures.Signature.IsLeaf | rir/src/optimizer/Signature.h:79-81 | `isLeaf()` reads the leaf flag, in terms of which the constructors, `mergeWith` and `setAsNotLeaf` state their effect |
| Signatures.Signature.SetAsNotLeaf | rir/src/optimizer/Signature.h:146-148 | clears the leaf flag and keeps the records |
| Signatures.Signature.ForceArgument | rir/src/optimizer/Signature.h:150-161 | only the named argument's record changes, to its forced form; other names are ignored |
| Signatures.Signature.StoreArgument | rir/src/optimizer/Signature.h:163-168 | the named argument's contains becomes no; other names are ignored |
| Signatures.Signature.Transfer | rir/src/optimizer/Signature.h:195-225 | `call_` makes the function a non-leaf; `ldvar_` and `ldfun_` force; `stvar_` stores; every other hook changes nothing |
| Signatures.StoreThenForce | rir/src/optimizer/Signature.h:150-168 | after a store, forcing that argument changes nothing |
| BindingCaches.AndLowMask | rir/src/interpreter/cache.h:8-10 | masking with 2^k-1 is the remainder modulo 2^k, which is why the cache size must be a power of two |
| BindingCaches.CacheIndex | rir/src/interpreter/cache.h:16-23 | a small cache uses the index as is; a large one uses the index modulo 64, always below `MAX_CACHE_SIZE` |
| BindingCaches.SameSlotIffCongruent | rir/src/interpreter/cache.h:16-23 | two pool indices share a slot of a large cache exactly when they agree modulo 64 |
| BindingCaches.CellFor | rir/src/interpreter/cache.h:42-54 | the cell for a slot: the remembered one on a hit, else the frame's cell, else null |
| BindingCaches.CachedGetBindingCell | rir/src/interpreter/cache.h:34-55 | a hit returns the remembered cell and leaves the cache alone; a miss with a frame binding stores (cell, poolIdx) in exactly that slot and returns the cell; otherwise null and no change |
| BindingCaches.CachedSetBindingCell | rir/src/interpreter/cache.h:57-63 | writes exactly the slot of cacheIdx; every other slot is unchanged |
| BindingCaches.ClearCache | rir/src/interpreter/cache.h:92-95 | the first cacheSize slots become all-zero; the rest are untouched |
| BindingCaches.ClearedSlotHitsIndexZero | rir/src/interpreter/cache.h:42-54 | after `clearCache` (line 94) a slot answers pool index 0 as a hit with a null cell, without searching the frame even when the frame binds 0; every other index misses and takes the frame's cell or null |
| BindingCaches.CachedGetVar | rir/src/interpreter/cache.h:99-124 | the base environment and namespace bypass the cache; a bound value in the cell found through the cache is returned; otherwise the frame's cell is re-remembered and returned; otherwise R's lookup, cache unchanged |
| BindingCaches.CachedSetVar | rir/src/interpreter/cache.h:65-90 | an unlocked, non-active cell found through the cache is updated in place (no change if it already holds the value; the missing flag cleared unless kept); anything else is handed to R's definition routine with the cells unchanged; the cache changes only by the lookup remembering a frame binding found on a miss, in the slot of cacheIdx |
| LazyEnvironments.OperandStack.Pop | rir/src/interpreter/LazyEnvironment.h:65 | returns and removes the top of the operand stack |
| LazyEnvironments.LazyEnvironment.constructor | rir/src/interpreter/LazyEnvironment.h:28-33 | nargs + 2 null entries and nargs flags, all false |
| LazyEnvironments.LazyEnvironment.Materialized | rir/src/interpreter/LazyEnvironment.h:35 | `materialized()` is entry 0 |
| LazyEnvironments.LazyEnvironment.GetArg | rir/src/interpreter/LazyEnvironment.h:41 | `getArg(i)` is entry i + 2 |
| LazyEnvironments.LazyEnvironment.GetParent | rir/src/interpreter/LazyEnvironment.h:48 | `getParent()` is entry 1 |
| LazyEnvironments.LazyEnvironment.Args | rir/src/interpreter/LazyEnvironment.h:41 | the arguments in slot order: element i is `getArg(i)` |
| LazyEnvironments.LazyEnvironment.SetMaterialized | rir/src/interpreter/LazyEnvironment.h:35-36 | only entry 0 changes |
| LazyEnvironments.LazyEnvironment.SetArg | rir/src/interpreter/LazyEnvironment.h:42-46 | argument i becomes v and its not-missing flag is set only when asked; every other entry and flag is unchanged |
| LazyEnvironments.LazyEnvironment.BasicNew | rir/src/interpreter/LazyEnvironment.h:50-60 | a fresh record whose parent entry holds the parent, all else null and not-missing false |
| LazyEnvironments.LazyEnvironment.New | rir/src/interpreter/LazyEnvironment.h:62-70 | pops exactly nargs values: the former top becomes the last argument and the deepest the first, so the popped segment equals the arguments in slot order; all flags stay false |
| CallContexts.Make | rir/src/interpreter/call_context.h:22-34 | supplied and passed counts both start at nargs; the callee must be a closure, special or builtin |
| CallContexts.IsSentinel | rir/src/interpreter/interp_incl.h:8-12 | the two sentinels are exactly the immediates above `MAX_ARG_IDX` |
| CallContexts.HasStackArgs | rir/src/interpreter/call_context.h:79 | `hasStackArgs()` is whether a stack argument pointer is present |
| CallContexts.HasNames | rir/src/interpreter/call_context.h:81 | `hasNames()` is whether a names pointer is present |
| CallContexts.HasEagerCallee | rir/src/interpreter/call_context.h:80 | eager exactly when the callee is a builtin |
| CallContexts.ImplicitArgIdx | rir/src/interpreter/call_context.h:83-89 | the stored promise index for a passed argument, `MISSING_ARG_IDX` beyond |
| CallContexts.MissingArg | rir/src/interpreter/call_context.h:91-93 | missing iff the index is `MISSING_ARG_IDX` |
| CallContexts.ImplicitArgEager | rir/src/interpreter/call_context.h:100-109 | unbound exactly for the missing and dots sentinels, otherwise the caller's eager promise at the index |
| CallContexts.StackArg | rir/src/interpreter/call_context.h:111-114 | requires stack arguments and a passed index; returns that stack cell |
| CallContexts.ArgSexp | rir/src/interpreter/call_context.h:116-121 | the stack argument when there are stack arguments, the eager implicit argument otherwise |
| CallContexts.Name | rir/src/interpreter/call_context.h:123-126 | requires names and a supplied index; returns that name's pool index |
| CallContexts.MissingIffNotPassed | rir/src/interpreter/call_context.h:83-109 | with valid promise indices, an argument is missing exactly when it was not passed, and every passed argument has its eager promise |
| CallContexts.UnboundIffSentinel | rir/src/interpreter/call_context.h:100-121 | without stack arguments an argument reads unbound exactly for a sentinel index; a passed dots argument is unbound but not missing |
| Reflect.Redirect | rir/src/interpreter/reflect.cpp:35-37 | the delayed marker stands for the global environment; anything else is itself |
| Reflect.Step | rir/src/interpreter/reflect.cpp:40-49 | a lazy environment steps to its materialized environment if set, otherwise its parent; others to their enclosure |
| Reflect.Chain | rir/src/interpreter/reflect.cpp:34-50 | the environments the walk compares, in order, all on the heap; empty exactly from the empty environment |
| Reflect.AccessibleIffOnChain | rir/src/interpreter/reflect.cpp:34-51 | the walk meets the target before the empty environment exactly when the target is on the chain |
| Reflect.ChainAvoidsMarkers | rir/src/interpreter/reflect.cpp:34-51 | the delayed marker is never compared as such, and the empty environment is never reached as a target |
| Reflect.ChainSteps | rir/src/interpreter/reflect.cpp:35-49 | the chain of the delayed marker starts at the global environment; lazy and ordinary environments continue as the step rules say |
| Reflect.CanEnvAccess | rir/src/interpreter/reflect.cpp:30-52 | true iff x is the base environment or namespace, the target is the replace-funs table, or the target lies on x's chain |
| Reflect.WillPerformReflection | rir/src/interpreter/reflect.cpp:113-126 | no taint without a guard or for a read; a non-read access under Introspect taints |
| Reflect.CurrentEnv | rir/src/interpreter/reflect.cpp:19-24 | the top of the external environment stack, or the base environment when it is empty |
| Reflect.WillAccessEnv | rir/src/interpreter/reflect.cpp:128-133 | taints iff there is a guard, the current environment may not access the target, and the access type calls for it |
| Assumptions.AAssumptionOf | rir/src/compiler/opt/assumptions.cpp:16-20 | the assumption of an assume is its polarity and condition |
| Assumptions.AAssumptionEquality | rir/src/compiler/opt/assumptions.cpp:21-23 | two assumes make the same assumption iff polarity and condition agree; retargeting the checkpoint keeps it |
| Assumptions.Transfer | rir/src/compiler/opt/assumptions.cpp:35-45 | an assume adds exactly its assumption; any other instruction leaves the set alone |
| Assumptions.TransferMonotone | rir/src/compiler/opt/assumptions.cpp:35-45 | the transfer is monotone and idempotent |
| Assumptions.AvailableAssumptions.constructor | rir/src/compiler/opt/assumptions.cpp:31-34 | the state starts empty |
| Assumptions.AvailableAssumptions.Apply | rir/src/compiler/opt/assumptions.cpp:35-45 | the new state is the transfer of the old; an update is reported iff an assume not yet available was added, iff the state changed |
| Assumptions.Remove | rir/src/compiler/opt/assumptions.cpp:105 | the block's instructions without the one at the cursor, the others in order |
| Assumptions.Resolved | rir/src/compiler/opt/assumptions.cpp:89-91 | following the replacement chain ends at a checkpoint that was not replaced |
| Assumptions.ResolvedAfterStore | rir/src/compiler/opt/assumptions.cpp:89-92 | storing a resolved end for a new checkpoint keeps chains finite and redirects exactly the chains that ended at it |
| Assumptions.ResolvedIdempotent | rir/src/compiler/opt/assumptions.cpp:89-91 | resolving a resolved checkpoint gives it back |
| Assumptions.Retarget | rir/src/compiler/opt/assumptions.cpp:95 | `replaceUsesWith` moves an assume on the dropped checkpoint to the new one and leaves everything else |
| Assumptions.RetargetAll | rir/src/compiler/opt/assumptions.cpp:95 | every instruction is retargeted, none added or lost |
| Assumptions.RetargetLeavesNoUse | rir/src/compiler/opt/assumptions.cpp:95 | afterwards no assume falls back to the dropped checkpoint |
| Assumptions.DeoptBlock | rir/src/compiler/opt/assumptions.cpp:97-98 | the deleted deopt successor, when there is one |
| Assumptions.Count | rir/src/compiler/opt/assumptions.cpp:139-150 | the number of staged guards is at most the block length |
| Assumptions.Expand | rir/src/compiler/opt/assumptions.cpp:139-150 | the block after insertion grows by one per staged guard, and holds only old instructions and new ids |
| Assumptions.ExpandKeepsOriginal | rir/src/compiler/opt/assumptions.cpp:139-150 | dropping the inserted assumes gives back the original block |
| Assumptions.Guards | rir/src/compiler/opt/assumptions.cpp:142-146 | the staged guards of a block in order, as many as `Count`, each one an instruction of the block |
| Assumptions.ExpandPairs | rir/src/compiler/opt/assumptions.cpp:142-148 | in the expansion, the new id right after a staged guard is the one handed out for it: its offset from the first new id is the guard's position among the staged guards |
| Assumptions.ExpandShape | rir/src/compiler/opt/assumptions.cpp:142-148 | each inserted assume directly follows a staged guard, each staged guard is directly followed by one, and no inserted assume is revisited as a guard |
| Assumptions.ClosureVersion.constructor | rir/src/compiler/opt/assumptions.cpp:53-54 | the closure version holds the given blocks, instructions and id counters |
| Assumptions.ClosureVersion.RemoveInstr | rir/src/compiler/opt/assumptions.cpp:105 | `bb->remove(ip)`: only that block's list changes, by removing position ip |
| Assumptions.ClosureVersion.DropCheckpoint | rir/src/compiler/opt/assumptions.cpp:95-99 | every assume on the dropped checkpoint falls back to the new one, the checkpoint leaves its block, the deopt successor is deleted and `next1` cleared; the graph invariant, including that a block lists only instructions naming it as their block, is kept |
| Assumptions.ClosureVersion.NewAssume | rir/src/compiler/opt/assumptions.cpp:146 | a new assume gets the next instruction id; nothing else changes |
| Assumptions.OptimizeAssumptions.AvailableAt | rir/src/compiler/opt/assumptions.cpp:46-50 | the assumptions available before an instruction, none if the analysis has none |
| Assumptions.OptimizeAssumptions.constructor | rir/src/compiler/opt/assumptions.cpp:73-78 | the pass starts with no replacements and nothing staged |
| Assumptions.OptimizeAssumptions.SplicePreheader | rir/src/compiler/opt/assumptions.cpp:57-70 | a branch block ending in a checkpoint whose fast successor is a merge block gets a fresh empty block numbered `nextBBId` between them; otherwise nothing changes |
| Assumptions.OptimizeAssumptions.Resolve | rir/src/compiler/opt/assumptions.cpp:89-91 | the loop returns the end of the replacement chain |
| Assumptions.OptimizeAssumptions.VisitCheckpoint | rir/src/compiler/opt/assumptions.cpp:88-100 | records the resolved checkpoint as the replacement, retargets every use, removes the checkpoint from its block, deletes the deopt successor and clears `next1` |
| Assumptions.OptimizeAssumptions.VisitAssume | rir/src/compiler/opt/assumptions.cpp:103-134 | an already available assumption is deleted with no other change; otherwise the assume is bound to the resolved available checkpoint, and staged under its guard and removed when the guard lies in another block and resolves elsewhere |
| Assumptions.OptimizeAssumptions.BindAssume | rir/src/compiler/opt/assumptions.cpp:115-120 | only that assume changes, to fall back to the resolved available checkpoint |
| Assumptions.OptimizeAssumptions.StageAssume | rir/src/compiler/opt/assumptions.cpp:121-132 | a staged assume is recorded under its guard with the resolved checkpoint and leaves its block; otherwise nothing changes |
| Assumptions.OptimizeAssumptions.CoalesceBlock | rir/src/compiler/opt/assumptions.cpp:79-137 | the cursor walk keeps the invariants (among them: a block lists only instructions whose `bb` is that block) and allocates nothing; no block is created and staged guards are only added |
| Assumptions.OptimizeAssumptions.InsertHoisted | rir/src/compiler/opt/assumptions.cpp:139-150 | the block becomes its expansion; the new assume numbered start + i sits in this block, takes the hoist polarity and guards the i-th staged guard of the block with that guard's staged checkpoint; so each staged guard is directly followed by the assume on itself; no old instruction changes |
| Assumptions.OptimizeAssumptions.WalkBlock | rir/src/compiler/opt/assumptions.cpp:140-149 | the walk builds exactly the expansion and allocates one id per staged guard, in guard order; each staged guard in the new list is directly followed by an assume on that guard with the hoist polarity and its staged checkpoint |
| Assumptions.OptimizeAssumptions.WalkOne | rir/src/compiler/opt/assumptions.cpp:142-148 | a staged guard x is followed by one new assume, with the next id, whose instruction is exactly `Assume(b, hoistPolarity, x, staged checkpoint of x)`; any other instruction stays alone and allocates nothing; no existing instruction changes |
| Assumptions.OptimizeAssumptions.ExpandedInBlock | rir/src/compiler/opt/assumptions.cpp:139-150 | after the walk every instruction of the expanded list exists and names block b as its block |
| Assumptions.OptimizeAssumptions.Paired | rir/src/compiler/opt/assumptions.cpp:142-148 | new assumes numbered in the order of the staged guards sit right after their own guards in the expansion |
| Assumptions.WalkStep | rir/src/compiler/opt/assumptions.cpp:141-148 | stepping the cursor over one instruction changes neither the list the walk ends with, nor the id it ends at, nor the sequence of guards it has met at the end |
| Assumptions.OptimizeAssumptions.Apply | rir/src/compiler/opt/assumptions.cpp:53-151 | the three walks keep the invariants; no instruction is lost and the id counters only grow |

## Left out

- R object inspection is out of scope. `ldfun_` and `call_stack_` take the answer to "is this constant a closure, builtin or special" and "is this a safe builtin" as the parameters `knownFunction`, `safeBuiltin` and `safeTarget`. `FValue::constant()` and `print` are not modelled.
- The generic dataflow and fixed-point engines (`code/analysis.h`) are not part of this model. `AbstractState` is modelled from its uses in `dataflow.h`. `mergeAllEnv(Any)` is taken to set every environment entry to Any, and indexing the environment with a symbol is taken to create a default (Bottom) entry when there is none, as a standard map's indexing operator does.
- Dataflow.DataflowAnalysis.Put and Dataflow.DataflowAnalysis.Pick: modelled as written. They keep the `i + i` index of `put_` and the upward copy of `pick_`, which overwrites each slot with the old top. `Put` requires the indices it reads to exist.
- FValues.Merge: the C++ union shares bytes between the argument index and the use/def record. The model keeps them as two fields, and the uninitialised record of Bottom, Any and Argument is modelled as unused/unused.
- The two availability analyses (`AvailableCheckpoints`, `AvailableAssumptions::at`), the merge-block test of the CFG, dominance and the visitor's block order are computed by engines outside this model. The pass receives them as maps, sets and sequences. A ghost rank witnesses that an available checkpoint strictly dominates the instruction.
- Assumptions.OptimizeAssumptions.VisitCheckpoint: the assertion that the dropped checkpoint is the last instruction of its block is not a precondition. The model removes the instruction at the cursor, as a build without assertions does.
- Assumptions.OptimizeAssumptions.InsertHoisted: the hoisted assume's polarity comes from an `Assume` constructor that is not shown. The model takes it as the parameter `hoistPolarity`. The walk builds the new instruction list instead of inserting into it in place.
- Deleted instructions and blocks are not freed. Instructions stay in the arena; deleted blocks leave the block map.
- Assumptions.OptimizeAssumptions.CoalesceBlock and Assumptions.OptimizeAssumptions.Apply: they state the preserved invariants and the frame, not the whole new graph. The per-instruction effects are stated by `VisitCheckpoint` and `VisitAssume`.
- The search of an environment frame (`R_findVarLocInFrame`) is a map from pool index to binding cell. `Rf_findVar`, `Rf_defineVar`, `cp_pool_at` and the `NAMED` reference counts (`INCREMENT_NAMED`) are not modelled. The result says when the code hands over to R.
- BindingCaches.CachedGetVar: line 118 of `cache.h` returns the binding cell itself, not its value. The model keeps this as the `CellItself` result.
- `taintCallStack` (the stack unwinding and dispatch-table edits in `reflect.cpp`) is not modelled. `willPerformReflection` returns whether it would run. `EnvAccessType` is reduced to a read and any other access, because `reflect.h` is not part of this model.
- Reflect.CanEnvAccess: environment chains are assumed acyclic (a rank witnesses it), as R's environments are.
- In `call_context.h`, the caller's promise table is out of scope: `getEagerPromise(idx)` is represented by the index, and `implicitArg`, `shouldSafeForce` and `incSafeForceCounter` are not modelled. `callerEnv`, `ast`, `givenAssumptions` and the safe-force counter are not modelled either.
- `interp_context.cpp`, `runtime.cpp` and the other interpreter files are not part of this model.
