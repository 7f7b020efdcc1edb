/** The interpreter's variable binding cache: a fixed-size array of slots, each
    remembering the binding cell found for one constant-pool index.

    The search of an environment frame is abstracted as `frame`, a map from
    constant-pool index (of the symbol) to the binding cell the frame holds
    for it. Binding cells live in `cells`, which gives each its value and its
    flags. R's own global lookup (`Rf_findVar`) and definition (`Rf_defineVar`)
    are not modelled; the result says when the code hands over to them. */
module BindingCaches {

  /** A 32-bit unsigned immediate of the bytecode. */
  newtype Immediate = x: int | 0 <= x < 0x1_0000_0000

  const MAX_CACHE_SIZE: Immediate := 64
  const CACHE_MASK: Immediate := MAX_CACHE_SIZE - 1

  type CellId = nat
  type EnvId = nat

  const BaseEnv: EnvId := 1
  const BaseNamespace: EnvId := 2

  /** A binding cell pointer; `Null` is the C null pointer. */
  datatype Loc = Null | Cell(id: CellId)

  /** An R value; `Unbound` is R_UnboundValue. */
  datatype Val = Unbound | Obj(id: nat)

  datatype Slot = Slot(loc: Loc, idx: Immediate)

  /** The all-zero slot that `clearCache` leaves behind. */
  const ClearedSlot: Slot := Slot(Null, 0)

  /** The content of a binding cell and the flags cachedSetVar reads. */
  datatype Binding = Binding(value: Val, locked: bool, active: bool, missing: bool)

  function Pow2(k: nat): (p: nat)
    ensures p >= 1
  {
    if k == 0 then 1 else 2 * Pow2(k - 1)
  }

  /** Bitwise AND of two naturals, bit by bit from the least significant. */
  function And(a: nat, b: nat): nat
  {
    if a == 0 || b == 0 then 0
    else 2 * And(a / 2, b / 2) + (if a % 2 == 1 && b % 2 == 1 then 1 else 0)
  }

  lemma ModUnique(x: int, d: int, q: int, r: int)
    requires d > 0 && 0 <= r < d && x == d * q + r
    ensures x / d == q && x % d == r
  {
    var q', r' := x / d, x % d;
    assert x == d * q' + r';
    if q' > q {
      assert d * q' >= d * (q + 1) by { MulMono(d, q + 1, q'); }
    } else if q' < q {
      assert d * q >= d * (q' + 1) by { MulMono(d, q' + 1, q); }
    }
  }

  lemma MulMono(d: int, a: int, b: int)
    requires d > 0 && a <= b
    ensures d * a <= d * b
  {
  }

  lemma ModOfDouble(x: nat, p: nat)
    requires p >= 1
    ensures x % (2 * p) == 2 * ((x / 2) % p) + x % 2
  {
    var q, r := x / 2, x % 2;
    var a, b := q / p, q % p;
    assert x == (2 * p) * a + (2 * b + r);
    ModUnique(x, 2 * p, a, 2 * b + r);
  }

  /** Masking with 2^k - 1 keeps the remainder modulo 2^k; this is why the
      cache size must be a power of two. */
  lemma {:induction false} AndLowMask(x: nat, k: nat)
    ensures And(x, Pow2(k) - 1) == x % Pow2(k)
  {
    if k == 0 {
      ModUnique(x, 1, x, 0);
    } else if x == 0 {
      ModUnique(0, Pow2(k), 0, 0);
    } else {
      AndLowMask(x / 2, k - 1);
      MaskStep(x, Pow2(k - 1));
    }
  }

  /** One bit of AndLowMask: from the mask p - 1 on x / 2 to the mask
      2p - 1 on x. */
  lemma MaskStep(x: nat, p: nat)
    requires x > 0 && p >= 1
    requires And(x / 2, p - 1) == (x / 2) % p
    ensures And(x, 2 * p - 1) == x % (2 * p)
  {
    AndOddMask(x, p);
    ModOfDouble(x, p);
  }

  /** Unfolding And once on the mask 2p - 1. */
  lemma AndOddMask(x: nat, p: nat)
    requires x > 0 && p >= 1
    ensures And(x, 2 * p - 1) == 2 * And(x / 2, p - 1) + x % 2
  {
    HalfOfMask(p);
  }

  /** The low bit of 2p - 1 is set and the rest is p - 1. */
  lemma HalfOfMask(p: nat)
    requires p >= 1
    ensures (2 * p - 1) % 2 == 1 && (2 * p - 1) / 2 == p - 1
  {
    ModUnique(2 * p - 1, 2, p - 1, 1);
  }

  /** `cacheIndex`: a small cache is indexed directly, a large one by
      `index & CACHE_MASK`. */
  function CacheIndex(index: Immediate, smallCache: bool): (cidx: Immediate)
    ensures smallCache ==> cidx == index
    ensures !smallCache ==> cidx < MAX_CACHE_SIZE && cidx as int == index as int % 64
  {
    if smallCache then index
    else
      AndLowMask(index as nat, 6);
      assert Pow2(6) - 1 == CACHE_MASK as int;
      And(index as nat, CACHE_MASK as nat) as Immediate
  }

  /** Two pool indices that agree in their low six bits share a slot of a
      large cache. */
  lemma SameSlotIffCongruent(a: Immediate, b: Immediate)
    ensures CacheIndex(a, false) == CacheIndex(b, false) <==> a as int % 64 == b as int % 64
  {
  }

  /** Cache slot of `cacheIdx` exists. */
  predicate FitsCache(cache: array<Slot>, cacheIdx: Immediate, smallCache: bool)
    reads {}
  {
    (CacheIndex(cacheIdx, smallCache) as int) < cache.Length
  }

  /** The cell `cachedGetBindingCell` yields for a slot: the remembered cell
      on a hit, else the frame's cell for the symbol, else null. */
  function CellFor(slot: Slot, frame: map<Immediate, CellId>, poolIdx: Immediate): (r: Loc)
    ensures slot.idx == poolIdx ==> r == slot.loc
    ensures slot.idx != poolIdx && poolIdx in frame ==> r == Cell(frame[poolIdx])
    ensures slot.idx != poolIdx && poolIdx !in frame ==> r == Null
  {
    if slot.idx == poolIdx then slot.loc
    else if poolIdx in frame then Cell(frame[poolIdx])
    else Null
  }

  /** `cachedGetBindingCell`: a hit returns the remembered cell and leaves the
      cache alone; a miss searches the frame and, when it finds the binding,
      remembers it in the slot of cacheIdx (and only there). */
  method CachedGetBindingCell(frame: map<Immediate, CellId>, poolIdx: Immediate,
                              cacheIdx: Immediate, cache: array<Slot>, smallCache: bool)
    returns (r: Loc)
    requires FitsCache(cache, cacheIdx, smallCache)
    modifies cache
    ensures var c := CacheIndex(cacheIdx, smallCache) as int;
      && r == CellFor(old(cache[c]), frame, poolIdx)
      && cache[..] == if old(cache[c]).idx != poolIdx && poolIdx in frame
                      then old(cache[..])[c := Slot(Cell(frame[poolIdx]), poolIdx)]
                      else old(cache[..])
  {
    var cidx := CacheIndex(cacheIdx, smallCache);
    if cache[cidx].idx == poolIdx {
      return cache[cidx].loc;
    }
    if poolIdx in frame {
      cache[cidx] := Slot(Cell(frame[poolIdx]), poolIdx);
      return Cell(frame[poolIdx]);
    }
    return Null;
  }

  /** `cachedSetBindingCell`: writes exactly the slot of cacheIdx. */
  method CachedSetBindingCell(poolIdx: Immediate, cacheIdx: Immediate, cache: array<Slot>,
                              smallCache: bool, cell: CellId)
    requires FitsCache(cache, cacheIdx, smallCache)
    modifies cache
    ensures cache[..] == old(cache[..])[CacheIndex(cacheIdx, smallCache) as int := Slot(Cell(cell), poolIdx)]
  {
    var cidx := CacheIndex(cacheIdx, smallCache);
    cache[cidx] := Slot(Cell(cell), poolIdx);
  }

  /** `clearCache`: the first cacheSize slots become all-zero. */
  method ClearCache(cache: array<Slot>, cacheSize: nat)
    requires cacheSize <= cache.Length
    modifies cache
    ensures forall k :: 0 <= k < cacheSize ==> cache[k] == ClearedSlot
    ensures forall k :: cacheSize <= k < cache.Length ==> cache[k] == old(cache[k])
  {
    forall k | 0 <= k < cacheSize {
      cache[k] := ClearedSlot;
    }
  }

  /** A cleared slot answers pool index 0 as a hit with a null cell, so the
      lookup for index 0 reports "no cell" without searching the frame, even
      when the frame binds it; every other index misses and is looked up in
      the frame. */
  lemma ClearedSlotHitsIndexZero(frame: map<Immediate, CellId>)
    ensures CellFor(ClearedSlot, frame, 0) == Null
    ensures forall p :: p != 0 ==> CellFor(ClearedSlot, frame, p) == (if p in frame then Cell(frame[p]) else Null)
  {
  }

  /** The outcome of cachedGetVar. `FromCell` is the value held by a cached
      cell; `CellItself` is the binding cell returned as is (line 118 of cache.h
      returns `loc.cell`, not its value); `FindVar` hands over to R's
      `Rf_findVar` for the symbol. */
  datatype GetVarResult = FromCell(v: Val) | CellItself(cell: CellId) | FindVar

  /** Every cell the cache or the frame can yield is allocated. */
  predicate CellsKnown(cells: map<CellId, Binding>, frame: map<Immediate, CellId>, slots: seq<Slot>)
  {
    (forall p :: p in frame ==> frame[p] in cells) &&
    (forall k :: 0 <= k < |slots| && slots[k].loc.Cell? ==> slots[k].loc.id in cells)
  }

  /** `cachedGetVar`. */
  method CachedGetVar(env: EnvId, frame: map<Immediate, CellId>, cells: map<CellId, Binding>,
                      poolIdx: Immediate, cacheIdx: Immediate, cache: array<Slot>, smallCache: bool)
    returns (r: GetVarResult)
    requires FitsCache(cache, cacheIdx, smallCache)
    requires CellsKnown(cells, frame, cache[..])
    modifies cache
    ensures CellsKnown(cells, frame, cache[..])
    // the base environment and namespace bypass the cache altogether
    ensures env == BaseEnv || env == BaseNamespace ==> r == FindVar && cache[..] == old(cache[..])
    ensures env != BaseEnv && env != BaseNamespace ==>
      var c := CacheIndex(cacheIdx, smallCache) as int;
      var loc := CellFor(old(cache[c]), frame, poolIdx);
      // a bound value in the cell found through the cache is returned
      if loc.Cell? && cells[loc.id].value != Unbound then
        && r == FromCell(cells[loc.id].value)
        && cache[..] == (if old(cache[c]).idx != poolIdx && poolIdx in frame
                         then old(cache[..])[c := Slot(Cell(frame[poolIdx]), poolIdx)]
                         else old(cache[..]))
      // otherwise the frame's own cell, re-remembered in the slot
      else if poolIdx in frame then
        r == CellItself(frame[poolIdx]) && cache[..] == old(cache[..])[c := Slot(Cell(frame[poolIdx]), poolIdx)]
      // otherwise R's lookup, with the cache unchanged
      else r == FindVar && cache[..] == old(cache[..])
  {
    if env != BaseEnv && env != BaseNamespace {
      var cacheCell := CachedGetBindingCell(frame, poolIdx, cacheIdx, cache, smallCache);
      if cacheCell != Null {
        var res := cells[cacheCell.id].value;
        if res != Unbound {
          return FromCell(res);
        }
      }
      if poolIdx in frame {
        CachedSetBindingCell(poolIdx, cacheIdx, cache, smallCache, frame[poolIdx]);
        return CellItself(frame[poolIdx]);
      }
    }
    return FindVar;
  }

  /** The outcome of cachedSetVar: the binding cells after the call, and
      whether the code handed over to R's `Rf_defineVar`. */
  datatype SetVarResult = SetVarResult(cells: map<CellId, Binding>, defined: bool)

  /** `cachedSetVar`: an unlocked, ordinary cell found through the cache is
      updated in place (and its missing flag cleared unless keepMissing); when
      it already holds the value nothing changes. Anything else is handed to
      R's definition routine. */
  method CachedSetVar(value: Val, frame: map<Immediate, CellId>, cells: map<CellId, Binding>,
                      poolIdx: Immediate, cacheIdx: Immediate, cache: array<Slot>, smallCache: bool,
                      keepMissing: bool)
    returns (r: SetVarResult)
    requires FitsCache(cache, cacheIdx, smallCache)
    requires CellsKnown(cells, frame, cache[..])
    modifies cache
    ensures CellsKnown(cells, frame, cache[..])
    // the lookup remembers a frame binding found on a miss, in the slot of cacheIdx only
    ensures var c := CacheIndex(cacheIdx, smallCache) as int;
      cache[..] == if old(cache[c]).idx != poolIdx && poolIdx in frame
                   then old(cache[..])[c := Slot(Cell(frame[poolIdx]), poolIdx)]
                   else old(cache[..])
    ensures var c := CacheIndex(cacheIdx, smallCache) as int;
      var loc := CellFor(old(cache[c]), frame, poolIdx);
      var fast := loc.Cell? && !cells[loc.id].locked && !cells[loc.id].active;
      && r.defined == !fast
      && (!fast ==> r.cells == cells)
      && (fast && cells[loc.id].value == value ==> r.cells == cells)
      && (fast && cells[loc.id].value != value ==>
            r.cells == cells[loc.id := cells[loc.id].(value := value,
                                                      missing := cells[loc.id].missing && keepMissing)])
  {
    var loc := CachedGetBindingCell(frame, poolIdx, cacheIdx, cache, smallCache);
    if loc != Null && !cells[loc.id].locked && !cells[loc.id].active {
      var b := cells[loc.id];
      if b.value == value {
        return SetVarResult(cells, false);
      }
      var b' := b.(value := value);
      if !keepMissing && b'.missing {
        b' := b'.(missing := false);
      }
      return SetVarResult(cells[loc.id := b'], false);
    }
    return SetVarResult(cells, true);
  }
}
