/**
 * `IntMap`: a hash map from canonical integer keys to values. It keeps an
 * array of `2^size` chains (none before the first allocation) and stores each
 * pair in the chain its key's `calc_index` names. The ghost field `Contents`
 * is the map the array stands for; every operation is specified against it.
 */
module IntMaps {
  import opened Int
  import opened IntKey
  import opened Buckets

  /** The load factor a new map starts with, in parts per thousand (90.9%). */
  const DefaultLoadFactor: nat := 909

  /** `lim()`: the number of chains after `size` doublings; 0 before the first. */
  function Lim(size: nat): nat {
    if size == 0 then 0 else Pow2(size)
  }

  lemma LimNext(size: nat)
    ensures Lim(size + 1) == (if size == 0 then 2 else 2 * Lim(size))
    ensures Lim(size + 1) > Lim(size)
  {
  }

  /**
   * The `size` `reserve` ends with: it doubles from `size` until at least
   * `need` chains exist, and stops at the first size that has them.
   */
  function ReserveSize(size: nat, need: nat): (r: nat)
    ensures r >= size && Lim(r) >= need
    ensures forall s :: size <= s < r ==> Lim(s) < need
    decreases need - Lim(size)
  {
    if Lim(size) >= need then size
    else
      LimNext(size);
      ReserveSize(size + 1, need)
  }

  /** `with_capacity(0)` allocates nothing; `with_capacity(20)` allocates 32 chains. */
  lemma ReserveExamples()
    ensures ReserveSize(0, 0) == 0
    ensures ReserveSize(0, 8) == 3 && Lim(3) == 8
    ensures Lim(ReserveSize(0, 20)) == 32
  {
    assert Lim(3) == 8 && Lim(4) == 16 && Lim(5) == 32;
    assert ReserveSize(0, 8) == ReserveSize(2, 8) == 3;
    assert ReserveSize(0, 20) == ReserveSize(2, 20) == ReserveSize(4, 20) == 5;
  }

  /** The load `count * 1000 / capacity`, in parts per thousand, rounded down. */
  function PerMille(count: nat, capacity: nat): nat
    requires capacity > 0
  {
    count * 1000 / capacity
  }

  /** An array over the load factor has no more chains than `count * 1000`. */
  lemma Overloaded(count: nat, capacity: nat, loadFactor: nat)
    requires capacity > 0 && PerMille(count, capacity) > loadFactor
    ensures capacity <= count * 1000
  {
    var scaled := count * 1000;
    if capacity > scaled {
      DivModUnique(scaled, capacity, 0, scaled);
      assert false;
    }
  }

  /**
   * The `size` `ensure_load_rate` ends with: it allocates if nothing is
   * allocated, then doubles while `count * 1000 / capacity` exceeds the load
   * factor, stopping at the first size where it does not.
   */
  function LoadSize(size: nat, count: nat, loadFactor: nat): (r: nat)
    ensures r >= size && Lim(r) > 0 && PerMille(count, Lim(r)) <= loadFactor
    ensures forall s :: size <= s < r ==> Lim(s) == 0 || PerMille(count, Lim(s)) > loadFactor
    decreases count * 1000 + 2 - Lim(size)
  {
    LimNext(size);
    if Lim(size) == 0 then LoadSize(size + 1, count, loadFactor)
    else if PerMille(count, Lim(size)) > loadFactor then
      Overloaded(count, Lim(size), loadFactor);
      LoadSize(size + 1, count, loadFactor)
    else size
  }

  /**
   * With a load factor below 1000, an array that passed `ensure_load_rate`
   * has more chains than pairs, so one more insert leaves at most one pair
   * per chain on average.
   */
  lemma FewerPairsThanChains(count: nat, capacity: nat, loadFactor: nat)
    requires capacity > 0 && PerMille(count, capacity) <= loadFactor < 1000
    ensures count < capacity
  {
    DivLowerBound(count * 1000, capacity, 1000);
    MulGap(1000, count, capacity);
  }

  class IntMap<V> {
    /** The unsigned type keys are canonicalised to (the type parameter `I`). */
    const width: Width
    var cache: seq<Chain<V>>
    var size: nat
    var modMask: nat
    var count: nat
    var loadFactor: nat
    ghost var Contents: map<nat, V>

    /**
     * The array has `lim()` chains and the mask selects among them, `count`
     * is the number of stored pairs, and the chains store exactly `Contents`,
     * each key once, in the chain its index names.
     */
    ghost predicate Valid()
      reads this
    {
      && |cache| == Lim(size)
      && modMask == (if size == 0 then 0 else Lim(size) - 1)
      && count == |Flatten(cache)|
      && Represents(cache, width, modMask, Contents)
    }

    /** `new_with()` and `default()`: nothing allocated, load factor 909. */
    constructor (w: Width)
      ensures Valid() && width == w && Contents == map[]
      ensures cache == [] && size == 0 && modMask == 0 && count == 0
      ensures loadFactor == DefaultLoadFactor
    {
      width := w;
      cache := [];
      size := 0;
      count := 0;
      modMask := 0;
      loadFactor := DefaultLoadFactor;
      Contents := map[];
    }

    /** `new()`: the same empty map, keyed by `u64`. */
    constructor New()
      ensures Valid() && width == U64 && Contents == map[]
      ensures cache == [] && size == 0 && modMask == 0 && count == 0
      ensures loadFactor == DefaultLoadFactor
    {
      width := U64;
      cache := [];
      size := 0;
      count := 0;
      modMask := 0;
      loadFactor := DefaultLoadFactor;
      Contents := map[];
    }

    /** `with_capacity_with(capacity)` (`with_capacity` when `w` is `U64`). */
    constructor WithCapacity(w: Width, capacity: nat)
      ensures Valid() && width == w && Contents == map[] && count == 0
      ensures loadFactor == DefaultLoadFactor
      ensures size == ReserveSize(0, capacity) && |cache| >= capacity
    {
      width := w;
      cache := [];
      size := 0;
      count := 0;
      modMask := 0;
      loadFactor := DefaultLoadFactor;
      Contents := map[];
      new;
      Reserve(capacity);
    }

    /** `reserve(additional)`: double until `count + additional` chains exist. */
    method Reserve(additional: nat)
      requires Valid()
      modifies this
      ensures Valid() && Contents == old(Contents) && count == old(count)
      ensures loadFactor == old(loadFactor)
      ensures size == ReserveSize(old(size), old(count) + additional)
      ensures |cache| >= count + additional
    {
      var capacity := count + additional;
      while Lim(size) < capacity
        invariant Valid() && Contents == old(Contents) && count == old(count)
        invariant loadFactor == old(loadFactor)
        invariant ReserveSize(size, capacity) == ReserveSize(old(size), capacity)
        decreases capacity - Lim(size)
      {
        LimNext(size);
        IncreaseCache();
      }
    }

    /**
     * `increase_cache()`: one more doubling (0 chains become 2). A fresh
     * array of empty chains replaces the old one and every old pair, in the
     * old array's order, is pushed onto the chain its key names under the new
     * mask. The same pairs are stored afterwards.
     */
    method IncreaseCache()
      requires Valid()
      modifies this
      ensures Valid() && Contents == old(Contents) && count == old(count)
      ensures loadFactor == old(loadFactor)
      ensures size == old(size) + 1 && modMask == |cache| - 1
      ensures |cache| == (if old(size) == 0 then 2 else 2 * old(|cache|))
    {
      var pairs := Flatten(cache);
      FlattenRebuilds(cache, width, modMask, Contents);
      LimNext(size);
      var newLim := Lim(size + 1);
      var newMask := newLim - 1;
      var built := Rehash(pairs, width, newMask, newLim);
      size := size + 1;
      modMask := newMask;
      cache := built;
    }

    /**
     * `ensure_load_rate()`: allocate if nothing is allocated, then double
     * while `count * 1000 / capacity` exceeds the load factor.
     */
    method EnsureLoadRate()
      requires Valid()
      modifies this
      ensures Valid() && Contents == old(Contents) && count == old(count)
      ensures loadFactor == old(loadFactor)
      ensures size == LoadSize(old(size), count, loadFactor)
      ensures |cache| > 0 && PerMille(count, |cache|) <= loadFactor
    {
      if |cache| == 0 {
        IncreaseCache();
      }
      while PerMille(count, |cache|) > loadFactor
        invariant Valid() && Contents == old(Contents) && count == old(count)
        invariant loadFactor == old(loadFactor)
        invariant |cache| > 0
        invariant LoadSize(size, count, loadFactor) == LoadSize(old(size), count, loadFactor)
        decreases count * 1000 - |cache|
      {
        Overloaded(count, |cache|, loadFactor);
        IncreaseCache();
      }
    }

    /**
     * `set_load_factor`: store the new load factor (here already in parts per
     * thousand) and run `ensure_load_rate` again.
     */
    method SetLoadFactor(perMille: nat)
      requires Valid()
      modifies this
      ensures Valid() && Contents == old(Contents) && count == old(count)
      ensures loadFactor == perMille
      ensures size == LoadSize(old(size), count, perMille)
      ensures |cache| > 0 && PerMille(count, |cache|) <= perMille
    {
      loadFactor := perMille;
      EnsureLoadRate();
    }

    /**
     * `insert(key, value)`: after `ensure_load_rate`, an existing pair for
     * `key` is swap-removed from its chain and the new pair is pushed. Returns
     * the value it replaced; `count` grows only for a new key.
     */
    method Insert(key: nat, value: V) returns (previous: Option<V>)
      requires Valid()
      modifies this
      ensures Valid() && loadFactor == old(loadFactor)
      ensures Contents == old(Contents)[key := value]
      ensures previous == (if key in old(Contents) then Some(old(Contents)[key]) else None)
      ensures count == old(count) + (if key in old(Contents) then 0 else 1)
      ensures size == LoadSize(old(size), old(count), loadFactor)
      ensures loadFactor < 1000 ==> count <= |cache|
    {
      EnsureLoadRate();
      FewerPairsThanChainsIf();
      previous := InsertIntoChain(key, value);
    }

    /**
     * The chain work of `insert`, once the array is allocated: swap-remove
     * the pair holding `key`, if any, then push the new pair.
     */
    method InsertIntoChain(key: nat, value: V) returns (previous: Option<V>)
      requires Valid() && |cache| > 0
      modifies this
      ensures Valid() && loadFactor == old(loadFactor)
      ensures size == old(size) && modMask == old(modMask) && |cache| == old(|cache|)
      ensures Contents == old(Contents)[key := value]
      ensures previous == (if key in old(Contents) then Some(old(Contents)[key]) else None)
      ensures count == old(count) + (if key in old(Contents) then 0 else 1)
    {
      var ix := BucketOf(width, modMask, key);
      ghost var updated := Contents[key := value];
      FindKeyAnswers(cache, width, modMask, Contents, key);
      UpsertIntoChain(cache, width, modMask, Contents, key, value);
      var vals;
      vals, previous := ReplaceOrPush(cache[ix], key, value);
      if previous.None? {
        count := count + 1;
      }
      cache := cache[ix := vals];
      Contents := updated;
    }

    /** The bound `Insert` relies on for its last postcondition. */
    lemma FewerPairsThanChainsIf()
      requires Valid() && |cache| > 0 && PerMille(count, |cache|) <= loadFactor
      ensures loadFactor < 1000 ==> count < |cache|
    {
      if loadFactor < 1000 {
        FewerPairsThanChains(count, |cache|, loadFactor);
      }
    }

    /**
     * `insert_checked(key, value)`: after `ensure_load_rate`, push the pair
     * only if the key is absent; a present key keeps its value.
     */
    method InsertChecked(key: nat, value: V) returns (inserted: bool)
      requires Valid()
      modifies this
      ensures Valid() && loadFactor == old(loadFactor)
      ensures inserted <==> key !in old(Contents)
      ensures Contents == if inserted then old(Contents)[key := value] else old(Contents)
      ensures count == old(count) + (if inserted then 1 else 0)
      ensures size == LoadSize(old(size), old(count), loadFactor)
    {
      EnsureLoadRate();
      var ix := BucketOf(width, modMask, key);
      var vals := cache[ix];
      FindKeyAnswers(cache, width, modMask, Contents, key);
      if FindKey(vals, key).Some? {
        return false;
      }
      UpsertFresh(cache, width, modMask, Contents, key, value);
      count := count + 1;
      cache := cache[ix := vals + [(key, value)]];
      Contents := Contents[key := value];
      return true;
    }

    /** `is_empty()`. */
    function IsEmpty(): (r: bool)
      reads this
      requires Valid()
      ensures r <==> Contents == map[]
    {
      FlattenListsContents(cache, width, modMask, Contents);
      count == 0
    }

    /** `len()`: the number of stored keys. */
    function Len(): (r: nat)
      reads this
      requires Valid()
      ensures r == |Contents|
    {
      FlattenListsContents(cache, width, modMask, Contents);
      count
    }

    /**
     * `get(key)`: `None` straight away on an empty map; otherwise the value
     * of the first pair for `key` in the key's chain.
     */
    function Get(key: nat): (r: Option<V>)
      reads this
      requires Valid()
      ensures r == if key in Contents then Some(Contents[key]) else None
    {
      if IsEmpty() then None
      else
        var vals := cache[BucketOf(width, modMask, key)];
        FindKeyAnswers(cache, width, modMask, Contents, key);
        match FindKey(vals, key)
        case Some(j) => Some(vals[j].1)
        case None => None
    }

    /** `get_mut(key)`: where the value of `key` is stored, as a `Slot`. */
    function GetMut(key: nat): (r: Option<Slot>)
      reads this
      requires Valid()
      ensures r.Some? <==> key in Contents
      ensures r.Some? ==> SlotIn(cache, r.value) && cache[r.value.cacheIx][r.value.valsIx] == (key, Contents[key])
    {
      if IsEmpty() then None
      else
        var ix := BucketOf(width, modMask, key);
        FindKeyAnswers(cache, width, modMask, Contents, key);
        match FindKey(cache[ix], key)
        case Some(j) => Some(Slot(ix, j))
        case None => None
    }

    /** `contains_key(key)`, which is `get(key).is_some()`. */
    function ContainsKey(key: nat): (r: bool)
      reads this
      requires Valid()
      ensures r <==> key in Contents
    {
      Get(key).Some?
    }

    /** Reading through a `&mut V`: the value stored for the slot's key. */
    function At(s: Slot): (v: V)
      reads this
      requires Valid() && SlotIn(cache, s)
      ensures cache[s.cacheIx][s.valsIx].0 in Contents
      ensures v == Contents[cache[s.cacheIx][s.valsIx].0]
    {
      assert cache[s.cacheIx][s.valsIx] in cache[s.cacheIx];
      cache[s.cacheIx][s.valsIx].1
    }

    /**
     * Writing through a `&mut V`: the slot's pair gets the new value; keys,
     * their chains and `count` stay as they were.
     */
    method Store(s: Slot, v: V)
      requires Valid() && SlotIn(cache, s)
      modifies this
      ensures Valid() && size == old(size) && modMask == old(modMask)
      ensures count == old(count) && loadFactor == old(loadFactor)
      ensures cache == old(cache)[s.cacheIx := old(cache)[s.cacheIx][s.valsIx := (old(KeyAt(s)), v)]]
      ensures Contents == old(Contents)[old(KeyAt(s)) := v]
    {
      var key := KeyAt(s);
      ghost var updated := Contents[key := v];
      StoreInChain(cache, width, modMask, Contents, s.cacheIx, s.valsIx, v);
      cache := cache[s.cacheIx := cache[s.cacheIx][s.valsIx := (key, v)]];
      Contents := updated;
    }

    /** The key of the pair a slot points at. */
    function KeyAt(s: Slot): nat
      reads this
      requires SlotIn(cache, s)
    {
      cache[s.cacheIx][s.valsIx].0
    }

    /**
     * `remove(key)`: nothing on an empty map; otherwise scan the key's chain
     * and swap-remove the first pair holding `key`.
     */
    method Remove(key: nat) returns (removed: Option<V>)
      requires Valid()
      modifies this
      ensures Valid() && size == old(size) && modMask == old(modMask)
      ensures |cache| == old(|cache|) && loadFactor == old(loadFactor)
      ensures removed == (if key in old(Contents) then Some(old(Contents)[key]) else None)
      ensures Contents == old(Contents) - {key}
      ensures count == old(count) - (if key in old(Contents) then 1 else 0)
    {
      if IsEmpty() {
        return None;
      }
      removed := RemoveInChain(key);
    }

    /** The chain work of `remove` on an allocated, non-empty map. */
    method RemoveInChain(key: nat) returns (removed: Option<V>)
      requires Valid() && |cache| > 0
      modifies this
      ensures Valid() && size == old(size) && modMask == old(modMask)
      ensures |cache| == old(|cache|) && loadFactor == old(loadFactor)
      ensures removed == (if key in old(Contents) then Some(old(Contents)[key]) else None)
      ensures Contents == old(Contents) - {key}
      ensures count == old(count) - (if key in old(Contents) then 1 else 0)
    {
      var ix := BucketOf(width, modMask, key);
      ghost var shrunk := Contents - {key};
      FindKeyAnswers(cache, width, modMask, Contents, key);
      RemoveKeyFromChain(cache, width, modMask, Contents, key);
      var rest;
      rest, removed := SwapRemoveKey(cache[ix], key);
      count := if removed.Some? then count - 1 else count;
      cache := cache[ix := rest];
      Contents := shrunk;
    }

    /** `clear()`: every chain is emptied; the array keeps its length. */
    method Clear()
      requires Valid()
      modifies this
      ensures Valid() && Contents == map[] && count == 0
      ensures size == old(size) && modMask == old(modMask) && |cache| == old(|cache|)
      ensures loadFactor == old(loadFactor)
    {
      for i := 0 to |cache|
        invariant |cache| == old(|cache|)
        invariant size == old(size) && modMask == old(modMask) && loadFactor == old(loadFactor)
        invariant forall j :: 0 <= j < i ==> cache[j] == []
      {
        cache := cache[i := []];
      }
      FlattenEmptyChains(cache);
      EmptyRepresents(cache, width, modMask);
      count := 0;
      Contents := map[];
    }

    /**
     * `retain(f)`: each chain keeps, in order, the pairs `f` accepts, and
     * `count` goes down by the number of pairs dropped.
     */
    method Retain(f: (nat, V) -> bool)
      requires Valid()
      modifies this
      ensures Valid() && size == old(size) && modMask == old(modMask)
      ensures |cache| == old(|cache|) && loadFactor == old(loadFactor)
      ensures Contents == map k | k in old(Contents) && f(k, old(Contents)[k]) :: old(Contents)[k]
    {
      ghost var c0 := Contents;
      var chains, removed := RetainChains(cache, width, modMask, Contents, f);
      cache := chains;
      count := count - removed;
      Contents := map k | k in c0 && f(k, c0[k]) :: c0[k];
    }

    /**
     * `capacity()`: 0 before the first allocation, otherwise the power of two
     * `lim()` names; every key's index is a position of the array.
     */
    function Capacity(): (r: nat)
      reads this
      requires Valid()
      ensures r == 0 <==> size == 0
      ensures r > 0 ==> r == Pow2(size) && r >= 2
      ensures r > 0 ==> forall k :: BucketOf(width, modMask, k) < r
    {
      |cache|
    }

    /** `load()`: the number of non-empty chains. */
    function Load(): (r: nat)
      reads this
      requires Valid()
      ensures r <= |cache| && r <= |Contents|
      ensures Contents != map[] ==> r > 0
    {
      FlattenListsContents(cache, width, modMask, Contents);
      CountNonEmpty(cache)
    }

    /** `assert_count()`: `count` agrees with the pairs the chains hold. */
    function AssertCount(): (r: bool)
      reads this
      requires Valid()
      ensures r
    {
      count == |Flatten(cache)|
    }

    /**
     * `collisions()`: a new `u64`-keyed map from each chain length above one
     * to the number of chains that long.
     */
    method Collisions() returns (m: IntMap<nat>)
      requires Valid()
      ensures fresh(m) && m.Valid() && m.width == U64
      ensures m.Contents == Histogram(cache)
    {
      m := new IntMap<nat>.New();
      var chains := cache;
      for i := 0 to |chains|
        invariant fresh(m) && m.Valid() && m.width == U64
        invariant m.Contents == Histogram(chains[..i])
      {
        assert chains[..i + 1][..i] == chains[..i];
        var key := |chains[i]|;
        ghost var h := Histogram(chains[..i]);
        assert Histogram(chains[..i + 1])
          == if key > 1 then Tally(h, key) else h;
        if key > 1 {
          CountUp(m, key);
        }
      }
      assert chains[..|chains|] == chains;
    }
  }

  /**
   * The rehash loop of `increase_cache`: each pair of a duplicate-free
   * listing, in order, is pushed onto the chain its key names in a new array
   * of `lim` empty chains. The new array stores exactly the listed pairs.
   */
  method Rehash<V>(pairs: seq<(nat, V)>, w: Width, mask: nat, lim: nat) returns (built: seq<Chain<V>>)
    requires KeysDistinct(pairs) && lim == mask + 1
    ensures |built| == lim && |Flatten(built)| == |pairs|
    ensures Represents(built, w, mask, InsertAll(map[], pairs))
  {
    built := seq(lim, _ => []);
    EmptyRepresents(built, w, mask);
    FlattenEmptyChains(built);
    var t := 0;
    while t < |pairs|
      invariant 0 <= t <= |pairs|
      invariant |built| == lim
      invariant Represents(built, w, mask, InsertAll(map[], pairs[..t]))
      invariant |Flatten(built)| == t
    {
      var ix := BucketOf(w, mask, pairs[t].0);
      RehashStep(built, w, mask, pairs, t);
      built := built[ix := built[ix] + [pairs[t]]];
      t := t + 1;
    }
    assert pairs[..t] == pairs;
  }

  /**
   * The chain step of `insert`: the first pair holding `key`, if any, is
   * swap-removed and its value returned, then the new pair is pushed.
   */
  method ReplaceOrPush<V>(vals: Chain<V>, key: nat, value: V) returns (chain: Chain<V>, previous: Option<V>)
    ensures chain == Upsert(vals, key, value)
    ensures previous == match FindKey(vals, key) case Some(p) => Some(vals[p].1) case None => None
  {
    chain := vals;
    match FindKey(vals, key) {
      case Some(p) =>
        previous := Some(vals[p].1);
        chain := SwapRemove(chain, p);
      case None =>
        previous := None;
    }
    chain := chain + [(key, value)];
  }

  /**
   * The scan of `remove`: the first pair holding `key`, if any, is
   * swap-removed and its value returned; otherwise the chain is unchanged.
   */
  method SwapRemoveKey<V>(vals: Chain<V>, key: nat) returns (rest: Chain<V>, removed: Option<V>)
    ensures rest == RemoveKey(vals, key)
    ensures removed == match FindKey(vals, key) case Some(p) => Some(vals[p].1) case None => None
  {
    for i := 0 to |vals|
      invariant forall j :: 0 <= j < i ==> vals[j].0 != key
    {
      if vals[i].0 == key {
        return SwapRemove(vals, i), Some(vals[i].1);
      }
    }
    return vals, None;
  }

  /**
   * The loop of `retain`: every chain keeps, in order, the pairs `f`
   * accepts; `removed` counts the pairs dropped.
   */
  method RetainChains<V>(cache: seq<Chain<V>>, w: Width, mask: nat, ghost contents: map<nat, V>,
                         f: (nat, V) -> bool)
    returns (kept: seq<Chain<V>>, removed: nat)
    requires Represents(cache, w, mask, contents)
    ensures |kept| == |cache| && removed <= |Flatten(cache)|
    ensures |Flatten(kept)| == |Flatten(cache)| - removed
    ensures Represents(kept, w, mask, map k | k in contents && f(k, contents[k]) :: contents[k])
  {
    kept := cache;
    removed := 0;
    for i := 0 to |kept|
      invariant |kept| == |cache|
      invariant Represents(kept, w, mask, Kept(contents, w, mask, f, i))
      invariant removed <= |Flatten(cache)| && |Flatten(kept)| == |Flatten(cache)| - removed
    {
      var before := kept[i];
      FilterChain(kept, w, mask, Kept(contents, w, mask, f, i), i, f);
      KeptStep(contents, w, mask, f, i);
      kept := kept[i := Filter(before, f)];
      removed := removed + (|before| - |kept[i]|);
    }
    KeptAll(contents, w, mask, f, |kept|);
  }

  /**
   * One step of `collisions`: a counter that is missing is inserted as 1,
   * one that is present goes up by one through `get_mut`.
   */
  method CountUp(m: IntMap<nat>, key: nat)
    requires m.Valid()
    modifies m
    ensures m.Valid()
    ensures m.Contents == Tally(old(m.Contents), key)
  {
    if !m.ContainsKey(key) {
      StartCount(m, key);
    } else {
      Increment(m, key);
    }
  }

  /** `map.insert(key, 1)` for a length seen for the first time. */
  method StartCount(m: IntMap<nat>, key: nat)
    requires m.Valid() && key !in m.Contents
    modifies m
    ensures m.Valid()
    ensures m.Contents == Tally(old(m.Contents), key)
  {
    var _ := m.Insert(key, 1);
  }

  /** `*map.get_mut(key).unwrap() += 1` on a present counter. */
  method Increment(m: IntMap<nat>, key: nat)
    requires m.Valid() && key in m.Contents
    modifies m
    ensures m.Valid()
    ensures m.Contents == Tally(old(m.Contents), key)
  {
    var counter, n := Locate(m, key);
    m.Store(counter, n + 1);
  }

  /** `get_mut(key).unwrap()` on a stored key, and the value behind the reference. */
  method Locate<V>(m: IntMap<V>, key: nat) returns (s: Slot, v: V)
    requires m.Valid() && key in m.Contents
    ensures SlotIn(m.cache, s) && m.KeyAt(s) == key && v == m.Contents[key]
  {
    s := m.GetMut(key).value;
    v := m.At(s);
  }

  /** The entries `retain` keeps once chains `0 .. i - 1` have been filtered by `f`. */
  ghost function Kept<V>(c0: map<nat, V>, w: Width, mask: nat, f: (nat, V) -> bool, i: nat): map<nat, V> {
    map k | k in c0 && (BucketOf(w, mask, k) >= i || f(k, c0[k])) :: c0[k]
  }

  lemma KeptStep<V>(c0: map<nat, V>, w: Width, mask: nat, f: (nat, V) -> bool, i: nat)
    ensures var before := Kept(c0, w, mask, f, i);
      Kept(c0, w, mask, f, i + 1)
        == map k | k in before && (BucketOf(w, mask, k) != i || f(k, before[k])) :: before[k]
  {
  }

  lemma KeptAll<V>(c0: map<nat, V>, w: Width, mask: nat, f: (nat, V) -> bool, n: nat)
    requires forall k :: k in c0 ==> BucketOf(w, mask, k) < n
    ensures Kept(c0, w, mask, f, n) == map k | k in c0 && f(k, c0[k]) :: c0[k]
  {
  }

  /**
   * `PartialEq::eq`: every pair of each map is found in the other. This is
   * equality of the stored maps, whatever the layout or insertion order.
   */
  function Eq<V(==)>(a: IntMap<V>, b: IntMap<V>): (r: bool)
    reads a, b
    requires a.Valid() && b.Valid() && a.width == b.width
    ensures r <==> a.Contents == b.Contents
  {
    AllFoundIn(a, b) && AllFoundIn(b, a)
  }

  /** `a.iter().all(|(k, v)| b.get(k) == Some(v))`. */
  function AllFoundIn<V(==)>(a: IntMap<V>, b: IntMap<V>): (r: bool)
    reads a, b
    requires a.Valid() && b.Valid()
    ensures r <==> forall k :: k in a.Contents ==> k in b.Contents && b.Contents[k] == a.Contents[k]
  {
    var items := Flatten(a.cache);
    FlattenListsContents(a.cache, a.width, a.modMask, a.Contents);
    ListedAllFound(items, a.Contents, b.Contents);
    forall t :: 0 <= t < |items| ==> b.Get(items[t].0) == Some(items[t].1)
  }

  /** Every listed pair is found in `b` exactly when every entry of `a` is. */
  lemma ListedAllFound<V>(items: seq<(nat, V)>, a: map<nat, V>, b: map<nat, V>)
    requires forall p :: p in items <==> p.0 in a && a[p.0] == p.1
    ensures (forall t :: 0 <= t < |items| ==> items[t].0 in b && b[items[t].0] == items[t].1)
      <==> (forall k :: k in a ==> k in b && b[k] == a[k])
  {
    if forall t :: 0 <= t < |items| ==> items[t].0 in b && b[items[t].0] == items[t].1 {
      forall k | k in a ensures k in b && b[k] == a[k] {
        assert (k, a[k]) in items;
        var t :| 0 <= t < |items| && items[t] == (k, a[k]);
      }
    }
    if forall k :: k in a ==> k in b && b[k] == a[k] {
      forall t | 0 <= t < |items| ensures items[t].0 in b && b[items[t].0] == items[t].1 {
        assert items[t] in items;
      }
    }
  }

  // ----- Collisions under a load factor above one -----

  /**
   * Sixteen sequential `u64` keys in a map of 8 chains whose load factor is
   * 2.0: the load never exceeds 2000 per mille before an insert, so the array
   * keeps its 8 chains, and since the prime is 5 modulo 8, keys `k` and
   * `k + 8` share a chain. The histogram is eight chains of length two.
   */
  method DenseCollisions() returns (h: IntMap<nat>)
    ensures h.Valid() && h.Contents == map[2 := 8]
  {
    var m := new IntMap<nat>.WithCapacity(U64, 8);
    ReserveExamples();
    m.SetLoadFactor(2000);
    forall c: nat | c < 16 ensures LoadSize(3, c, 2000) == 3 {
      WithinFactor(c, 8, 2000);
      KeepsChains(3, c, 2000);
    }
    InsertSequential(m, 16);
    assert Lim(3) == 8;
    SixteenKeysInPairs(m.cache, m.Contents);
    h := m.Collisions();
    UniformHistogram(m.cache, 2);
  }

  /**
   * Keys `0..n-1`, in order, into an empty map whose size `ensure_load_rate`
   * keeps for every count below `n`: the array is never rebuilt.
   */
  method InsertSequential(m: IntMap<nat>, n: nat)
    requires m.Valid() && m.Contents == map[] && m.count == 0
    requires forall c: nat :: c < n ==> LoadSize(m.size, c, m.loadFactor) == m.size
    modifies m
    ensures m.Valid() && m.loadFactor == old(m.loadFactor)
    ensures m.size == old(m.size) && m.count == n
    ensures forall j: nat :: j in m.Contents <==> j < n
  {
    for k := 0 to n
      invariant m.Valid() && m.loadFactor == old(m.loadFactor)
      invariant m.size == old(m.size) && m.count == k
      invariant forall j: nat :: j in m.Contents <==> j < k
    {
      var _ := m.Insert(k, k);
    }
  }

  /**
   * `with_capacity(20)` allocates 32 chains, and twelve sequential keys at
   * the default load factor fit without a rebuild: the capacity stays 32.
   */
  method RoomyInserts() returns (m: IntMap<nat>)
    ensures m.Valid() && m.Capacity() == 32 && m.Len() == 12
  {
    m := new IntMap<nat>.WithCapacity(U64, 20);
    ReserveExamples();
    forall c: nat | c < 12 ensures LoadSize(5, c, DefaultLoadFactor) == 5 {
      WithinFactor(c, 32, DefaultLoadFactor);
      KeepsChains(5, c, DefaultLoadFactor);
    }
    InsertSequential(m, 12);
  }

  /**
   * `ensure_load_rate` keeps an allocated size exactly when the rounded-down
   * load `count * 1000 / capacity` is within the load factor.
   */
  lemma KeepsChains(size: nat, count: nat, loadFactor: nat)
    requires size > 0
    ensures Lim(size) > 0
    ensures LoadSize(size, count, loadFactor) == size <==> PerMille(count, Lim(size)) <= loadFactor
  {
  }

  /** `count * 1000 <= load_factor * capacity` is enough for the rounded-down load to be within the factor. */
  lemma WithinFactor(count: nat, capacity: nat, loadFactor: nat)
    requires capacity > 0 && count * 1000 <= loadFactor * capacity
    ensures PerMille(count, capacity) <= loadFactor
  {
    var scaled := count * 1000;
    DivModParts(scaled, capacity);
    if scaled / capacity > loadFactor {
      MulGap(capacity, scaled / capacity, loadFactor);
    }
  }

  /** With 8 chains, `u64` key `k` hashes to chain `5k mod 8`. */
  lemma EightChainBucket(k: nat)
    ensures BucketOf(U64, 7, k) == (5 * k) % 8
  {
    PrimeValues();
    var p := Prime(U64);
    assert Pow2(3) == 8;
    CalcIndexLowBits(U64, k, 3, p);
    var q, r := (5 * k) / 8, (5 * k) % 8;
    assert p * k == 8 * (2305843009213693944 * k + q) + r;
    DivModUnique(p * k, 8, 2305843009213693944 * k + q, r);
  }

  /** Keys 0 to 15 in 8 chains: every chain holds two of them. */
  lemma SixteenKeysInPairs<V>(cache: seq<Chain<V>>, contents: map<nat, V>)
    requires |cache| == 8 && Represents(cache, U64, 7, contents)
    requires forall j: nat :: j in contents <==> j < 16
    ensures forall b :: 0 <= b < |cache| ==> |cache[b]| == 2
  {
    forall b | 0 <= b < 8 ensures |cache[b]| == 2 {
      ChainOfPair(cache, contents, b);
    }
  }

  /** Chain `b` holds keys `5b mod 8` and `5b mod 8 + 8`, and no other. */
  lemma ChainOfPair<V>(cache: seq<Chain<V>>, contents: map<nat, V>, b: nat)
    requires |cache| == 8 && Represents(cache, U64, 7, contents)
    requires forall j: nat :: j in contents <==> j < 16
    requires b < 8
    ensures KeySet(cache[b]) == {(5 * b) % 8, (5 * b) % 8 + 8}
    ensures |cache[b]| == 2
  {
    var chain := cache[b];
    var x := (5 * b) % 8;
    PairOfBucket(b);
    EightChainBucket(x);
    EightChainBucket(x + 8);
    forall k | k in KeySet(chain) ensures k == x || k == x + 8 {
      var j :| 0 <= j < |chain| && chain[j].0 == k;
      assert chain[j] in chain;
      EightChainBucket(k);
      BucketOfPair(k, b);
    }
    assert (x, contents[x]) in chain;
    assert (x + 8, contents[x + 8]) in chain;
    assert x in KeySet(chain) by {
      var j :| 0 <= j < |chain| && chain[j] == (x, contents[x]);
    }
    assert x + 8 in KeySet(chain) by {
      var j :| 0 <= j < |chain| && chain[j] == (x + 8, contents[x + 8]);
    }
    assert KeySet(chain) == {x, x + 8};
    KeySetSize(chain);
  }

  /** The two keys below 16 that `5k mod 8` sends to `b`. */
  lemma PairOfBucket(b: nat)
    requires b < 8
    ensures (5 * ((5 * b) % 8)) % 8 == b && (5 * ((5 * b) % 8 + 8)) % 8 == b
  {
    FiveInverse(b);
  }

  /** Only those two keys below 16 go to `b`. */
  lemma BucketOfPair(k: nat, b: nat)
    requires k < 16 && (5 * k) % 8 == b
    ensures k == (5 * b) % 8 || k == (5 * b) % 8 + 8
  {
    FiveInverse(k);
  }

  /** 5 is its own inverse modulo 8. */
  lemma FiveInverse(k: nat)
    requires k < 16
    ensures k % 8 == (5 * ((5 * k) % 8)) % 8
  {
    var r := k % 8;
    assert (5 * k) % 8 == (5 * r) % 8;
    if r == 0 {
    } else if r == 1 {
    } else if r == 2 {
    } else if r == 3 {
    } else if r == 4 {
    } else if r == 5 {
    } else if r == 6 {
    } else {
      assert r == 7;
    }
  }
}
