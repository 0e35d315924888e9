/**
 * The entry API: `entry(key)` looks a key up once and hands back either an
 * occupied entry (the key's chain and its position in it) or a vacant one
 * (the key and the map), through which the caller reads, overwrites, removes
 * or inserts without a second lookup.
 */
module Entries {
  import opened Int
  import opened IntKey
  import opened Buckets
  import opened IntMaps

  /**
   * An entry of a map. An occupied entry is the `&mut` chain and the position
   * of the key's pair in it, written as a `Slot`; a vacant entry remembers
   * the key it was asked for.
   */
  datatype Entry = Occupied(key: nat, slot: Slot) | Vacant(key: nat)

  /** The entry still describes `m`: the slot holds its key, or the key is absent. */
  ghost predicate Current<V>(m: IntMap<V>, e: Entry)
    reads m
  {
    match e
    case Occupied(key, s) => SlotIn(m.cache, s) && m.cache[s.cacheIx][s.valsIx].0 == key
    case Vacant(key) => key !in m.Contents
  }

  // ----- Finding the entry -----

  /**
   * `Entry::indices` as written: it indexes `cache[calc_index(key)]` with no
   * check that the array is allocated. `None` is that index failing, which
   * in the program is a panic.
   */
  function IndicesAsWritten<V>(m: IntMap<V>, key: nat): (r: Option<(nat, Option<nat>)>)
    reads m
    requires m.Valid()
    ensures r.None? <==> |m.cache| == 0
    ensures r.Some? ==> r.value == Indices(m, key)
  {
    var ix := BucketOf(m.width, m.modMask, key);
    if ix < |m.cache| then Some((ix, FindKey(m.cache[ix], key))) else None
  }

  /** A map that has not allocated yet (as `new()` leaves it) makes `entry` panic. */
  lemma UnallocatedEntryPanics<V>(m: IntMap<V>, key: nat)
    requires m.Valid() && m.size == 0
    ensures IndicesAsWritten(m, key).None?
  {
    assert Lim(0) == 0;
  }

  /**
   * `Entry::indices`, with the emptiness check that `get`, `get_mut` and
   * `remove` make: the key's chain and the position of its pair, if any. A
   * map that has not allocated answers "not found".
   */
  function Indices<V>(m: IntMap<V>, key: nat): (r: (nat, Option<nat>))
    reads m
    requires m.Valid()
    ensures r.1.Some? <==> key in m.Contents
    ensures r.1.Some? ==>
      SlotIn(m.cache, Slot(r.0, r.1.value)) && m.cache[r.0][r.1.value] == (key, m.Contents[key])
  {
    if |m.cache| == 0 then (0, None)
    else
      var ix := BucketOf(m.width, m.modMask, key);
      FindKeyAnswers(m.cache, m.width, m.modMask, m.Contents, key);
      (ix, FindKey(m.cache[ix], key))
  }

  /** `entry(key)` and `Entry::new`: occupied exactly when the key is stored. */
  function EntryOf<V>(m: IntMap<V>, key: nat): (e: Entry)
    reads m
    requires m.Valid()
    ensures e.key == key
    ensures e.Occupied? <==> key in m.Contents
    ensures Current(m, e)
  {
    var (ix, found) := Indices(m, key);
    match found
    case Some(j) => Occupied(key, Slot(ix, j))
    case None => Vacant(key)
  }

  // ----- Occupied entries -----

  /**
   * `OccupiedEntry::get`: the key's value. `get_mut` and `into_mut` hand out
   * the entry's `Slot` itself, which `IntMap.At` reads and `IntMap.Store`
   * writes through.
   */
  function OccupiedGet<V>(m: IntMap<V>, e: Entry): (v: V)
    reads m
    requires m.Valid() && e.Occupied? && Current(m, e)
    ensures e.key in m.Contents && v == m.Contents[e.key]
  {
    m.At(e.slot)
  }

  /** `OccupiedEntry::insert`: overwrite the value in place and return the old one. */
  method OccupiedInsert<V>(m: IntMap<V>, e: Entry, value: V) returns (previous: V)
    requires m.Valid() && e.Occupied? && Current(m, e)
    modifies m
    ensures m.Valid() && Current(m, e)
    ensures e.key in old(m.Contents) && previous == old(m.Contents)[e.key]
    ensures m.Contents == old(m.Contents)[e.key := value]
    ensures m.count == old(m.count) && m.size == old(m.size) && |m.cache| == |old(m.cache)|
  {
    previous := m.At(e.slot);
    m.Store(e.slot, value);
  }

  /**
   * `OccupiedEntry::remove`: decrement `count`, swap-remove the pair from its
   * chain and return its value.
   */
  method OccupiedRemove<V>(m: IntMap<V>, e: Entry) returns (value: V)
    requires m.Valid() && e.Occupied? && Current(m, e)
    modifies m
    ensures m.Valid()
    ensures e.key in old(m.Contents) && value == old(m.Contents)[e.key]
    ensures m.Contents == old(m.Contents) - {e.key}
    ensures m.count == old(m.count) - 1
    ensures m.size == old(m.size) && m.modMask == old(m.modMask) && m.loadFactor == old(m.loadFactor)
    ensures m.cache == old(m.cache)[e.slot.cacheIx := SwapRemove(old(m.cache)[e.slot.cacheIx], e.slot.valsIx)]
  {
    var ix, j := e.slot.cacheIx, e.slot.valsIx;
    var chain := m.cache[ix];
    value := chain[j].1;
    ghost var shrunk := m.Contents - {e.key};
    RemoveFromChain(m.cache, m.width, m.modMask, m.Contents, ix, j, SwapRemove(chain, j));
    m.count := m.count - 1;
    m.cache := m.cache[ix := SwapRemove(chain, j)];
    m.Contents := shrunk;
  }

  // ----- Vacant entries -----

  /**
   * `VacantEntry::insert`: `insert` the pair (which may grow the array), then
   * look the key up again and hand out its `&mut V`.
   */
  method VacantInsert<V>(m: IntMap<V>, e: Entry, value: V) returns (s: Slot)
    requires m.Valid() && e.Vacant? && Current(m, e)
    modifies m
    ensures m.Valid() && m.loadFactor == old(m.loadFactor)
    ensures m.Contents == old(m.Contents)[e.key := value]
    ensures m.count == old(m.count) + 1
    ensures SlotIn(m.cache, s) && m.KeyAt(s) == e.key && m.At(s) == value
  {
    var _ := m.Insert(e.key, value);
    var stored;
    s, stored := Locate(m, e.key);
  }

  // ----- Counting with entries -----

  /** The counters after counting `numbers`: each number maps to how often it occurs. */
  function Tallies(numbers: seq<nat>): map<nat, nat> {
    if |numbers| == 0 then map[]
    else Tally(Tallies(numbers[..|numbers| - 1]), numbers[|numbers| - 1])
  }

  lemma {:induction false} TalliesCount(numbers: seq<nat>, k: nat)
    ensures k in Tallies(numbers) <==> k in numbers
    ensures k in Tallies(numbers) ==> Tallies(numbers)[k] == multiset(numbers)[k]
    decreases |numbers|
  {
    if |numbers| > 0 {
      var init := numbers[..|numbers| - 1];
      var last := numbers[|numbers| - 1];
      assert numbers == init + [last];
      TalliesCount(init, k);
    }
  }

  /**
   * The loop body of the counting example: take the entry, use `into_mut`
   * when occupied or `insert(0)` when vacant, then add one through the
   * reference.
   */
  method CountOne(m: IntMap<nat>, number: nat)
    requires m.Valid()
    modifies m
    ensures m.Valid()
    ensures m.Contents == Tally(old(m.Contents), number)
  {
    ghost var before := m.Contents;
    var counter, n := CounterFor(m, number);
    AddOneToCounter(before, m.Contents, number, n);
    m.Store(counter, n + 1);
  }

  /** Adding one to the counter the entry handed out is one more tally. */
  lemma AddOneToCounter(before: map<nat, nat>, counters: map<nat, nat>, number: nat, n: nat)
    requires counters == if number in before then before else before[number := 0]
    requires number in counters && n == counters[number]
    ensures counters[number := n + 1] == Tally(before, number)
  {
    if number !in before {
      assert counters[number := n + 1] == before[number := 1];
    }
  }

  /**
   * The counter `match counters.entry(number)` hands out, and the count
   * behind it: a new number is inserted with count zero.
   */
  method CounterFor(m: IntMap<nat>, number: nat) returns (counter: Slot, n: nat)
    requires m.Valid()
    modifies m
    ensures m.Valid() && SlotIn(m.cache, counter) && m.KeyAt(counter) == number
    ensures number in m.Contents && n == m.Contents[number]
    ensures m.Contents == if number in old(m.Contents) then old(m.Contents) else old(m.Contents)[number := 0]
  {
    var e := EntryOf(m, number);
    match e {
      case Occupied(_, s) =>
        counter := s;
      case Vacant(_) =>
        counter := VacantInsert(m, e, 0);
    }
    n := m.At(counter);
  }

  /** The counting example: a fresh map counts each number through its entry. */
  method CountWithEntries(numbers: seq<nat>) returns (counters: IntMap<nat>)
    ensures fresh(counters) && counters.Valid()
    ensures counters.Contents == Tallies(numbers)
  {
    counters := new IntMap<nat>.New();
    for i := 0 to |numbers|
      invariant fresh(counters) && counters.Valid()
      invariant counters.Contents == Tallies(numbers[..i])
    {
      assert numbers[..i + 1] == numbers[..i] + [numbers[i]];
      TalliesSnoc(numbers[..i], numbers[i]);
      CountOne(counters, numbers[i]);
    }
    assert numbers[..|numbers|] == numbers;
  }

  /** The numbers the documented counting example counts. */
  const ExampleNumbers: seq<nat> := [10, 30, 10, 40, 50, 50, 60, 50]

  /** The documented counts: 10 twice, 50 three times, 30, 40 and 60 once, 20 never. */
  lemma CountingExample()
    ensures var counts := Tallies(ExampleNumbers);
      && 10 in counts && counts[10] == 2
      && 20 !in counts
      && 30 in counts && counts[30] == 1
      && 40 in counts && counts[40] == 1
      && 50 in counts && counts[50] == 3
      && 60 in counts && counts[60] == 1
  {
    ExampleTallies();
  }

  /** Counting the example numbers one by one. */
  lemma ExampleTallies()
    ensures Tallies(ExampleNumbers)
      == Tally(Tally(Tally(Tally(Tally(Tally(Tally(Tally(map[], 10), 30), 10), 40), 50), 50), 60), 50)
  {
    var s0: seq<nat> := [];
    TalliesSnoc(s0, 10);
    TalliesSnoc(s0 + [10], 30);
    TalliesSnoc(s0 + [10] + [30], 10);
    TalliesSnoc(s0 + [10] + [30] + [10], 40);
    TalliesSnoc(s0 + [10] + [30] + [10] + [40], 50);
    TalliesSnoc(s0 + [10] + [30] + [10] + [40] + [50], 50);
    TalliesSnoc(s0 + [10] + [30] + [10] + [40] + [50] + [50], 60);
    TalliesSnoc(s0 + [10] + [30] + [10] + [40] + [50] + [50] + [60], 50);
    assert s0 + [10] + [30] + [10] + [40] + [50] + [50] + [60] + [50] == ExampleNumbers;
  }

  /** Counting one more number extends the counters of the numbers before it. */
  lemma TalliesSnoc(numbers: seq<nat>, last: nat)
    ensures Tallies(numbers + [last]) == Tally(Tallies(numbers), last)
  {
    assert (numbers + [last])[..|numbers|] == numbers;
  }

  /**
   * Removing a key and then inserting through its (now vacant) entry leaves
   * only the new value: insert 65 -> "foo", remove 65, `entry(65)` is vacant,
   * insert "bar".
   */
  method ReinsertThroughEntry() returns (m: IntMap<string>)
    ensures fresh(m) && m.Valid() && m.Contents == map[65 := "bar"]
  {
    m := new IntMap<string>.New();
    var _ := m.Insert(65, "foo");
    var removed := m.Remove(65);
    assert removed == Some("foo");
    var e := EntryOf(m, 65);
    assert e.Vacant?;
    var s := VacantInsert(m, e, "bar");
    assert m.At(s) == "bar";
  }
}
