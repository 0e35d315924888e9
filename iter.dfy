/**
 * The iterators of the map. The borrowing iterators (`iter`, `keys`,
 * `values`, `into_iter`) yield the chains one after the other, which is the
 * flattened bucket array; the mutating ones (`iter_mut`, `values_mut`) may
 * only overwrite values; `drain` empties the chains front to back, lowering
 * `count` once per pair; `extend` and `from_iter` insert pairs in order.
 */
module Iters {
  import opened Int
  import opened Buckets
  import opened IntMaps

  // ----- Iter, Keys, Values, IntoIter -----

  /**
   * `iter()` (and `into_iter()`, which yields the same pairs by value): every
   * stored pair once, so as many items as `len()`, and nothing else.
   */
  function Iter<V>(m: IntMap<V>): (items: seq<(nat, V)>)
    reads m
    requires m.Valid()
    ensures |items| == m.Len()
    ensures KeysDistinct(items)
    ensures forall t :: 0 <= t < |items| ==> items[t].0 in m.Contents && m.Contents[items[t].0] == items[t].1
    ensures forall k :: k in m.Contents ==> (k, m.Contents[k]) in items
  {
    FlattenListsContents(m.cache, m.width, m.modMask, m.Contents);
    ListingIndexed(Flatten(m.cache), m.Contents);
    Flatten(m.cache)
  }

  /** A listing of `contents`, read position by position. */
  lemma ListingIndexed<V>(items: seq<(nat, V)>, contents: map<nat, V>)
    requires forall p :: p in items <==> p.0 in contents && contents[p.0] == p.1
    ensures forall t :: 0 <= t < |items| ==> items[t].0 in contents && contents[items[t].0] == items[t].1
    ensures forall k :: k in contents ==> (k, contents[k]) in items
  {
    forall t | 0 <= t < |items| ensures items[t].0 in contents && contents[items[t].0] == items[t].1 {
      assert items[t] in items;
    }
    forall k | k in contents ensures (k, contents[k]) in items {
      assert (k, contents[k]).0 == k;
    }
  }

  /** The items come chain by chain: their bucket indices never decrease. */
  lemma IterInBucketOrder<V>(m: IntMap<V>, t1: nat, t2: nat)
    requires m.Valid() && t1 < t2 < |Iter(m)|
    ensures BucketOf(m.width, m.modMask, Iter(m)[t1].0) <= BucketOf(m.width, m.modMask, Iter(m)[t2].0)
  {
    FlattenBucketOrder(m.cache, m.width, m.modMask);
  }

  /** `keys()`: the first components of `iter()`, each stored key once. */
  function Keys<V>(m: IntMap<V>): (keys: seq<nat>)
    reads m
    requires m.Valid()
    ensures |keys| == m.Len()
    ensures forall k :: k in keys <==> k in m.Contents
    ensures forall i, j :: 0 <= i < j < |keys| ==> keys[i] != keys[j]
  {
    var items := Iter(m);
    var keys := seq(|items|, i requires 0 <= i < |items| => items[i].0);
    KeysListed(items, m.Contents, keys);
    keys
  }

  lemma KeysListed<V>(items: seq<(nat, V)>, contents: map<nat, V>, keys: seq<nat>)
    requires forall t :: 0 <= t < |items| ==> items[t].0 in contents
    requires forall k :: k in contents ==> (k, contents[k]) in items
    requires |keys| == |items| && forall i :: 0 <= i < |items| ==> keys[i] == items[i].0
    ensures forall k :: k in keys <==> k in contents
  {
    forall k ensures k in keys <==> k in contents {
      if k in contents {
        assert (k, contents[k]) in items;
        var i :| 0 <= i < |items| && items[i] == (k, contents[k]);
        assert keys[i] == k;
      }
      if k in keys {
        var i :| 0 <= i < |keys| && keys[i] == k;
      }
    }
  }

  /** `values()`: the second components of `iter()`, in step with `keys()`. */
  function Values<V>(m: IntMap<V>): (values: seq<V>)
    reads m
    requires m.Valid()
    ensures |values| == |Keys(m)|
    ensures forall i :: 0 <= i < |values| ==> Keys(m)[i] in m.Contents && values[i] == m.Contents[Keys(m)[i]]
  {
    var items := Iter(m);
    seq(|items|, i requires 0 <= i < |items| => items[i].1)
  }

  // ----- IterMut, ValuesMut -----

  /** Every pair with its value replaced by `f(key, value)`; the keys stay in place. */
  function MapChains<V>(cache: seq<Chain<V>>, f: (nat, V) -> V): (r: seq<Chain<V>>)
    ensures |r| == |cache|
    ensures forall i :: 0 <= i < |r| ==> |r[i]| == |cache[i]|
  {
    seq(|cache|, i requires 0 <= i < |cache| => MapChain(cache[i], f))
  }

  function MapChain<V>(chain: Chain<V>, f: (nat, V) -> V): (r: Chain<V>)
    ensures |r| == |chain|
  {
    seq(|chain|, j requires 0 <= j < |chain| => (chain[j].0, f(chain[j].0, chain[j].1)))
  }

  /** The map after each value is replaced by `f(key, value)`. */
  ghost function Mapped<V>(contents: map<nat, V>, f: (nat, V) -> V): map<nat, V> {
    map k | k in contents :: f(k, contents[k])
  }

  /** Overwriting values in place keeps every pair in its chain, so the array represents the mapped map. */
  lemma MapChainsRepresents<V>(cache: seq<Chain<V>>, w: Width, mask: nat, contents: map<nat, V>,
                               f: (nat, V) -> V)
    requires Represents(cache, w, mask, contents)
    ensures Represents(MapChains(cache, f), w, mask, Mapped(contents, f))
    ensures |Flatten(MapChains(cache, f))| == |Flatten(cache)|
  {
    MapChainsPlaced(cache, w, mask, f);
    MapChainsSound(cache, contents, f);
    MapChainsComplete(cache, w, mask, contents, f);
    FlattenSameShape(cache, MapChains(cache, f));
  }

  lemma MapChainsPlaced<V>(cache: seq<Chain<V>>, w: Width, mask: nat, f: (nat, V) -> V)
    requires Placed(cache, w, mask) && ChainsDistinct(cache)
    ensures Placed(MapChains(cache, f), w, mask) && ChainsDistinct(MapChains(cache, f))
  {
    var mapped := MapChains(cache, f);
    forall i, p: (nat, V) | 0 <= i < |mapped| && p in mapped[i] ensures BucketOf(w, mask, p.0) == i {
      var j :| 0 <= j < |mapped[i]| && mapped[i][j] == p;
      assert cache[i][j] in cache[i];
    }
    forall i | 0 <= i < |mapped| ensures KeysDistinct(mapped[i]) {
      assert KeysDistinct(cache[i]);
    }
  }

  lemma MapChainsSound<V>(cache: seq<Chain<V>>, contents: map<nat, V>, f: (nat, V) -> V)
    requires Sound(cache, contents)
    ensures Sound(MapChains(cache, f), Mapped(contents, f))
  {
    var mapped := MapChains(cache, f);
    var target := Mapped(contents, f);
    forall i, p: (nat, V) | 0 <= i < |mapped| && p in mapped[i] ensures p.0 in target && target[p.0] == p.1 {
      var j :| 0 <= j < |mapped[i]| && mapped[i][j] == p;
      assert cache[i][j] in cache[i];
    }
  }

  lemma MapChainsComplete<V>(cache: seq<Chain<V>>, w: Width, mask: nat, contents: map<nat, V>,
                             f: (nat, V) -> V)
    requires Complete(cache, w, mask, contents)
    ensures Complete(MapChains(cache, f), w, mask, Mapped(contents, f))
  {
    var mapped := MapChains(cache, f);
    var target := Mapped(contents, f);
    forall k | k in target
      ensures BucketOf(w, mask, k) < |mapped| && (k, target[k]) in mapped[BucketOf(w, mask, k)]
    {
      var b := BucketOf(w, mask, k);
      var chain := cache[b];
      assert (k, contents[k]) in chain;
      var j :| 0 <= j < |chain| && chain[j] == (k, contents[k]);
      assert mapped[b][j] == (k, target[k]);
    }
  }

  /** Two arrays with chains of the same lengths flatten to the same length. */
  lemma {:induction false} FlattenSameShape<V>(a: seq<Chain<V>>, b: seq<Chain<V>>)
    requires |a| == |b| && forall i :: 0 <= i < |a| ==> |a[i]| == |b[i]|
    ensures |Flatten(a)| == |Flatten(b)|
    decreases |a|
  {
    if |a| > 0 {
      FlattenSameShape(a[..|a| - 1], b[..|b| - 1]);
    }
  }

  /**
   * `iter_mut()` driven over the whole map, writing `f(key, value)` through
   * every `&mut V` it yields: values change, keys and their places do not.
   */
  method UpdateValues<V>(m: IntMap<V>, f: (nat, V) -> V)
    requires m.Valid()
    modifies m
    ensures m.Valid()
    ensures m.Contents == Mapped(old(m.Contents), f)
    ensures m.cache == MapChains(old(m.cache), f)
    ensures m.count == old(m.count) && m.size == old(m.size) && m.modMask == old(m.modMask)
    ensures m.loadFactor == old(m.loadFactor)
  {
    var mapped := OverwriteChains(m.cache, f);
    ghost var target := Mapped(m.Contents, f);
    MapChainsRepresents(m.cache, m.width, m.modMask, m.Contents, f);
    m.cache := mapped;
    m.Contents := target;
  }

  /** `values_mut()` driven over the whole map: the same, with `g` ignoring the key. */
  method UpdateValuesOnly<V>(m: IntMap<V>, g: V -> V)
    requires m.Valid()
    modifies m
    ensures m.Valid()
    ensures m.Contents == map k | k in old(m.Contents) :: g(old(m.Contents)[k])
    ensures m.count == old(m.count) && m.size == old(m.size) && m.modMask == old(m.modMask)
  {
    UpdateValues(m, (k: nat, v: V) => g(v));
  }

  /** The loop over chains and over the pairs of each, overwriting each value. */
  method OverwriteChains<V>(cache: seq<Chain<V>>, f: (nat, V) -> V) returns (mapped: seq<Chain<V>>)
    ensures mapped == MapChains(cache, f)
  {
    mapped := cache;
    for i := 0 to |cache|
      invariant |mapped| == |cache|
      invariant forall b :: 0 <= b < i ==> mapped[b] == MapChain(cache[b], f)
      invariant forall b :: i <= b < |cache| ==> mapped[b] == cache[b]
    {
      var chain := cache[i];
      for j := 0 to |chain|
        invariant |chain| == |cache[i]|
        invariant forall t :: 0 <= t < j ==> chain[t] == (cache[i][t].0, f(cache[i][t].0, cache[i][t].1))
        invariant forall t :: j <= t < |chain| ==> chain[t] == cache[i][t]
      {
        chain := chain[j := (chain[j].0, f(chain[j].0, chain[j].1))];
      }
      mapped := mapped[i := chain];
    }
  }

  // ----- Drain -----

  /** Chains before `i` are empty: the first pair, if any, is at the front of a later chain. */
  lemma FlattenFromFirst<V>(cache: seq<Chain<V>>, i: nat)
    requires i < |cache| && forall b :: 0 <= b < i ==> cache[b] == []
    ensures Flatten(cache) == cache[i] + Flatten(cache[i + 1..])
  {
    var pre, post := cache[..i], cache[i..];
    assert cache == pre + post;
    FlattenAppend(pre, post);
    FlattenEmptyChains(pre);
    FlattenFront(post);
    assert post[1..] == cache[i + 1..];
  }

  /** The first chain, then the rest. */
  lemma FlattenFront<V>(cache: seq<Chain<V>>)
    requires |cache| > 0
    ensures Flatten(cache) == cache[0] + Flatten(cache[1..])
  {
    var one := cache[..1];
    assert one[..0] == [];
    assert cache == one + cache[1..];
    FlattenAppend(one, cache[1..]);
  }

  /** An array that flattens to nothing has only empty chains. */
  lemma {:induction false} FlattenNothing<V>(cache: seq<Chain<V>>)
    requires Flatten(cache) == []
    ensures forall b :: 0 <= b < |cache| ==> cache[b] == []
    decreases |cache|
  {
    if |cache| > 0 {
      FlattenNothing(cache[..|cache| - 1]);
      forall b | 0 <= b < |cache| ensures cache[b] == [] {
        if b < |cache| - 1 {
          assert cache[..|cache| - 1][b] == cache[b];
        }
      }
    }
  }

  /** The first chain that holds a pair, or `|cache|` when every chain is empty. */
  method FirstNonEmpty<V>(cache: seq<Chain<V>>) returns (i: nat)
    ensures i <= |cache|
    ensures forall b :: 0 <= b < i ==> cache[b] == []
    ensures i < |cache| ==> cache[i] != []
  {
    i := 0;
    while i < |cache| && cache[i] == []
      invariant i <= |cache|
      invariant forall b :: 0 <= b < i ==> cache[b] == []
    {
      i := i + 1;
    }
  }

  /**
   * `Drain::next`: the next pair of the chains drained front to back. A pair
   * it yields has left its chain and `count` is one lower; once every chain is
   * empty it yields nothing and changes nothing.
   */
  method DrainNext<V>(m: IntMap<V>) returns (item: Option<(nat, V)>)
    requires m.Valid()
    modifies m
    ensures m.Valid()
    ensures item.None? <==> old(Iter(m)) == []
    ensures old(Iter(m)) == (if item.Some? then [item.value] else []) + Iter(m)
    ensures item.Some? ==> m.Contents == old(m.Contents) - {item.value.0}
    ensures item.None? ==> m.Contents == old(m.Contents)
    ensures m.count == old(m.count) - (if item.Some? then 1 else 0)
    ensures m.size == old(m.size) && m.modMask == old(m.modMask) && |m.cache| == |old(m.cache)|
    ensures m.loadFactor == old(m.loadFactor)
  {
    var i := FirstNonEmpty(m.cache);
    if i == |m.cache| {
      FlattenEmptyChains(m.cache);
      item := None;
    } else {
      FlattenFromFirst(m.cache, i);
      item := TakeFront(m, i);
    }
  }

  /** Dropping the front pair of the first non-empty chain drops the front of the listing. */
  lemma FlattenDropsFront<V>(cache: seq<Chain<V>>, i: nat)
    requires i < |cache| && cache[i] != []
    requires forall b :: 0 <= b < i ==> cache[b] == []
    ensures Flatten(cache) == [cache[i][0]] + Flatten(cache[i := cache[i][1..]])
  {
    var after := cache[i := cache[i][1..]];
    FlattenFromFirst(cache, i);
    FlattenFromFirst(after, i);
    assert after[i + 1..] == cache[i + 1..];
    assert cache[i] == [cache[i][0]] + after[i];
  }

  /** Drains the front pair of chain `i`, all chains before it being empty. */
  method TakeFront<V>(m: IntMap<V>, i: nat) returns (item: Option<(nat, V)>)
    requires m.Valid() && i < |m.cache| && m.cache[i] != []
    requires forall b :: 0 <= b < i ==> m.cache[b] == []
    modifies m
    ensures m.Valid()
    ensures item == Some(old(m.cache[i][0]))
    ensures old(Flatten(m.cache)) == [item.value] + Flatten(m.cache)
    ensures m.Contents == old(m.Contents) - {item.value.0}
    ensures m.count == old(m.count) - 1
    ensures m.size == old(m.size) && m.modMask == old(m.modMask) && |m.cache| == |old(m.cache)|
    ensures m.loadFactor == old(m.loadFactor)
  {
    var chain := m.cache[i];
    var rest := chain[1..];
    item := Some(chain[0]);
    ghost var shrunk := m.Contents - {chain[0].0};
    var after := m.cache[i := rest];
    RemoveFromChain(m.cache, m.width, m.modMask, m.Contents, i, 0, rest);
    FlattenDropsFront(m.cache, i);
    m.count := m.count - 1;
    m.cache := after;
    m.Contents := shrunk;
  }

  /**
   * `drain()` run to the end: it yields exactly what `iter()` would have,
   * in that order, and leaves every chain empty, `count` zero and the
   * capacity as it was.
   */
  method DrainAll<V>(m: IntMap<V>) returns (items: seq<(nat, V)>)
    requires m.Valid()
    modifies m
    ensures m.Valid()
    ensures items == old(Iter(m))
    ensures m.Contents == map[] && m.count == 0
    ensures |m.cache| == |old(m.cache)| && forall b :: 0 <= b < |m.cache| ==> m.cache[b] == []
    ensures m.size == old(m.size) && m.modMask == old(m.modMask)
  {
    ghost var all := Iter(m);
    items := [];
    while true
      invariant m.Valid()
      invariant all == items + Iter(m)
      invariant m.size == old(m.size) && m.modMask == old(m.modMask) && |m.cache| == |old(m.cache)|
      decreases |Iter(m)|
    {
      var next := DrainNext(m);
      if next.None? {
        break;
      }
      Regroup(items, next.value, Iter(m));
      items := items + [next.value];
    }
    FlattenNothing(m.cache);
    assert |m.Contents| == |Iter(m)| == 0;
  }

  /** Moving one item from the front of the rest to the back of what was yielded. */
  lemma Regroup<T>(front: seq<T>, x: T, back: seq<T>)
    ensures front + ([x] + back) == (front + [x]) + back
  {
  }

  // ----- Extend, FromIterator -----

  /** `extend(pairs)`: `insert` each pair in order, so a later pair for a key wins. */
  method Extend<V>(m: IntMap<V>, pairs: seq<(nat, V)>)
    requires m.Valid()
    modifies m
    ensures m.Valid() && m.loadFactor == old(m.loadFactor)
    ensures m.Contents == InsertAll(old(m.Contents), pairs)
  {
    for i := 0 to |pairs|
      invariant m.Valid() && m.loadFactor == old(m.loadFactor)
      invariant m.Contents == InsertAll(old(m.Contents), pairs[..i])
    {
      assert pairs[..i + 1][..i] == pairs[..i];
      var _ := m.Insert(pairs[i].0, pairs[i].1);
    }
    assert pairs[..|pairs|] == pairs;
  }

  /**
   * `from_iter(pairs)`: a map with capacity for the iterator's lower size
   * bound (any value: an overstated hint only allocates more chains), then
   * every pair inserted in order.
   */
  method FromIter<V>(w: Width, pairs: seq<(nat, V)>, lowerBound: nat) returns (m: IntMap<V>)
    ensures fresh(m) && m.Valid() && m.width == w && m.loadFactor == DefaultLoadFactor
    ensures m.Contents == InsertAll(map[], pairs)
  {
    m := new IntMap<V>.WithCapacity(w, lowerBound);
    Extend(m, pairs);
  }
}
