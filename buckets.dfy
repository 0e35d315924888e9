/**
 * The bucket array as a value: a sequence of chains of (key, value) pairs,
 * keys being canonical integers. This module holds the chain operations the
 * map performs (the `Vec` operations it relies on), the flattening that all
 * iterators share, and the representation invariant that ties a bucket array
 * to the abstract map it stores, with the lemmas each map operation needs.
 */
module Buckets {
  import opened Int
  import opened IntKey

  datatype Option<T> = None | Some(value: T)

  type Chain<V> = seq<(nat, V)>

  /**
   * Where a `&mut V` handed out by the map points: the value of pair `valsIx`
   * of chain `cacheIx`.
   */
  datatype Slot = Slot(cacheIx: nat, valsIx: nat)

  predicate SlotIn<V>(cache: seq<Chain<V>>, s: Slot) {
    s.cacheIx < |cache| && s.valsIx < |cache[s.cacheIx]|
  }

  /** The chain a key lives in: `calc_index(key, mask)` with the width's prime. */
  function BucketOf(w: Width, mask: nat, key: nat): (r: nat)
    ensures r <= mask
  {
    CalcIndex(w, key, mask, Prime(w))
  }

  /** The pairs of all chains, chain 0 first: what `cache.iter().flatten()` yields. */
  function Flatten<V>(cache: seq<Chain<V>>): seq<(nat, V)> {
    if |cache| == 0 then [] else Flatten(cache[..|cache| - 1]) + cache[|cache| - 1]
  }

  lemma {:induction false} FlattenAppend<V>(a: seq<Chain<V>>, b: seq<Chain<V>>)
    ensures Flatten(a + b) == Flatten(a) + Flatten(b)
    decreases |b|
  {
    if |b| > 0 {
      var n := |b| - 1;
      assert (a + b)[..|a + b| - 1] == a + b[..n];
      FlattenAppend(a, b[..n]);
    } else {
      assert a + b == a;
    }
  }

  lemma {:induction false} FlattenMember<V>(cache: seq<Chain<V>>, p: (nat, V))
    ensures p in Flatten(cache) <==> exists i :: 0 <= i < |cache| && p in cache[i]
    decreases |cache|
  {
    if |cache| > 0 {
      var n := |cache| - 1;
      FlattenMember(cache[..n], p);
      if p in Flatten(cache[..n]) {
        var i :| 0 <= i < n && p in cache[..n][i];
        assert p in cache[i];
      }
      if exists i :: 0 <= i < |cache| && p in cache[i] {
        var i :| 0 <= i < |cache| && p in cache[i];
        if i < n {
          assert p in cache[..n][i];
        }
      }
    }
  }

  /** Replacing one chain changes the total length by the difference in its length. */
  lemma FlattenUpdate<V>(cache: seq<Chain<V>>, i: nat, c: Chain<V>)
    requires i < |cache|
    ensures |Flatten(cache[i := c])| == |Flatten(cache)| - |cache[i]| + |c|
  {
    assert cache == cache[..i] + [cache[i]] + cache[i + 1..];
    assert cache[i := c] == cache[..i] + [c] + cache[i + 1..];
    FlattenAppend(cache[..i] + [cache[i]], cache[i + 1..]);
    FlattenAppend(cache[..i], [cache[i]]);
    FlattenAppend(cache[..i] + [c], cache[i + 1..]);
    FlattenAppend(cache[..i], [c]);
    assert [c][..0] == [] && [cache[i]][..0] == [c][..0];
  }

  /** A bucket array whose chains are all empty holds nothing. */
  lemma {:induction false} FlattenEmptyChains<V>(cache: seq<Chain<V>>)
    requires forall i :: 0 <= i < |cache| ==> cache[i] == []
    ensures Flatten(cache) == []
    decreases |cache|
  {
    if |cache| > 0 {
      FlattenEmptyChains(cache[..|cache| - 1]);
    }
  }

  /** The keys of a sequence of pairs. */
  function KeySet<V>(s: seq<(nat, V)>): set<nat> {
    set j | 0 <= j < |s| :: s[j].0
  }

  /** Without a repeated key there are as many keys as pairs. */
  lemma {:induction false} KeySetSize<V>(s: seq<(nat, V)>)
    requires KeysDistinct(s)
    ensures |KeySet(s)| == |s|
    decreases |s|
  {
    if |s| > 0 {
      var init := s[..|s| - 1];
      var last := s[|s| - 1];
      assert forall j :: 0 <= j < |init| ==> init[j] == s[j];
      KeySetSize(init);
      assert KeySet(s) == KeySet(init) + {last.0};
    }
  }

  /** No two pairs of a sequence share a key. */
  predicate KeysDistinct<V>(s: seq<(nat, V)>) {
    forall j1, j2 :: 0 <= j1 < j2 < |s| ==> s[j1].0 != s[j2].0
  }

  // ----- The representation invariant -----

  /** Every pair sits in the chain its key hashes to. */
  ghost predicate Placed<V>(cache: seq<Chain<V>>, w: Width, mask: nat) {
    forall i, p :: 0 <= i < |cache| && p in cache[i] ==> BucketOf(w, mask, p.0) == i
  }

  /** Every stored pair is an entry of the abstract map. */
  ghost predicate Sound<V>(cache: seq<Chain<V>>, contents: map<nat, V>) {
    forall i, p :: 0 <= i < |cache| && p in cache[i] ==> p.0 in contents && contents[p.0] == p.1
  }

  /** Every entry of the abstract map is stored, in its key's chain. */
  ghost predicate Complete<V>(cache: seq<Chain<V>>, w: Width, mask: nat, contents: map<nat, V>) {
    forall k :: k in contents ==>
      BucketOf(w, mask, k) < |cache| && (k, contents[k]) in cache[BucketOf(w, mask, k)]
  }

  ghost predicate ChainsDistinct<V>(cache: seq<Chain<V>>) {
    forall i :: 0 <= i < |cache| ==> KeysDistinct(cache[i])
  }

  /** The bucket array stores exactly the map `contents`, each key once, in its chain. */
  ghost predicate Represents<V>(cache: seq<Chain<V>>, w: Width, mask: nat, contents: map<nat, V>) {
    && Placed(cache, w, mask)
    && Sound(cache, contents)
    && Complete(cache, w, mask, contents)
    && ChainsDistinct(cache)
  }

  /** An array of empty chains represents the empty map. */
  lemma EmptyRepresents<V>(cache: seq<Chain<V>>, w: Width, mask: nat)
    requires forall i :: 0 <= i < |cache| ==> cache[i] == []
    ensures Represents(cache, w, mask, map[])
  {
  }

  /**
   * Replacing one chain: the new array represents `contents'` when the new
   * chain holds exactly the entries of `contents'` that hash to it and the
   * other keys keep their entries.
   */
  lemma UpdateChain<V>(cache: seq<Chain<V>>, w: Width, mask: nat, contents: map<nat, V>,
                       b: nat, chain: Chain<V>, contents': map<nat, V>)
    requires Represents(cache, w, mask, contents)
    requires b < |cache|
    requires KeysDistinct(chain)
    requires forall p :: p in chain ==>
      BucketOf(w, mask, p.0) == b && p.0 in contents' && contents'[p.0] == p.1
    requires forall k :: k in contents' && BucketOf(w, mask, k) == b ==> (k, contents'[k]) in chain
    requires forall k :: BucketOf(w, mask, k) != b ==>
      (k in contents' <==> k in contents) && (k in contents ==> contents'[k] == contents[k])
    ensures Represents(cache[b := chain], w, mask, contents')
  {
  }

  // ----- Searching a chain -----

  /** `vals.iter().position(|kv| kv.0 == key)`: the first position holding `key`. */
  function FindKey<V>(chain: Chain<V>, key: nat): (r: Option<nat>)
    ensures r.Some? ==> r.value < |chain| && chain[r.value].0 == key
    ensures r.Some? ==> forall j :: 0 <= j < r.value ==> chain[j].0 != key
    ensures r.None? ==> forall j :: 0 <= j < |chain| ==> chain[j].0 != key
  {
    if |chain| == 0 then None
    else if chain[0].0 == key then Some(0)
    else match FindKey(chain[1..], key)
      case None => None
      case Some(j) => Some(j + 1)
  }

  /** Looking a key up in its chain answers for the whole map. */
  lemma FindKeyAnswers<V>(cache: seq<Chain<V>>, w: Width, mask: nat, contents: map<nat, V>, key: nat)
    requires Represents(cache, w, mask, contents)
    requires BucketOf(w, mask, key) < |cache|
    ensures var chain := cache[BucketOf(w, mask, key)];
      match FindKey(chain, key)
      case Some(j) => key in contents && chain[j] == (key, contents[key])
      case None => key !in contents
  {
    var b := BucketOf(w, mask, key);
    var chain := cache[b];
    match FindKey(chain, key)
    case Some(j) =>
      assert chain[j] in cache[b];
    case None =>
  }

  // ----- Removing from a chain -----

  /** `Vec::swap_remove`: the last element takes the place of the removed one. */
  function SwapRemove<V>(s: Chain<V>, i: nat): (r: Chain<V>)
    requires i < |s|
    ensures |r| == |s| - 1
    ensures forall j :: 0 <= j < |r| ==> r[j] == (if j == i then s[|s| - 1] else s[j])
  {
    s[i := s[|s| - 1]][..|s| - 1]
  }

  /**
   * The chain left after removing position `pos`, either by `swap_remove` or,
   * for the front, by draining it: the other positions, and only those.
   */
  ghost predicate Drops<V>(chain: Chain<V>, pos: nat, rest: Chain<V>)
    requires pos < |chain|
  {
    rest == SwapRemove(chain, pos) || (pos == 0 && rest == chain[1..])
  }

  lemma DropsOrigin<V>(chain: Chain<V>, pos: nat, rest: Chain<V>, j: nat)
    requires pos < |chain| && Drops(chain, pos, rest) && j < |rest|
    ensures var j' := if rest == SwapRemove(chain, pos) then (if j == pos then |chain| - 1 else j) else j + 1;
      j' < |chain| && j' != pos && rest[j] == chain[j']
  {
  }

  lemma DropsKeeps<V>(chain: Chain<V>, pos: nat, rest: Chain<V>, j: nat)
    requires pos < |chain| && Drops(chain, pos, rest) && j < |chain| && j != pos
    ensures chain[j] in rest
  {
    if rest == SwapRemove(chain, pos) {
      var i := if j == |chain| - 1 then pos else j;
      assert rest[i] == chain[j];
    } else {
      assert rest[j - 1] == chain[j];
    }
  }

  lemma DropsDistinct<V>(chain: Chain<V>, pos: nat, rest: Chain<V>)
    requires pos < |chain| && Drops(chain, pos, rest) && KeysDistinct(chain)
    ensures KeysDistinct(rest)
  {
    forall j1, j2 | 0 <= j1 < j2 < |rest| ensures rest[j1].0 != rest[j2].0 {
      DropsOrigin(chain, pos, rest, j1);
      DropsOrigin(chain, pos, rest, j2);
    }
  }

  /** Removing the pair at `pos` from chain `b` removes exactly its key from the map. */
  lemma RemoveFromChain<V>(cache: seq<Chain<V>>, w: Width, mask: nat, contents: map<nat, V>,
                           b: nat, pos: nat, chain: Chain<V>)
    requires Represents(cache, w, mask, contents)
    requires b < |cache| && pos < |cache[b]|
    requires Drops(cache[b], pos, chain)
    ensures cache[b][pos].0 in contents && contents[cache[b][pos].0] == cache[b][pos].1
    ensures Represents(cache[b := chain], w, mask, contents - {cache[b][pos].0})
    ensures |Flatten(cache[b := chain])| == |Flatten(cache)| - 1
  {
    var old_ := cache[b];
    var key := old_[pos].0;
    assert old_[pos] in cache[b];
    var contents' := contents - {key};
    forall p | p in chain
      ensures BucketOf(w, mask, p.0) == b && p.0 in contents' && contents'[p.0] == p.1
    {
      var j :| 0 <= j < |chain| && chain[j] == p;
      DropsOrigin(old_, pos, chain, j);
      var j' := if chain == SwapRemove(old_, pos) then (if j == pos then |old_| - 1 else j) else j + 1;
      assert old_[j'] in cache[b];
    }
    forall k | k in contents' && BucketOf(w, mask, k) == b
      ensures (k, contents'[k]) in chain
    {
      assert (k, contents[k]) in cache[b];
      var j :| 0 <= j < |old_| && old_[j] == (k, contents[k]);
      DropsKeeps(old_, pos, chain, j);
    }
    DropsDistinct(old_, pos, chain);
    UpdateChain(cache, w, mask, contents, b, chain, contents');
    FlattenUpdate(cache, b, chain);
  }

  /** What `remove` leaves in a key's chain: the chain minus the key's first pair. */
  function RemoveKey<V>(chain: Chain<V>, key: nat): Chain<V> {
    match FindKey(chain, key)
    case Some(pos) => SwapRemove(chain, pos)
    case None => chain
  }

  /** Removing a key from its chain removes exactly that key from the map. */
  lemma RemoveKeyFromChain<V>(cache: seq<Chain<V>>, w: Width, mask: nat, contents: map<nat, V>, key: nat)
    requires Represents(cache, w, mask, contents)
    requires BucketOf(w, mask, key) < |cache|
    ensures var b := BucketOf(w, mask, key);
      && Represents(cache[b := RemoveKey(cache[b], key)], w, mask, contents - {key})
      && |Flatten(cache[b := RemoveKey(cache[b], key)])|
         == |Flatten(cache)| - (if key in contents then 1 else 0)
  {
    var b := BucketOf(w, mask, key);
    FindKeyAnswers(cache, w, mask, contents, key);
    match FindKey(cache[b], key)
    case Some(pos) =>
      RemoveFromChain(cache, w, mask, contents, b, pos, RemoveKey(cache[b], key));
    case None =>
      assert cache[b := cache[b]] == cache;
      assert contents - {key} == contents;
  }

  // ----- Inserting into a chain -----

  /**
   * The chain after `insert(key, value)`: an existing pair for `key` is
   * swap-removed, then the new pair is pushed.
   */
  function Upsert<V>(chain: Chain<V>, key: nat, value: V): Chain<V> {
    match FindKey(chain, key)
    case Some(pos) => SwapRemove(chain, pos) + [(key, value)]
    case None => chain + [(key, value)]
  }

  lemma UpsertIntoChain<V>(cache: seq<Chain<V>>, w: Width, mask: nat, contents: map<nat, V>,
                           key: nat, value: V)
    requires Represents(cache, w, mask, contents)
    requires BucketOf(w, mask, key) < |cache|
    ensures var b := BucketOf(w, mask, key);
      && Represents(cache[b := Upsert(cache[b], key, value)], w, mask, contents[key := value])
      && |Flatten(cache[b := Upsert(cache[b], key, value)])|
         == |Flatten(cache)| + (if key in contents then 0 else 1)
  {
    FindKeyAnswers(cache, w, mask, contents, key);
    if key in contents {
      UpsertReplace(cache, w, mask, contents, key, value);
    } else {
      UpsertFresh(cache, w, mask, contents, key, value);
    }
  }

  /** Upserting a present key: swap-remove its pair, then push the new one. */
  lemma UpsertReplace<V>(cache: seq<Chain<V>>, w: Width, mask: nat, contents: map<nat, V>,
                         key: nat, value: V)
    requires Represents(cache, w, mask, contents)
    requires BucketOf(w, mask, key) < |cache|
    requires FindKey(cache[BucketOf(w, mask, key)], key).Some?
    ensures var b := BucketOf(w, mask, key);
      && Represents(cache[b := Upsert(cache[b], key, value)], w, mask, contents[key := value])
      && |Flatten(cache[b := Upsert(cache[b], key, value)])| == |Flatten(cache)|
  {
    var b := BucketOf(w, mask, key);
    var chain := cache[b];
    var pos := FindKey(chain, key).value;
    var rest := SwapRemove(chain, pos);
    var mid := cache[b := rest];
    var contentsMid := contents - {key};
    RemoveFromChain(cache, w, mask, contents, b, pos, rest);
    UpdateTwice(cache, b, rest, rest + [(key, value)]);
    UpsertFresh(mid, w, mask, contentsMid, key, value);
    RemoveThenAdd(contents, key, value);
  }

  lemma UpdateTwice<T>(s: seq<T>, i: nat, x: T, y: T)
    requires i < |s|
    ensures s[i := x][i] == x
    ensures s[i := x][i := y] == s[i := y]
  {
  }

  lemma RemoveThenAdd<V>(contents: map<nat, V>, key: nat, value: V)
    ensures (contents - {key})[key := value] == contents[key := value]
  {
  }

  /** Pushing a pair whose key is absent adds exactly that entry. */
  lemma UpsertFresh<V>(cache: seq<Chain<V>>, w: Width, mask: nat, contents: map<nat, V>,
                       key: nat, value: V)
    requires Represents(cache, w, mask, contents)
    requires BucketOf(w, mask, key) < |cache|
    requires key !in contents
    ensures var b := BucketOf(w, mask, key);
      && Represents(cache[b := cache[b] + [(key, value)]], w, mask, contents[key := value])
      && |Flatten(cache[b := cache[b] + [(key, value)]])| == |Flatten(cache)| + 1
  {
    var b := BucketOf(w, mask, key);
    var chain := cache[b] + [(key, value)];
    forall p | p in cache[b] ensures p.0 != key {
    }
    PushDistinct(cache[b], (key, value));
    UpdateChain(cache, w, mask, contents, b, chain, contents[key := value]);
    FlattenUpdate(cache, b, chain);
  }

  /** Pushing a pair whose key a chain lacks keeps the chain's keys distinct. */
  lemma PushDistinct<V>(chain: Chain<V>, p: (nat, V))
    requires KeysDistinct(chain)
    requires forall q :: q in chain ==> q.0 != p.0
    ensures KeysDistinct(chain + [p])
  {
    var c := chain + [p];
    forall j1, j2 | 0 <= j1 < j2 < |c| ensures c[j1].0 != c[j2].0 {
      if j2 == |c| - 1 {
        assert c[j1] in chain;
      }
    }
  }

  // ----- Writing a value in place -----

  /** Overwriting the value at a position: same keys, one entry updated. */
  lemma StoreInChain<V>(cache: seq<Chain<V>>, w: Width, mask: nat, contents: map<nat, V>,
                        b: nat, pos: nat, value: V)
    requires Represents(cache, w, mask, contents)
    requires b < |cache| && pos < |cache[b]|
    ensures var key := cache[b][pos].0;
      && Represents(cache[b := cache[b][pos := (key, value)]], w, mask, contents[key := value])
      && |Flatten(cache[b := cache[b][pos := (key, value)]])| == |Flatten(cache)|
  {
    var old_ := cache[b];
    var key := old_[pos].0;
    var chain := old_[pos := (key, value)];
    var contents' := contents[key := value];
    assert old_[pos] in cache[b];
    forall p | p in chain
      ensures BucketOf(w, mask, p.0) == b && p.0 in contents' && contents'[p.0] == p.1
    {
      var j :| 0 <= j < |chain| && chain[j] == p;
      assert old_[j] in cache[b];
      if j != pos {
        assert old_[j].0 != key;
      }
    }
    forall k | k in contents' && BucketOf(w, mask, k) == b
      ensures (k, contents'[k]) in chain
    {
      if k == key {
        assert chain[pos] == (k, value);
      } else {
        assert (k, contents[k]) in cache[b];
        var j :| 0 <= j < |old_| && old_[j] == (k, contents[k]);
        assert chain[j] == old_[j];
      }
    }
    UpdateChain(cache, w, mask, contents, b, chain, contents');
    FlattenUpdate(cache, b, chain);
  }

  // ----- Keeping only some pairs -----

  /** `Vec::retain`: the pairs satisfying `keep`, in their order. */
  function Filter<V>(s: Chain<V>, keep: (nat, V) -> bool): (r: Chain<V>)
    ensures |r| <= |s|
    ensures forall j :: 0 <= j < |r| ==> r[j] in s && keep(r[j].0, r[j].1)
    ensures forall j :: 0 <= j < |s| && keep(s[j].0, s[j].1) ==> s[j] in r
  {
    if |s| == 0 then []
    else
      var init := s[..|s| - 1];
      var rest := Filter(init, keep);
      var last := s[|s| - 1];
      assert s == init + [last];
      if keep(last.0, last.1) then rest + [last] else rest
  }

  /** Filtering a chain without repeated keys gives a chain without repeated keys. */
  lemma {:induction false} FilterKeysDistinct<V>(s: Chain<V>, keep: (nat, V) -> bool)
    requires KeysDistinct(s)
    ensures KeysDistinct(Filter(s, keep))
    decreases |s|
  {
    if |s| > 0 {
      var init := s[..|s| - 1];
      var last := s[|s| - 1];
      FilterKeysDistinct(init, keep);
      var rest := Filter(init, keep);
      forall j | 0 <= j < |rest| ensures rest[j].0 != last.0 {
        var i :| 0 <= i < |init| && init[i] == rest[j];
      }
    }
  }

  /** Filtering chain `b` drops exactly the entries of that chain that fail `keep`. */
  lemma FilterChain<V>(cache: seq<Chain<V>>, w: Width, mask: nat, contents: map<nat, V>,
                       b: nat, keep: (nat, V) -> bool)
    requires Represents(cache, w, mask, contents)
    requires b < |cache|
    ensures Represents(cache[b := Filter(cache[b], keep)], w, mask,
                       map k | k in contents && (BucketOf(w, mask, k) != b || keep(k, contents[k])) :: contents[k])
    ensures |Flatten(cache[b := Filter(cache[b], keep)])|
            == |Flatten(cache)| - (|cache[b]| - |Filter(cache[b], keep)|)
  {
    var chain := Filter(cache[b], keep);
    FilterKeysDistinct(cache[b], keep);
    var contents' := map k | k in contents && (BucketOf(w, mask, k) != b || keep(k, contents[k])) :: contents[k];
    forall p | p in chain
      ensures BucketOf(w, mask, p.0) == b && p.0 in contents' && contents'[p.0] == p.1
    {
      assert p in cache[b];
    }
    forall k | k in contents' && BucketOf(w, mask, k) == b
      ensures (k, contents'[k]) in chain
    {
      assert (k, contents[k]) in cache[b];
    }
    UpdateChain(cache, w, mask, contents, b, chain, contents');
    FlattenUpdate(cache, b, chain);
  }

  // ----- What the flattened array holds -----

  /** Chains are placed and distinct, so no key occurs twice in the whole array. */
  lemma {:induction false} FlattenKeysDistinct<V>(cache: seq<Chain<V>>, w: Width, mask: nat)
    requires Placed(cache, w, mask) && ChainsDistinct(cache)
    ensures KeysDistinct(Flatten(cache))
    decreases |cache|
  {
    if |cache| > 0 {
      var n := |cache| - 1;
      var pre: seq<Chain<V>> := cache[..n];
      assert Placed(pre, w, mask) by {
        forall i, p: (nat, V) | 0 <= i < |pre| && p in pre[i] ensures BucketOf(w, mask, p.0) == i {
          assert p in cache[i];
        }
      }
      FlattenKeysDistinct(pre, w, mask);
      var f: seq<(nat, V)>, last: Chain<V> := Flatten(pre), cache[n];
      forall j1, j2 | 0 <= j1 < j2 < |f + last|
        ensures (f + last)[j1].0 != (f + last)[j2].0
      {
        if j1 < |f| <= j2 {
          var p, q := f[j1], last[j2 - |f|];
          FlattenMember(pre, p);
          var i :| 0 <= i < n && p in pre[i];
          assert p in cache[i];
          assert q in cache[n];
        } else if |f| <= j1 {
          assert (f + last)[j1] == last[j1 - |f|] && (f + last)[j2] == last[j2 - |f|];
        }
      }
    }
  }

  /**
   * A sequence listing each entry of a map once, and nothing else, is as long
   * as the map has keys.
   */
  lemma {:induction false} ListingSize<V>(s: seq<(nat, V)>, contents: map<nat, V>)
    requires KeysDistinct(s)
    requires forall p :: p in s ==> p.0 in contents && contents[p.0] == p.1
    requires forall k :: k in contents ==> (k, contents[k]) in s
    ensures |contents| == |s|
    decreases |s|
  {
    if |s| == 0 {
      assert contents.Keys == {};
    } else {
      var n := |s| - 1;
      var last := s[n];
      var contents' := contents - {last.0};
      assert s == s[..n] + [last];
      forall p | p in s[..n] ensures p.0 in contents' && contents'[p.0] == p.1 {
        var j :| 0 <= j < n && s[j] == p;
      }
      forall k | k in contents' ensures (k, contents'[k]) in s[..n] {
        assert (k, contents[k]) in s;
      }
      assert KeysDistinct(s[..n]);
      ListingSize(s[..n], contents');
      assert contents'.Keys == contents.Keys - {last.0};
    }
  }

  /**
   * What every iterator relies on: the flattened array lists each entry of the
   * represented map exactly once, so its length is the number of keys.
   */
  lemma FlattenListsContents<V>(cache: seq<Chain<V>>, w: Width, mask: nat, contents: map<nat, V>)
    requires Represents(cache, w, mask, contents)
    ensures KeysDistinct(Flatten(cache))
    ensures forall p :: p in Flatten(cache) <==> p.0 in contents && contents[p.0] == p.1
    ensures |Flatten(cache)| == |contents|
  {
    FlattenKeysDistinct(cache, w, mask);
    var f := Flatten(cache);
    forall p | p in f ensures p.0 in contents && contents[p.0] == p.1 {
      FlattenMember(cache, p);
    }
    forall p: (nat, V) | p.0 in contents && contents[p.0] == p.1 ensures p in f {
      FlattenMember(cache, p);
      assert p in cache[BucketOf(w, mask, p.0)];
    }
    forall k | k in contents ensures (k, contents[k]) in f {
      assert (k, contents[k]).0 == k;
    }
    ListingSize(Flatten(cache), contents);
  }

  /** The flattened array visits the chains in bucket order. */
  lemma {:induction false} FlattenBucketOrder<V>(cache: seq<Chain<V>>, w: Width, mask: nat)
    requires Placed(cache, w, mask)
    ensures forall t1, t2 :: 0 <= t1 < t2 < |Flatten(cache)| ==>
      BucketOf(w, mask, Flatten(cache)[t1].0) <= BucketOf(w, mask, Flatten(cache)[t2].0)
    ensures forall t :: 0 <= t < |Flatten(cache)| ==> BucketOf(w, mask, Flatten(cache)[t].0) < |cache|
    decreases |cache|
  {
    if |cache| > 0 {
      var n := |cache| - 1;
      var pre: seq<Chain<V>> := cache[..n];
      assert Placed(pre, w, mask) by {
        forall i, p: (nat, V) | 0 <= i < |pre| && p in pre[i] ensures BucketOf(w, mask, p.0) == i {
          assert p in cache[i];
        }
      }
      FlattenBucketOrder(pre, w, mask);
      var f: seq<(nat, V)>, last: Chain<V> := Flatten(pre), cache[n];
      assert Flatten(cache) == f + last;
      forall t | |f| <= t < |f + last| ensures BucketOf(w, mask, (f + last)[t].0) == n {
        assert (f + last)[t] in cache[n];
      }
    }
  }

  // ----- Inserting a sequence of pairs -----

  /** The map after inserting `pairs` one after the other into `c`. */
  function InsertAll<V>(c: map<nat, V>, pairs: seq<(nat, V)>): map<nat, V> {
    if |pairs| == 0 then c
    else
      var n := |pairs| - 1;
      InsertAll(c, pairs[..n])[pairs[n].0 := pairs[n].1]
  }

  /** The keys after inserting: the old ones and every key the pairs mention. */
  lemma {:induction false} InsertAllKeys<V>(c: map<nat, V>, pairs: seq<(nat, V)>, k: nat)
    ensures k in InsertAll(c, pairs) <==> k in c || exists j :: 0 <= j < |pairs| && pairs[j].0 == k
    decreases |pairs|
  {
    if |pairs| > 0 {
      var n := |pairs| - 1;
      InsertAllKeys(c, pairs[..n], k);
      if exists j :: 0 <= j < n && pairs[..n][j].0 == k {
        var j :| 0 <= j < n && pairs[..n][j].0 == k;
        assert pairs[j].0 == k;
      }
      if exists j :: 0 <= j < |pairs| && pairs[j].0 == k {
        var j :| 0 <= j < |pairs| && pairs[j].0 == k;
        if j < n {
          assert pairs[..n][j].0 == k;
        }
      }
    }
  }

  /** A later pair wins: the value of a key is that of its last pair. */
  lemma {:induction false} InsertAllLast<V>(c: map<nat, V>, pairs: seq<(nat, V)>, j: nat)
    requires j < |pairs|
    requires forall j' :: j < j' < |pairs| ==> pairs[j'].0 != pairs[j].0
    ensures pairs[j].0 in InsertAll(c, pairs) && InsertAll(c, pairs)[pairs[j].0] == pairs[j].1
    decreases |pairs|
  {
    var n := |pairs| - 1;
    if j < n {
      InsertAllLast(c, pairs[..n], j);
    }
  }

  /** A key no pair mentions keeps its old value. */
  lemma {:induction false} InsertAllUntouched<V>(c: map<nat, V>, pairs: seq<(nat, V)>, k: nat)
    requires k in c
    requires forall j :: 0 <= j < |pairs| ==> pairs[j].0 != k
    ensures k in InsertAll(c, pairs) && InsertAll(c, pairs)[k] == c[k]
    decreases |pairs|
  {
    if |pairs| > 0 {
      InsertAllUntouched(c, pairs[..|pairs| - 1], k);
    }
  }

  /** Inserting a duplicate-free listing of a map into nothing rebuilds that map. */
  lemma InsertAllListing<V>(pairs: seq<(nat, V)>, contents: map<nat, V>)
    requires KeysDistinct(pairs)
    requires forall p :: p in pairs <==> p.0 in contents && contents[p.0] == p.1
    ensures InsertAll(map[], pairs) == contents
  {
    var m := InsertAll(map[], pairs);
    forall k ensures k in m <==> k in contents {
      InsertAllKeys(map[], pairs, k);
      if k in m {
        var j :| 0 <= j < |pairs| && pairs[j].0 == k;
        assert pairs[j] in pairs;
      }
      if k in contents {
        assert (k, contents[k]) in pairs;
        var j :| 0 <= j < |pairs| && pairs[j] == (k, contents[k]);
        assert pairs[j].0 == k;
      }
    }
    forall k | k in contents ensures m[k] == contents[k] {
      assert (k, contents[k]) in pairs;
      var j :| 0 <= j < |pairs| && pairs[j] == (k, contents[k]);
      InsertAllLast(map[], pairs, j);
    }
  }

  // ----- Rehashing into a larger array -----

  /** Inserting the flattened array into nothing rebuilds the map it represents. */
  lemma FlattenRebuilds<V>(cache: seq<Chain<V>>, w: Width, mask: nat, contents: map<nat, V>)
    requires Represents(cache, w, mask, contents)
    ensures KeysDistinct(Flatten(cache))
    ensures InsertAll(map[], Flatten(cache)) == contents
  {
    FlattenListsContents(cache, w, mask, contents);
    InsertAllListing(Flatten(cache), contents);
  }


  /**
   * One step of `increase_cache`: with the first `t` pairs of a duplicate-free
   * listing already pushed into `built`, pushing pair `t` onto the end of its
   * new chain makes `built` hold the first `t + 1`.
   */
  lemma RehashStep<V>(built: seq<Chain<V>>, w: Width, mask: nat, pairs: seq<(nat, V)>, t: nat)
    requires t < |pairs| && KeysDistinct(pairs)
    requires Represents(built, w, mask, InsertAll(map[], pairs[..t]))
    requires BucketOf(w, mask, pairs[t].0) < |built|
    ensures var b := BucketOf(w, mask, pairs[t].0);
      && Represents(built[b := built[b] + [pairs[t]]], w, mask, InsertAll(map[], pairs[..t + 1]))
      && |Flatten(built[b := built[b] + [pairs[t]]])| == |Flatten(built)| + 1
  {
    var p := pairs[t];
    var before := InsertAll(map[], pairs[..t]);
    InsertAllKeys(map[], pairs[..t], p.0);
    UpsertFresh(built, w, mask, before, p.0, p.1);
    assert pairs[..t + 1][..t] == pairs[..t];
  }

  // ----- Chain statistics -----

  /** Number of non-empty chains: `load()`. */
  function CountNonEmpty<V>(cache: seq<Chain<V>>): (r: nat)
    ensures r <= |cache| && r <= |Flatten(cache)|
    ensures |Flatten(cache)| > 0 ==> r > 0
  {
    if |cache| == 0 then 0
    else CountNonEmpty(cache[..|cache| - 1]) + (if |cache[|cache| - 1]| > 0 then 1 else 0)
  }

  /** Number of chains holding exactly `len` pairs. */
  function ChainsOfLength<V>(cache: seq<Chain<V>>, len: nat): nat {
    if |cache| == 0 then 0
    else ChainsOfLength(cache[..|cache| - 1], len) + (if |cache[|cache| - 1]| == len then 1 else 0)
  }

  /** One more occurrence of `key`: a missing counter starts at one. */
  function Tally(counts: map<nat, nat>, key: nat): (r: map<nat, nat>)
    ensures key in r && r[key] == (if key in counts then counts[key] + 1 else 1)
    ensures forall k :: k != key ==> (k in r <==> k in counts) && (k in counts ==> r[k] == counts[k])
  {
    counts[key := (if key in counts then counts[key] else 0) + 1]
  }

  /**
   * The histogram `collisions()` builds, chain by chain: for each chain longer
   * than one, the counter of its length goes up by one.
   */
  function Histogram<V>(cache: seq<Chain<V>>): map<nat, nat> {
    if |cache| == 0 then map[]
    else
      var h := Histogram(cache[..|cache| - 1]);
      var len := |cache[|cache| - 1]|;
      if len > 1 then Tally(h, len) else h
  }

  /** When every chain holds `len` pairs, all of them are counted under `len` and none under another length. */
  lemma {:induction false} UniformChainsOfLength<V>(cache: seq<Chain<V>>, len: nat, other: nat)
    requires forall b :: 0 <= b < |cache| ==> |cache[b]| == len
    ensures ChainsOfLength(cache, len) == |cache|
    ensures other != len ==> ChainsOfLength(cache, other) == 0
    decreases |cache|
  {
    if |cache| > 0 {
      UniformChainsOfLength(cache[..|cache| - 1], len, other);
    }
  }

  /** A histogram of chains all of length `len > 1` has the single entry `len: |cache|`. */
  lemma UniformHistogram<V>(cache: seq<Chain<V>>, len: nat)
    requires len > 1 && |cache| > 0
    requires forall b :: 0 <= b < |cache| ==> |cache[b]| == len
    ensures Histogram(cache) == map[len := |cache|]
  {
    forall other ensures other in Histogram(cache) <==> other == len {
      HistogramCounts(cache, other);
      UniformChainsOfLength(cache, len, other);
    }
    HistogramCounts(cache, len);
    UniformChainsOfLength(cache, len, len);
  }

  /** The histogram maps each length above one to the number of chains that long. */
  lemma {:induction false} HistogramCounts<V>(cache: seq<Chain<V>>, len: nat)
    ensures len in Histogram(cache) <==> len > 1 && ChainsOfLength(cache, len) > 0
    ensures len in Histogram(cache) ==> Histogram(cache)[len] == ChainsOfLength(cache, len)
    decreases |cache|
  {
    if |cache| > 0 {
      HistogramCounts(cache[..|cache| - 1], len);
    }
  }
}
