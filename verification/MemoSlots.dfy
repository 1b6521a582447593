/** Slots of the memo cache: how a poll writes its result into a shard, and the limits of all shards. */
module MemoSlots {
  import opened Wrappers
  import opened BoundedHash

  /** `Waiting` refers to a computation in flight. */
  datatype Slot<Item> = Waiting(future: nat) | Complete(item: Item)

  predicate IsSuffix<T(==)>(t: seq<T>, s: seq<T>) {
    |t| <= |s| && t == s[|s| - |t|..]
  }

  lemma SuffixOfSuffix<T>(u: seq<T>, t: seq<T>, s: seq<T>)
    requires IsSuffix(u, t) && IsSuffix(t, s)
    ensures IsSuffix(u, s)
  {
  }

  lemma {:induction false} LookupWeighs<K, V>(s: Entries<K, V>, key: K, weight: V -> usize)
    requires Lookup(s, key).Some?
    ensures weight(Lookup(s, key).value) as int <= TotalWeight(s, weight)
    decreases |s|
  {
    if s[0].0 != key {
      LookupWeighs(s[1..], key, weight);
    }
  }

  lemma {:induction false} AppendThenWithout<K, V>(s: Entries<K, V>, k: K, v: V)
    requires k !in Keys(s)
    ensures Without(s + [(k, v)], k) == s
  {
    if s != [] {
      assert (s + [(k, v)])[1..] == s[1..] + [(k, v)];
      AppendThenWithout(s[1..], k, v);
    }
  }

  lemma {:induction false} AbsentKey<K, V>(s: Entries<K, V>, k: K)
    requires k !in Keys(s)
    ensures Without(s, k) == s && Lookup(s, k).None?
    decreases |s|
  {
    if s != [] {
      AbsentKey(s[1..], k);
    }
  }

  lemma {:induction false} TrimmedIsSuffix<K, V>(s: Entries<K, V>, n: nat)
    requires DistinctKeys(s)
    ensures IsSuffix(TrimEntries(s, n), s) && DistinctKeys(TrimEntries(s, n)) && Keys(TrimEntries(s, n)) <= Keys(s)
    decreases |s|
  {
    if |s| > n {
      TrimmedIsSuffix(s[1..], n);
    }
  }

  /** The entries besides `key` only lose oldest ones, and `key` ends up with `slot`. */
  ghost predicate Updated<K, V>(before: Entries<K, V>, after: Entries<K, V>, key: K, slot: Option<V>) {
    Lookup(after, key) == slot && IsSuffix(Without(after, key), Without(before, key))
  }

  lemma {:induction false} InsertUpdates<K, V>(before: Entries<K, V>, key: K, v: V, n: nat, w: nat, weight: V -> usize)
    requires DistinctKeys(before)
    ensures Updated(before, Kept(Without(before, key), n, w, weight) + [(key, v)], key, Some(v))
  {
    var others := Without(before, key);
    WithoutRemoves(before, key);
    KeptIsLongestSuffix(others, n, w, weight);
    KeptIsDistinct(others, n, w, weight);
    AppendAdds(Kept(others, n, w, weight), key, v, weight);
    AppendThenWithout(Kept(others, n, w, weight), key, v);
  }

  lemma {:induction false} FailureUpdates<K, V>(before: Entries<K, V>, key: K, n: nat)
    requires DistinctKeys(before)
    ensures var after := TrimEntries(Without(before, key), n);
            Without(after, key) == after && Updated(before, after, key, None)
    ensures Without(Without(before, key), key) == Without(before, key)
    ensures Updated(before, Without(before, key), key, None)
  {
    var others := Without(before, key);
    WithoutRemoves(before, key);
    TrimmedIsSuffix(others, n);
    AbsentKey(others, key);
    AbsentKey(TrimEntries(others, n), key);
  }

  /** An insertion with what it does to the other entries and to a second removal of the key. */
  method TryInsert<K(==), V>(h: BoundedHash<K, V>, key: K, v: V) returns (inserted: Result<Option<V>, (K, V)>)
    requires h.Valid()
    modifies h
    ensures h.Valid()
    ensures inserted.Ok? <==> 1 <= h.entrylimit && h.weight(v) <= h.weightlimit
    ensures inserted.Ok? ==> inserted.value == Lookup(old(h.hash), key) && Updated(old(h.hash), h.hash, key, Some(v))
    ensures inserted.Err? ==> Without(h.hash, key) == h.hash && Updated(old(h.hash), h.hash, key, None)
  {
    ghost var before := h.hash;
    inserted := h.Insert(key, v);
    if inserted.Ok? {
      InsertUpdates(before, key, v, h.entrylimit as int - 1, (h.weightlimit - h.weight(v)) as int, h.weight);
    } else {
      FailureUpdates(before, key, if h.entrylimit == 0 then 0 else h.entrylimit as int - 1);
    }
  }

  /** A value that was in a valid table can be inserted again. */
  lemma FoundFits<K, V>(h: BoundedHash<K, V>, key: K)
    requires h.Valid() && Lookup(h.hash, key).Some?
    ensures 1 <= h.entrylimit && h.weight(Lookup(h.hash, key).value) <= h.weightlimit
  {
    LookupWeighs(h.hash, key, h.weight);
  }

  /** Writes a slot. A complete value that was there is put back, and that always succeeds; a slot too heavy
      to fit leaves the key empty. */
  method SlotInsert<K(==), Item>(h: BoundedHash<K, Slot<Item>>, key: K, slot: Slot<Item>)
    requires h.Valid()
    modifies h
    ensures h.Valid()
    ensures var before := Lookup(old(h.hash), key);
            Updated(old(h.hash), h.hash, key,
                    if h.entrylimit == 0 || h.weight(slot) > h.weightlimit then None
                    else if before.Some? && before.value.Complete? then before
                    else Some(slot))
  {
    ghost var before := h.hash;
    if Lookup(h.hash, key).Some? {
      FoundFits(h, key);
    }
    var inserted := TryInsert(h, key, slot);
    match inserted {
      case Err(_) =>
        var _ := h.Remove(key);
      case Ok(displaced) =>
        if displaced.Some? && displaced.value.Complete? {
          ghost var between := h.hash;
          var putBack := TryInsert(h, key, displaced.value);
          assert putBack.Ok?;
          SuffixOfSuffix(Without(h.hash, key), Without(between, key), Without(before, key));
          h.Trim();
        }
    }
  }

  // All shards together.

  function TotalLen<K, V>(shards: seq<BoundedHash<K, V>>): nat
    reads shards
  {
    if shards == [] then 0 else |shards[0].hash| + TotalLen(shards[1..])
  }

  function TotalSize<K, V>(shards: seq<BoundedHash<K, V>>): nat
    reads shards
  {
    if shards == [] then 0 else TotalWeight(shards[0].hash, shards[0].weight) + TotalSize(shards[1..])
  }

  ghost predicate ShardsWithin<K, V>(shards: seq<BoundedHash<K, V>>, entries: nat, size: nat)
    reads shards
  {
    forall h | h in shards :: h.Valid() && h.entrylimit as int == entries && h.weightlimit as int == size
  }

  function Times(n: nat, each: nat): nat {
    if n == 0 then 0 else each + Times(n - 1, each)
  }

  lemma {:induction false} ShardsAddUp<K, V>(shards: seq<BoundedHash<K, V>>, entries: nat, size: nat)
    requires ShardsWithin(shards, entries, size)
    ensures TotalLen(shards) <= Times(|shards|, entries) && TotalSize(shards) <= Times(|shards|, size)
    decreases |shards|
  {
    if shards != [] {
      assert shards[0] in shards;
      ShardsAddUp(shards[1..], entries, size);
    }
  }

  /** Valid shards that split the limits of a cache evenly hold together no more entries and no more weight
      than the limits of the cache. */
  lemma {:induction false} ShardsKeepLimits<K, V>(shards: seq<BoundedHash<K, V>>, entrylimit: nat, weightlimit: nat)
    requires shards != [] && ShardsWithin(shards, entrylimit / |shards|, weightlimit / |shards|)
    ensures TotalLen(shards) <= entrylimit && TotalSize(shards) <= weightlimit
  {
    ShardsAddUp(shards, entrylimit / |shards|, weightlimit / |shards|);
    PartsFit(|shards|, entrylimit);
    PartsFit(|shards|, weightlimit);
  }

  lemma {:induction false} PartsFit(n: nat, limit: nat)
    requires n > 0
    ensures Times(n, limit / n) <= limit
  {
    TimesIsProduct(n, limit / n);
  }

  lemma {:induction false} TimesIsProduct(n: nat, each: nat)
    ensures Times(n, each) == n * each
  {
    if n > 0 {
      TimesIsProduct(n - 1, each);
    }
  }

  /** The shards of a new cache: each empty, with its part of both limits. */
  method NewShards<K(==), V>(entrylimit: usize, weightlimit: usize, count: nat, weight: V -> usize)
    returns (shards: seq<BoundedHash<K, V>>)
    requires 0 < count
    ensures |shards| == count && fresh(shards) && TotalLen(shards) == 0
    ensures ShardsWithin(shards, entrylimit as int / count, weightlimit as int / count)
    ensures forall h | h in shards :: h.weight == weight
  {
    shards := [];
    var entries, size := (entrylimit as int / count) as usize, (weightlimit as int / count) as usize;
    for i := 0 to count
      invariant |shards| == i && fresh(shards)
      invariant forall h | h in shards ::
        h.Valid() && h.hash == [] && h.entrylimit == entries && h.weightlimit == size && h.weight == weight
    {
      var shard := new BoundedHash<K, V>(entries, size, weight);
      shards := shards + [shard];
    }
    NothingStored(shards);
  }

  lemma {:induction false} NothingStored<K, V>(shards: seq<BoundedHash<K, V>>)
    requires forall h | h in shards :: h.hash == []
    ensures TotalLen(shards) == 0
    decreases |shards|
  {
    if shards != [] {
      assert shards[0] in shards;
      NothingStored(shards[1..]);
    }
  }
}
