/** A hash map bounded by the number and by the total weight of its entries, trimming oldest first. */
module BoundedHash {
  import opened Wrappers

  newtype usize = x: int | 0 <= x < 0x1_0000_0000_0000_0000

  /** The entries, oldest first, as a linked hash map iterates them. */
  type Entries<K, V> = seq<(K, V)>

  function Keys<K, V>(s: Entries<K, V>): set<K> {
    if s == [] then {} else {s[0].0} + Keys(s[1..])
  }

  predicate DistinctKeys<K(==), V>(s: Entries<K, V>) {
    s == [] || (s[0].0 !in Keys(s[1..]) && DistinctKeys(s[1..]))
  }

  function TotalWeight<K, V>(s: Entries<K, V>, weight: V -> usize): nat {
    if s == [] then 0 else weight(s[0].1) as int + TotalWeight(s[1..], weight)
  }

  function Without<K(==), V>(s: Entries<K, V>, key: K): Entries<K, V> {
    if s == [] then []
    else if s[0].0 == key then Without(s[1..], key)
    else [s[0]] + Without(s[1..], key)
  }

  function Lookup<K(==), V>(s: Entries<K, V>, key: K): Option<V> {
    if s == [] then None
    else if s[0].0 == key then Some(s[0].1)
    else Lookup(s[1..], key)
  }

  /** Drops the oldest entries until at most `n` are left. */
  function TrimEntries<K, V>(s: Entries<K, V>, n: nat): Entries<K, V> {
    if |s| <= n then s else TrimEntries(s[1..], n)
  }

  /** Drops the oldest entries until they weigh at most `w`. */
  function TrimWeight<K, V>(s: Entries<K, V>, w: nat, weight: V -> usize): Entries<K, V> {
    if s == [] || TotalWeight(s, weight) <= w then s else TrimWeight(s[1..], w, weight)
  }

  /** What an insertion keeps of the other entries. */
  function Kept<K, V>(s: Entries<K, V>, n: nat, w: nat, weight: V -> usize): Entries<K, V> {
    TrimWeight(TrimEntries(s, n), w, weight)
  }

  predicate Fits<K, V>(s: Entries<K, V>, n: nat, w: nat, weight: V -> usize) {
    |s| <= n && TotalWeight(s, weight) <= w
  }

  /** Trimming keeps a suffix, that is the newest entries, and no longer suffix fits. */
  lemma {:induction false} KeptIsLongestSuffix<K, V>(s: Entries<K, V>, n: nat, w: nat, weight: V -> usize)
    ensures var t := Kept(s, n, w, weight);
            && |t| <= |s| && t == s[|s| - |t|..]
            && Fits(t, n, w, weight)
            && forall k | 0 <= k <= |s| && Fits(s[k..], n, w, weight) :: |s| - k <= |t|
    decreases |s|
  {
    var t := Kept(s, n, w, weight);
    if Fits(s, n, w, weight) {
      assert s[|s| - |t|..] == s;
    } else {
      assert s != [];
      KeptStep(s, n, w, weight);
      KeptIsLongestSuffix(s[1..], n, w, weight);
      assert s[|s| - |t|..] == s[1..][|s[1..]| - |t|..];
      forall k | 0 <= k <= |s| && Fits(s[k..], n, w, weight) ensures |s| - k <= |t| {
        assert s[0..] == s;
        if k > 0 {
          assert s[k..] == s[1..][k - 1..];
        }
      }
    }
  }

  lemma KeptStep<K, V>(s: Entries<K, V>, n: nat, w: nat, weight: V -> usize)
    requires s != [] && !Fits(s, n, w, weight)
    ensures Kept(s, n, w, weight) == Kept(s[1..], n, w, weight)
  {
  }

  lemma {:induction false} WithoutRemoves<K, V>(s: Entries<K, V>, key: K)
    requires DistinctKeys(s)
    ensures DistinctKeys(Without(s, key)) && Keys(Without(s, key)) == Keys(s) - {key}
    ensures |Without(s, key)| == |s| - (if Lookup(s, key).Some? then 1 else 0)
    ensures Lookup(s, key).Some? <==> key in Keys(s)
    decreases |s|
  {
    if s != [] {
      WithoutRemoves(s[1..], key);
      if s[0].0 != key {
        assert ([s[0]] + Without(s[1..], key))[1..] == Without(s[1..], key);
      }
    }
  }

  lemma {:induction false} WithoutWeighs<K, V>(s: Entries<K, V>, key: K, weight: V -> usize)
    requires DistinctKeys(s)
    ensures TotalWeight(s, weight)
      == TotalWeight(Without(s, key), weight)
         + (if Lookup(s, key).Some? then weight(Lookup(s, key).value) as int else 0)
  {
    if s != [] {
      WithoutWeighs(s[1..], key, weight);
      WithoutRemoves(s[1..], key);
      if s[0].0 != key {
        assert ([s[0]] + Without(s[1..], key))[1..] == Without(s[1..], key);
      }
    }
  }

  /** Removing a key takes out its one entry and keeps the order of the others. */
  lemma {:induction false} WithoutOne<K, V>(a: Entries<K, V>, k: K, v: V, b: Entries<K, V>)
    requires k !in Keys(a) && k !in Keys(b)
    ensures Without(a + [(k, v)] + b, k) == a + b && Lookup(a + [(k, v)] + b, k) == Some(v)
    decreases |a|
  {
    var s := a + [(k, v)] + b;
    if a == [] {
      assert s == [(k, v)] + b && s[1..] == b && a + b == b;
      WithoutAbsent(b, k);
    } else {
      assert s[0] == a[0] && s[1..] == a[1..] + [(k, v)] + b;
      WithoutOne(a[1..], k, v, b);
      assert [a[0]] + (a[1..] + b) == a + b;
    }
  }

  lemma {:induction false} WithoutAbsent<K, V>(s: Entries<K, V>, k: K)
    requires k !in Keys(s)
    ensures Without(s, k) == s
    decreases |s|
  {
    if s != [] {
      WithoutAbsent(s[1..], k);
    }
  }

  lemma {:induction false} AppendAdds<K, V>(s: Entries<K, V>, k: K, v: V, weight: V -> usize)
    requires DistinctKeys(s) && k !in Keys(s)
    ensures DistinctKeys(s + [(k, v)]) && Keys(s + [(k, v)]) == Keys(s) + {k}
    ensures TotalWeight(s + [(k, v)], weight) == TotalWeight(s, weight) + weight(v) as int
    ensures Lookup(s + [(k, v)], k) == Some(v)
  {
    if s != [] {
      AppendAdds(s[1..], k, v, weight);
      assert (s + [(k, v)])[1..] == s[1..] + [(k, v)];
    }
  }

  lemma {:induction false} KeptIsDistinct<K, V>(s: Entries<K, V>, n: nat, w: nat, weight: V -> usize)
    requires DistinctKeys(s)
    ensures DistinctKeys(Kept(s, n, w, weight)) && Keys(Kept(s, n, w, weight)) <= Keys(s)
    decreases |s|
  {
    if !Fits(s, n, w, weight) {
      assert s != [];
      KeptStep(s, n, w, weight);
      KeptIsDistinct(s[1..], n, w, weight);
    }
  }

  lemma {:induction false} AppendFits<K, V>(others: Entries<K, V>, k: K, v: V, n: nat, w: nat, weight: V -> usize)
    requires DistinctKeys(others) && k !in Keys(others)
    ensures var kept := Kept(others, n, w, weight);
            && DistinctKeys(kept + [(k, v)])
            && TotalWeight(kept + [(k, v)], weight) == TotalWeight(kept, weight) + weight(v) as int
            && TotalWeight(kept, weight) <= w && |kept| <= n
  {
    KeptIsLongestSuffix(others, n, w, weight);
    KeptIsDistinct(others, n, w, weight);
    AppendAdds(Kept(others, n, w, weight), k, v, weight);
  }

  class BoundedHash<K(==), V> {
    var hash: Entries<K, V>
    const entrylimit: usize
    const weightlimit: usize
    var entrysizes: usize
    const weight: V -> usize

    /** The recorded weight is the weight of the entries, and neither limit is exceeded. */
    ghost predicate Valid()
      reads this
    {
      && DistinctKeys(hash)
      && TotalWeight(hash, weight) == entrysizes as int
      && Fits(hash, entrylimit as int, weightlimit as int, weight)
    }

    constructor (entrylimit: usize, weightlimit: usize, weight: V -> usize)
      ensures Valid() && hash == [] && this.entrylimit == entrylimit && this.weightlimit == weightlimit
      ensures this.weight == weight
    {
      this.entrylimit, this.weightlimit, this.weight := entrylimit, weightlimit, weight;
      hash, entrysizes := [], 0;
    }

    /** Drops the oldest entry, if there is one. */
    method TrimOne() returns (trimmed: bool)
      requires Valid()
      modifies this
      ensures Valid()
      ensures trimmed == (old(hash) != [])
      ensures hash == if trimmed then old(hash)[1..] else old(hash)
    {
      trimmed := hash != [];
      if trimmed {
        entrysizes := entrysizes - weight(hash[0].1);
        hash := hash[1..];
      }
    }

    /** Makes room for `additional` entries, unless that many can never fit. */
    method TrimForEntries(additional: usize) returns (ok: bool)
      requires Valid()
      modifies this
      ensures Valid()
      ensures ok == (additional <= entrylimit)
      ensures hash == if ok then TrimEntries(old(hash), (entrylimit - additional) as int) else old(hash)
    {
      if additional > entrylimit {
        return false;
      }
      var limit := entrylimit - additional;
      while |hash| as usize > limit
        invariant Valid()
        invariant TrimEntries(hash, limit as int) == TrimEntries(old(hash), limit as int)
        decreases |hash|
      {
        var _ := TrimOne();
      }
      return true;
    }

    /** Makes room for `additional` weight, unless that much can never fit. */
    method TrimForWeight(additional: usize) returns (ok: bool)
      requires Valid()
      modifies this
      ensures Valid()
      ensures ok == (additional <= weightlimit)
      ensures hash == if ok then TrimWeight(old(hash), (weightlimit - additional) as int, weight) else old(hash)
    {
      if additional > weightlimit {
        return false;
      }
      var limit := weightlimit - additional;
      while entrysizes > limit
        invariant Valid()
        invariant TrimWeight(hash, limit as int, weight) == TrimWeight(old(hash), limit as int, weight)
        decreases |hash|
      {
        var trimmed := TrimOne();
        if !trimmed {
          break;
        }
      }
      return true;
    }

    method Trim()
      requires Valid()
      modifies this
      ensures Valid() && hash == old(hash)
    {
      var _ := TrimForEntries(0);
      var _ := TrimForWeight(0);
    }

    method Clear()
      requires Valid()
      modifies this
      ensures Valid() && hash == []
    {
      hash, entrysizes := [], 0;
    }

    method Remove(key: K) returns (removed: Option<V>)
      requires Valid()
      modifies this
      ensures Valid()
      ensures removed == Lookup(old(hash), key) && hash == Without(old(hash), key)
    {
      removed := Lookup(hash, key);
      WithoutRemoves(hash, key);
      WithoutWeighs(hash, key, weight);
      if removed.Some? {
        entrysizes := entrysizes - weight(removed.value);
      }
      hash := Without(hash, key);
    }

    /** Succeeds exactly when one entry of this weight can fit at all. Then the new entry is the newest, and
        of the other entries the longest run of newest ones that fits beside it is kept. A failure still
        removes the key, and trims if only the weight was too large. */
    method Insert(key: K, v: V) returns (r: Result<Option<V>, (K, V)>)
      requires Valid()
      modifies this
      ensures Valid()
      ensures r == if 1 <= entrylimit && weight(v) <= weightlimit then Ok(Lookup(old(hash), key)) else Err((key, v))
      ensures r.Ok? ==>
        hash == Kept(Without(old(hash), key), entrylimit as int - 1, (weightlimit - weight(v)) as int, weight)
                + [(key, v)]
      ensures r.Err? ==>
        hash == if entrylimit == 0 then Without(old(hash), key)
                else TrimEntries(Without(old(hash), key), entrylimit as int - 1)
    {
      ghost var others := Without(hash, key);
      WithoutRemoves(hash, key);
      var oldv := Remove(key);
      var room := TrimForEntries(1);
      if !room {
        return Err((key, v));
      }
      var vw := weight(v);
      room := TrimForWeight(vw);
      if !room {
        return Err((key, v));
      }
      AppendFits(others, key, v, entrylimit as int - 1, (weightlimit - vw) as int, weight);
      entrysizes := entrysizes + vw;
      hash := hash + [(key, v)];
      return Ok(oldv);
    }
  }
}
