/**
 * The table (`HashMap` in hashmap.rs): exactly 256 buckets, a key's bucket
 * chosen by DJB2 of the key's bytes modulo 256, and an insert that first
 * tries to overwrite the key in place and otherwise prepends it to its
 * bucket.
 */
module Table {
  import opened Wrappers
  import opened Chain
  import opened Bucket
  import opened Hashing

  /** Number of buckets in the table. */
  const BUCKETS: nat := 256

  /**
   * `get_entry` for a key whose `Hash` implementation writes `bytes`:
   * `finish() % BUCKETS`. The index is in range, and it is the 8-bit DJB2
   * of the bytes, so it depends on nothing the 64-bit wrap-around discards.
   */
  function BucketOf(bytes: seq<u8>): (r: nat)
    ensures r < BUCKETS
    ensures r == Fold8(SEED as int % 0x100, bytes)
  {
    FoldLowByte(SEED, bytes);
    Djb2Hash(bytes) as int % BUCKETS
  }

  /** Rust's `map.get(&k)`. */
  function MapGet<K, V>(m: map<K, V>, k: K): Option<V>
  {
    if k in m then Some(m[k]) else None
  }

  /** Every pair of bucket `e` has a key that `get_entry` sends to bucket `n`. */
  ghost predicate Placed<K, V>(hash: K -> seq<u8>, e: Entry<K, V>, n: nat)
  {
    forall j | 0 <= j < |e.Pairs()| :: BucketOf(hash(e.Pairs()[j].0)) == n
  }

  /**
   * The table invariant: 256 buckets; within a bucket a key occurs at most
   * once; every key lies in the bucket its hash selects.
   */
  ghost predicate TableInv<K, V>(hash: K -> seq<u8>, b: seq<Entry<K, V>>)
  {
    && |b| == BUCKETS
    && forall n | 0 <= n < |b| :: UniqueKeys(b[n].Pairs()) && Placed(hash, b[n], n)
  }

  /** The buckets `HashMap::new` creates: 256 empty chains. */
  function EmptyTable<K, V>(): (b: seq<Entry<K, V>>)
    ensures |b| == BUCKETS
    ensures forall n | 0 <= n < BUCKETS :: b[n].Pairs() == []
  {
    seq(BUCKETS, _ => Entry(Nil))
  }

  /**
   * `HashMap::get`: ask the bucket the key hashes to. The answer is `None`
   * exactly when no pair of that bucket has the key, and otherwise the value
   * of such a pair.
   */
  function TableGet<K, V>(hash: K -> seq<u8>, b: seq<Entry<K, V>>, key: K): (r: Option<V>)
    requires |b| == BUCKETS
    ensures var s := b[BucketOf(hash(key))].Pairs();
            r.None? <==> forall j | 0 <= j < |s| :: s[j].0 != key
    ensures r.Some? ==> (key, r.value) in b[BucketOf(hash(key))].Pairs()
  {
    b[BucketOf(hash(key))].Get(key)
  }

  /**
   * `HashMap::insert` on the buckets `b`: the value it returns and the
   * buckets afterwards. If the key's bucket holds the key, its value is
   * replaced in place; otherwise the pair is prepended to that bucket.
   */
  function TableInsert<K, V>(hash: K -> seq<u8>, b: seq<Entry<K, V>>, key: K, val: V)
    : (r: (Option<V>, seq<Entry<K, V>>))
    requires |b| == BUCKETS
    ensures r.0 == TableGet(hash, b, key)
    ensures |r.1| == BUCKETS
    ensures forall n | 0 <= n < BUCKETS && n != BucketOf(hash(key)) :: r.1[n] == b[n]
    ensures |r.1[BucketOf(hash(key))].Pairs()| ==
              |b[BucketOf(hash(key))].Pairs()| + if r.0 == None then 1 else 0
    ensures r.0 == None ==>
              r.1[BucketOf(hash(key))].Pairs() == [(key, val)] + b[BucketOf(hash(key))].Pairs()
    ensures b[BucketOf(hash(key))].GetMut(key).Some? ==>
              var i := b[BucketOf(hash(key))].GetMut(key).value;
              r.1[BucketOf(hash(key))].Pairs() == b[BucketOf(hash(key))].Pairs()[i := (key, val)]
  {
    var n := BucketOf(hash(key));
    match b[n].GetMut(key)
    case Some(i) => (Some(b[n].Pairs()[i].1), b[n := b[n].SetValue(i, val)])
    case None => (None, b[n := b[n].Push(key, val)])
  }

  /** A new table satisfies the invariant and `get` finds nothing in it. */
  lemma EmptyTableSpec<K(!new), V>(hash: K -> seq<u8>)
    ensures TableInv(hash, EmptyTable<K, V>())
    ensures forall k :: TableGet(hash, EmptyTable<K, V>(), k) == None
  {
  }

  /**
   * Insert keeps the invariant (one pair per key per bucket, every key in its
   * hash's bucket) and acts as a map update: `get` of the key returns the
   * new value, `get` of every other key is unchanged.
   */
  lemma InsertCorrect<K(!new), V>(hash: K -> seq<u8>, b: seq<Entry<K, V>>, key: K, val: V)
    requires TableInv(hash, b)
    ensures TableInv(hash, TableInsert(hash, b, key, val).1)
    ensures TableGet(hash, TableInsert(hash, b, key, val).1, key) == Some(val)
    ensures forall k | k != key ::
              TableGet(hash, TableInsert(hash, b, key, val).1, k) == TableGet(hash, b, k)
  {
    var n := BucketOf(hash(key));
    var b' := TableInsert(hash, b, key, val).1;
    match b[n].GetMut(key)
    case Some(i) =>
      SetValueGet(b[n], i, val);
    case None =>
      PushUnique(b[n], key, val);
      assert Placed(hash, b'[n], n) by {
        forall j | 0 <= j < |b'[n].Pairs()|
          ensures BucketOf(hash(b'[n].Pairs()[j].0)) == n
        {
          if j > 0 {
            assert b'[n].Pairs()[j] == b[n].Pairs()[j - 1];
          }
        }
      }
      forall k | k != key && BucketOf(hash(k)) == n
        ensures TableGet(hash, b', k) == TableGet(hash, b, k)
      {
        PushGet(b[n], key, val, k);
      }
  }

  /**
   * Inserting a key twice: the second insert returns the first value, and
   * afterwards `get` returns the second.
   */
  lemma InsertTwice<K(!new), V>(hash: K -> seq<u8>, b: seq<Entry<K, V>>, key: K, v1: V, v2: V)
    requires TableInv(hash, b)
    ensures var b1 := TableInsert(hash, b, key, v1).1;
            && TableInsert(hash, b1, key, v2).0 == Some(v1)
            && TableGet(hash, TableInsert(hash, b1, key, v2).1, key) == Some(v2)
  {
    InsertCorrect(hash, b, key, v1);
    InsertCorrect(hash, TableInsert(hash, b, key, v1).1, key, v2);
  }

  /** The buckets after inserting the pairs of `kvs` one after another, first to last. */
  function InsertAll<K, V>(hash: K -> seq<u8>, b: seq<Entry<K, V>>, kvs: seq<(K, V)>)
    : (r: seq<Entry<K, V>>)
    requires |b| == BUCKETS
    ensures |r| == BUCKETS
    decreases |kvs|
  {
    if |kvs| == 0 then b
    else InsertAll(hash, TableInsert(hash, b, kvs[0].0, kvs[0].1).1, kvs[1..])
  }

  /** Any sequence of inserts, keys repeated or not, keeps the table invariant. */
  lemma {:induction false} InsertAllInv<K(!new), V>(hash: K -> seq<u8>, b: seq<Entry<K, V>>, kvs: seq<(K, V)>)
    requires TableInv(hash, b)
    ensures TableInv(hash, InsertAll(hash, b, kvs))
    decreases |kvs|
  {
    if |kvs| > 0 {
      InsertCorrect(hash, b, kvs[0].0, kvs[0].1);
      InsertAllInv(hash, TableInsert(hash, b, kvs[0].0, kvs[0].1).1, kvs[1..]);
    }
  }

  /**
   * Inserting distinct absent keys that all hash to bucket `n` lengthens that
   * chain by exactly their number: no pair is lost and none is duplicated.
   */
  lemma {:induction false} InsertAllChainLength<K(!new), V>(
    hash: K -> seq<u8>, b: seq<Entry<K, V>>, kvs: seq<(K, V)>, n: nat)
    requires TableInv(hash, b)
    requires n < BUCKETS
    requires forall i | 0 <= i < |kvs| :: BucketOf(hash(kvs[i].0)) == n
    requires forall i | 0 <= i < |kvs| :: TableGet(hash, b, kvs[i].0) == None
    requires forall i, j | 0 <= i < j < |kvs| :: kvs[i].0 != kvs[j].0
    ensures |InsertAll(hash, b, kvs)[n].Pairs()| == |b[n].Pairs()| + |kvs|
    decreases |kvs|
  {
    if |kvs| > 0 {
      var key, val := kvs[0].0, kvs[0].1;
      var b' := TableInsert(hash, b, key, val).1;
      InsertCorrect(hash, b, key, val);
      forall i | 0 <= i < |kvs[1..]|
        ensures TableGet(hash, b', kvs[1..][i].0) == None
      {
        assert kvs[1..][i] == kvs[i + 1];
      }
      InsertAllChainLength(hash, b', kvs[1..], n);
    }
  }

  /** The mutable reference `get_mut` hands out: which bucket, which pair. */
  datatype Slot = Slot(bucket: nat, pos: nat)

  /**
   * `HashMap`. `hash` stands for the key type's `Hash` implementation: the
   * bytes it writes into the hasher. `Contents` is the map the table holds.
   */
  class HashMap<K(==, !new), V> {
    const hash: K -> seq<u8>
    const data: array<Entry<K, V>>
    ghost var Contents: map<K, V>

    ghost predicate Valid()
      reads this, data
    {
      && data.Length == BUCKETS
      && TableInv(hash, data[..])
      && forall k :: TableGet(hash, data[..], k) == MapGet(Contents, k)
    }

    /** `HashMap::new`: 256 empty buckets, holding no key. */
    constructor (hash: K -> seq<u8>)
      ensures Valid() && fresh(data)
      ensures this.hash == hash
      ensures data[..] == EmptyTable()
      ensures Contents == map[]
    {
      this.hash := hash;
      data := new Entry<K, V>[BUCKETS](_ => Entry(Nil));
      Contents := map[];
      new;
      assert data[..] == EmptyTable();
      EmptyTableSpec<K, V>(hash);
    }

    /** `get_entry`: a fresh `Djb2`, the key's bytes written to it, `finish() % BUCKETS`. */
    method GetEntry(key: K) returns (n: nat)
      ensures n < BUCKETS
      ensures n == BucketOf(hash(key))
    {
      var s := new Djb2();
      s.Write(hash(key));
      var h := s.Finish();
      n := h as int % BUCKETS;
    }

    /** `HashMap::get`: the value stored under `key`, if any. */
    method Get(key: K) returns (r: Option<V>)
      requires Valid()
      ensures r == MapGet(Contents, key)
    {
      var n := GetEntry(key);
      r := Find(data[n], key);
    }

    /**
     * `HashMap::get_mut`: a reference to the pair holding `key`, in the bucket
     * the key hashes to, or `None` when the key is absent.
     */
    method GetMut(key: K) returns (slot: Option<Slot>)
      requires Valid()
      ensures slot.None? <==> key !in Contents
      ensures slot.Some? ==>
                && slot.value.bucket == BucketOf(hash(key))
                && slot.value.pos < |data[slot.value.bucket].Pairs()|
                && data[slot.value.bucket].Pairs()[slot.value.pos] == (key, Contents[key])
    {
      var n := GetEntry(key);
      var i := FindMut(data[n], key);
      slot := if i.Some? then Some(Slot(n, i.value)) else None;
      assert TableGet(hash, data[..], key) == MapGet(Contents, key);
    }

    /**
     * `mem::replace` through a reference into the table: stores `val` in the
     * pair at `slot` and returns the value it held. The pair's key now maps
     * to `val`; no chain changes shape and no other pair changes.
     */
    method Replace(slot: Slot, val: V) returns (prev: V)
      requires Valid()
      requires slot.bucket < BUCKETS && slot.pos < |data[slot.bucket].Pairs()|
      modifies this, data
      ensures Valid()
      ensures prev == old(data[..])[slot.bucket].Pairs()[slot.pos].1
      ensures Contents == old(Contents)[old(data[..])[slot.bucket].Pairs()[slot.pos].0 := val]
      ensures data[..] == old(data[..])[slot.bucket := old(data[..])[slot.bucket].SetValue(slot.pos, val)]
    {
      var e := data[slot.bucket];
      var key := e.Pairs()[slot.pos].0;
      prev := e.Pairs()[slot.pos].1;
      ghost var b := data[..];
      ghost var m := Contents;
      assert slot.bucket == BucketOf(hash(key));
      GetUnique(e, slot.pos);
      assert e.GetMut(key) == Some(slot.pos);
      data[slot.bucket] := e.SetValue(slot.pos, val);
      Contents := Contents[key := val];
      assert data[..] == TableInsert(hash, b, key, val).1;
      InsertCorrect(hash, b, key, val);
      forall k ensures TableGet(hash, data[..], k) == MapGet(Contents, k) {
        assert TableGet(hash, b, k) == MapGet(m, k);
      }
    }

    /**
     * `HashMap::insert`: if the key is present its value is replaced in place
     * and the old value returned; otherwise the pair is prepended to the
     * key's bucket and `None` returned. Either way the table now maps the key
     * to `val` and everything else as before.
     */
    method Insert(key: K, val: V) returns (prev: Option<V>)
      requires Valid()
      modifies this, data
      ensures Valid()
      ensures prev == MapGet(old(Contents), key)
      ensures Contents == old(Contents)[key := val]
      ensures (prev, data[..]) == TableInsert(hash, old(data[..]), key, val)
    {
      var slot := GetMut(key);
      if slot.Some? {
        var was := Replace(slot.value, val);
        return Some(was);
      }
      var n := GetEntry(key);
      ghost var b := data[..];
      ghost var m := Contents;
      data[n] := data[n].Push(key, val);
      Contents := Contents[key := val];
      prev := None;
      assert TableGet(hash, b, key) == None;
      assert data[..] == TableInsert(hash, b, key, val).1;
      InsertCorrect(hash, b, key, val);
      forall k ensures TableGet(hash, data[..], k) == MapGet(Contents, k) {
        assert TableGet(hash, b, k) == MapGet(m, k);
      }
    }
  }

  /**
   * The steps of `test()` in hashmap.rs, for any serialisation of integer
   * keys: insert 1 then 288 into a new table and read both back. Inserting
   * the fresh key 288 returns `None`.
   */
  method Scenario(hash: int -> seq<u8>)
    returns (r1: Option<int>, g1: Option<int>, r2: Option<int>, g2: Option<int>, g3: Option<int>)
    ensures r1 == None && g1 == Some(42)
    ensures r2 == None && g2 == Some(666) && g3 == Some(42)
  {
    var ht := new HashMap<int, int>(hash);
    r1 := ht.Insert(1, 42);
    g1 := ht.Get(1);
    r2 := ht.Insert(288, 666);
    g2 := ht.Get(288);
    g3 := ht.Get(1);
  }

  /**
   * Overwriting and absence on a new table, for any serialisation of integer
   * keys: inserting 1 again returns its first value, `get` then returns the
   * second, and a key never inserted is not found.
   */
  method OverwriteScenario(hash: int -> seq<u8>)
    returns (r1: Option<int>, r2: Option<int>, g1: Option<int>, g2: Option<int>)
    ensures r1 == None && r2 == Some(42)
    ensures g1 == Some(99) && g2 == None
  {
    var ht := new HashMap<int, int>(hash);
    r1 := ht.Insert(1, 42);
    r2 := ht.Insert(1, 99);
    g1 := ht.Get(1);
    g2 := ht.Get(7);
  }
}
