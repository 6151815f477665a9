/**
 * One bucket of the table (`Entry` in hashmap.rs): a chain of key/value
 * pairs searched head first.
 */
module Bucket {
  import opened Wrappers
  import opened Chain

  /** No pair before position `i` of `s` has key `key`. */
  ghost predicate NoneBefore<K, V>(s: seq<(K, V)>, key: K, i: int)
    requires 0 <= i <= |s|
  {
    forall j | 0 <= j < i :: s[j].0 != key
  }

  /** Each key occurs in at most one pair of `s`. */
  ghost predicate UniqueKeys<K, V>(s: seq<(K, V)>)
  {
    forall i, j | 0 <= i < j < |s| :: s[i].0 != s[j].0
  }

  /**
   * Where `iter().find(|&(k, _)| k == key)` stops: the position of the first
   * pair, head first, whose key is `key`, or `None` when there is none.
   */
  function IndexOf<K(==), V>(l: List<(K, V)>, key: K): (r: Option<nat>)
    ensures r.None? ==> forall j | 0 <= j < |Elements(l)| :: Elements(l)[j].0 != key
    ensures r.Some? ==>
              && r.value < |Elements(l)|
              && Elements(l)[r.value].0 == key
              && NoneBefore(Elements(l), key, r.value)
  {
    match l
    case Nil => None
    case Elem(p, rest) =>
      if p.0 == key then Some(0)
      else
        match IndexOf(rest, key)
        case None => None
        case Some(i) => Some(i + 1)
  }

  datatype Entry<K(==), V> = Entry(data: List<(K, V)>)
  {
    /** The pairs of the bucket, head first. */
    function Pairs(): seq<(K, V)>
    {
      Elements(data)
    }

    /** `Entry::new`: a bucket holding the one pair. */
    static function New(key: K, value: V): (e: Entry<K, V>)
      ensures e.Pairs() == [(key, value)]
      ensures e.Get(key) == Some(value)
    {
      var nil: List<(K, V)> := Nil;
      assert Elements(nil) == [];
      Entry(Elem((key, value), nil))
    }

    /**
     * `Entry::get`: the value of the first pair whose key is `key`, or `None`
     * when no pair has that key.
     */
    function Get(key: K): (r: Option<V>)
      ensures r.None? <==> forall j | 0 <= j < |Pairs()| :: Pairs()[j].0 != key
      ensures forall j | 0 <= j < |Pairs()| && Pairs()[j].0 == key && NoneBefore(Pairs(), key, j) ::
                r == Some(Pairs()[j].1)
    {
      match IndexOf(data, key)
      case None => None
      case Some(i) => Some(Pairs()[i].1)
    }

    /**
     * `Entry::get_mut`: the position of the pair `get` reads, which is where
     * the returned mutable reference points.
     */
    function GetMut(key: K): (r: Option<nat>)
      ensures r.Some? <==> Get(key).Some?
      ensures r.Some? ==> r.value < |Pairs()| && Pairs()[r.value] == (key, Get(key).value)
      ensures r.Some? ==> NoneBefore(Pairs(), key, r.value)
    {
      IndexOf(data, key)
    }

    /**
     * `mem::replace` through the reference `get_mut` handed out: the pair at
     * `i` keeps its key and takes `value`; nothing else changes.
     */
    function SetValue(i: nat, value: V): (e: Entry<K, V>)
      requires i < |Pairs()|
      ensures e.Pairs() == Pairs()[i := (Pairs()[i].0, value)]
    {
      Entry(Update(data, i, (Pairs()[i].0, value)))
    }

    /** `Entry::push`: prepends the pair, which then shadows any older one. */
    function Push(key: K, value: V): (e: Entry<K, V>)
      ensures e.Pairs() == [(key, value)] + Pairs()
      ensures e.Get(key) == Some(value)
    {
      Entry(Chain.Push(data, (key, value)))
    }
  }

  /** After `push`, `get` of any other key answers as before. */
  lemma PushGet<K, V>(e: Entry<K, V>, key: K, value: V, k: K)
    requires k != key
    ensures e.Push(key, value).Get(k) == e.Get(k)
  {
  }

  /** Under unique keys `get` finds any pair with the key, not only the first. */
  lemma GetUnique<K, V>(e: Entry<K, V>, i: nat)
    requires UniqueKeys(e.Pairs())
    requires i < |e.Pairs()|
    ensures e.Get(e.Pairs()[i].0) == Some(e.Pairs()[i].1)
  {
  }

  /**
   * Storing through a reference keeps the keys unique, makes `get` of that
   * key return the stored value and leaves `get` of every other key alone.
   */
  lemma SetValueGet<K, V>(e: Entry<K, V>, i: nat, value: V)
    requires UniqueKeys(e.Pairs())
    requires i < |e.Pairs()|
    ensures UniqueKeys(e.SetValue(i, value).Pairs())
    ensures e.SetValue(i, value).Get(e.Pairs()[i].0) == Some(value)
    ensures forall k | k != e.Pairs()[i].0 :: e.SetValue(i, value).Get(k) == e.Get(k)
  {
    var e' := e.SetValue(i, value);
    GetUnique(e', i);
    forall k | k != e.Pairs()[i].0
      ensures e'.Get(k) == e.Get(k)
    {
      match IndexOf(e.data, k)
      case None =>
      case Some(j) =>
        assert NoneBefore(e'.Pairs(), k, j);
    }
  }

  /** Prepending a key that `get` does not find keeps the keys unique. */
  lemma PushUnique<K, V>(e: Entry<K, V>, key: K, value: V)
    requires UniqueKeys(e.Pairs())
    requires e.Get(key) == None
    ensures UniqueKeys(e.Push(key, value).Pairs())
  {
  }

  /**
   * `Entry::get` as the source runs it, `iter().find(..)`: steps the iterator
   * until it yields a pair with the key or runs out.
   */
  method Find<K(==), V>(e: Entry<K, V>, key: K) returns (r: Option<V>)
    ensures r == e.Get(key)
  {
    var it := new ListIter(e.data);
    while true
      invariant it.Valid() && it.Whole == e.Pairs()
      invariant NoneBefore(it.Whole, key, |it.Yielded|)
      decreases |Elements(it.ll)|
    {
      ghost var seen := |it.Yielded|;
      var x := it.Next();
      match x {
        case None =>
          return None;
        case Some(p) =>
          assert p == e.Pairs()[seen];
          if p.0 == key {
            return Some(p.1);
          }
      }
    }
  }

  /**
   * `Entry::get_mut` as the source runs it, `iter_mut().find(..)`: the same
   * scan over mutable references, returning the position found.
   */
  method FindMut<K(==), V>(e: Entry<K, V>, key: K) returns (r: Option<nat>)
    ensures r == e.GetMut(key)
  {
    var it := new ListIterMut(e.data);
    while true
      invariant it.Valid() && it.Whole == e.Pairs()
      invariant NoneBefore(it.Whole, key, it.pos)
      decreases |it.Whole| - it.pos
    {
      var x := it.Next();
      match x {
        case None =>
          return None;
        case Some(ref) =>
          if ref.val.0 == key {
            return Some(ref.pos);
          }
      }
    }
  }
}
