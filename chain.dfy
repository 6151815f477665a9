/**
 * The singly linked list that holds one bucket's pairs (`LinkedList` in
 * hashmap.rs), with its two iterators.
 */
module Chain {
  import opened Wrappers

  /** `Elem(x, rest)` owns its tail; every list ends in `Nil`. */
  datatype List<T> = Elem(head: T, tail: List<T>) | Nil

  /** The elements of a list, head first. */
  function Elements<T>(l: List<T>): seq<T>
  {
    match l
    case Nil => []
    case Elem(x, rest) => [x] + Elements(rest)
  }

  /**
   * `follow` (and `follow_mut`, which is the same on values): the rest of the
   * list after the head, or the list itself once the end is reached.
   */
  function Follow<T>(l: List<T>): (r: List<T>)
    ensures Elements(l) == [] ==> r == l
    ensures Elements(l) != [] ==> Elements(r) == Elements(l)[1..]
  {
    match l
    case Elem(_, rest) => rest
    case Nil => l
  }

  /** `push`: consumes the list and returns a longer one whose head is `x`. */
  function Push<T>(l: List<T>, x: T): (r: List<T>)
    ensures Elements(r) == [x] + Elements(l)
    ensures |Elements(r)| == |Elements(l)| + 1
    ensures Follow(r) == l
  {
    Elem(x, l)
  }

  /**
   * Storing `x` through the mutable reference to the element at position `i`:
   * only that element changes, the shape of the list does not.
   */
  function Update<T>(l: List<T>, i: nat, x: T): (r: List<T>)
    requires i < |Elements(l)|
    ensures Elements(r) == Elements(l)[i := x]
  {
    match l
    case Elem(y, rest) =>
      if i == 0 then Elem(x, rest)
      else
        var r := Elem(y, Update(rest, i - 1, x));
        assert Elements(r) == [y] + Elements(rest)[i - 1 := x];
        r
  }

  /**
   * `LinkedListIter`: a read-only cursor. `ll` is the node it points at; the
   * ghost fields record the list it started on and what it has yielded.
   */
  class ListIter<T> {
    var ll: List<T>
    ghost var Whole: seq<T>
    ghost var Yielded: seq<T>

    ghost predicate Valid()
      reads this
    {
      Whole == Yielded + Elements(ll)
    }

    /** `LinkedList::iter`. */
    constructor (l: List<T>)
      ensures Valid()
      ensures ll == l && Whole == Elements(l) && Yielded == []
    {
      ll := l;
      Whole := Elements(l);
      Yielded := [];
    }

    /**
     * `next`: yields the element under the cursor and follows the link. At
     * the end it yields `None` and, `follow` being a fixpoint there, stays put.
     */
    method Next() returns (res: Option<T>)
      requires Valid()
      modifies this
      ensures Valid() && Whole == old(Whole)
      ensures old(Elements(ll)) == [] ==>
                res == None && ll == old(ll) && Yielded == old(Yielded)
      ensures old(Elements(ll)) != [] ==>
                && res == Some(old(Elements(ll))[0])
                && Elements(ll) == old(Elements(ll))[1..]
                && Yielded == old(Yielded) + [res.value]
    {
      match ll {
        case Elem(e, _) =>
          res := Some(e);
          Yielded := Yielded + [e];
        case Nil =>
          res := None;
      }
      ll := Follow(ll);
    }
  }

  /**
   * A mutable reference into a list: the position of the element it points
   * at and the value found there. Storing through it is `Update`.
   */
  datatype Ref<T> = Ref(pos: nat, val: T)

  /**
   * `LinkedListIterMut`: the same cursor handing out mutable references.
   * `pos` is the position of the node under the cursor in the list the
   * iterator started on, i.e. how many links have been followed.
   */
  class ListIterMut<T> {
    var ll: List<T>
    var pos: nat
    ghost var Whole: seq<T>

    ghost predicate Valid()
      reads this
    {
      pos <= |Whole| && Elements(ll) == Whole[pos..]
    }

    /** `LinkedList::iter_mut`. */
    constructor (l: List<T>)
      ensures Valid()
      ensures ll == l && pos == 0 && Whole == Elements(l)
    {
      ll := l;
      pos := 0;
      Whole := Elements(l);
    }

    /**
     * `next`: a reference to the element under the cursor, then `follow_mut`.
     * Once the end is reached it yields `None` and stays there.
     */
    method Next() returns (res: Option<Ref<T>>)
      requires Valid()
      modifies this
      ensures Valid() && Whole == old(Whole)
      ensures old(pos) == |Whole| ==> res == None && pos == old(pos)
      ensures old(pos) < |Whole| ==>
                res == Some(Ref(old(pos), Whole[old(pos)])) && pos == old(pos) + 1
    {
      match ll {
        case Elem(e, _) =>
          res := Some(Ref(pos, e));
          pos := pos + 1;
        case Nil =>
          res := None;
      }
      ll := Follow(ll);
    }
  }
}
