/** The intrusive doubly linked lists of inc/queue.h.

    An element of a list is an index into the array of structures that carry
    the link field (`pages[]` or `envs[]`).  The field `le_prev` is a pointer
    to the pointer that points at the element; it is the address either of the
    list head or of another element's `le_next`.
 */
module Queue {

  datatype Option<+T> = None | Some(value: T)

  /** The address of a "next" pointer. */
  datatype Link = HeadLink | NextOf(elem: nat)

  ghost predicate Distinct(s: seq<nat>) {
    forall i, j :: 0 <= i < j < |s| ==> s[i] != s[j]
  }

  lemma DistinctWithout(s: seq<nat>, k: nat)
    requires Distinct(s) && k < |s|
    ensures Distinct(s[..k] + s[k + 1..])
  {
  }

  class List {
    var first: Option<nat>       // lh_first
    var next: seq<Option<nat>>   // le_next of every element
    var prev: seq<Link>          // le_prev of every element
    ghost var elems: seq<nat>    // the elements, in list order

    /** The two pointer fields spell out exactly `elems`: acyclic, no duplicates,
        and every back link is the address of the pointer that leads here. */
    ghost predicate Valid()
      reads this
    {
      && |prev| == |next|
      && Distinct(elems)
      && (forall i :: 0 <= i < |elems| ==> elems[i] < |next|)
      && first == (if elems == [] then None else Some(elems[0]))
      && (forall i {:trigger next[elems[i]]} :: 0 <= i < |elems| ==>
            next[elems[i]] == (if i + 1 < |elems| then Some(elems[i + 1]) else None))
      && (forall i {:trigger prev[elems[i]]} :: 0 <= i < |elems| ==>
            prev[elems[i]] == (if i == 0 then HeadLink else NextOf(elems[i - 1])))
    }

    /** LIST_FIRST. */
    lemma Head()
      requires Valid()
      ensures first == (if elems == [] then None else Some(elems[0])) && forall x :: x in elems ==> x < |next|
      ensures Distinct(elems)
    {
    }

    /** LIST_INIT over `n` structures. */
    constructor (n: nat)
      ensures Valid() && elems == [] && |next| == n
    {
      first := None;
      next := seq(n, _ => None);
      prev := seq(n, _ => HeadLink);
      elems := [];
    }

    /** LIST_INSERT_HEAD. */
    method InsertHead(x: nat)
      requires Valid() && x < |next| && x !in elems
      modifies this
      ensures Valid() && elems == [x] + old(elems) && |next| == old(|next|)
    {
      next := next[x := first];
      if first.Some? {
        prev := prev[first.value := NextOf(x)];
      }
      first := Some(x);
      prev := prev[x := HeadLink];
      elems := [x] + elems;
    }

    /** LIST_REMOVE of the element at position `k`; its neighbours are found
        through the links alone. */
    method Remove(x: nat, ghost k: nat)
      requires Valid() && k < |elems| && elems[k] == x
      modifies this
      ensures Valid() && elems == old(elems)[..k] + old(elems)[k + 1..] && |next| == old(|next|)
    {
      hide Distinct;
      Apart(k);
      assert next[elems[k]] == if k + 1 < |elems| then Some(elems[k + 1]) else None;
      assert prev[elems[k]] == if k == 0 then HeadLink else NextOf(elems[k - 1]);
      if next[x].Some? {
        prev := prev[next[x].value := prev[x]];
      }
      match prev[x] {
        case HeadLink => first := next[x];
        case NextOf(y) => next := next[y := next[x]];
      }
      DistinctWithout(elems, k);
      elems := elems[..k] + elems[k + 1..];
    }

    /** The neighbours of an element are other elements. */
    lemma Apart(k: nat)
      requires Valid() && k < |elems|
      ensures forall i :: 0 <= i < |elems| && i != k ==> elems[i] != elems[k]
      ensures k + 1 < |elems| ==> forall i :: 0 <= i < |elems| && i != k + 1 ==> elems[i] != elems[k + 1]
      ensures k > 0 ==> forall i :: 0 <= i < |elems| && i != k - 1 ==> elems[i] != elems[k - 1]
    {
    }
  }
}
