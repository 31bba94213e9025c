/**
  The intrusive circular doubly linked list of lists.h. A list is a head link and the links
  threaded after it; the ghost sequence of links is what the macros are specified by.
*/
module LinkedRing {

  class Link<T> {
    var next: Link<T>
    var prev: Link<T>
    const item: T

    constructor (x: T)
      ensures item == x
    {
      item := x;
      next := this;
      prev := this;
    }
  }

  /** The links of a list in the order of foreach, the head in front, are threaded in a circle */
  ghost predicate Ring<T>(ring: seq<Link<T>>)
    reads ring
  {
    && |ring| >= 1
    && (forall i, j :: 0 <= i < j < |ring| ==> ring[i] != ring[j])
    && (forall i {:trigger ring[i].next} :: 0 <= i < |ring| - 1 ==> ring[i].next == ring[i + 1])
    && (forall i {:trigger ring[i].prev} :: 1 <= i < |ring| ==> ring[i].prev == ring[i - 1])
    && ring[|ring| - 1].next == ring[0]
    && ring[0].prev == ring[|ring| - 1]
  }

  ghost predicate Lists<T>(ring: seq<Link<T>>, contents: seq<T>) {
    |ring| == |contents| + 1 && forall i :: 0 <= i < |contents| ==> contents[i] == ring[i + 1].item
  }

  lemma InsertKeepsLists<T>(ring: seq<Link<T>>, contents: seq<T>, x: Link<T>, k: nat)
    requires Lists(ring, contents) && k < |ring|
    ensures Lists(ring[..k + 1] + [x] + ring[k + 1..], contents[..k] + [x.item] + contents[k..])
  {
  }

  /** The four assignments of add_at_pos */
  method ThreadIn<T>(p: Link<T>, x: Link<T>, ghost ring: seq<Link<T>>, ghost k: nat)
    requires Ring(ring) && k < |ring| && p == ring[k] && x !in ring
    modifies ring, x
    ensures Ring(ring[..k + 1] + [x] + ring[k + 1..])
  {
    x.next := p.next;
    x.prev := p;
    p.next := x;
    x.next.prev := x;
  }

  class List<T> {
    const head: Link<T>
    ghost var ring: seq<Link<T>>
    ghost var repr: set<Link<T>>  // every link that is or was in the list
    ghost var contents: seq<T>    // the elements as foreach meets them

    ghost predicate Valid()
      reads this, repr
    {
      && (forall i :: 0 <= i < |ring| ==> ring[i] in repr)
      && Ring(ring) && ring[0] == head
      && Lists(ring, contents)
    }

    /** init_list; the item of the head is never looked at */
    constructor (anything: T)
      ensures Valid() && fresh(repr) && ring == [head] && contents == []
    {
      head := new Link(anything);
      new;
      head.next := head;
      head.prev := head;
      ring := [head];
      repr := {head};
      contents := [];
    }

    /** add_at_pos: thread x in right after p, the link at position k */
    method AddAtPos(p: Link<T>, x: Link<T>, ghost k: nat)
      requires Valid() && k < |ring| && p == ring[k] && x !in ring
      modifies this, repr, x
      ensures Valid() && repr == old(repr) + {x} && ring == old(ring[..k + 1] + [x] + ring[k + 1..])
      ensures contents == old(contents[..k]) + [x.item] + old(contents[k..])
    {
      InsertKeepsLists(ring, contents, x, k);
      ThreadIn(p, x, ring, k);
      ring := ring[..k + 1] + [x] + ring[k + 1..];
      repr := repr + {x};
      contents := contents[..k] + [x.item] + contents[k..];
    }

    /** add_to_list: the new element is met first by foreach */
    method AddToList(x: T) returns (link: Link<T>)
      requires Valid()
      modifies this, repr
      ensures Valid() && repr == old(repr) + {link} && fresh(link) && link.item == x
      ensures ring == [head, link] + old(ring[1..])
      ensures contents == [x] + old(contents)
    {
      link := new Link(x);
      AddAtPos(head, link, 0);
    }

    /** add_to_list_end: the new element is met last by foreach */
    method AddToListEnd(x: T) returns (link: Link<T>)
      requires Valid()
      modifies this, repr
      ensures Valid() && repr == old(repr) + {link} && fresh(link) && link.item == x
      ensures ring == old(ring) + [link]
      ensures contents == old(contents) + [x]
    {
      link := new Link(x);
      AddAtPos(head.prev, link, |ring| - 1);
    }

    /** del_from_list, with the step back to the previous link that the deleting foreach makes */
    method Delete(x: Link<T>, ghost k: nat) returns (before: Link<T>)
      requires Valid() && 1 <= k < |ring| && ring[k] == x
      modifies this, repr
      ensures Valid() && repr == old(repr) && ring == old(ring[..k] + ring[k + 1..])
      ensures before == old(ring[k - 1])
      ensures contents == old(contents[..k - 1] + contents[k..])
    {
      before := x.prev;
      x.next.prev := x.prev;
      x.prev.next := x.next;
      ring := ring[..k] + ring[k + 1..];
      contents := contents[..k - 1] + contents[k..];
    }

    /** One step of foreach, which ends when it is back at the head */
    method Next(x: Link<T>, ghost k: nat) returns (y: Link<T>)
      requires Valid() && k < |ring| && x == ring[k]
      ensures y == if k + 1 < |ring| then ring[k + 1] else head
    {
      y := x.next;
    }
  }
}
