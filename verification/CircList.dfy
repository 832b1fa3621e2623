/** The circular list behind the replay window (circ_list.h). */
module CircularList {
  import opened IntegerOps

  /** After the head has moved back by one, what was at i - 1 is at i, and the head is new. */
  lemma OneBack(head: nat, cap: nat, i: nat)
    requires head < cap && i < cap
    ensures var head' := ModuloAdd(head, -1, cap);
            && 0 <= head' < cap && 0 <= ModuloAdd(head', i, cap) < cap
            && (if i == 0 then ModuloAdd(head', i, cap) == head'
                else ModuloAdd(head', i, cap) == ModuloAdd(head, i - 1, cap) != head')
  {
  }

  class CircList {
    var head: int
    var size: int
    const cap: nat
    const list: array<int>

    /** The items, the most recently pushed first. */
    ghost var items: seq<int>

    ghost predicate Valid()
      reads this, list
      ensures Valid() ==> 0 <= size == |items| <= cap
    {
      && 0 < cap == list.Length && 0 <= head < cap && 0 <= size <= cap
      && |items| == size
      && forall i {:trigger ModuloAdd(head, i, cap)} | 0 <= i < size :: items[i] == list[ModuloAdd(head, i, cap)]
    }

    /** CIRC_LIST_ALLOC. */
    constructor (capacity: nat)
      requires 0 < capacity
      ensures Valid() && fresh(list) && cap == capacity && items == []
    {
      head, size, cap, items := 0, 0, capacity, [];
      list := new int[capacity](_ => 0);
    }

    /** CIRC_LIST_PUSH. */
    method Push(item: int)
      requires Valid()
      modifies this, list
      ensures Valid()
      ensures items == ([item] + old(items))[..MinInt(old(size) + 1, cap)]
    {
      hide ModuloAdd;
      forall i | 0 <= i < cap ensures var head' := ModuloAdd(head, -1, cap);
            && 0 <= head' < cap && 0 <= ModuloAdd(head', i, cap) < cap
            && (if i == 0 then ModuloAdd(head', i, cap) == head'
                else ModuloAdd(head', i, cap) == ModuloAdd(head, i - 1, cap) != head') {
        OneBack(head, cap, i);
      }
      head := ModuloAdd(head, -1, cap);
      list[head] := item;
      size := MinInt(size + 1, cap);
      items := ([item] + items)[..size];
    }

    /** CIRC_LIST_ITEM as a value; index_verify is the precondition. */
    method Item(index: int) returns (item: int)
      requires Valid() && 0 <= index < size
      ensures item == items[index]
    {
      item := list[ModuloAdd(head, index, cap)];
    }

    /** CIRC_LIST_ITEM as the target of an assignment. */
    method SetItem(index: int, item: int)
      requires Valid() && 0 <= index < size
      modifies list, `items
      ensures Valid() && items == old(items)[index := item]
    {
      list[ModuloAdd(head, index, cap)] := item;
      items := items[index := item];
    }

    /** CIRC_LIST_RESET. */
    method Reset()
      requires Valid()
      modifies this
      ensures Valid() && items == []
    {
      head := 0;
      size := 0;
      items := [];
    }
  }
}
