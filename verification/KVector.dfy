/** The kernel's vector: a buffer that grows by being replaced, and shrinks in place. */
module KVectors {

  class KVector<T(0)> {
    var items: array<T>
    var numItems: nat
    var capacity: nat

    ghost predicate Valid()
      reads this
    {
      numItems <= capacity == items.Length
    }

    ghost function Contents(): seq<T>
      requires Valid()
      reads this, items
    {
      items[..numItems]
    }

    constructor ()
      ensures Valid() && Contents() == [] && fresh(items)
    {
      items, numItems, capacity := new T[0], 0, 0;
    }

    /** The buffer is kept if it is large enough; otherwise the items move to one of just that size. */
    method Reserve(num: nat)
      requires Valid()
      modifies this
      ensures Valid() && Contents() == old(Contents())
      ensures capacity == if num <= old(capacity) then old(capacity) else num
      ensures if num <= old(capacity) then items == old(items) else fresh(items)
    {
      if num <= capacity {
        return;
      }
      var newItems := new T[num];
      for i := 0 to numItems
        modifies newItems
        invariant newItems[..i] == items[..i]
      {
        newItems[i] := items[i];
      }
      capacity := num;
      items := newItems;
    }

    method PushBack(item: T)
      requires Valid()
      modifies this, items
      ensures Valid() && Contents() == old(Contents()) + [item]
      ensures if old(numItems) < old(capacity) then items == old(items) else fresh(items)
      ensures capacity == if old(numItems) < old(capacity) then old(capacity) else old(numItems) + 1
    {
      Reserve(numItems + 1);
      items[numItems] := item;
      numItems := numItems + 1;
    }

    /** `check_index` aborts on an index outside the vector. */
    method Get(index: nat) returns (item: T)
      requires Valid() && index < numItems
      ensures item == Contents()[index]
    {
      item := items[index];
    }

    method Set(item: T, index: nat)
      requires Valid() && index < numItems
      modifies items
      ensures Valid() && Contents() == old(Contents())[index := item]
    {
      items[index] := item;
    }

    /** Remove the item at `pos`.  The ones behind it move down in the same buffer, so that `pos` is
        now the position of the item that followed. */
    method Erase(pos: nat)
      requires Valid() && pos <= numItems
      modifies this`numItems, items
      ensures Valid() && items == old(items)
      ensures Contents() ==
              if pos == |old(Contents())| then old(Contents()) else old(Contents())[..pos] + old(Contents())[pos + 1..]
    {
      if pos == numItems {
        return;
      }
      for i := pos + 1 to numItems
        modifies items
        invariant forall j :: 0 <= j < i - 1 ==> items[j] == old(items[if j < pos then j else j + 1])
        invariant forall j :: i - 1 < j < numItems ==> items[j] == old(items[j])
      {
        items[i - 1] := items[i];
      }
      numItems := numItems - 1;
    }
  }
}
