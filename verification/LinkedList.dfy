// The circular list of collections/linked_list.c. `freed` is the memory given back to the
// allocator: nothing in it may be read, written or freed again.
module LinkedList {
  import opened Numbers

  class Item {
    var prev: Item?
    var next: Item?
    var payload: int
  }

  ghost predicate Distinct(s: seq<Item>) {
    forall i, j :: 0 <= i < j < |s| ==> s[i] != s[j]
  }

  ghost predicate Joined(s: seq<Item>, i: nat)
    requires i < |s|
    reads s
  {
    s[i].next == s[After(i, |s|)] && s[After(i, |s|)].prev == s[i]
  }

  // The link from `i` to its successor, without the closing one.
  ghost predicate Chained(s: seq<Item>, i: nat)
    requires i + 1 < |s|
    reads s
  {
    s[i].next == s[i + 1] && s[i + 1].prev == s[i]
  }

  // The items of `s`, in order, form one closed cycle in both directions.
  ghost predicate Cycle(s: seq<Item>)
    reads s
  {
    forall i :: 0 <= i < |s| ==> Joined(s, i)
  }

  // A chain that one more item closes.
  lemma ClosedBehind(s: seq<Item>, x: Item)
    requires s != [] && forall i :: 0 <= i < |s| - 1 ==> Chained(s, i)
    requires x.next == s[0] && x.prev == s[|s| - 1] && s[|s| - 1].next == x && s[0].prev == x
    ensures Cycle(s + [x])
  {
    forall i | 0 <= i <= |s|
      ensures Joined(s + [x], i)
    {
      assert i < |s| - 1 ==> Chained(s, i);
    }
  }

  class List {
    var head: Item?
    ghost var items: seq<Item>
    ghost var freed: set<Item>
    ghost var refusals: nat

    ghost predicate Valid()
      reads this, items
    {
      && head == (if items == [] then null else items[0])
      && Distinct(items) && Cycle(items)
      && forall i :: 0 <= i < |items| ==> items[i] !in freed
    }

    ghost function Payloads(): seq<int>
      reads this, items
    {
      seq(|items|, i requires 0 <= i < |items| reads this, items => items[i].payload)
    }

    constructor ()
      ensures Valid() && items == [] && freed == {} && refusals == 0
    {
      head, items, freed, refusals := null, [], {}, 0;
    }

    // malloc may fail; how often it has is counted.
    method Allocate() returns (item: Item?)
      modifies this`refusals
      ensures item == null ==> refusals == old(refusals) + 1
      ensures item != null ==> fresh(item) && refusals == old(refusals)
    {
      var refuse: bool := *;
      if refuse {
        refusals := refusals + 1;
        return null;
      }
      item := new Item;
    }

    method FreeItem(item: Item)
      requires item !in freed
      modifies this`freed
      ensures freed == old(freed) + {item}
    {
      freed := freed + {item};
    }

    // Reads and writes of links are allowed on items that are not freed.
    function NextOf(item: Item): Item?
      requires item !in freed
      reads this, item
    {
      item.next
    }

    function PrevOf(item: Item): Item?
      requires item !in freed
      reads this, item
    {
      item.prev
    }

    method SetNext(item: Item, value: Item?)
      requires item !in freed
      modifies item`next
      ensures item.next == value
    {
      item.next := value;
    }

    method SetPrev(item: Item, value: Item?)
      requires item !in freed
      modifies item`prev
      ensures item.prev == value
    {
      item.prev := value;
    }

    method AddToList(payload: int) returns (rc: int)
      requires Valid()
      modifies this`head, this`items, this`refusals, items
      ensures Valid() && rc == (if refusals == old(refusals) then 0 else -1)
      ensures rc == -1 ==> refusals == old(refusals) + 1
      ensures rc == -1 ==> items == old(items) && Payloads() == old(Payloads())
      ensures rc == 0 ==> items != [] && items[..|items| - 1] == old(items) && fresh(items[|items| - 1])
      ensures rc == 0 ==> Payloads() == old(Payloads()) + [payload]
    {
      var ptr := Allocate();
      if ptr == null {
        return -1;
      }
      ptr.payload := payload;
      if head == null {
        head := ptr;
        SetNext(ptr, ptr);
        SetPrev(ptr, ptr);
        items := [ptr];
        return 0;
      }
      LinkLast(ptr);
      return 0;
    }

    // The four writes that put an item behind the last one.
    method LinkLast(ptr: Item)
      requires Valid() && head != null && ptr !in freed && ptr !in items
      modifies this`items, ptr`prev, ptr`next, items`prev, items`next
      ensures Valid() && items == old(items) + [ptr]
    {
      hide Cycle;
      ghost var s, n := items, |items|;
      LastJoined();
      Opened();
      label before:
      SetNext(ptr, head);
      SetPrev(ptr, PrevOf(head));
      SetNext(PrevOf(head), ptr);
      SetPrev(head, ptr);
      forall i | 0 <= i < n - 1
        ensures Chained(s, i)
      {
        assert old@before(Chained(s, i));
      }
      ClosedBehind(s, ptr);
      items := items + [ptr];
    }

    lemma LastJoined()
      requires Valid() && items != []
      ensures Joined(items, |items| - 1)
    {
    }

    method Length() returns (length: nat)
      requires Valid()
      ensures length == |items|
    {
      if head == null {
        return 0;
      }
      assert Joined(items, 0);
      var ptr := NextOf(head);
      length := 1;
      while ptr != head
        invariant 1 <= length <= |items| && ptr == if length < |items| then items[length] else items[0]
        decreases |items| - length
      {
        assert Joined(items, length);
        length := length + 1;
        ptr := NextOf(ptr);
      }
    }

    // The items in the order in which the callback gets them.
    method IterateOverList() returns (visited: seq<Item>)
      requires Valid()
      ensures visited == items
    {
      visited := [];
      if head == null {
        return;
      }
      assert Joined(items, 0);
      var ptr := NextOf(head);
      visited := [head];
      while ptr != head
        invariant 1 <= |visited| <= |items| && visited == items[..|visited|]
        invariant ptr == if |visited| < |items| then items[|visited|] else items[0]
        decreases |items| - |visited|
      {
        assert Joined(items, |visited|);
        visited := visited + [ptr];
        ptr := NextOf(ptr);
      }
    }

    lemma Opened()
      requires Valid()
      ensures forall i :: 0 <= i < |items| - 1 ==> Chained(items, i)
    {
      forall i | 0 <= i < |items| - 1
        ensures Chained(items, i)
      {
        assert Joined(items, i);
      }
    }

    // Every item is freed, each exactly once and none read afterwards.
    method DeleteList()
      requires Valid()
      modifies this, items
      ensures Valid() && items == []
      ensures freed == old(freed) + set i | i in old(items)
    {
      if head == null {
        return;
      }
      ghost var s, n := items, |items|;
      assert Joined(s, n - 1) && Joined(s, 0);
      if NextOf(head) == head {
        FreeItem(head);
        head := null;
        items := [];
        return;
      }
      var ptr: Item := head;
      Opened();
      label before:
      SetNext(PrevOf(ptr), null);
      SetPrev(ptr, null);
      forall i | 0 <= i < n - 1
        ensures Chained(s, i)
      {
        assert old@before(Chained(s, i));
        assert s[i] != s[n - 1] && s[i + 1] != s[0];
      }
      FreeChain(ptr, s);
      head := null;
      items := [];
    }

    // The loop of delete_list, over the items of a list that has been cut open.
    method FreeChain(first: Item, ghost s: seq<Item>)
      requires s != [] && first == s[0] && Distinct(s) && forall i :: 0 <= i < |s| ==> s[i] !in freed
      requires (forall i :: 0 <= i < |s| - 1 ==> Chained(s, i)) && s[|s| - 1].next == null
      modifies this`freed, s
      ensures freed == old(freed) + set i | i in s
    {
      var ptr := first;
      ghost var n, k := |s|, 0;
      while NextOf(ptr) != null
        invariant 0 <= k < n && ptr == s[k] && s[n - 1].next == null
        invariant forall i :: k <= i < n - 1 ==> Chained(s, i)
        invariant forall i :: k <= i < n ==> s[i] !in freed
        invariant freed == old(freed) + set i | i in s[..k]
        decreases n - k
      {
        assert k < n - 1 && Chained(s, k);
        label before:
        ptr := NextOf(ptr);
        k := k + 1;
        FreeItem(PrevOf(ptr));
        SetPrev(ptr, null);
        forall i | k <= i < n - 1
          ensures Chained(s, i)
        {
          assert old@before(Chained(s, i));
          assert s[i + 1] != s[k];
        }
        assert s[..k] == s[..k - 1] + [s[k - 1]];
      }
      LastOf(s, k);
      FreeItem(ptr);
      assert s == s[..k] + [s[k]];
    }

    lemma LastOf(s: seq<Item>, k: nat)
      requires k < |s| && (k < |s| - 1 ==> Chained(s, k)) && s[k].next == null
      ensures k == |s| - 1
    {
    }
  }
}
