/** A sparse array whose occupied slots form a sorted list through their `next` indexes. */
module HardwareIdList {
  type Item = nat
  const NULL: Item := 0
  const INVALID: int := -1

  datatype Node = Node(next: int, valid: bool, item: Item)

  ghost predicate Ascending(chain: seq<nat>) {
    forall j, k :: 0 <= j < k < |chain| ==> chain[j] < chain[k]
  }

  function NextOf(chain: seq<nat>, k: nat): int {
    if k < |chain| then chain[k] else INVALID
  }

  predicate LinkAt(nodes: seq<Node>, chain: seq<nat>, k: nat)
    requires k < |chain| && chain[k] < |nodes|
  {
    nodes[chain[k]].next == NextOf(chain, k + 1)
  }

  /** `chain` lists the occupied slots in order, and the `next` indexes follow it. */
  ghost predicate Linked(nodes: seq<Node>, chain: seq<nat>) {
    Ascending(chain) && Flagged(nodes, chain) && Chained(nodes, chain)
  }

  /** A slot is flagged valid exactly when it is in the chain. */
  ghost predicate Flagged(nodes: seq<Node>, chain: seq<nat>) {
    && (forall i :: i in chain ==> i < |nodes|)
    && (forall i: nat :: i < |nodes| ==> (nodes[i].valid <==> i in chain))
  }

  ghost predicate Chained(nodes: seq<Node>, chain: seq<nat>) {
    && (forall k :: 0 <= k < |chain| ==> chain[k] < |nodes|)
    && (forall k {:trigger LinkAt(nodes, chain, k)} :: 0 <= k < |chain| ==> LinkAt(nodes, chain, k))
  }

  /** Where `index` belongs in the chain: everything before is smaller, everything from there on larger. */
  ghost predicate Place(chain: seq<nat>, k: nat, index: nat) {
    && k <= |chain|
    && (forall j :: 0 <= j < k ==> chain[j] < index)
    && (forall j :: k <= j < |chain| ==> index < chain[j])
  }

  ghost function Entries(nodes: seq<Node>, chain: seq<nat>): map<nat, Item>
    requires Flagged(nodes, chain)
  {
    map i | i in chain :: nodes[i].item
  }

  ghost function Insert(chain: seq<nat>, k: nat, index: nat): seq<nat>
    requires k <= |chain|
  {
    chain[..k] + [index] + chain[k..]
  }

  ghost function Remove(chain: seq<nat>, k: nat): seq<nat>
    requires k < |chain|
  {
    chain[..k] + chain[k + 1..]
  }

  lemma InsertMembers(chain: seq<nat>, k: nat, index: nat, i: nat)
    requires k <= |chain|
    ensures i in Insert(chain, k, index) <==> i == index || i in chain
  {
    assert chain == chain[..k] + chain[k..];
  }

  lemma RemoveMembers(chain: seq<nat>, k: nat, i: nat)
    requires Ascending(chain) && k < |chain|
    ensures i in Remove(chain, k) <==> i != chain[k] && i in chain
  {
    assert chain == chain[..k] + [chain[k]] + chain[k + 1..];
    assert forall j :: 0 <= j < k ==> chain[j] < chain[k];
    assert forall j :: k < j < |chain| ==> chain[k] < chain[j];
  }

  lemma InsertAscends(chain: seq<nat>, k: nat, index: nat)
    requires Ascending(chain) && Place(chain, k, index)
    ensures Ascending(Insert(chain, k, index))
  {
  }

  lemma RemoveAscends(chain: seq<nat>, k: nat)
    requires Ascending(chain) && k < |chain|
    ensures Ascending(Remove(chain, k))
  {
  }

  /** `index` comes in before element `k`: its predecessor and its own `next` change, and no other. */
  ghost predicate LinkedIn(nodes: seq<Node>, nodes2: seq<Node>, chain: seq<nat>, k: nat, index: nat, item: Item)
  {
    && |nodes2| == |nodes| && k <= |chain| && index < |nodes|
    && nodes2[index] == Node(NextOf(chain, k), true, item)
    && (forall i {:trigger nodes2[i]} :: 0 <= i < |nodes| && i != index ==> nodes2[i].valid == nodes[i].valid && nodes2[i].item == nodes[i].item)
    && (forall i {:trigger nodes2[i]} :: 0 <= i < |nodes| && i != index ==>
          nodes2[i].next == if k > 0 && i == chain[k - 1] then index else nodes[i].next)
  }

  lemma InsertNext(nodes: seq<Node>, nodes2: seq<Node>, chain: seq<nat>, k: nat, index: nat, item: Item, j: nat)
    requires Linked(nodes, chain) && Place(chain, k, index) && LinkedIn(nodes, nodes2, chain, k, index, item)
    requires j <= |chain|
    ensures var chain2 := Insert(chain, k, index);
            chain2[j] < |nodes2| && LinkAt(nodes2, chain2, j)
  {
    var j0 := if j < k then j else j - 1;
    if j != k {
      assert chain[j0] != index && LinkAt(nodes, chain, j0);
      if k > 0 && j0 != k - 1 {
        assert chain[j0] != chain[k - 1];
      }
    }
  }

  lemma InsertFlags(nodes: seq<Node>, nodes2: seq<Node>, chain: seq<nat>, k: nat, index: nat, item: Item)
    requires Flagged(nodes, chain) && LinkedIn(nodes, nodes2, chain, k, index, item)
    ensures Flagged(nodes2, Insert(chain, k, index))
    ensures Entries(nodes2, Insert(chain, k, index)) == Entries(nodes, chain)[index := item]
  {
    forall i: nat
      ensures i in Insert(chain, k, index) <==> i == index || i in chain
    {
      InsertMembers(chain, k, index, i);
    }
  }

  lemma InsertLinks(nodes: seq<Node>, nodes2: seq<Node>, chain: seq<nat>, k: nat, index: nat, item: Item)
    requires Linked(nodes, chain) && Place(chain, k, index) && LinkedIn(nodes, nodes2, chain, k, index, item)
    ensures Linked(nodes2, Insert(chain, k, index))
    ensures Entries(nodes2, Insert(chain, k, index)) == Entries(nodes, chain)[index := item]
  {
    InsertAscends(chain, k, index);
    InsertFlags(nodes, nodes2, chain, k, index, item);
    forall j | 0 <= j < |Insert(chain, k, index)|
      ensures Insert(chain, k, index)[j] < |nodes2| && LinkAt(nodes2, Insert(chain, k, index), j)
    {
      InsertNext(nodes, nodes2, chain, k, index, item, j);
    }
  }

  lemma OverwriteLinks(nodes: seq<Node>, chain: seq<nat>, index: nat, item: Item)
    requires Linked(nodes, chain) && index in chain && index < |nodes|
    ensures var nodes2 := nodes[index := nodes[index].(item := item)];
            Linked(nodes2, chain) && Entries(nodes2, chain) == Entries(nodes, chain)[index := item]
  {
    var nodes2 := nodes[index := nodes[index].(item := item)];
    forall k | 0 <= k < |chain|
      ensures LinkAt(nodes2, chain, k)
    {
      assert LinkAt(nodes, chain, k);
    }
  }

  /** Element `k` goes: its predecessor's `next` passes it by, and it is no longer valid. */
  ghost predicate LinkedOut(nodes: seq<Node>, nodes2: seq<Node>, chain: seq<nat>, k: nat)
    requires k < |chain| && chain[k] < |nodes|
  {
    && |nodes2| == |nodes| && !nodes2[chain[k]].valid
    && (forall i {:trigger nodes2[i]} :: 0 <= i < |nodes| && i != chain[k] ==> nodes2[i].valid == nodes[i].valid && nodes2[i].item == nodes[i].item)
    && (forall i {:trigger nodes2[i]} :: 0 <= i < |nodes| ==> nodes2[i].next == if k > 0 && i == chain[k - 1] then nodes[chain[k]].next else nodes[i].next)
  }

  lemma RemoveNext(nodes: seq<Node>, nodes2: seq<Node>, chain: seq<nat>, k: nat, j: nat)
    requires Linked(nodes, chain) && k < |chain| && LinkedOut(nodes, nodes2, chain, k) && j < |chain| - 1
    ensures var chain2 := Remove(chain, k);
            chain2[j] < |nodes2| && LinkAt(nodes2, chain2, j)
  {
    var j0 := if j < k then j else j + 1;
    assert LinkAt(nodes, chain, j0) && LinkAt(nodes, chain, k);
    if k > 0 && j0 != k - 1 {
      assert chain[j0] != chain[k - 1];
    }
  }

  lemma RemoveFlags(nodes: seq<Node>, nodes2: seq<Node>, chain: seq<nat>, k: nat)
    requires Ascending(chain) && Flagged(nodes, chain) && k < |chain| && chain[k] < |nodes| && LinkedOut(nodes, nodes2, chain, k)
    ensures Flagged(nodes2, Remove(chain, k))
    ensures Entries(nodes2, Remove(chain, k)) == Entries(nodes, chain) - {chain[k]}
  {
    forall i: nat
      ensures i in Remove(chain, k) <==> i != chain[k] && i in chain
    {
      RemoveMembers(chain, k, i);
    }
  }

  lemma RemoveLinks(nodes: seq<Node>, nodes2: seq<Node>, chain: seq<nat>, k: nat)
    requires Linked(nodes, chain) && k < |chain| && LinkedOut(nodes, nodes2, chain, k)
    ensures Linked(nodes2, Remove(chain, k))
    ensures Entries(nodes2, Remove(chain, k)) == Entries(nodes, chain) - {chain[k]}
  {
    RemoveAscends(chain, k);
    RemoveFlags(nodes, nodes2, chain, k);
    forall j | 0 <= j < |Remove(chain, k)|
      ensures Remove(chain, k)[j] < |nodes2| && LinkAt(nodes2, Remove(chain, k), j)
    {
      RemoveNext(nodes, nodes2, chain, k, j);
    }
  }

  /** A larger, zeroed array with the old slots copied in. */
  lemma GrowLinks(nodes: seq<Node>, more: seq<Node>, chain: seq<nat>)
    requires Linked(nodes, chain) && |nodes| <= |more|
    requires more[..|nodes|] == nodes && forall i :: |nodes| <= i < |more| ==> !more[i].valid
    ensures Linked(more, chain) && Entries(more, chain) == Entries(nodes, chain)
  {
    assert forall i :: 0 <= i < |nodes| ==> more[i] == more[..|nodes|][i];
    forall k | 0 <= k < |chain|
      ensures LinkAt(more, chain, k)
    {
      assert LinkAt(nodes, chain, k);
    }
  }

  function LastOf(chain: seq<nat>): int {
    if chain == [] then INVALID else chain[|chain| - 1]
  }

  /** The number of entries an enumeration yields: it takes a NULL item for the end. */
  function Yields(nodes: seq<Node>, chain: seq<nat>, k: nat): (n: nat)
    requires k <= |chain| && forall j :: 0 <= j < |chain| ==> chain[j] < |nodes|
    ensures k <= n <= |chain| && (n < |chain| ==> nodes[chain[n]].item == NULL)
    ensures forall j :: k <= j < n ==> nodes[chain[j]].item != NULL
    decreases |chain| - k
  {
    if k == |chain| || nodes[chain[k]].item == NULL then k else Yields(nodes, chain, k + 1)
  }

  class List {
    var arr: array<Node>
    var firstValid: int
    var maxIndex: int
    var maxAllocated: int
    /** The occupied slots, in order. */
    ghost var chain: seq<nat>

    ghost predicate Valid()
      reads this, arr
    {
      && arr.Length == maxAllocated + 1 && Linked(arr[..], chain)
      && firstValid == NextOf(chain, 0) && maxIndex == LastOf(chain)
    }

    ghost function Contents(): map<nat, Item>
      requires Valid()
      reads this, arr
    {
      Entries(arr[..], chain)
    }

    /** An empty list over `preallocated` zeroed slots, possibly none. */
    constructor (preallocated: nat)
      ensures Valid() && Contents() == map[] && arr.Length == preallocated && fresh(arr)
    {
      arr := new Node[preallocated](i => Node(0, false, NULL));
      firstValid, maxIndex, maxAllocated, chain := INVALID, INVALID, preallocated - 1, [];
    }

    /** Map lookup; asking an empty list for id -1 would read before the array. */
    method GetItem(id: int) returns (item: Item)
      requires Valid() && (id != INVALID || chain != [])
      ensures item == if 0 <= id && id in Contents() then Contents()[id] else NULL
    {
      if id > maxIndex || id < firstValid {
        Bounds(chain, id);
        return NULL;
      }
      item := if arr[id].valid then arr[id].item else NULL;
    }

    /** The lowest unoccupied slot of the array. */
    method FindFreeIndex() returns (ok: bool, id: nat)
      requires Valid()
      ensures ok <==> exists i: nat :: i < arr.Length && i !in Contents()
      ensures ok ==> id < arr.Length && id !in Contents() && forall i: nat :: i < id ==> i in Contents()
    {
      id := 0;
      while id < maxAllocated + 1
        invariant 0 <= id <= arr.Length && forall i: nat :: i < id ==> arr[i].valid
      {
        if !arr[id].valid {
          assert id !in Contents();
          return true, id;
        }
        id := id + 1;
      }
      ok := false;
    }

    /** One step of an enumeration: from nothing to the first entry, from entry `k - 1` to entry `k`. */
    method GetNextItem(cursor: int, ghost k: nat) returns (next: int, item: Item)
      requires Valid() && k <= |chain| && cursor == if k == 0 then INVALID else chain[k - 1]
      ensures if k == |chain| then next == cursor && item == NULL else next == chain[k] && item == Contents()[chain[k]]
    {
      if cursor == INVALID {
        if firstValid == INVALID {
          return cursor, NULL;
        }
        return firstValid, arr[firstValid].item;
      }
      assert LinkAt(arr[..], chain, k - 1);
      if arr[cursor].next == INVALID {
        return cursor, NULL;
      }
      next := arr[cursor].next;
      item := arr[next].item;
    }

    /** The iterator loop: every key in ascending order, once, up to the first NULL item. */
    method Enumerate() returns (keys: seq<int>)
      requires Valid()
      ensures |keys| == Yields(arr[..], chain, 0)
      ensures forall k :: 0 <= k < |keys| ==> keys[k] == chain[k]
    {
      keys := [];
      var cursor, item := GetNextItem(INVALID, 0);
      while item != NULL
        invariant |keys| <= |chain| && forall k :: 0 <= k < |keys| ==> keys[k] == chain[k]
        invariant Yields(arr[..], chain, 0) == Yields(arr[..], chain, |keys|)
        invariant item != NULL ==> |keys| < |chain| && cursor == chain[|keys|]
        invariant item == if |keys| < |chain| then arr[chain[|keys|]].item else NULL
        decreases |chain| - |keys|
      {
        keys := keys + [cursor];
        cursor, item := GetNextItem(cursor, |keys|);
      }
    }

    /** Walks to the last entry at or below `index`. */
    method FindPlace(index: nat) returns (i: nat, ghost k: nat)
      requires Valid() && chain != [] && firstValid <= index <= maxIndex
      ensures k < |chain| && i == chain[k] && i <= index
      ensures k + 1 < |chain| ==> index < chain[k + 1]
    {
      i, k := firstValid, 0;
      assert LinkAt(arr[..], chain, 0);
      while arr[i].next != INVALID && arr[i].next <= index
        invariant k < |chain| && i == chain[k] && i <= index
        invariant arr[i].next == NextOf(chain, k + 1)
        decreases |chain| - k
      {
        i, k := arr[i].next, k + 1;
        assert LinkAt(arr[..], chain, k);
      }
    }

    /** A larger array with the old slots copied in and the rest zero. */
    method Grow(index: nat)
      requires Valid() && index > maxAllocated
      modifies this
      ensures Valid() && fresh(arr) && arr.Length == index + 1 && chain == old(chain) && Contents() == old(Contents())
      ensures maxIndex == old(maxIndex) && firstValid == old(firstValid)
    {
      var bigger := new Node[index + 1](i => Node(0, false, NULL));
      var i := 0;
      while i < arr.Length
        modifies bigger
        invariant 0 <= i <= arr.Length
        invariant forall j :: 0 <= j < i ==> bigger[j] == arr[j]
        invariant forall j :: i <= j < bigger.Length ==> !bigger[j].valid
      {
        bigger[i] := arr[i];
        i := i + 1;
      }
      GrowLinks(arr[..], bigger[..], chain);
      arr, maxAllocated := bigger, index;
    }

    /** Links slot `index` in before entry `k`. */
    method LinkIn(index: nat, item: Item, ghost k: nat, previous: int, next: int)
      requires Valid() && index < arr.Length && Place(chain, k, index)
      requires previous == (if k == 0 then INVALID else chain[k - 1]) && next == NextOf(chain, k)
      modifies this, arr
      ensures Valid() && arr == old(arr) && Contents() == old(Contents())[index := item]
    {
      ghost var nodes := arr[..];
      if previous == INVALID {
        firstValid := index;
      } else {
        arr[previous] := arr[previous].(next := index);
      }
      if next == INVALID {
        maxIndex := index;
      }
      arr[index] := Node(next, true, item);
      assert LinkedIn(nodes, arr[..], chain, k, index, item);
      InsertLinks(nodes, arr[..], chain, k, index, item);
      InsertEnds(chain, k, index);
      chain := Insert(chain, k, index);
    }

    method Overwrite(index: nat, item: Item)
      requires Valid() && index in chain
      modifies arr
      ensures Valid() && Contents() == old(Contents())[index := item]
    {
      ghost var nodes := arr[..];
      OverwriteLinks(nodes, chain, index, item);
      arr[index] := arr[index].(item := item);
      assert arr[..] == nodes[index := nodes[index].(item := item)];
    }

    /** Map update; without `memory` a slot beyond the array cannot be added and nothing changes. */
    method AddItem(index: nat, item: Item, memory: bool) returns (ok: bool)
      requires Valid()
      modifies this, arr
      ensures Valid() && ok == (index < old(arr.Length) || memory)
      ensures Contents() == if ok then old(Contents())[index := item] else old(Contents())
      ensures arr == old(arr) || fresh(arr)
    {
      if index > maxAllocated {
        if !memory {
          return false;
        }
        Grow(index);
        Last(chain, index);
        LinkIn(index, item, |chain|, maxIndex, INVALID);
      } else if firstValid == INVALID {
        LinkIn(index, item, 0, INVALID, INVALID);
      } else if index < firstValid {
        LinkIn(index, item, 0, INVALID, firstValid);
      } else if index > maxIndex {
        Last(chain, index);
        LinkIn(index, item, |chain|, maxIndex, INVALID);
      } else {
        var i, k := FindPlace(index);
        if i == index {
          Overwrite(index, item);
        } else {
          assert LinkAt(arr[..], chain, k);
          Between(chain, k, index);
          LinkIn(index, item, k + 1, i, arr[i].next);
        }
      }
      ok := true;
    }

    /** Unlinks entry `k`, slot `id`. */
    method LinkOut(id: nat, previous: int, ghost k: nat)
      requires Valid() && k < |chain| && id == chain[k] && previous == if k == 0 then INVALID else chain[k - 1]
      modifies this, arr
      ensures Valid() && arr == old(arr) && Contents() == old(Contents()) - {id}
    {
      ghost var nodes := arr[..];
      assert LinkAt(nodes, chain, k);
      if id == maxIndex {
        maxIndex := previous;
      }
      if previous == INVALID {
        firstValid := arr[id].next;
      } else {
        arr[previous] := arr[previous].(next := arr[id].next);
      }
      arr[id] := arr[id].(valid := false);
      assert LinkedOut(nodes, arr[..], chain, k);
      RemoveLinks(nodes, arr[..], chain, k);
      RemoveEnds(chain, k);
      chain := Remove(chain, k);
    }

    /** Map removal; an id that is not there is left alone. */
    method RemoveItem(id: nat)
      requires Valid()
      modifies this, arr
      ensures Valid() && arr == old(arr) && Contents() == old(Contents()) - {id}
    {
      if id > maxIndex {
        Bounds(chain, id);
        return;
      }
      if firstValid == id {
        LinkOut(id, INVALID, 0);
        return;
      }
      var i: int := firstValid;
      ghost var k := 0;
      while i != INVALID
        invariant k <= |chain| && i == NextOf(chain, k) && (forall j :: 0 <= j <= k && j < |chain| ==> chain[j] != id)
        decreases |chain| - k
      {
        assert LinkAt(arr[..], chain, k);
        if arr[i].next == id {
          LinkOut(id, i, k + 1);
          return;
        }
        i, k := arr[i].next, k + 1;
      }
    }
  }

  lemma Bounds(chain: seq<nat>, id: int)
    requires Ascending(chain) && (id > LastOf(chain) || id < NextOf(chain, 0))
    ensures 0 <= id ==> id !in chain
  {
  }

  lemma InsertEnds(chain: seq<nat>, k: nat, index: nat)
    requires k <= |chain|
    ensures NextOf(Insert(chain, k, index), 0) == if k == 0 then index else chain[0]
    ensures LastOf(Insert(chain, k, index)) == if k == |chain| then index else LastOf(chain)
  {
  }

  lemma RemoveEnds(chain: seq<nat>, k: nat)
    requires Ascending(chain) && k < |chain|
    ensures NextOf(Remove(chain, k), 0) == if k == 0 then NextOf(chain, 1) else chain[0]
    ensures LastOf(Remove(chain, k)) == if k < |chain| - 1 then LastOf(chain) else if k == 0 then INVALID else chain[k - 1]
    ensures chain[k] == LastOf(chain) <==> k == |chain| - 1
  {
  }

  lemma Last(chain: seq<nat>, index: nat)
    requires Ascending(chain) && index > LastOf(chain)
    ensures Place(chain, |chain|, index)
  {
  }

  lemma Between(chain: seq<nat>, k: nat, index: nat)
    requires Ascending(chain) && k < |chain| && chain[k] < index && (k + 1 < |chain| ==> index < chain[k + 1])
    ensures Place(chain, k + 1, index)
  {
  }

  /** An enumeration yields every entry if and only if no item is NULL. */
  lemma EnumeratesAll(nodes: seq<Node>, chain: seq<nat>)
    requires Linked(nodes, chain)
    ensures Yields(nodes, chain, 0) == |chain| <==> forall i :: i in Entries(nodes, chain) ==> Entries(nodes, chain)[i] != NULL
  {
    var n := Yields(nodes, chain, 0);
    if n < |chain| {
      assert chain[n] in Entries(nodes, chain);
    }
  }

  /** A NULL item hides every entry behind it from the enumeration. */
  method NullHidesRest(i: nat, j: nat, item: Item) returns (keys: seq<int>, found: Item)
    requires i < j && item != NULL
    ensures keys == [] && found == item
  {
    var list := new List(j + 1);
    var first := list.AddItem(i, NULL, true);
    var second := list.AddItem(j, item, true);
    assert i in list.Contents() && list.Contents()[i] == NULL;
    assert list.chain[0] in list.Contents();
    keys := list.Enumerate();
    found := list.GetItem(j);
  }
}
