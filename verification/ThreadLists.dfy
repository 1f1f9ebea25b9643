/** A pointer list of thread table slots: the links of one kind embedded in the slots, and the head of the list. */
module ThreadLists {
  import opened Threads
  import opened Lists

  /** The links of some slots. */
  ghost function Nodes(links: seq<ListHead>, slots: seq<nat>): (r: seq<ListHead>)
    requires forall k :: 0 <= k < |slots| ==> slots[k] < |links|
    ensures |r| == |slots| && forall k :: 0 <= k < |slots| ==> r[k] == links[slots[k]]
  {
    if slots == [] then [] else [links[slots[0]]] + Nodes(links, slots[1..])
  }

  lemma NodesAppend(links: seq<ListHead>, a: seq<nat>, slot: nat)
    requires slot < |links| && forall k :: 0 <= k < |a| ==> a[k] < |links|
    ensures Nodes(links, a + [slot]) == Nodes(links, a) + [links[slot]]
  {
    hide Nodes;
    var l, r := Nodes(links, a + [slot]), Nodes(links, a) + [links[slot]];
    assert |l| == |r| && forall k :: 0 <= k < |l| ==> l[k] == r[k];
  }

  lemma NodesTail(links: seq<ListHead>, a: seq<nat>)
    requires forall k :: 0 <= k < |a| ==> a[k] < |links|
    ensures a != [] ==> Nodes(links, a) == [links[a[0]]] + Nodes(links, a[1..])
  {
  }

  lemma NodesPrepend(links: seq<ListHead>, a: seq<nat>, slot: nat)
    requires slot < |links| && forall k :: 0 <= k < |a| ==> a[k] < |links|
    ensures Nodes(links, [slot] + a) == [links[slot]] + Nodes(links, a)
  {
    assert ([slot] + a)[1..] == a;
  }

  lemma NodesWithout(links: seq<ListHead>, a: seq<nat>, i: nat)
    requires i < |a| && forall k :: 0 <= k < |a| ==> a[k] < |links|
    ensures var rest := a[..i] + a[i + 1..]; forall k :: 0 <= k < |rest| ==> rest[k] < |links|
    ensures Nodes(links, a[..i] + a[i + 1..]) == Nodes(links, a)[..i] + Nodes(links, a)[i + 1..]
  {
    hide Nodes;
    var rest := a[..i] + a[i + 1..];
    assert forall k :: 0 <= k < |rest| ==> rest[k] == if k < i then a[k] else a[k + 1];
    var l, r := Nodes(links, rest), Nodes(links, a)[..i] + Nodes(links, a)[i + 1..];
    assert |l| == |r| && forall k :: 0 <= k < |l| ==> l[k] == r[k];
  }

  lemma {:induction false} WithoutIs(a: seq<nat>, i: nat)
    requires i < |a| && NoDuplicates(a)
    ensures Without(a, a[i]) == a[..i] + a[i + 1..]
  {
    if i > 0 {
      WithoutIs(a[1..], i - 1);
      assert a[1..][..i - 1] == a[1..i] && a[1..][i..] == a[i + 1..];
      assert [a[0]] + (a[1..i] + a[i + 1..]) == a[..i] + a[i + 1..];
    }
  }

  ghost predicate NoDuplicates(slots: seq<nat>) {
    forall j, k :: 0 <= j < k < |slots| ==> slots[j] != slots[k]
  }

  ghost predicate InTable(slots: seq<nat>) {
    NoDuplicates(slots) && forall k :: 0 <= k < |slots| ==> slots[k] < THREAD_MAX
  }

  /** The first goes to the end. */
  function Rotation(slots: seq<nat>): seq<nat> {
    if slots == [] then [] else slots[1..] + [slots[0]]
  }

  /** A list with one slot more. */
  lemma OneMore(slots: seq<nat>, slot: nat, now: seq<nat>)
    requires InTable(slots) && slot < THREAD_MAX && slot !in slots && now in {slots + [slot], [slot] + slots}
    ensures InTable(now) && forall i: nat :: i in now <==> i in slots || i == slot
  {
  }

  class SlotList {
    const head: ListHead
    /** The link embedded in each slot. */
    const links: seq<ListHead>
    ghost const repr: set<object>
    /** The slots in the list, in order. */
    ghost var slots: seq<nat>

    /** The nodes are separate objects. */
    ghost predicate Shape()
    {
      && |links| == THREAD_MAX && head in repr && this !in repr
      && (forall i :: 0 <= i < |links| ==> links[i] in repr && links[i] != head && links[i].owner == i)
    }

    /** The pointers show the list `slots`, and the links of all other slots are null. */
    ghost predicate Valid()
      reads this, repr
    {
      && Shape()
      && InTable(slots)
      && IsList(head, Nodes(links, slots))
      && (forall i :: 0 <= i < THREAD_MAX && i !in slots ==> links[i].next == null && links[i].prev == null)
    }

    /** No slot is linked, and the head is not even initialised. */
    constructor ()
      ensures Valid() && fresh(repr) && this !in repr && slots == []
    {
      var h := new ListHead(-1);
      var all: seq<ListHead> := [];
      ghost var objects: set<object> := {h};
      for i := 0 to THREAD_MAX
        invariant |all| == i && fresh(objects) && h in objects && h.next == null
        invariant forall k :: 0 <= k < i ==> all[k] in objects && all[k] != h && all[k].owner == k
        invariant forall k :: 0 <= k < i ==> all[k].next == null && all[k].prev == null
      {
        var l := new ListHead(i);
        all := all + [l];
        objects := objects + {l};
      }
      head, links, repr, slots := h, all, objects, [];
    }

    /** What adding a slot means for the nodes. */
    ghost predicate Grows(slot: nat, now: seq<nat>)
      reads this
    {
      && slot < |links| == THREAD_MAX
      && (forall k :: 0 <= k < |slots| ==> slots[k] < |links|)
      && (forall i: nat :: i in now <==> i in slots || i == slot)
      && links[slot] !in [head] + Nodes(links, slots)
      && InTable(now)
    }

    lemma Added(slot: nat, now: seq<nat>)
      requires Valid() && slot < THREAD_MAX && slot !in slots && now in {slots + [slot], [slot] + slots}
      ensures Grows(slot, now)
    {
      hide IsList;
      OneMore(slots, slot, now);
    }

    /** A node of this list: not the link of a slot outside it. */
    ghost predicate Own(node: ListHead)
      reads this
    {
      node in repr && forall j :: 0 <= j < |links| && j !in slots ==> links[j] != node
    }

    /** The head, and the link of the slot at `k`. */
    lemma NodeAt(k: int)
      requires Valid()
      ensures (forall i :: 0 <= i < |slots| ==> slots[i] < |links|) && |Nodes(links, slots)| == |slots| && Own(head)
      ensures 0 <= k < |slots| ==> Nodes(links, slots)[k] == links[slots[k]] && Own(links[slots[k]])
    {
      hide IsList, NoDuplicates, Nodes;
      assert 0 <= k < |slots| ==> slots[k] in slots && Nodes(links, slots)[k] == links[slots[k]];
    }

    /** The pointers show the new list `now`; links of slots outside it are null. */
    ghost predicate Shows(now: seq<nat>)
      reads this, repr
    {
      && Shape()
      && InTable(now)
      && IsList(head, Nodes(links, now))
      && (forall i :: 0 <= i < THREAD_MAX && i !in now ==> links[i].next == null && links[i].prev == null)
    }

    /** Takes over the list that the pointers show. */
    ghost method Take(now: seq<nat>)
      requires Shows(now)
      modifies this`slots
      ensures Valid() && slots == now
    {
      slots := now;
    }

    method AddTail(slot: nat)
      requires Valid() && slot < THREAD_MAX && slot !in slots
      modifies this`slots, repr
      ensures Valid() && slots == old(slots) + [slot]
    {
      ghost var now := slots + [slot];
      hide IsList, Nodes, InTable;
      Added(slot, now);
      ghost var s := Nodes(links, slots);
      NodesAppend(links, slots, slot);
      NodeAt(|slots| - 1);
      ListAddTail(links[slot], head, s);
      Take(now);
    }

    method AddFront(slot: nat)
      requires Valid() && slot < THREAD_MAX && slot !in slots
      modifies this`slots, repr
      ensures Valid() && slots == [slot] + old(slots)
    {
      ghost var now := [slot] + slots;
      hide IsList, Nodes, InTable;
      Added(slot, now);
      ghost var s := Nodes(links, slots);
      NodesPrepend(links, slots, slot);
      NodeAt(0);
      ListAdd(links[slot], head, s);
      Take(now);
    }

    /** A slot is in the list exactly when both links are set. */
    lemma LinkedIffIn(slot: nat)
      requires Valid() && slot < THREAD_MAX
      ensures slot in slots <==> links[slot].next != null && links[slot].prev != null
      ensures slot in slots <==> links[slot].next != null
    {
      if slot in slots {
        var k :| 0 <= k < |slots| && slots[k] == slot;
        MemberLinked(head, Nodes(links, slots), k);
      }
    }

    /** Takes a slot out of the list if it is in it. */
    method Remove(slot: nat)
      requires Valid() && slot < THREAD_MAX
      modifies this`slots, repr
      ensures Valid() && slots == Without(old(slots), slot)
    {
      LinkedIffIn(slot);
      if links[slot].next != null && links[slot].prev != null {
        ghost var i :| 0 <= i < |slots| && slots[i] == slot;
        WithoutIs(slots, i);
        Unlink(slot, i);
      } else {
        WithoutSame(slots, slot);
      }
    }

    method Unlink(slot: nat, ghost i: nat)
      requires Valid() && i < |slots| && slots[i] == slot
      modifies this`slots, repr
      ensures Valid() && slots == old(slots)[..i] + old(slots)[i + 1..]
    {
      hide IsList, Nodes, InTable, Neighbours;
      ghost var now := slots[..i] + slots[i + 1..];
      OneLess(slots, i, now);
      NeighboursIn(i);
      ghost var s := Nodes(links, slots);
      NodesWithout(links, slots, i);
      ListDel(links[slot], head, s, i);
      Take(now);
    }

    lemma NeighboursIn(i: nat)
      requires Valid() && i < |slots|
      ensures (forall k :: 0 <= k < |slots| ==> slots[k] < |links|) && |Nodes(links, slots)| == |slots|
      ensures Nodes(links, slots)[i] == links[slots[i]]
      ensures forall x :: x in Neighbours(head, Nodes(links, slots), i) ==> Own(x)
    {
      hide Valid, Nodes, Own;
      NodeAt(i - 1);
      NodeAt(i);
      NodeAt(i + 1);
    }

    /** `list_first_entry` of a list that is not empty. */
    method First() returns (slot: nat)
      requires Valid() && slots != []
      ensures slot == slots[0]
    {
      ghost var r := [head] + Nodes(links, slots);
      assert r[1] == links[slots[0]];
      slot := head.next.owner;
    }

    method RotateLeft()
      requires Valid()
      modifies this`slots, repr
      ensures Valid() && slots == Rotation(old(slots))
    {
      hide IsList, InTable, Turned, Nodes, Rotation;
      ghost var now := Rotation(slots);
      TurnedIn();
      ghost var s := Nodes(links, slots);
      Rotated(links, slots);
      ListRotateLeft(head, s);
      Take(now);
    }

    lemma TurnedIn()
      requires Valid()
      ensures forall k :: 0 <= k < |slots| ==> slots[k] < |links|
      ensures forall x :: x in Turned(head, Nodes(links, slots)) ==> Own(x)
    {
      hide Valid, Nodes, Own;
      NodeAt(0);
      NodeAt(1);
      NodeAt(|slots| - 1);
    }
  }

  /** A list with the slot at `i` taken out. */
  lemma OneLess(slots: seq<nat>, i: nat, now: seq<nat>)
    requires InTable(slots) && i < |slots| && now == slots[..i] + slots[i + 1..]
    ensures InTable(now) && forall j: nat :: j in now <==> j in slots && j != slots[i]
  {
    assert forall k :: 0 <= k < |now| ==> now[k] == if k < i then slots[k] else slots[k + 1];
    forall j: nat | j in slots && j != slots[i] ensures j in now {
      var k :| 0 <= k < |slots| && slots[k] == j;
      assert now[if k < i then k else k - 1] == j;
    }
  }

  lemma Rotated(links: seq<ListHead>, slots: seq<nat>)
    requires InTable(slots) && |links| == THREAD_MAX
    ensures var now := Rotation(slots); InTable(now) && forall j: nat :: j in now <==> j in slots
    ensures var s := Nodes(links, slots); Nodes(links, Rotation(slots)) == if s == [] then [] else s[1..] + [s[0]]
  {
    assert slots != [] ==> slots == [slots[0]] + slots[1..];
    if slots != [] {
      NodesAppend(links, slots[1..], slots[0]);
      NodesTail(links, slots);
    }
  }

  lemma MemberLinked(head: ListHead, s: seq<ListHead>, k: nat)
    requires IsList(head, s) && k < |s|
    ensures s[k].next != null && s[k].prev != null
  {
    var r := [head] + s;
    assert r[k + 1] == s[k] && r[k + 1].prev == r[k];
    assert r[k + 1].next == if k + 1 == |s| then r[0] else r[k + 2];
  }
}
