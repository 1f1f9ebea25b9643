/** The intrusive circular list: pointer rewriting refines operations on sequences of nodes. */
module Lists {
  import opened Common

  class ListHead {
    /** Which entry of a table the link is embedded in; a free-floating head is in none. */
    const owner: int
    var next: ListHead?
    var prev: ListHead?

    /** Zero-initialised, as in static storage. */
    constructor (owner: int)
      ensures this.owner == owner && next == null && prev == null
    {
      this.owner, next, prev := owner, null, null;
    }
  }

  ghost predicate Distinct(r: seq<ListHead>) {
    forall i, j :: 0 <= i < j < |r| ==> r[i] != r[j]
  }

  /** Consecutive nodes of `r`, and its last and first, point at each other. */
  ghost predicate Ring(r: seq<ListHead>)
    reads r
  {
    && |r| >= 1
    && Distinct(r)
    && (forall i :: 0 <= i < |r| - 1 ==> r[i].next == r[i + 1])
    && (forall i :: 0 < i < |r| ==> r[i].prev == r[i - 1])
    && r[|r| - 1].next == r[0]
    && r[0].prev == r[|r| - 1]
  }

  /** The list with the given head holds the nodes `s`, in order. A head that was never initialised is empty. */
  ghost predicate IsList(head: ListHead, s: seq<ListHead>)
    reads [head] + s
  {
    Ring([head] + s) || (s == [] && head.next == null)
  }

  /** A ring may be read from any of its nodes. */
  lemma RingSwap(a: seq<ListHead>, b: seq<ListHead>)
    requires Ring(a + b)
    ensures Ring(b + a)
  {
    var r, q := a + b, b + a;
    assert forall i :: 0 <= i < |q| ==> q[i] == if i < |b| then r[|a| + i] else r[i - |b|];
  }

  method InitListHead(list: ListHead)
    modifies list
    ensures IsList(list, [])
    ensures Ring([list])
  {
    list.next := list;
    list.prev := list;
  }

  method EnsureInit(head: ListHead, ghost s: seq<ListHead>)
    requires IsList(head, s)
    modifies head
    ensures Ring([head] + s)
  {
    ghost var r := [head] + s;
    assert |r| > 1 ==> r[0].next == r[1];
    if head.next == null {
      InitListHead(head);
      assert r == [head];
    }
  }

  method ListEmpty(head: ListHead, ghost s: seq<ListHead>) returns (empty: bool)
    requires IsList(head, s)
    ensures empty <==> s == []
  {
    empty := head.next == null || head.next == head;
    if Ring([head] + s) {
      assert s != [] ==> ([head] + s)[1] == s[0] && ([head] + s)[0] != ([head] + s)[1];
    }
  }

  /** `_list_add` at the end of a ring: between its last node and its first. */
  method LinkLast(nw: ListHead, a: ListHead, b: ListHead, ghost r: seq<ListHead>)
    requires Ring(r) && nw !in r && a == r[|r| - 1] && b == r[0]
    modifies nw, a, b
    ensures Ring(r + [nw])
  {
    a.next := nw;
    nw.prev := a;
    nw.next := b;
    b.prev := nw;
  }

  /** `list_add`: prepend. */
  method ListAdd(nw: ListHead, head: ListHead, ghost s: seq<ListHead>)
    requires IsList(head, s) && nw !in [head] + s
    modifies nw, head, if s == [] then {} else {s[0]}
    ensures IsList(head, [nw] + s)
  {
    EnsureInit(head, s);
    RingSwap([head], s);
    ghost var r' := s + [head];
    assert head.next == r'[0];
    LinkLast(nw, head, head.next, r');
    hide Ring;
    assert r' + [nw] == s + [head, nw];
    RingSwap(s, [head, nw]);
    assert [head, nw] + s == [head] + ([nw] + s);
  }

  /** `list_add_tail`: append. */
  method ListAddTail(nw: ListHead, head: ListHead, ghost s: seq<ListHead>)
    requires IsList(head, s) && nw !in [head] + s
    modifies nw, head, if s == [] then {} else {s[|s| - 1]}
    ensures IsList(head, s + [nw])
  {
    EnsureInit(head, s);
    ghost var r := [head] + s;
    assert head == r[0] && head.prev == r[|r| - 1];
    LinkLast(nw, head.prev, head, r);
    assert r + [nw] == [head] + (s + [nw]);
  }

  /** Takes the first node out of a ring. */
  method Unlink(item: ListHead, ghost r: seq<ListHead>)
    requires Ring(r) && item == r[0]
    modifies r[0], r[|r| - 1], if |r| == 1 then {} else {r[1]}
    ensures item.next == null && item.prev == null
    ensures |r| > 1 ==> Ring(r[1..])
  {
    item.prev.next := item.next;
    item.next.prev := item.prev;
    item.next := null;
    item.prev := null;
  }

  /** Nodes next to node `i` of a list. */
  ghost function Neighbours(head: ListHead, s: seq<ListHead>, i: nat): set<ListHead>
    requires i < |s|
  {
    {if i == 0 then head else s[i - 1], if i + 1 == |s| then head else s[i + 1]}
  }

  /** `list_del`: removes one node, wherever it stands, and clears its links. */
  method ListDel(item: ListHead, ghost head: ListHead, ghost s: seq<ListHead>, ghost i: nat)
    requires IsList(head, s) && i < |s| && s[i] == item
    modifies item, Neighbours(head, s, i)
    ensures IsList(head, s[..i] + s[i + 1..])
    ensures item.next == null && item.prev == null
  {
    hide Ring, IsList;
    ghost var p, rest := [head] + s[..i], s[i + 1..];
    ghost var r := [item] + rest + p;
    ReadFrom(head, s, i, r);
    Unlink(item, r);
    hide Neighbours;
    assert r[1..] == rest + p;
    RingSwap(rest, p);
    hide *;
    assert p + rest == [head] + (s[..i] + rest);
    RingIsList(head, s[..i] + rest);
  }

  lemma RingIsList(head: ListHead, s: seq<ListHead>)
    requires Ring([head] + s)
    ensures IsList(head, s)
  {
  }

  /** The ring of a list, read from node `i`. */
  lemma ReadFrom(head: ListHead, s: seq<ListHead>, i: nat, r: seq<ListHead>)
    requires IsList(head, s) && i < |s| && r == [s[i]] + s[i + 1..] + ([head] + s[..i])
    ensures Ring(r) && |r| == |s| + 1
    ensures r[0] == s[i] && Neighbours(head, s, i) == {r[1], r[|s|]}
  {
    var p, q := [head] + s[..i], s[i..];
    assert p + q == [head] + s;
    RingSwap(p, q);
    assert r == q + p;
    assert r[|s|] == p[i] && r[1] == if i + 1 == |s| then head else s[i + 1];
  }

  /** `list_shift`: takes the first node. */
  method ListShift(head: ListHead, ghost s: seq<ListHead>) returns (first: ListHead?)
    requires IsList(head, s)
    modifies if s == [] then {} else {s[0]} + Neighbours(head, s, 0)
    ensures s == [] ==> first == null && IsList(head, [])
    ensures s != [] ==> first == s[0] && first.next == null && first.prev == null && IsList(head, s[1..])
  {
    var empty := ListEmpty(head, s);
    if empty { return null; }
    assert ([head] + s)[1] == s[0];
    first := head.next;
    assert first == s[0];
    hide Ring, Neighbours, IsList;
    ListDel(first, head, s, 0);
    FirstGone(head, s);
  }

  lemma FirstGone(head: ListHead, s: seq<ListHead>)
    requires s != [] && IsList(head, s[..0] + s[1..])
    ensures IsList(head, s[1..])
  {
    assert s[..0] + s[1..] == s[1..];
  }

  /** The nodes whose links a rotation rewrites. */
  ghost function Turned(head: ListHead, s: seq<ListHead>): set<ListHead> {
    if s == [] then {} else {head, s[0], s[|s| - 1]} + (if |s| > 1 then {s[1]} else {})
  }

  /** `list_rotate_left`: the head is taken out of its own ring and put back behind the first node. */
  method ListRotateLeft(head: ListHead, ghost s: seq<ListHead>)
    requires IsList(head, s)
    modifies Turned(head, s)
    ensures s == [] ==> IsList(head, [])
    ensures s != [] ==> IsList(head, s[1..] + [s[0]])
  {
    var empty := ListEmpty(head, s);
    if empty { return; }
    ghost var r := [head] + s;
    assert r[0] == head && r[1] == s[0] && r[1..] == s && r[|s|] == s[|s| - 1];
    var first := head.next;
    assert head !in s;
    Unlink(head, r);
    assert s == [first] + s[1..];
    hide Ring;
    Reinsert(head, first, s[1..]);
  }

  /** Puts a head that is in no ring behind the first node of one. */
  method Reinsert(head: ListHead, first: ListHead, ghost rest: seq<ListHead>)
    requires Ring([first] + rest) && head !in [first] + rest
    modifies head, first, if rest == [] then {} else {rest[0]}
    ensures Ring([head] + (rest + [first]))
  {
    ListAdd(head, first, rest);
    hide Ring;
    assert [head] + rest != [];
    RingSwap([first], [head] + rest);
    Regroup([head], rest, [first]);
  }
}
