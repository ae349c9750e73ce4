/** The intrusive circular list (moe_list.c). */
module MoeList {
  class Node {
    var next: Node?
    var prev: Node?

    /** moe_list_node_alloc: a ring of its own. */
    constructor ()
      ensures Ring([this], {})
    {
      next := this;
      prev := this;
    }
  }

  /** `y` follows `x`, as far as they have not been freed. */
  ghost predicate Joined(x: Node, y: Node, dead: set<Node>)
    reads x, y
  {
    (x !in dead ==> x.next == y) && (y !in dead ==> y.prev == x)
  }

  predicate Distinct(r: seq<Node>) { forall i, j :: 0 <= i < j < |r| ==> r[i] != r[j] }

  /** The nodes of a ring, from one of them on; some may have been freed without being unlinked. */
  ghost predicate Ring(r: seq<Node>, dead: set<Node>)
    reads r
  {
    && r != [] && Distinct(r) && Joined(r[|r| - 1], r[0], dead)
    && forall i :: 0 <= i < |r| - 1 ==> Joined(r[i], r[i + 1], dead)
  }

  /** The node in front of place `k`, and the one behind it. */
  function Before<T>(r: seq<T>, k: nat): T
    requires k < |r|
  {
    if k == 0 then r[|r| - 1] else r[k - 1]
  }

  function Behind<T>(r: seq<T>, k: nat): T
    requires k < |r|
  {
    if k == |r| - 1 then r[0] else r[k + 1]
  }

  function Without<T>(r: seq<T>, k: nat): seq<T>
    requires k < |r|
  {
    r[..k] + r[k + 1..]
  }

  lemma Neighbours(r: seq<Node>, k: nat, dead: set<Node>)
    requires Ring(r, dead) && k < |r|
    ensures Joined(Before(r, k), r[k], dead) && Joined(r[k], Behind(r, k), dead)
  {
  }

  /** moe_list_node_init */
  method NodeInit(node: Node)
    modifies node
    ensures Ring([node], {})
  {
    node.next := node;
    node.prev := node;
  }

  /** moe_list_add_head: behind `list`. */
  method AddHead(list: Node, node: Node, ghost s: seq<Node>)
    requires Ring([list] + s, {}) && node != list && node !in s
    modifies list, node, list.next
    ensures Ring([list, node] + s, {})
  {
    ghost var r, q := [list] + s, [list, node] + s;
    Neighbours(r, 0, {});
    assert forall i :: 2 <= i < |q| ==> q[i] == r[i - 1] == s[i - 2];
    var origNext := list.next;
    list.next := node;
    node.prev := list;
    node.next := origNext;
    origNext.prev := node;
    forall i | 0 <= i < |q| - 1 ensures Joined(q[i], q[i + 1], {}) {
      if i >= 2 { assert Joined(r[i - 1], r[i], {}); }
    }
  }

  /** moe_list_add_tail: in front of `list`. */
  method AddTail(list: Node, node: Node, ghost s: seq<Node>)
    requires Ring([list] + s, {}) && node != list && node !in s
    modifies list, node, list.prev
    ensures Ring([list] + s + [node], {})
  {
    Neighbours([list] + s, 0, {});
    var origPrev := list.prev;
    list.prev := node;
    node.prev := origPrev;
    node.next := list;
    origPrev.next := node;
  }

  /** moe_list_empty */
  method Empty(list: Node, ghost s: seq<Node>) returns (empty: bool)
    requires Ring([list] + s, {})
    ensures empty <==> s == []
  {
    empty := list.next == list && list.prev == list;
    Neighbours([list] + s, 0, {});
  }

  /** moe_list_head and moe_list_tail; an empty list gives itself. */
  method Head(list: Node, ghost s: seq<Node>) returns (node: Node)
    requires Ring([list] + s, {})
    ensures node == if s == [] then list else s[0]
  {
    Neighbours([list] + s, 0, {});
    node := list.next;
  }

  method Tail(list: Node, ghost s: seq<Node>) returns (node: Node)
    requires Ring([list] + s, {})
    ensures node == if s == [] then list else s[|s| - 1]
  {
    Neighbours([list] + s, 0, {});
    node := list.prev;
  }

  /** moe_list_remove, from any ring; the nodes next to it have not been freed. */
  method Remove(node: Node, ghost r: seq<Node>, ghost k: nat, ghost dead: set<Node>)
    requires Ring(r, dead) && k < |r| && r[k] == node
    requires node !in dead && Before(r, k) !in dead && Behind(r, k) !in dead
    modifies node, node.prev, node.next
    ensures node.next == null && node.prev == null
    ensures |r| > 1 ==> Ring(Without(r, k), dead)
  {
    Neighbours(r, k, dead);
    node.prev.next := node.next;
    node.next.prev := node.prev;
    node.next := null;
    node.prev := null;
  }

  /** moe_list_replace: `node` takes the place of `list`, also in a ring of one. */
  method Replace(list: Node, node: Node, ghost r: seq<Node>, ghost k: nat) returns (replaced: Node)
    requires Ring(r, {}) && k < |r| && r[k] == list && node !in r
    modifies list, node, list.prev, list.next
    ensures replaced == list && list.next == null && list.prev == null
    ensures Ring(r[k := node], {})
  {
    Neighbours(r, k, {});
    replaced := list;
    list.prev.next := node;
    node.prev := list.prev;
    list.next.prev := node;
    node.next := list.next;
    replaced.next := null;
    replaced.prev := null;
  }

  // ---- iteration ----

  /** What the callback does with the node it is called on: leave it, unlink it (and free it or not), or free it where it is. */
  datatype Action = Keep | Unlink | Free

  /** The nodes of `s` that are still linked once these actions have been taken. */
  function Linked<T>(s: seq<T>, acts: seq<Action>): (r: seq<T>)
    requires |acts| == |s|
    ensures |r| <= |s| && forall j :: 0 <= j < |r| ==> r[j] in s
  {
    if s == [] then []
    else Linked(s[..|s| - 1], acts[..|s| - 1]) + (if acts[|s| - 1] == Unlink then [] else [s[|s| - 1]])
  }

  /** The nodes that have been freed without being unlinked. */
  function Freed<T>(s: seq<T>, acts: seq<Action>): set<T>
    requires |acts| == |s|
  {
    set i | 0 <= i < |s| && acts[i] == Free :: s[i]
  }

  /** Unlinking writes to the node in front; it must not have been freed. */
  predicate Allowed(acts: seq<Action>, i: nat)
    requires i < |acts|
  {
    acts[i] == Unlink ==> var l := Linked(acts[..i], acts[..i]); l == [] || l[|l| - 1] != Free
  }

  /** The callback, which may write to the node and to those next to it. */
  method Callback(node: Node, act: Action, ghost r: seq<Node>, ghost k: nat, ghost dead: set<Node>) returns (ghost dead': set<Node>)
    requires Ring(r, dead) && k < |r| && r[k] == node && node !in dead
    requires act == Unlink ==> |r| > 1 && Before(r, k) !in dead && Behind(r, k) !in dead
    modifies r
    ensures dead' == if act == Free then dead + {node} else dead
    ensures Ring(if act == Unlink then Without(r, k) else r, dead')
  {
    dead' := dead;
    if act == Unlink {
      Neighbours(r, k, dead);
      Remove(node, r, k, dead);
      if * {
        // and freed
        node.next := *;
        node.prev := *;
      }
    } else if act == Free {
      dead' := dead + {node};
      node.next := *;
      node.prev := *;
    }
  }

  lemma LastLinked<T>(s: seq<T>, acts: seq<Action>)
    requires |acts| == |s|
    ensures |Linked(s, acts)| == |Linked(acts, acts)|
    ensures Linked(s, acts) == [] || exists j :: 0 <= j < |s| && acts[j] == Linked(acts, acts)[|Linked(acts, acts)| - 1]
                                                 && s[j] == Linked(s, acts)[|Linked(s, acts)| - 1]
    decreases |s|
  {
    if s != [] {
      var n := |s| - 1;
      LastLinked(s[..n], acts[..n]);
      if acts[n] == Unlink && Linked(s, acts) != [] {
        var j :| 0 <= j < n && acts[..n][j] == Linked(acts[..n], acts[..n])[|Linked(acts[..n], acts[..n])| - 1]
                 && s[..n][j] == Linked(s[..n], acts[..n])[|Linked(s[..n], acts[..n])| - 1];
        assert acts[j] == acts[..n][j] && s[j] == s[..n][j];
      }
    }
  }

  /** The ring before the call on `s[i]`: the head, what is left of the nodes visited, and those still to come. */
  function Present(head: Node, s: seq<Node>, acts: seq<Action>, i: nat): (r: seq<Node>)
    requires |acts| == |s| && i <= |s|
    ensures forall j :: 0 <= j < |r| ==> r[j] == head || r[j] in s
  {
    [head] + Linked(s[..i], acts[..i]) + s[i..]
  }

  /** Where the iteration stands before it calls back on `s[i]`. */
  ghost predicate Midway(head: Node, s: seq<Node>, acts: seq<Action>, i: nat, dead: set<Node>)
    requires |acts| == |s|
    reads head, s
  {
    && i <= |s| && Distinct([head] + s) && dead == Freed(s[..i], acts[..i])
    && Ring(Present(head, s, acts, i), dead)
  }

  /** The ring half way, with what the callback needs to know of its place. */
  lemma {:induction false} AtMidway(head: Node, s: seq<Node>, acts: seq<Action>, i: nat, dead: set<Node>)
    requires |acts| == |s| && i < |s| && Allowed(acts, i) && Midway(head, s, acts, i, dead)
    ensures var l := Linked(s[..i], acts[..i]);
            var r, k := Present(head, s, acts, i), 1 + |l|;
            && k < |r| && r[k] == s[i] && s[i] !in dead && |r| > 1 && s[i].next == (if i + 1 < |s| then s[i + 1] else head)
            && (acts[i] == Unlink ==> Before(r, k) !in dead && Behind(r, k) !in dead)
  {
    var l := Linked(s[..i], acts[..i]);
    var r, k := [head] + l + s[i..], 1 + |l|;
    NotFreed(head, s, acts, i);
    Neighbours(r, k, dead);
    assert Behind(r, k) == if i + 1 < |s| then s[i + 1] else head;
    LastLinked(s[..i], acts[..i]);
    assert Before(r, k) == if l == [] then head else l[|l| - 1];
    if acts[i] == Unlink && l != [] {
      var j :| 0 <= j < i && acts[..i][j] == Linked(acts[..i], acts[..i])[|l| - 1] && s[..i][j] == l[|l| - 1];
      assert acts[j] != Free && s[j] == l[|l| - 1];
      EarlierFreed(head, s, acts, i, j);
    }
  }

  /** Neither the head nor what is still to come has been freed. */
  lemma NotFreed(head: Node, s: seq<Node>, acts: seq<Action>, i: nat)
    requires |acts| == |s| && i <= |s| && Distinct([head] + s)
    ensures head !in Freed(s[..i], acts[..i]) && forall j :: i <= j < |s| ==> s[j] !in Freed(s[..i], acts[..i])
  {
    var r := [head] + s;
    assert r[0] == head && forall j :: 0 <= j < |s| ==> r[j + 1] == s[j];
  }

  lemma EarlierFreed(head: Node, s: seq<Node>, acts: seq<Action>, i: nat, j: nat)
    requires |acts| == |s| && j < i <= |s| && Distinct([head] + s) && acts[j] != Free
    ensures s[j] !in Freed(s[..i], acts[..i])
  {
    assert forall m :: 0 <= m < |s| ==> ([head] + s)[m + 1] == s[m];
  }

  /** The sequences before and after one round. */
  lemma {:induction false} RoundOf(head: Node, s: seq<Node>, acts: seq<Action>, i: nat)
    requires |acts| == |s| && i < |s|
    ensures var l := Linked(s[..i], acts[..i]);
            && 1 + |l| < |Present(head, s, acts, i)|
            && Present(head, s, acts, i + 1)
                 == (if acts[i] == Unlink then Without(Present(head, s, acts, i), 1 + |l|) else Present(head, s, acts, i))
            && Freed(s[..i + 1], acts[..i + 1]) == Freed(s[..i], acts[..i]) + (if acts[i] == Free then {s[i]} else {})
  {
    hide Linked, Freed, Without;
    LinkedMore(s, acts, i);
    FreedMore(s, acts, i);
    OneLess(head, Linked(s[..i], acts[..i]), s[i..]);
    assert s[i..] == [s[i]] + s[i + 1..] && s[i..][1..] == s[i + 1..];
  }

  lemma OneLess(head: Node, l: seq<Node>, rest: seq<Node>)
    requires rest != []
    ensures Without([head] + l + rest, 1 + |l|) == [head] + l + rest[1..]
    ensures [head] + (l + [rest[0]]) + rest[1..] == [head] + l + rest
  {
  }

  lemma LinkedMore(s: seq<Node>, acts: seq<Action>, i: nat)
    requires |acts| == |s| && i < |s|
    ensures Linked(s[..i + 1], acts[..i + 1]) == Linked(s[..i], acts[..i]) + (if acts[i] == Unlink then [] else [s[i]])
  {
    assert s[..i + 1][..i] == s[..i] && acts[..i + 1][..i] == acts[..i];
  }

  lemma FreedMore<T>(s: seq<T>, acts: seq<Action>, i: nat)
    requires |acts| == |s| && i < |s|
    ensures Freed(s[..i + 1], acts[..i + 1]) == Freed(s[..i], acts[..i]) + (if acts[i] == Free then {s[i]} else {})
  {
    var f, g := Freed(s[..i + 1], acts[..i + 1]), Freed(s[..i], acts[..i]);
    forall x | x in f ensures x in g + (if acts[i] == Free then {s[i]} else {}) {
      var j :| 0 <= j < i + 1 && acts[..i + 1][j] == Free && s[..i + 1][j] == x;
      if j < i { assert acts[..i][j] == Free && s[..i][j] == x; }
    }
    forall x | x in g + (if acts[i] == Free then {s[i]} else {}) ensures x in f {
      if x in g {
        var j :| 0 <= j < i && acts[..i][j] == Free && s[..i][j] == x;
        assert acts[..i + 1][j] == Free && s[..i + 1][j] == x;
      } else {
        assert acts[..i + 1][i] == Free && s[..i + 1][i] == x;
      }
    }
  }

  lemma RingDistinct(r: seq<Node>)
    requires Ring(r, {})
    ensures Distinct(r)
  {
  }

  lemma {:induction false} AtStart(head: Node, s: seq<Node>, acts: seq<Action>)
    requires Ring([head] + s, {}) && |acts| == |s|
    ensures head !in s && Midway(head, s, acts, 0, {})
  {
    hide Ring, Joined;
    var r := [head] + s;
    RingDistinct(r);
    assert r[0] == head && forall j :: 0 <= j < |s| ==> r[j + 1] == s[j];
    assert Present(head, s, acts, 0) == r;
  }

  lemma {:induction false} AtEnd(head: Node, s: seq<Node>, acts: seq<Action>, dead: set<Node>)
    requires |acts| == |s| && Midway(head, s, acts, |s|, dead)
    ensures dead == Freed(s, acts) && Ring([head] + Linked(s, acts), dead)
  {
    assert s[..|s|] == s && acts[..|s|] == acts;
    assert Present(head, s, acts, |s|) == [head] + Linked(s, acts);
  }

  /** moe_list_iterate_safe: every element is visited once, in order, whatever becomes of it, and no freed node is read. */
  method IterateSafe(head: Node, ghost s: seq<Node>, acts: seq<Action>) returns (visited: seq<Node>, ghost dead: set<Node>)
    requires Ring([head] + s, {}) && |acts| == |s| && forall i :: 0 <= i < |acts| ==> Allowed(acts, i)
    modifies head, s
    ensures visited == s
    ensures dead == Freed(s, acts) && Ring([head] + Linked(s, acts), dead)
  {
    hide Ring, Linked, Freed, Allowed, Present;
    visited := [];
    dead := {};
    AtStart(head, s, acts);
    var node := Head(head, s);
    var i := 0;
    while node != head
      invariant i <= |s| && visited == s[..i] && node == (if i < |s| then s[i] else head)
      invariant head !in s && Midway(head, s, acts, i, dead)
      decreases |s| - i
    {
      AtMidway(head, s, acts, i, dead);
      RoundOf(head, s, acts, i);
      ghost var l := Linked(s[..i], acts[..i]);
      assert node !in dead;
      var next: Node := node.next;
      dead := Callback(node, acts[i], Present(head, s, acts, i), 1 + |l|, dead);
      visited := visited + [node];
      node := next;
      i := i + 1;
    }
    AtEnd(head, s, acts, dead);
  }

  /** How far a pass gets that stops behind the first element on which `stop` holds. */
  function Reached(stop: seq<bool>): (k: nat)
    ensures k <= |stop| && (forall i :: 0 <= i < k - 1 ==> !stop[i]) && (k < |stop| ==> k > 0 && stop[k - 1])
  {
    if stop == [] then 0 else if stop[0] then 1 else 1 + Reached(stop[1..])
  }

  lemma ReachedAt(stop: seq<bool>, k: nat)
    requires k <= |stop| && (forall i :: 0 <= i < k - 1 ==> !stop[i])
    requires (k > 0 && stop[k - 1]) || (k == |stop| && (k > 0 ==> !stop[k - 1]))
    ensures Reached(stop) == k
  {
  }

  /** moe_list_iterate, whose step reads the node after the callback: it runs off the list (to NULL) exactly when the callback
      unlinks a node, behind the first such one. */
  method Iterate(head: Node, ghost s: seq<Node>, unlink: seq<bool>) returns (visited: seq<Node>, lost: bool)
    requires Ring([head] + s, {}) && |unlink| == |s|
    modifies head, s
    ensures visited == s[..Reached(unlink)] && (lost <==> true in unlink)
  {
    RingDistinct([head] + s);
    ghost var r := [head] + s;
    assert r[0] == head && forall j :: 0 <= j < |s| ==> r[j + 1] == s[j];
    visited := [];
    var node: Node? := Head(head, s);
    var i := 0;
    while node != head
      invariant i <= |s| && visited == s[..i] && (forall j :: 0 <= j < i - 1 ==> !unlink[j])
      invariant node == null ==> i > 0 && unlink[i - 1]
      invariant node != null ==> (i > 0 ==> !unlink[i - 1]) && node == (if i < |s| then s[i] else head) && Ring(r, {})
      decreases |s| - i, node
    {
      if node == null {
        ReachedAt(unlink, i);
        return visited, true;
      }
      Neighbours(r, i + 1, {});
      visited := visited + [node];
      if unlink[i] {
        Remove(node, r, i + 1, {});
      }
      node := node.next;
      i := i + 1;
    }
    ReachedAt(unlink, i);
    lost := false;
  }

  lemma StepAt(head: Node, s: seq<Node>, i: nat)
    requires Ring([head] + s, {}) && i < |s|
    ensures s[i] != head && s[i].next == (if i + 1 < |s| then s[i + 1] else head) && s[i].prev == if i > 0 then s[i - 1] else head
  {
    var r := [head] + s;
    assert r[0] == head && r[i + 1] == s[i] && (i > 0 ==> r[i] == s[i - 1]) && (i + 1 < |s| ==> r[i + 2] == s[i + 1]);
    Neighbours(r, i + 1, {});
  }

  /** moe_list_iterate_predicated */
  method IteratePredicated(head: Node, ghost s: seq<Node>, stop: seq<bool>) returns (visited: seq<Node>)
    requires Ring([head] + s, {}) && |stop| == |s|
    ensures visited == s[..Reached(stop)]
  {
    hide Ring;
    visited := [];
    var node := Head(head, s);
    var i := 0;
    while node != head
      invariant i <= |s| && visited == s[..i] && node == (if i < |s| then s[i] else head)
      invariant forall j :: 0 <= j < i ==> !stop[j]
      decreases |s| - i
    {
      if i < |s| { StepAt(head, s, i); }
      visited := visited + [node];
      if stop[i] {
        ReachedAt(stop, i + 1);
        return;
      }
      node := node.next;
      i := i + 1;
    }
    if i < |s| { StepAt(head, s, i); }
    ReachedAt(stop, i);
  }

  function Reversed<T>(s: seq<T>): (r: seq<T>)
    ensures |r| == |s| && forall i :: 0 <= i < |s| ==> r[i] == s[|s| - 1 - i]
  {
    if s == [] then [] else [s[|s| - 1]] + Reversed(s[..|s| - 1])
  }

  /** moe_list_reverse_iterate_predicated, and moe_list_reverse_iterate where nothing stops it. */
  method ReverseIteratePredicated(head: Node, ghost s: seq<Node>, stop: seq<bool>) returns (visited: seq<Node>)
    requires Ring([head] + s, {}) && |stop| == |s|
    ensures visited == Reversed(s)[..Reached(stop)]
  {
    hide Ring;
    visited := [];
    var node := Tail(head, s);
    var i := 0;
    while node != head
      invariant i <= |s| && visited == Reversed(s)[..i] && node == (if i < |s| then s[|s| - 1 - i] else head)
      invariant forall j :: 0 <= j < i ==> !stop[j]
      decreases |s| - i
    {
      if i < |s| { StepAt(head, s, |s| - 1 - i); }
      visited := visited + [node];
      if stop[i] {
        ReachedAt(stop, i + 1);
        return;
      }
      node := node.prev;
      i := i + 1;
    }
    if i < |s| { StepAt(head, s, |s| - 1 - i); }
    ReachedAt(stop, i);
  }

  /** moe_list_iterator_t: the places of a ring one after the other. */
  class ListIterator {
    const head: Node
    var current: Node

    /** moe_list_iterator_init */
    constructor (head: Node)
      ensures this.head == head && current == head
    {
      this.head := head;
      current := head;
    }

    /** moe_list_iterator_next: on to the next element; false, and back at the head, behind the last one. */
    method Next(ghost s: seq<Node>, ghost i: nat) returns (more: bool)
      requires Ring([head] + s, {}) && i <= |s| && current == ([head] + s)[i]
      modifies this
      ensures more <==> i < |s|
      ensures current == if more then s[i] else head
    {
      Neighbours([head] + s, i, {});
      RingDistinct([head] + s);
      assert ([head] + s)[0] == head && forall j :: 0 <= j < |s| ==> ([head] + s)[j + 1] == s[j];
      current := current.next;
      if current == head {
        return false;
      }
      return true;
    }

    /** moe_list_iterator_get */
    function Get(): Node
      reads this
    {
      current
    }
  }
}
