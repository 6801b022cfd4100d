/**
 * The value-level view of the simple binary min-heap: nodes, the index
 * arithmetic of the implicit tree, heap order, and the two sift procedures
 * as functions on sequences. The class in heap_simple.dfy is proved to do
 * exactly what these functions say to its array.
 */
module HeapOrder {

  /** One slot of the heap: a priority and an opaque payload. The priority is a
      float in the source but is only ever compared with `<` and `>=`, so an
      integer stands in for it. */
  datatype Node<T> = Node(value: int, ptr: T)

  /** The parent of slot i in the implicit binary tree. */
  function Parent(i: nat): (p: nat)
    requires 0 < i
    ensures p < i
    ensures i == Left(p) || i == Right(p)
  {
    (i - 1) / 2
  }

  function Left(i: nat): nat { 2 * i + 1 }

  function Right(i: nat): nat { 2 * i + 2 }

  /** Every live slot's priority is at least its parent's. */
  ghost predicate HeapOrdered<T>(s: seq<Node<T>>) {
    forall j :: 0 < j < |s| ==> s[Parent(j)].value <= s[j].value
  }

  /** No node of `s` has a priority below `v`. */
  ghost predicate NoneBelow<T>(v: int, s: seq<Node<T>>) {
    forall j :: 0 <= j < |s| ==> v <= s[j].value
  }

  // ---------------------------------------------------------------------------
  // Sift-up
  // ---------------------------------------------------------------------------

  /** Sift-up of node `a` from the hole at slot i: while the parent is strictly
      greater than `a`, the parent moves down into the hole and the hole moves
      up; then `a` is written into the hole. The old content of slot i is
      never read. */
  function SiftUp<T>(s: seq<Node<T>>, i: nat, a: Node<T>): (r: seq<Node<T>>)
    requires i < |s|
    ensures |r| == |s|
    decreases i
  {
    if 0 < i && a.value < s[Parent(i)].value then
      SiftUp(s[i := s[Parent(i)]], Parent(i), a)
    else
      s[i := a]
  }

  /** Heap order holds apart from the hole at slot i, and `a` may be placed at
      i or at any ancestor of i: the nodes below the hole are no smaller than
      `a`, nor than the hole's parent. */
  ghost predicate UpHole<T>(s: seq<Node<T>>, i: nat, a: Node<T>)
    requires i < |s|
  {
    && (forall j :: 0 < j < |s| && j != i && Parent(j) != i ==> s[Parent(j)].value <= s[j].value)
    && (forall j :: 0 < j < |s| && Parent(j) == i ==> a.value <= s[j].value)
    && (0 < i ==> forall j :: 0 < j < |s| && Parent(j) == i ==> s[Parent(i)].value <= s[j].value)
  }

  /** Sift-up never reads the slot it starts from. */
  lemma SiftUpIgnoresHole<T>(s: seq<Node<T>>, i: nat, x: Node<T>, a: Node<T>)
    requires i < |s|
    ensures SiftUp(s[i := x], i, a) == SiftUp(s, i, a)
  {
    assert s[i := x][i := a] == s[i := a];
    if 0 < i {
      assert s[i := x][i := s[Parent(i)]] == s[i := s[Parent(i)]];
    }
  }

  /** Moving the hole's parent down into the hole keeps heap order at
      every slot whose parent is not the parent's old slot. */
  lemma UpStepKeepsRest<T>(s: seq<Node<T>>, i: nat, a: Node<T>)
    requires 0 < i < |s| && UpHole(s, i, a)
    ensures var p, t := Parent(i), s[i := s[Parent(i)]];
      forall j :: 0 < j < |t| && j != p && Parent(j) != p ==> t[Parent(j)].value <= t[j].value
  {
    var p := Parent(i);
    var t := s[i := s[p]];
    forall j | 0 < j < |t| && j != p && Parent(j) != p
      ensures t[Parent(j)].value <= t[j].value
    {
      if Parent(j) == i {
        assert t[Parent(j)] == s[p];
      }
    }
  }

  /** After the step, the children of the new hole are no smaller than the
      node being placed. */
  lemma UpStepChildren<T>(s: seq<Node<T>>, i: nat, a: Node<T>)
    requires 0 < i < |s| && UpHole(s, i, a)
    requires a.value < s[Parent(i)].value
    ensures var p, t := Parent(i), s[i := s[Parent(i)]];
      forall j :: 0 < j < |t| && Parent(j) == p ==> a.value <= t[j].value
  {
    var p := Parent(i);
    var t := s[i := s[p]];
    forall j | 0 < j < |t| && Parent(j) == p
      ensures a.value <= t[j].value
    {
      if j != i {
        assert s[Parent(j)].value <= s[j].value;
      }
    }
  }

  /** After the step, the children of the new hole are no smaller than the
      new hole's parent. */
  lemma UpStepGrandparent<T>(s: seq<Node<T>>, i: nat, a: Node<T>)
    requires 0 < i < |s| && 0 < Parent(i) && UpHole(s, i, a)
    ensures var p, t := Parent(i), s[i := s[Parent(i)]];
      forall j :: 0 < j < |t| && Parent(j) == p ==> t[Parent(p)].value <= t[j].value
  {
    var p := Parent(i);
    var t := s[i := s[p]];
    forall j | 0 < j < |t| && Parent(j) == p
      ensures t[Parent(p)].value <= t[j].value
    {
      assert s[Parent(p)].value <= s[p].value;
      if j != i {
        assert s[Parent(j)].value <= s[j].value;
      }
    }
  }

  /** One step of sift-up keeps the hole condition: when the parent moves
      down into the hole, the hole moves to the parent's slot. */
  lemma UpHoleStep<T>(s: seq<Node<T>>, i: nat, a: Node<T>)
    requires 0 < i < |s| && UpHole(s, i, a)
    requires a.value < s[Parent(i)].value
    ensures UpHole(s[i := s[Parent(i)]], Parent(i), a)
  {
    UpStepKeepsRest(s, i, a);
    UpStepChildren(s, i, a);
    if 0 < Parent(i) {
      UpStepGrandparent(s, i, a);
    }
  }

  /** Writing the node into a hole whose parent is no greater than it (or
      that is the root) yields a heap-ordered sequence. */
  lemma UpHoleFill<T>(s: seq<Node<T>>, i: nat, a: Node<T>)
    requires i < |s| && UpHole(s, i, a)
    requires 0 < i ==> s[Parent(i)].value <= a.value
    ensures HeapOrdered(s[i := a])
  {
    var r := s[i := a];
    forall j | 0 < j < |r| ensures r[Parent(j)].value <= r[j].value {
      if j != i && Parent(j) == i && 0 < i {
        assert s[Parent(i)].value <= s[j].value;
      }
    }
  }

  lemma {:induction false} SiftUpOrdered<T>(s: seq<Node<T>>, i: nat, a: Node<T>)
    requires i < |s| && UpHole(s, i, a)
    ensures HeapOrdered(SiftUp(s, i, a))
    decreases i
  {
    if 0 < i && a.value < s[Parent(i)].value {
      UpHoleStep(s, i, a);
      SiftUpOrdered(s[i := s[Parent(i)]], Parent(i), a);
    } else {
      UpHoleFill(s, i, a);
    }
  }

  lemma {:induction false} SiftUpContents<T>(s: seq<Node<T>>, i: nat, a: Node<T>)
    requires i < |s|
    ensures multiset(SiftUp(s, i, a)) == multiset(s[i := a])
    decreases i
  {
    if 0 < i && a.value < s[Parent(i)].value {
      var p := Parent(i);
      var t := s[i := s[p]];
      SiftUpContents(t, p, a);
      assert multiset(t) == multiset(s) - multiset{s[i]} + multiset{s[p]};
      assert multiset(t[p := a]) == multiset(t) - multiset{s[p]} + multiset{a};
    }
  }

  /** Tie rule of sift-up: no node whose priority is at most that of the node
      being inserted is ever moved; only strictly greater ancestors move down. */
  lemma {:induction false} SiftUpKeepsNotGreater<T>(s: seq<Node<T>>, i: nat, a: Node<T>)
    requires i < |s|
    ensures forall j :: 0 <= j < |s| && j != i && s[j].value <= a.value ==> SiftUp(s, i, a)[j] == s[j]
    decreases i
  {
    if 0 < i && a.value < s[Parent(i)].value {
      SiftUpKeepsNotGreater(s[i := s[Parent(i)]], Parent(i), a);
    }
  }

  // ---------------------------------------------------------------------------
  // Sift-down
  // ---------------------------------------------------------------------------

  /** The slot that sift-down moves up into slot i when placing `a` there: the
      left child if it is strictly smaller than `a`, then the right child if it
      is strictly smaller than the choice so far; i itself when no child is
      strictly smaller than `a`. */
  function Smallest<T>(s: seq<Node<T>>, i: nat, a: Node<T>): (m: nat)
    requires i < |s|
    ensures m == i || (m == Left(i) && m < |s|) || (m == Right(i) && m < |s|)
    ensures m == i <==>
              (Left(i) < |s| ==> a.value <= s[Left(i)].value) &&
              (Right(i) < |s| ==> a.value <= s[Right(i)].value)
    ensures m != i ==> s[m].value < a.value
    ensures m != i && Left(i) < |s| ==> s[m].value <= s[Left(i)].value
    ensures m != i && Right(i) < |s| ==> s[m].value <= s[Right(i)].value
    ensures m == Right(i) ==> s[Right(i)].value < s[Left(i)].value
  {
    var l := Left(i);
    var r := Right(i);
    var m := if l < |s| && s[l].value < a.value then l else i;
    var mv := if m == i then a.value else s[m].value;
    if r < |s| && s[r].value < mv then r else m
  }

  /** Sift-down of node `a` from the hole at slot i: the smallest child moves up
      into the hole and the hole moves down, until no child is strictly smaller
      than `a`; then `a` is written into the hole. */
  function SiftDown<T>(s: seq<Node<T>>, i: nat, a: Node<T>): (r: seq<Node<T>>)
    requires i < |s|
    ensures |r| == |s|
    decreases |s| - i
  {
    var m := Smallest(s, i, a);
    if m == i then s[i := a] else SiftDown(s[i := s[m]], m, a)
  }

  /** Heap order holds apart from the hole at slot i, and `a` may be placed at
      i or at any descendant of i: the hole's parent is no greater than `a`,
      nor than the hole's children. */
  ghost predicate DownHole<T>(s: seq<Node<T>>, i: nat, a: Node<T>)
    requires i < |s|
  {
    && (forall j :: 0 < j < |s| && j != i && Parent(j) != i ==> s[Parent(j)].value <= s[j].value)
    && (0 < i ==> s[Parent(i)].value <= a.value)
    && (0 < i ==> forall j :: 0 < j < |s| && Parent(j) == i ==> s[Parent(i)].value <= s[j].value)
  }

  /** Sift-down never reads the slot it starts from. */
  lemma SiftDownIgnoresHole<T>(s: seq<Node<T>>, i: nat, x: Node<T>, a: Node<T>)
    requires i < |s|
    ensures SiftDown(s[i := x], i, a) == SiftDown(s, i, a)
  {
    var m := Smallest(s, i, a);
    assert Smallest(s[i := x], i, a) == m;
    assert s[i := x][i := a] == s[i := a];
    if m != i {
      assert s[i := x][i := s[m]] == s[i := s[m]];
    }
  }

  lemma {:induction false} SiftDownOrdered<T>(s: seq<Node<T>>, i: nat, a: Node<T>)
    requires i < |s| && DownHole(s, i, a)
    ensures HeapOrdered(SiftDown(s, i, a))
    decreases |s| - i
  {
    var m := Smallest(s, i, a);
    if m == i {
      var r := s[i := a];
      forall j | 0 < j < |r| ensures r[Parent(j)].value <= r[j].value {
        if Parent(j) == i {
          assert j == Left(i) || j == Right(i);
        }
      }
    } else {
      var t := s[i := s[m]];
      assert Parent(m) == i;
      forall j | 0 < j < |t| && j != m && Parent(j) != m
        ensures t[Parent(j)].value <= t[j].value
      {
        if j == i {
          assert Parent(j) != i;
        } else if Parent(j) == i {
          assert j == Left(i) || j == Right(i);
        }
      }
      forall j | 0 < j < |t| && Parent(j) == m
        ensures t[Parent(m)].value <= t[j].value
      {
        assert j != i && Parent(j) != i;
        assert s[Parent(j)].value <= s[j].value;
      }
      SiftDownOrdered(t, m, a);
    }
  }

  lemma {:induction false} SiftDownContents<T>(s: seq<Node<T>>, i: nat, a: Node<T>)
    requires i < |s|
    ensures multiset(SiftDown(s, i, a)) == multiset(s[i := a])
    decreases |s| - i
  {
    var m := Smallest(s, i, a);
    if m != i {
      var t := s[i := s[m]];
      SiftDownContents(t, m, a);
      assert multiset(t) == multiset(s) - multiset{s[i]} + multiset{s[m]};
      assert multiset(t[m := a]) == multiset(t) - multiset{s[m]} + multiset{a};
    }
  }

  /** Tie rule of sift-down: a node is moved up only when it is strictly
      smaller than the node being placed, so every node whose priority is at
      least that of `a` stays where it is. */
  lemma {:induction false} SiftDownKeepsNotSmaller<T>(s: seq<Node<T>>, i: nat, a: Node<T>)
    requires i < |s|
    ensures forall j :: 0 <= j < |s| && j != i && a.value <= s[j].value ==> SiftDown(s, i, a)[j] == s[j]
    decreases |s| - i
  {
    var m := Smallest(s, i, a);
    if m != i {
      SiftDownKeepsNotSmaller(s[i := s[m]], m, a);
    }
  }

  /** Sift-down from slot i leaves every slot before i alone. */
  lemma {:induction false} SiftDownKeepsAbove<T>(s: seq<Node<T>>, i: nat, a: Node<T>)
    requires i < |s|
    ensures forall j :: 0 <= j < i ==> SiftDown(s, i, a)[j] == s[j]
    decreases |s| - i
  {
    var m := Smallest(s, i, a);
    if m != i {
      SiftDownKeepsAbove(s[i := s[m]], m, a);
    }
  }

  /** Tie rule of sift-down: when both children are strictly smaller than the
      node being placed and equal to each other, the left child is the one
      that moves up into slot i. */
  lemma SiftDownPrefersLeft<T>(s: seq<Node<T>>, i: nat, a: Node<T>)
    requires Right(i) < |s|
    requires s[Left(i)].value == s[Right(i)].value < a.value
    ensures SiftDown(s, i, a)[i] == s[Left(i)]
  {
    var l := Left(i);
    assert Smallest(s, i, a) == l;
    SiftDownKeepsAbove(s[i := s[l]], l, a);
  }

  // ---------------------------------------------------------------------------
  // The minimum, and the whole operations on values
  // ---------------------------------------------------------------------------

  lemma {:induction false} RootNotGreater<T>(s: seq<Node<T>>, j: nat)
    requires HeapOrdered(s) && j < |s|
    ensures s[0].value <= s[j].value
    decreases j
  {
    if 0 < j {
      RootNotGreater(s, Parent(j));
    }
  }

  /** In a heap-ordered sequence the root holds a minimum priority. */
  lemma RootIsMin<T>(s: seq<Node<T>>)
    requires HeapOrdered(s)
    ensures 0 < |s| ==> NoneBelow(s[0].value, s)
  {
    forall j | 0 <= j < |s| ensures s[0].value <= s[j].value {
      RootNotGreater(s, j);
    }
  }

  /** The live nodes after inserting `a` into the live nodes `s`: `a` is
      sifted up from the new last slot. */
  function Inserted<T>(s: seq<Node<T>>, a: Node<T>): (r: seq<Node<T>>)
    ensures |r| == |s| + 1
  {
    SiftUp(s + [a], |s|, a)
  }

  /** Insertion keeps heap order and adds exactly the new node. */
  lemma InsertedCorrect<T>(s: seq<Node<T>>, a: Node<T>)
    requires HeapOrdered(s)
    ensures HeapOrdered(Inserted(s, a))
    ensures multiset(Inserted(s, a)) == multiset(s) + multiset{a}
  {
    var t := s + [a];
    var n := |s|;
    assert UpHole(t, n, a);
    SiftUpOrdered(t, n, a);
    SiftUpContents(t, n, a);
    assert t[n := a] == t;
  }

  /** The live nodes after removing the root of `s`: the last node is sifted
      down from the root over the remaining slots. */
  function Popped<T>(s: seq<Node<T>>): (r: seq<Node<T>>)
    requires |s| != 0
    ensures |r| == |s| - 1
  {
    if |s| == 1 then [] else SiftDown(s[..|s| - 1], 0, s[|s| - 1])
  }

  /** Removing the minimum keeps heap order, removes exactly the old root, and
      the old root's priority is at most every remaining priority. */
  lemma PoppedCorrect<T>(s: seq<Node<T>>)
    requires HeapOrdered(s) && |s| != 0
    ensures HeapOrdered(Popped(s))
    ensures multiset(Popped(s)) == multiset(s) - multiset{s[0]}
    ensures NoneBelow(s[0].value, Popped(s))
  {
    var n := |s| - 1;
    if n != 0 {
      var t := s[..n];
      var a := s[n];
      SiftDownOrdered(t, 0, a);
      SiftDownContents(t, 0, a);
      assert s == t + [a];
      assert multiset(t[0 := a]) == multiset(t) - multiset{t[0]} + multiset{a};
      RootIsMin(s);
      var r := Popped(s);
      forall j | 0 <= j < n ensures s[0].value <= r[j].value {
        assert r[j] in multiset(r);
        assert r[j] in multiset(s);
      }
    }
  }

  // ---------------------------------------------------------------------------
  // Repeated extraction
  // ---------------------------------------------------------------------------

  /** The priorities returned by popping `s` until it is empty. */
  ghost function Drain<T>(s: seq<Node<T>>): seq<int>
    decreases |s|
  {
    if |s| == 0 then [] else [s[0].value] + Drain(Popped(s))
  }

  /** The priorities of `s`, in slot order. */
  ghost function Values<T>(s: seq<Node<T>>): seq<int> {
    seq(|s|, j requires 0 <= j < |s| => s[j].value)
  }

  /** Taking slot k out of a sequence takes its node out of the nodes and
      its priority out of the priorities. */
  lemma ValuesRemove<T>(t: seq<Node<T>>, k: nat)
    requires k < |t|
    ensures multiset(t) == multiset(t[..k] + t[k + 1..]) + multiset{t[k]}
    ensures multiset(Values(t)) == multiset(Values(t[..k] + t[k + 1..])) + multiset{t[k].value}
  {
    var u := t[..k] + t[k + 1..];
    assert t == t[..k] + [t[k]] + t[k + 1..];
    assert Values(t) == Values(t[..k]) + [t[k].value] + Values(t[k + 1..]);
    assert Values(u) == Values(t[..k]) + Values(t[k + 1..]);
  }

  /** Node sequences holding the same nodes hold the same priorities. */
  lemma {:induction false} SameValues<T>(s: seq<Node<T>>, t: seq<Node<T>>)
    requires multiset(s) == multiset(t)
    ensures multiset(Values(s)) == multiset(Values(t))
    decreases |s|
  {
    if |s| != 0 {
      var x := s[0];
      assert x in multiset(t);
      var k :| 0 <= k < |t| && t[k] == x;
      var u := t[..k] + t[k + 1..];
      ValuesRemove(s, 0);
      ValuesRemove(t, k);
      assert s[..0] + s[1..] == s[1..];
      assert multiset(s[1..]) == multiset(s) - multiset{x};
      assert multiset(u) == multiset(t) - multiset{x};
      SameValues(s[1..], u);
    }
  }

  /** A pop removes exactly the root's priority from the priorities. */
  lemma PoppedValues<T>(s: seq<Node<T>>)
    requires HeapOrdered(s) && |s| != 0
    ensures multiset(Values(s)) == multiset{s[0].value} + multiset(Values(Popped(s)))
  {
    var r := Popped(s);
    PoppedCorrect(s);
    assert s[0] in multiset(s);
    assert multiset([s[0]] + r) == multiset(s);
    SameValues([s[0]] + r, s);
    assert Values([s[0]] + r) == [s[0].value] + Values(r);
  }

  /** Popping until empty returns exactly the priorities of the nodes. */
  lemma {:induction false} DrainContents<T>(s: seq<Node<T>>)
    requires HeapOrdered(s)
    ensures multiset(Drain(s)) == multiset(Values(s))
    decreases |s|
  {
    if |s| != 0 {
      PoppedCorrect(s);
      DrainContents(Popped(s));
      PoppedValues(s);
    }
  }

  ghost predicate Sorted(xs: seq<int>) {
    forall i, j :: 0 <= i < j < |xs| ==> xs[i] <= xs[j]
  }

  lemma {:induction false} DrainBounded<T>(s: seq<Node<T>>, lo: int)
    requires HeapOrdered(s)
    requires NoneBelow(lo, s)
    ensures |Drain(s)| == |s|
    ensures forall k :: 0 <= k < |Drain(s)| ==> lo <= Drain(s)[k]
    decreases |s|
  {
    if |s| != 0 {
      PoppedCorrect(s);
      var r := Popped(s);
      forall j | 0 <= j < |r| ensures lo <= r[j].value {
        assert r[j] in multiset(r);
        assert r[j] in multiset(s);
      }
      DrainBounded(r, lo);
    }
  }

  /** Popping a heap until it is empty yields its priorities in
      non-decreasing order: a sorted permutation of its priorities. */
  lemma {:induction false} DrainSorted<T>(s: seq<Node<T>>)
    requires HeapOrdered(s)
    ensures |Drain(s)| == |s|
    ensures Sorted(Drain(s))
    ensures multiset(Drain(s)) == multiset(Values(s))
    decreases |s|
  {
    if |s| != 0 {
      PoppedCorrect(s);
      var r := Popped(s);
      DrainSorted(r);
      DrainBounded(r, s[0].value);
    }
    DrainContents(s);
  }
}
