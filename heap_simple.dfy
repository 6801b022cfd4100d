/**
 * The simple heap object: a growable array of nodes of which the first
 * `size` are live and heap-ordered. Each method is proved to leave the live
 * nodes equal to a function of HeapOrder applied to the old live nodes, and
 * the lemmas of HeapOrder give the heap order and the contents.
 */
module SimpleHeap {
  import opened HeapOrder

  class HeapSimple<T(0)> {
    /** Number of live nodes. */
    var size: nat
    /** Number of allocated slots; never below 1 so that doubling grows it. */
    var bufsize: nat
    var tree: array<Node<T>>

    ghost predicate Valid()
      reads this, tree
    {
      && 1 <= bufsize
      && tree.Length == bufsize
      && size <= bufsize
      && HeapOrdered(tree[..size])
    }

    /** The live nodes, in slot order. */
    ghost function Live(): seq<Node<T>>
      reads this, tree
      requires Valid()
    {
      tree[..size]
    }

    /** A new empty heap with room for `totReserve` nodes, and at least one. */
    constructor NewEx(totReserve: nat)
      ensures Valid() && fresh(tree)
      ensures size == 0 && Live() == []
      ensures bufsize == if totReserve < 1 then 1 else totReserve
    {
      var n := if 1 < totReserve then totReserve else 1;
      size := 0;
      bufsize := n;
      tree := new Node<T>[n];
    }

    /** A new empty heap with room for one node. */
    static method New() returns (heap: HeapSimple<T>)
      ensures fresh(heap) && fresh(heap.tree) && heap.Valid()
      ensures heap.size == 0 && heap.bufsize == 1
    {
      heap := new HeapSimple.NewEx(1);
    }

    /** Destruction: with a callback, hands it every live payload once, in
        slot order; the payloads it receives are returned. The storage itself
        is left to the garbage collector. */
    method Free(withRelease: bool) returns (released: seq<T>)
      requires Valid()
      ensures withRelease ==> |released| == |Live()|
      ensures withRelease ==> forall j :: 0 <= j < |released| ==> released[j] == Live()[j].ptr
      ensures !withRelease ==> released == []
    {
      released := [];
      if withRelease {
        var i := 0;
        while i < size
          invariant i <= size
          invariant |released| == i
          invariant forall j :: 0 <= j < i ==> released[j] == tree[j].ptr
        {
          released := released + [tree[i].ptr];
          i := i + 1;
        }
      }
    }

    /** Empties the heap, first handing every live payload to the callback
        when one is given; the storage and its capacity are kept for reuse. */
    method Clear(withRelease: bool) returns (released: seq<T>)
      requires Valid()
      modifies this`size
      ensures Valid() && Live() == []
      ensures tree == old(tree) && bufsize == old(bufsize)
      ensures withRelease ==> |released| == |old(Live())|
      ensures withRelease ==> forall j :: 0 <= j < |released| ==> released[j] == old(Live())[j].ptr
      ensures !withRelease ==> released == []
    {
      released := [];
      if withRelease {
        var i := 0;
        while i < size
          invariant i <= size
          invariant |released| == i
          invariant forall j :: 0 <= j < i ==> released[j] == tree[j].ptr
        {
          released := released + [tree[i].ptr];
          i := i + 1;
        }
      }
      size := 0;
    }

    /** Doubles the capacity, copying the live nodes into new storage. */
    method Grow()
      requires Valid()
      modifies this
      ensures Valid() && fresh(tree)
      ensures size == old(size) && bufsize == 2 * old(bufsize)
      ensures Live() == old(Live())
    {
      var newTree := new Node<T>[2 * bufsize];
      var k := 0;
      while k < size
        modifies newTree
        invariant k <= size
        invariant newTree[..k] == tree[..k]
      {
        newTree[k] := tree[k];
        k := k + 1;
      }
      assert newTree[..size] == tree[..size];
      bufsize := 2 * bufsize;
      tree := newTree;
    }

    /** Sift-up from slot i: the first i + 1 slots become SiftUp of their old
        content, and the slots after them are untouched. */
    method Up(i: nat, activeVal: int, activePtr: T)
      requires i < tree.Length
      modifies tree
      ensures tree[..i + 1] == SiftUp(old(tree[..i + 1]), i, Node(activeVal, activePtr))
      ensures tree[i + 1..] == old(tree[i + 1..])
    {
      ghost var a := Node(activeVal, activePtr);
      ghost var target := SiftUp(tree[..i + 1], i, a);
      var k: nat := i;
      while 0 < k
        invariant k <= i
        invariant SiftUp(tree[..i + 1], k, a) == target
        invariant tree[i + 1..] == old(tree[i + 1..])
      {
        var p := Parent(k);
        if activeVal >= tree[p].value {
          break;
        }
        tree[k] := tree[p];
        k := p;
      }
      tree[k] := Node(activeVal, activePtr);
    }

    /** Sift-down from slot startI of node `init` over the live slots: they
        become SiftDown of their old content, and the slots after them are
        untouched. While the hole moves, its priority field already holds the
        priority being placed, so the right child is compared against the
        candidate's priority whether the candidate is the hole or the left
        child. */
    method Down(startI: nat, init: Node<T>)
      requires startI < size <= tree.Length
      modifies tree
      ensures tree[..size] == SiftDown(old(tree[..size]), startI, init)
      ensures tree[size..] == old(tree[size..])
    {
      var activeVal := init.value;
      var activePtr := init.ptr;
      ghost var target := SiftDown(tree[..size], startI, init);
      var i := startI;
      ghost var before := tree[..size];
      tree[i] := tree[i].(value := activeVal);
      SiftDownIgnoresHole(before, i, tree[i], init);
      assert tree[..size] == before[i := tree[i]];
      while true
        invariant i < size
        invariant tree[i].value == activeVal
        invariant SiftDown(tree[..size], i, init) == target
        invariant tree[size..] == old(tree[size..])
        decreases size - i
      {
        var l := Left(i);
        var r := l + 1;
        var smallest := i;
        if l < size && tree[l].value < activeVal {
          smallest := l;
        }
        if r < size && tree[r].value < tree[smallest].value {
          smallest := r;
        }
        assert smallest == Smallest(tree[..size], i, init);
        if smallest == i {
          break;
        }
        tree[i] := tree[smallest];
        i := smallest;
        before := tree[..size];
        tree[i] := tree[i].(value := activeVal);
        SiftDownIgnoresHole(before, i, tree[i], init);
        assert tree[..size] == before[i := tree[i]];
      }
      tree[i] := tree[i].(ptr := activePtr);
    }

    /** Adds a node, doubling the storage first when every slot is live. */
    method Insert(value: int, ptr: T)
      requires Valid()
      modifies this, tree
      ensures Valid()
      ensures size == old(size) + 1
      ensures bufsize == if old(size) >= old(bufsize) then 2 * old(bufsize) else old(bufsize)
      ensures old(size) < old(bufsize) ==> tree == old(tree)
      ensures old(size) >= old(bufsize) ==> fresh(tree)
      ensures Live() == Inserted(old(Live()), Node(value, ptr))
      ensures multiset(Live()) == multiset(old(Live())) + multiset{Node(value, ptr)}
    {
      if size >= bufsize {
        Grow();
      }
      ghost var s := tree[..size];
      ghost var a := Node(value, ptr);
      var i := size;
      size := size + 1;
      ghost var hole := tree[i];
      assert tree[..i + 1] == (s + [a])[i := hole];
      Up(i, value, ptr);
      SiftUpIgnoresHole(s + [a], i, hole, a);
      InsertedCorrect(s, a);
    }

    /** Tells whether no node is live. */
    function IsEmpty(): (empty: bool)
      reads this, tree
      requires Valid()
      ensures empty <==> Live() == []
    {
      size == 0
    }

    /** The number of live nodes. */
    function Len(): (n: nat)
      reads this, tree
      requires Valid()
      ensures n == |Live()|
    {
      size
    }

    /** The smallest priority in the heap; the heap must not be empty. */
    function TopValue(): (v: int)
      reads this, tree
      requires Valid() && size != 0
      ensures v in Values(Live())
      ensures NoneBelow(v, Live())
    {
      RootIsMin(tree[..size]);
      assert Values(Live())[0] == tree[0].value;
      tree[0].value
    }

    /** Removes a node of smallest priority and returns its payload; the heap
        must not be empty. */
    method PopMin() returns (ptr: T)
      requires Valid() && size != 0
      modifies this`size, tree
      ensures Valid() && bufsize == old(bufsize)
      ensures size == old(size) - 1
      ensures ptr == old(Live())[0].ptr
      ensures NoneBelow(old(Live())[0].value, Live())
      ensures Live() == Popped(old(Live()))
      ensures multiset(Live()) == multiset(old(Live())) - multiset{old(Live())[0]}
    {
      ghost var s := tree[..size];
      ptr := tree[0].ptr;
      size := size - 1;
      PoppedCorrect(s);
      if size != 0 {
        assert tree[..size] == s[..size] && tree[size] == s[size];
        Down(0, tree[size]);
        assert tree[..size] == Popped(s);
      }
    }
  }
}
