/** The binary max-heap of cpp/practice/other/binary_heap.cpp over int with
    std::less: the elements live in a vector, the parent of position pos is
    computed with std::size_t arithmetic, insert appends and sifts the new
    element up, and get_max reads the front. */
module BinaryHeap {

  /** std::size_t arithmetic is modulo 2^64. */
  const SIZE_MODULUS: int := 0x1_0000_0000_0000_0000

  /** get_parent: subtract 1 from an odd position and 2 from an even one, then
      halve; both in std::size_t, so position 0 wraps around. */
  function GetParent(pos: nat): (r: nat)
    requires pos < SIZE_MODULUS
    ensures pos >= 1 ==> r == (pos - 1) / 2 && r < pos
    ensures pos == 0 ==> r == SIZE_MODULUS / 2 - 1
  {
    var sub := if pos % 2 != 0 then 1 else 2;
    ((pos - sub) % SIZE_MODULUS) / 2
  }

  /** The parent of position i in the tree the vector lays out level by
      level. */
  function Parent(i: nat): nat
    requires i > 0
  {
    (i - 1) / 2
  }

  /** No element is greater than its parent. */
  ghost predicate IsHeap(s: seq<int>) {
    forall i {:trigger Parent(i)} | 0 < i < |s| :: s[Parent(i)] >= s[i]
  }

  /** The heap property while position k is being sifted up: it holds for all
      positions but k, and k's parent is no smaller than k's children. */
  ghost predicate HeapExcept(s: seq<int>, k: nat) {
    (forall i {:trigger Parent(i)} | 0 < i < |s| && i != k :: s[Parent(i)] >= s[i]) &&
    (0 < k < |s| ==> forall c {:trigger Parent(c)} | 0 < c < |s| && Parent(c) == k :: s[Parent(k)] >= s[c])
  }

  function Swap(s: seq<int>, i: nat, j: nat): (t: seq<int>)
    requires i < |s| && j < |s|
    ensures |t| == |s| && t[i] == s[j] && t[j] == s[i]
    ensures forall k | 0 <= k < |s| && k != i && k != j :: t[k] == s[k]
  {
    s[i := s[j]][j := s[i]]
  }

  /** The sift-up loop of insert from position pos: stop at the root or when
      the element is strictly less than its parent, otherwise swap the two
      (also on a tie) and go on from the parent. */
  function SiftUp(s: seq<int>, pos: nat): (t: seq<int>)
    requires pos < |s| && |s| < SIZE_MODULUS
    ensures |t| == |s|
    decreases pos
  {
    if pos == 0 then s
    else
      var parent := GetParent(pos);
      if s[pos] < s[parent] then s
      else SiftUp(Swap(s, pos, parent), parent)
  }

  /** What insert leaves in the vector: the element appended, and sifted up
      unless it is the only one. */
  function Inserted(s: seq<int>, x: int): (t: seq<int>)
    requires |s| + 1 < SIZE_MODULUS
    ensures |t| == |s| + 1
  {
    var appended := s + [x];
    if |appended| == 1 then appended
    else SiftUp(appended, |appended| - 1)
  }

  // ---------------------------------------------------------------------------
  // Properties of the specification

  /** A swap of a position with its parent, when the element is no smaller
      than the parent, moves the hole of the heap property up to the parent. */
  lemma SwapWithParent(s: seq<int>, pos: nat)
    requires 0 < pos < |s| && HeapExcept(s, pos) && s[pos] >= s[Parent(pos)]
    ensures HeapExcept(Swap(s, pos, Parent(pos)), Parent(pos))
  {
    var p := Parent(pos);
    var t := Swap(s, pos, p);
    forall i | 0 < i < |t| && i != p
      ensures t[Parent(i)] >= t[i]
    {
      if i == pos {
      } else if Parent(i) == pos {
        assert s[p] >= s[i];
      } else if Parent(i) == p {
        assert s[p] >= s[i];
      } else {
        assert t[Parent(i)] == s[Parent(i)];
      }
    }
    if 0 < p {
      forall c | 0 < c < |t| && Parent(c) == p
        ensures t[Parent(p)] >= t[c]
      {
        assert s[Parent(p)] >= s[p];
        if c != pos {
          assert s[p] >= s[c];
        }
      }
    }
  }

  /** Sifting up repairs the heap property. */
  lemma {:induction false} SiftUpKeepsHeap(s: seq<int>, pos: nat)
    requires pos < |s| < SIZE_MODULUS && HeapExcept(s, pos)
    ensures IsHeap(SiftUp(s, pos))
    decreases pos
  {
    if pos != 0 {
      var parent := GetParent(pos);
      if s[pos] >= s[parent] {
        SwapWithParent(s, pos);
        SiftUpKeepsHeap(Swap(s, pos, parent), parent);
      }
    }
  }

  lemma SwapIsPermutation(s: seq<int>, i: nat, j: nat)
    requires i < |s| && j < |s|
    ensures multiset(Swap(s, i, j)) == multiset(s)
  {
  }

  /** Sifting up only rearranges the elements. */
  lemma {:induction false} SiftUpIsPermutation(s: seq<int>, pos: nat)
    requires pos < |s| < SIZE_MODULUS
    ensures multiset(SiftUp(s, pos)) == multiset(s)
    decreases pos
  {
    if pos != 0 {
      var parent := GetParent(pos);
      if s[pos] >= s[parent] {
        SwapIsPermutation(s, pos, parent);
        SiftUpIsPermutation(Swap(s, pos, parent), parent);
      }
    }
  }

  /** insert keeps a heap a heap, adds exactly the new element, and on an
      empty heap gives the one-element heap. */
  lemma InsertKeepsHeap(s: seq<int>, x: int)
    requires |s| + 1 < SIZE_MODULUS && IsHeap(s)
    ensures IsHeap(Inserted(s, x))
    ensures multiset(Inserted(s, x)) == multiset(s) + multiset{x}
    ensures s == [] ==> Inserted(s, x) == [x]
  {
    var appended := s + [x];
    if |appended| > 1 {
      assert HeapExcept(appended, |appended| - 1);
      SiftUpKeepsHeap(appended, |appended| - 1);
      SiftUpIsPermutation(appended, |appended| - 1);
    }
  }

  /** The front of a heap is its maximum. */
  lemma {:induction false} HeapRootIsMax(s: seq<int>, i: nat)
    requires IsHeap(s) && i < |s|
    ensures s[i] <= s[0]
    decreases i
  {
    if i > 0 {
      HeapRootIsMax(s, Parent(i));
    }
  }

  // ---------------------------------------------------------------------------
  // The heap

  class Heap {
    var data: seq<int>

    ghost predicate Valid()
      reads this
    {
      IsHeap(data)
    }

    constructor()
      ensures data == [] && Valid()
    {
      data := [];
    }

    /** insert: the vector must have room for one more element. */
    method Insert(x: int)
      requires |data| + 1 < SIZE_MODULUS
      modifies this
      ensures data == Inserted(old(data), x)
      ensures old(Valid()) ==> Valid() && multiset(data) == multiset(old(data)) + multiset{x}
    {
      if Valid() {
        InsertKeepsHeap(data, x);
      }
      data := data + [x];
      if |data| == 1 {
        return;
      }
      var pos: nat := |data| - 1;
      while pos > 0
        invariant pos < |data| == |old(data)| + 1
        invariant SiftUp(data, pos) == Inserted(old(data), x)
        decreases pos
      {
        var parent := GetParent(pos);
        if data[pos] < data[parent] {
          break;
        }
        data := Swap(data, pos, parent);
        pos := parent;
      }
    }

    /** get_max reads the front; on a heap no element exceeds it. */
    function GetMax(): (m: int)
      requires data != []
      reads this
      ensures m == data[0]
      ensures Valid() ==> forall i | 0 <= i < |data| :: data[i] <= m
    {
      HeapRootIsMaxAll(data);
      data[0]
    }
  }

  lemma HeapRootIsMaxAll(s: seq<int>)
    requires s != []
    ensures IsHeap(s) ==> forall i | 0 <= i < |s| :: s[i] <= s[0]
  {
    if IsHeap(s) {
      forall i | 0 <= i < |s|
        ensures s[i] <= s[0]
      {
        HeapRootIsMax(s, i);
      }
    }
  }

  /** The program's own run: inserting 1, 2, 5, 3 and 7 leaves 7 5 2 1 3, with
      maximum 7. */
  lemma InsertExample()
    ensures Inserted(Inserted(Inserted(Inserted(Inserted([], 1), 2), 5), 3), 7) == [7, 5, 2, 1, 3]
  {
    assert Inserted([], 1) == [1];
    InsertTwo();
    InsertFive();
    InsertThree();
    InsertSeven();
  }

  /** 2 is no less than its parent 1 and moves to the root. */
  lemma InsertTwo()
    ensures Inserted([1], 2) == [2, 1]
  {
    assert Swap([1, 2], 1, 0) == [2, 1];
    assert SiftUp([1, 2], 1) == SiftUp([2, 1], 0);
  }

  /** 5 is no less than its parent 2 and moves to the root. */
  lemma InsertFive()
    ensures Inserted([2, 1], 5) == [5, 1, 2]
  {
    assert Swap([2, 1, 5], 2, 0) == [5, 1, 2];
    assert SiftUp([2, 1, 5], 2) == SiftUp([5, 1, 2], 0);
  }

  /** 3 passes its parent 1 and stops below the root 5. */
  lemma InsertThree()
    ensures Inserted([5, 1, 2], 3) == [5, 3, 2, 1]
  {
    assert Swap([5, 1, 2, 3], 3, 1) == [5, 3, 2, 1];
    assert SiftUp([5, 1, 2, 3], 3) == SiftUp([5, 3, 2, 1], 1);
    assert SiftUp([5, 3, 2, 1], 1) == [5, 3, 2, 1];
  }

  /** 7 passes its parent 3 and then the root 5. */
  lemma InsertSeven()
    ensures Inserted([5, 3, 2, 1], 7) == [7, 5, 2, 1, 3]
  {
    assert Swap([5, 3, 2, 1, 7], 4, 1) == [5, 7, 2, 1, 3];
    assert SiftUp([5, 3, 2, 1, 7], 4) == SiftUp([5, 7, 2, 1, 3], 1);
    assert Swap([5, 7, 2, 1, 3], 1, 0) == [7, 5, 2, 1, 3];
    assert SiftUp([5, 7, 2, 1, 3], 1) == SiftUp([7, 5, 2, 1, 3], 0);
  }

  method HeapExample() returns (contents: seq<int>, max: int)
    ensures contents == [7, 5, 2, 1, 3] && max == 7
  {
    var heap := new Heap();
    heap.Insert(1);
    heap.Insert(2);
    heap.Insert(5);
    heap.Insert(3);
    heap.Insert(7);
    InsertExample();
    contents := heap.data;
    max := heap.GetMax();
  }
}
