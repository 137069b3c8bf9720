/** The binary heap behind the timer queue. */
module PQueue {
  import opened Lists

  /** Names the middle term of a transitivity step. */
  ghost predicate Via<T>(x: T, y: T, z: T) {
    true
  }

  /** `cmp` is a total preorder, its sign telling which argument goes first. */
  ghost predicate Preorder<T(!new)>(cmp: (T, T) -> int) {
    && (forall x, y :: cmp(x, y) < 0 <==> cmp(y, x) > 0)
    && (forall x, y, z {:trigger Via(x, y, z)} :: cmp(x, y) <= 0 && cmp(y, z) <= 0 ==> cmp(x, z) <= 0)
  }

  function Parent(i: nat): nat {
    if i == 0 then 0 else (i - 1) / 2
  }

  /** No element goes before its parent. */
  ghost predicate Heap<T>(cmp: (T, T) -> int, s: seq<T>) {
    forall j | 0 < j < |s| :: cmp(s[Parent(j)], s[j]) <= 0
  }

  /** A heap but for the element at `i` and its parent. */
  ghost predicate HeapAbove<T>(cmp: (T, T) -> int, s: seq<T>, i: nat) {
    && (forall j | 0 < j < |s| && j != i :: cmp(s[Parent(j)], s[j]) <= 0)
    && (forall j | 0 < j < |s| && Parent(j) == i && i > 0 :: cmp(s[Parent(i)], s[j]) <= 0)
  }

  /** A heap but for the element at `i` and its children. */
  ghost predicate HeapBelow<T>(cmp: (T, T) -> int, s: seq<T>, i: nat) {
    && (forall j | 0 < j < |s| && Parent(j) != i :: cmp(s[Parent(j)], s[j]) <= 0)
    && (forall j | 0 < j < |s| && Parent(j) == i && i > 0 :: cmp(s[Parent(i)], s[j]) <= 0)
  }

  /** Each element of `s` has its own position on record. */
  ghost predicate Indexed<T>(index: map<T, int>, s: seq<T>) {
    forall i | 0 <= i < |s| :: s[i] in index && index[s[i]] == i
  }

  lemma SwapKeeps<T>(s: seq<T>, i: nat, j: nat)
    requires i < |s| && j < |s| && i != j
    ensures multiset(Swap(s, i, j)) == multiset(s)
  {
  }

  lemma UpdateMultiset<T>(s: seq<T>, i: nat, x: T)
    requires i < |s|
    ensures multiset(s[i := x]) == multiset(s) - multiset{s[i]} + multiset{x}
  {
  }

  /** A distinct sequence stays distinct under any rearrangement. */
  lemma DistinctByMultiset<T>(s: seq<T>, t: seq<T>)
    requires Distinct(s) && multiset(s) == multiset(t)
    ensures Distinct(t)
  {
    if i, j :| 0 <= i < j < |t| && t[i] == t[j] {
      assert t == t[..i] + [t[i]] + t[i + 1..j] + [t[j]] + t[j + 1..];
      assert multiset(t)[t[i]] >= 2;
      DistinctOnce(s, t[i]);
      assert false;
    }
  }

  lemma {:induction false} DistinctOnce<T>(s: seq<T>, x: T)
    requires Distinct(s)
    ensures multiset(s)[x] <= 1
  {
    if s != [] {
      DistinctOnce(s[1..], x);
      assert s == [s[0]] + s[1..];
      if s[0] == x {
        assert x !in s[1..];
      }
    }
  }

  /** The root of a heap goes before everything in it. */
  lemma {:induction false} RootIsLeast<T(!new)>(cmp: (T, T) -> int, s: seq<T>, i: nat)
    requires Preorder(cmp) && Heap(cmp, s) && i < |s|
    ensures cmp(s[0], s[i]) <= 0
  {
    if i == 0 {
      assert cmp(s[0], s[0]) <= 0;
    } else {
      RootIsLeast(cmp, s, Parent(i));
      assert Via(s[0], s[Parent(i)], s[i]);
    }
  }

  lemma UpStep<T(!new)>(cmp: (T, T) -> int, s: seq<T>, i: nat)
    requires Preorder(cmp) && 0 < i < |s| && HeapAbove(cmp, s, i)
    requires cmp(s[i], s[Parent(i)]) < 0
    ensures HeapAbove(cmp, Swap(s, i, Parent(i)), Parent(i))
  {
    var p := Parent(i);
    var t := Swap(s, i, p);
    forall j | 0 < j < |t| && j != p
      ensures cmp(t[Parent(j)], t[j]) <= 0
      ensures Parent(j) == p && p > 0 ==> cmp(t[Parent(p)], t[j]) <= 0
    {
      if j == i {
        assert t[j] == s[p] && t[p] == s[i];
      } else if Parent(j) == i {
        assert t[Parent(j)] == s[p] && t[j] == s[j];
      } else if Parent(j) == p {
        assert t[p] == s[i] && t[j] == s[j] && cmp(s[p], s[j]) <= 0;
        assert Via(s[i], s[p], s[j]);
      } else {
        assert t[Parent(j)] == s[Parent(j)] && t[j] == s[j];
      }
      if Parent(j) == p && p > 0 {
        assert t[Parent(p)] == s[Parent(p)] && cmp(s[Parent(p)], s[p]) <= 0;
        assert Via(s[Parent(p)], s[p], s[j]);
      }
    }
  }

  lemma DownStep<T(!new)>(cmp: (T, T) -> int, s: seq<T>, i: nat, c: nat)
    requires Preorder(cmp) && i < |s| && 0 < c < |s| && Parent(c) == i && HeapBelow(cmp, s, i)
    requires forall j | 0 < j < |s| && Parent(j) == i :: cmp(s[c], s[j]) <= 0
    requires cmp(s[c], s[i]) <= 0
    ensures HeapBelow(cmp, Swap(s, i, c), c)
  {
    var t := Swap(s, i, c);
    forall j | 0 < j < |t| && Parent(j) != c
      ensures cmp(t[Parent(j)], t[j]) <= 0
    {
      if j == c {
        assert t[i] == s[c] && t[j] == s[i];
      } else if Parent(j) == i {
        assert t[i] == s[c] && t[j] == s[j];
      } else if j == i {
        assert t[Parent(j)] == s[Parent(i)] && t[j] == s[c];
      } else {
        assert t[Parent(j)] == s[Parent(j)] && t[j] == s[j];
      }
    }
    forall j | 0 < j < |t| && Parent(j) == c
      ensures cmp(t[Parent(c)], t[j]) <= 0
    {
      assert t[i] == s[c] && t[j] == s[j];
    }
  }

  /** Positions on record but for the element at `at`. */
  ghost predicate IndexedBut<T>(index: map<T, int>, s: seq<T>, at: nat) {
    forall i | 0 <= i < |s| && i != at :: s[i] in index && index[s[i]] == i
  }

  ghost function Swap<T>(s: seq<T>, i: nat, j: nat): (t: seq<T>)
    requires i < |s| && j < |s|
  {
    s[i := s[j]][j := s[i]]
  }

  /** Moving the element at `p` to `at` and recording it leaves only the swapped
      element off the record, in a rearrangement of distinct elements. */
  lemma MoveRecorded<T>(index: map<T, int>, s: seq<T>, at: nat, p: nat)
    requires at < |s| && p < |s| && at != p && Distinct(s) && IndexedBut(index, s, at)
    ensures IndexedBut(index[s[p] := at], Swap(s, at, p), p)
    ensures Distinct(Swap(s, at, p)) && multiset(Swap(s, at, p)) == multiset(s)
  {
    SwapKeeps(s, at, p);
    DistinctByMultiset(s, Swap(s, at, p));
  }

  lemma Recorded<T>(index: map<T, int>, s: seq<T>, at: nat)
    requires at < |s| && Distinct(s) && IndexedBut(index, s, at)
    ensures Indexed(index[s[at] := at], s)
  {
  }

  /** The array holds `s` but for a hole at `at`. */
  ghost predicate Holds<T>(a: seq<T>, s: seq<T>, at: nat) {
    |a| == |s| && forall j | 0 <= j < |s| && j != at :: a[j] == s[j]
  }

  lemma HoleMoves<T>(a: seq<T>, s: seq<T>, at: nat, p: nat)
    requires at < |s| && p < |s| && at != p && Holds(a, s, at)
    ensures Holds(a[at := a[p]], Swap(s, at, p), p)
  {
  }

  const PQUEUE_INIT_ARRAYSIZE: nat := 32

  /** A queue of distinct elements; `index` is what the update callback records. */
  class Queue<T(==, 0, !new)> {
    const cmp: (T, T) -> int
    var items: array<T>
    var size: nat
    var index: map<T, int>

    ghost function Live(): seq<T>
      requires size <= items.Length
      reads this, items
    {
      items[..size]
    }

    ghost predicate Valid()
      reads this, items
    {
      && Preorder(cmp)
      && size < items.Length
      && Heap(cmp, Live()) && Distinct(Live()) && Indexed(index, Live())
    }

    constructor (cmp: (T, T) -> int)
      requires Preorder(cmp)
      ensures Valid() && fresh(items) && items.Length == 32 && Live() == [] && this.cmp == cmp
    {
      this.cmp := cmp;
      items := new T[PQUEUE_INIT_ARRAYSIZE];
      size := 0;
      index := map[];
    }

    /** Moves the element at `i` towards the root among the first `n`. */
    method TrickleUp(i: nat, ghost n: nat)
      requires Preorder(cmp) && i < n <= items.Length
      requires HeapAbove(cmp, items[..n], i) && Distinct(items[..n]) && IndexedBut(index, items[..n], i)
      modifies this`index, items
      ensures Heap(cmp, items[..n]) && Distinct(items[..n]) && Indexed(index, items[..n])
      ensures multiset(items[..n]) == old(multiset(items[..n]))
    {
      var tmp, at := items[i], i;
      ghost var s := items[..n];
      while at > 0 && cmp(tmp, items[Parent(at)]) < 0
        invariant at < n && |s| == n && s[at] == tmp && Holds(items[..n], s, at)
        invariant HeapAbove(cmp, s, at) && multiset(s) == old(multiset(items[..n]))
        invariant Distinct(s) && IndexedBut(index, s, at)
      {
        var p := Parent(at);
        UpStep(cmp, s, at);
        MoveRecorded(index, s, at, p);
        HoleMoves(items[..n], s, at, p);
        ghost var a := items[..n];
        items[at] := items[p];
        assert items[..n] == a[at := a[p]];
        index := index[items[at] := at];
        s := Swap(s, at, p);
        at := p;
      }
      Recorded(index, s, at);
      items[at] := tmp;
      index := index[tmp := at];
      assert items[..n] == s;
    }

    /** Moves the element at `i` away from the root. */
    method TrickleDown(i: nat)
      requires Preorder(cmp) && i < size <= items.Length
      requires HeapBelow(cmp, Live(), i) && Distinct(Live()) && IndexedBut(index, Live(), i)
      modifies this`index, items
      ensures Heap(cmp, Live()) && Distinct(Live()) && Indexed(index, Live())
      ensures multiset(Live()) == old(multiset(Live()))
    {
      hide Preorder, Heap, HeapBelow, Distinct, Indexed, IndexedBut;
      var tmp, at := items[i], i;
      ghost var s, heap := items[..size], false;
      while at < size / 2
        invariant !heap
        invariant at < size && |s| == size && s[at] == tmp && Holds(items[..size], s, at)
        invariant HeapBelow(cmp, s, at) && multiset(s) == old(multiset(items[..size]))
        invariant Distinct(s) && IndexedBut(index, s, at)
        decreases size - at
      {
        var which := if 2 * at + 2 < size && cmp(items[2 * at + 1], items[2 * at + 2]) > 0 then 2 * at + 2 else 2 * at + 1;
        if cmp(items[which], tmp) > 0 {
          StopAbove(cmp, s, at, which);
          heap := true;
          break;
        }
        DownMove(cmp, items[..size], s, at, which, index);
        ghost var a := items[..size];
        items[at] := items[which];
        assert items[..size] == a[at := a[which]];
        index := index[items[at] := at];
        s := Swap(s, at, which);
        at := which;
      }
      if !heap {
        StopLeaf(cmp, s, at);
      }
      Recorded(index, s, at);
      items[at] := tmp;
      index := index[tmp := at];
      assert items[..size] == s;
    }

    /** Doubles the array. */
    method Expand()
      requires Valid()
      modifies this`items
      ensures Valid() && fresh(items) && Live() == old(Live()) && items.Length == 2 * old(items.Length)
    {
      var n := items.Length;
      var bigger := new T[2 * n];
      forall k | 0 <= k < n {
        bigger[k] := items[k];
      }
      assert bigger[..size] == items[..size];
      items := bigger;
    }

    /** Adds an element, growing the array when it is nearly full. */
    method Enqueue(data: T)
      requires Valid() && data !in Live()
      modifies this, items
      ensures Valid() && (items == old(items) || fresh(items))
      ensures size == old(size) + 1
      ensures multiset(Live()) == old(multiset(Live())) + multiset{data}
    {
      if size + 2 >= items.Length {
        Expand();
      }
      Append(data);
    }

    method Append(data: T)
      requires Valid() && size + 1 < items.Length && data !in Live()
      modifies this`size, this`index, items
      ensures Valid() && size == old(size) + 1
      ensures multiset(Live()) == old(multiset(Live())) + multiset{data}
    {
      hide Preorder, Heap, HeapAbove, Distinct, Indexed, IndexedBut;
      ghost var was := Live();
      Appended(cmp, was, data, index);
      items[size] := data;
      index := index[data := size];
      assert items[..size + 1] == was + [data];
      TrickleUp(size, size + 1);
      size := size + 1;
    }

    /** Puts the last element in place of the one at `i`. */
    method Overwrite(i: nat)
      requires Valid() && i < size
      modifies this`size, items
      ensures size == old(size) - 1 && size < items.Length
      ensures i == size ==> Live() == old(Live())[..size] && items[i] == old(items[i])
      ensures i < size ==> Live() == Moved(old(Live()), i)
    {
      size := size - 1;
      items[i] := items[size];
    }

    lemma FirstIsLeast()
      requires Valid() && size > 0
      ensures forall x | x in Live() :: cmp(items[0], x) <= 0
    {
      forall x | x in Live()
        ensures cmp(items[0], x) <= 0
      {
        var k :| 0 <= k < size && items[k] == x;
        RootIsLeast(cmp, Live(), k);
      }
    }

    /** Removes and returns the first element, which goes before all others. */
    method Dequeue() returns (data: T)
      requires Valid() && size > 0
      modifies this`size, this`index, items
      ensures Valid() && size == old(size) - 1
      ensures data == old(Live())[0] && forall x | x in old(Live()) :: cmp(data, x) <= 0
      ensures multiset(Live()) == old(multiset(Live())) - multiset{data}
    {
      ghost var was := Live();
      FirstIsLeast();
      data := items[0];
      Overwrite(0);
      Dropped(cmp, was, index);
      if size > 0 {
        MovedSet(was, 0);
        MovedOrder(cmp, was, 0);
        MovedIndex(was, 0, index);
        SinksBelow(cmp, items[..size], 0);
        TrickleDown(0);
      } else {
        index := index[items[0] := 0];
      }
    }

    /** Moves a replaced element up or down to where it belongs. */
    method Settle(i: nat)
      requires Preorder(cmp) && i < size < items.Length
      requires HeapAround(cmp, Live(), i) && Distinct(Live()) && IndexedBut(index, Live(), i)
      modifies this`index, items
      ensures Valid() && multiset(Live()) == old(multiset(Live()))
    {
      if i > 0 && cmp(items[i], items[Parent(i)]) < 0 {
        RisesAbove(cmp, Live(), i);
        TrickleUp(i, size);
      } else {
        SinksBelow(cmp, Live(), i);
        TrickleDown(i);
      }
    }

    /** Removes the element at position `i`. */
    method RemoveAt(i: nat)
      requires Valid() && i < size
      modifies this`size, this`index, items
      ensures Valid() && size == old(size) - 1
      ensures multiset(Live()) == old(multiset(Live())) - multiset{old(Live())[i]}
    {
      ghost var was := Live();
      Overwrite(i);
      if i == size {
        // the last element went: trickling down from past the end only records it
        Dropped(cmp, was, index);
        assert items[i] !in was[..size];
        index := index[items[i] := i];
      } else {
        assert Live() == Moved(was, i);
        MovedSet(was, i);
        MovedOrder(cmp, was, i);
        MovedIndex(was, i, index);
        Settle(i);
      }
    }
  }

  /** A new last element is out of place at most against its parent. */
  lemma Appended<T(!new)>(cmp: (T, T) -> int, s: seq<T>, x: T, index: map<T, int>)
    requires Heap(cmp, s) && Distinct(s) && x !in s && Indexed(index, s)
    ensures HeapAbove(cmp, s + [x], |s|) && Distinct(s + [x])
    ensures IndexedBut(index[x := |s|], s + [x], |s|)
    ensures multiset(s + [x]) == multiset(s) + multiset{x}
  {
  }

  /** A heap around position `i`, whose own element may be anywhere. */
  ghost predicate HeapAround<T>(cmp: (T, T) -> int, s: seq<T>, i: nat) {
    && (forall j | 0 < j < |s| && j != i && Parent(j) != i :: cmp(s[Parent(j)], s[j]) <= 0)
    && (forall j | 0 < j < |s| && Parent(j) == i && i > 0 :: cmp(s[Parent(i)], s[j]) <= 0)
  }

  /** Dropping the last element. */
  lemma Dropped<T>(cmp: (T, T) -> int, s: seq<T>, index: map<T, int>)
    requires |s| > 0 && Heap(cmp, s) && Distinct(s) && Indexed(index, s)
    ensures var r := s[..|s| - 1];
            && Heap(cmp, r) && Distinct(r) && Indexed(index, r)
            && s[|s| - 1] !in r && multiset(r) == multiset(s) - multiset{s[|s| - 1]}
  {
    assert s == s[..|s| - 1] + [s[|s| - 1]];
  }

  /** The sequence with its last element moved to `i`. */
  ghost function Moved<T>(s: seq<T>, i: nat): seq<T>
    requires i < |s| - 1
  {
    s[..|s| - 1][i := s[|s| - 1]]
  }

  lemma MovedSet<T>(s: seq<T>, i: nat)
    requires i < |s| - 1
    ensures multiset(Moved(s, i)) == multiset(s) - multiset{s[i]}
  {
    var m := |s| - 1;
    assert s == s[..m] + [s[m]];
    UpdateMultiset(s[..m], i, s[m]);
  }

  lemma MovedOrder<T(!new)>(cmp: (T, T) -> int, s: seq<T>, i: nat)
    requires Preorder(cmp) && i < |s| - 1 && Heap(cmp, s)
    ensures HeapAround(cmp, Moved(s, i), i)
  {
    var t := Moved(s, i);
    forall j | 0 < j < |t| && Parent(j) == i && i > 0
      ensures cmp(t[Parent(i)], t[j]) <= 0
    {
      assert Via(s[Parent(i)], s[i], s[j]);
    }
  }

  lemma MovedIndex<T>(s: seq<T>, i: nat, index: map<T, int>)
    requires i < |s| - 1 && Distinct(s) && Indexed(index, s)
    ensures Distinct(Moved(s, i)) && IndexedBut(index, Moved(s, i), i)
  {
    var t := Moved(s, i);
    forall j | 0 <= j < |t| && j != i
      ensures t[j] == s[j]
    {
    }
  }

  /** Out of place upwards: it goes before its parent, hence before its children. */
  lemma RisesAbove<T(!new)>(cmp: (T, T) -> int, s: seq<T>, i: nat)
    requires Preorder(cmp) && 0 < i < |s| && HeapAround(cmp, s, i)
    requires cmp(s[i], s[Parent(i)]) < 0
    ensures HeapAbove(cmp, s, i)
  {
    forall j | 0 < j < |s| && Parent(j) == i
      ensures cmp(s[i], s[j]) <= 0
    {
      assert Via(s[i], s[Parent(i)], s[j]);
    }
  }

  lemma SinksBelow<T(!new)>(cmp: (T, T) -> int, s: seq<T>, i: nat)
    requires Preorder(cmp) && i < |s| && HeapAround(cmp, s, i)
    requires i == 0 || cmp(s[i], s[Parent(i)]) >= 0
    ensures HeapBelow(cmp, s, i)
  {
  }

  /** The child picked goes before both children. */
  lemma LesserChild<T(!new)>(cmp: (T, T) -> int, s: seq<T>, i: nat, c: nat)
    requires Preorder(cmp) && 2 * i + 1 < |s|
    requires c == if 2 * i + 2 < |s| && cmp(s[2 * i + 1], s[2 * i + 2]) > 0 then 2 * i + 2 else 2 * i + 1
    ensures forall j | 0 < j < |s| && Parent(j) == i :: cmp(s[c], s[j]) <= 0
  {
    assert cmp(s[c], s[c]) <= 0;
    forall j | 0 < j < |s| && Parent(j) == i
      ensures cmp(s[c], s[j]) <= 0
    {
      assert j == 2 * i + 1 || j == 2 * i + 2;
    }
  }

  /** Trickling down stops above children that all go after. */
  lemma StopAbove<T(!new)>(cmp: (T, T) -> int, s: seq<T>, i: nat, c: nat)
    requires Preorder(cmp) && 2 * i + 1 < |s| && HeapBelow(cmp, s, i)
    requires c == if 2 * i + 2 < |s| && cmp(s[2 * i + 1], s[2 * i + 2]) > 0 then 2 * i + 2 else 2 * i + 1
    requires cmp(s[c], s[i]) > 0
    ensures Heap(cmp, s)
  {
    LesserChild(cmp, s, i, c);
    forall j | 0 < j < |s| && Parent(j) == i
      ensures cmp(s[i], s[j]) <= 0
    {
      assert Via(s[i], s[c], s[j]);
    }
  }

  /** One step down keeps every invariant, the hole moving to the lesser child. */
  lemma DownMove<T(!new)>(cmp: (T, T) -> int, a: seq<T>, s: seq<T>, i: nat, c: nat, index: map<T, int>)
    requires Preorder(cmp) && 2 * i + 1 < |s| && HeapBelow(cmp, s, i)
    requires c == if 2 * i + 2 < |s| && cmp(s[2 * i + 1], s[2 * i + 2]) > 0 then 2 * i + 2 else 2 * i + 1
    requires cmp(s[c], s[i]) <= 0
    requires Distinct(s) && IndexedBut(index, s, i) && Holds(a, s, i)
    ensures HeapBelow(cmp, Swap(s, i, c), c)
    ensures IndexedBut(index[s[c] := i], Swap(s, i, c), c)
    ensures Distinct(Swap(s, i, c)) && multiset(Swap(s, i, c)) == multiset(s)
    ensures Holds(a[i := a[c]], Swap(s, i, c), c)
  {
    LesserChild(cmp, s, i, c);
    DownStep(cmp, s, i, c);
    MoveRecorded(index, s, i, c);
    HoleMoves(a, s, i, c);
  }

  lemma StopLeaf<T(!new)>(cmp: (T, T) -> int, s: seq<T>, i: nat)
    requires i < |s| && HeapBelow(cmp, s, i) && i >= |s| / 2
    ensures Heap(cmp, s)
  {
  }
}
