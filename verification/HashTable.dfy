/** The chained hash table and its running statistics. */
module HashTable {
  import opened Wrappers

  /** A chain is listed from its head; only the head's `len` counts. */
  datatype Bucket<T> = Bucket(key: nat, data: T, len: int)

  type Chain<T> = seq<Bucket<T>>
  type Index<T> = seq<Chain<T>>

  /** Adds a bucket at the head, which takes over the length. */
  function Push<T>(chain: Chain<T>, key: nat, data: T): Chain<T> {
    if chain == [] then [Bucket(key, data, 1)]
    else [Bucket(key, data, chain[0].len + 1), chain[0].(len := 0)] + chain[1..]
  }

  /** Takes bucket `j` out; the head, old or new, holds the new length. */
  function Pull<T>(chain: Chain<T>, j: nat): Chain<T>
    requires j < |chain|
  {
    var rest := chain[..j] + chain[j + 1..];
    if rest == [] then [] else [rest[0].(len := chain[0].len - 1)] + rest[1..]
  }

  /** The head of a chain holds its length, the others nothing. */
  ghost predicate LenOk<T>(chain: Chain<T>) {
    chain != [] ==> chain[0].len == |chain| && forall j | 0 < j < |chain| :: chain[j].len == 0
  }

  lemma PushExact<T>(chain: Chain<T>, key: nat, data: T)
    requires LenOk(chain)
    ensures var r := Push(chain, key, data);
            && LenOk(r) && |r| == |chain| + 1 && r[0].key == key && r[0].data == data
            && forall j | 0 <= j < |chain| :: r[j + 1].key == chain[j].key && r[j + 1].data == chain[j].data
  {
  }

  lemma PullExact<T>(chain: Chain<T>, j: nat)
    requires LenOk(chain) && j < |chain|
    ensures var r := Pull(chain, j);
            && LenOk(r) && |r| == |chain| - 1
            && forall k | 0 <= k < |r| ::
                 var o := if k < j then k else k + 1; r[k].key == chain[o].key && r[k].data == chain[o].data
  {
    hide LenOk;
    if j == 0 {
      PullHead(chain);
    } else {
      PullInner(chain, j);
    }
  }

  lemma PullHead<T>(chain: Chain<T>)
    requires LenOk(chain) && 0 < |chain|
    ensures var r := Pull(chain, 0);
            && LenOk(r) && |r| == |chain| - 1
            && forall k | 0 <= k < |r| :: r[k].key == chain[k + 1].key && r[k].data == chain[k + 1].data
  {
    var rest, r := chain[1..], Pull(chain, 0);
    assert chain[..0] + rest == rest;
    forall k | 0 < k < |r|
      ensures r[k] == chain[k + 1]
    {
      assert r[k] == rest[k];
    }
  }

  lemma PullInner<T>(chain: Chain<T>, j: nat)
    requires LenOk(chain) && 0 < j < |chain|
    ensures var r := Pull(chain, j);
            && LenOk(r) && |r| == |chain| - 1
            && forall k | 0 <= k < |r| ::
                 var o := if k < j then k else k + 1; r[k].key == chain[o].key && r[k].data == chain[o].data
  {
    var rest, r := chain[..j] + chain[j + 1..], Pull(chain, j);
    assert rest[0] == chain[0] && |rest| == |chain| - 1;
    forall k | 0 < k < |r|
      ensures r[k] == chain[if k < j then k else k + 1]
    {
      assert r[k] == rest[1..][k - 1] == rest[k];
    }
  }

  // ---- sums over the chains ----

  /** The sum of a function of the chain lengths. */
  function Tally<T>(index: Index<T>, f: nat -> int): int {
    if index == [] then 0 else f(|index[0]|) + Tally(index[1..], f)
  }

  lemma {:induction false} TallyUpdate<T>(index: Index<T>, f: nat -> int, i: nat, chain: Chain<T>)
    requires i < |index|
    ensures Tally(index[i := chain], f) == Tally(index, f) - f(|index[i]|) + f(|chain|)
  {
    var next := index[i := chain];
    if i == 0 {
      assert next[1..] == index[1..];
    } else {
      assert next[1..] == index[1..][i - 1 := chain];
      TallyUpdate(index[1..], f, i - 1, chain);
    }
  }

  lemma {:induction false} TallyEmpty<T>(n: nat, f: nat -> int)
    ensures Tally<T>(seq(n, _ => []), f) == n * f(0)
  {
    if n > 0 {
      var s: Index<T> := seq(n, _ => []);
      assert s[1..] == seq(n - 1, _ => []);
      TallyEmpty<T>(n - 1, f);
    }
  }

  function Square(n: nat): int {
    n * n
  }

  function One(n: nat): int {
    n
  }

  function IsZero(n: nat): int {
    if n == 0 then 1 else 0
  }

  // ---- what a table holds ----

  datatype Ops<!T> = Ops(hash: T -> nat, same: (T, T) -> bool)

  /** The comparison is an equivalence, and equal items have equal hashes. */
  ghost predicate Consistent<T(!new)>(o: Ops<T>) {
    && (forall x :: o.same(x, x))
    && (forall x, y | o.same(x, y) :: o.same(y, x) && o.hash(x) == o.hash(y))
    && (forall x, y, z | o.same(x, y) && o.same(y, z) :: o.same(x, z))
  }

  /** A bucket of chain `i` in a table of `size` chains. */
  ghost predicate Belongs<T>(b: Bucket<T>, o: Ops<T>, i: nat, size: nat)
    requires size > 0
  {
    b.key == o.hash(b.data) && b.key % size == i
  }

  ghost predicate ChainOk<T>(chain: Chain<T>, o: Ops<T>, i: nat, size: nat)
    requires size > 0
  {
    && LenOk(chain)
    && (forall j | 0 <= j < |chain| :: Belongs(chain[j], o, i, size))
    && (forall j, k | 0 <= j < k < |chain| :: !o.same(chain[j].data, chain[k].data) && !o.same(chain[k].data, chain[j].data))
  }

  ghost predicate TableOk<T>(index: Index<T>, o: Ops<T>) {
    |index| > 0 && forall i | 0 <= i < |index| :: ChainOk(index[i], o, i, |index|)
  }

  ghost predicate InChain<T>(chain: Chain<T>, x: T) {
    exists j | 0 <= j < |chain| :: chain[j].data == x
  }

  /** `x` is in the table. */
  ghost predicate Has<T>(index: Index<T>, x: T) {
    exists i | 0 <= i < |index| :: InChain(index[i], x)
  }

  /** An item equal to `data` can only be in the chain of its hash. */
  lemma HasAt<T(!new)>(index: Index<T>, o: Ops<T>, x: T, data: T)
    requires TableOk(index, o) && Consistent(o) && Has(index, x) && o.same(x, data)
    ensures InChain(index[o.hash(data) % |index|], x)
  {
    var i :| 0 <= i < |index| && InChain(index[i], x);
    var j :| 0 <= j < |index[i]| && index[i][j].data == x;
    assert Belongs(index[i][j], o, i, |index|);
  }

  /** No two items of a table are equal. */
  lemma HasOnce<T(!new)>(index: Index<T>, o: Ops<T>, x: T, y: T)
    requires TableOk(index, o) && Consistent(o) && Has(index, x) && Has(index, y) && o.same(x, y)
    ensures x == y
  {
    HasAt(index, o, x, y);
    HasAt(index, o, y, y);
    var c := index[o.hash(y) % |index|];
    var j :| 0 <= j < |c| && c[j].data == x;
    var k :| 0 <= k < |c| && c[k].data == y;
  }

  lemma PushOk<T(!new)>(chain: Chain<T>, o: Ops<T>, i: nat, size: nat, key: nat, data: T)
    requires size > 0 && ChainOk(chain, o, i, size) && key == o.hash(data) && key % size == i
    requires forall j | 0 <= j < |chain| :: !o.same(chain[j].data, data) && !o.same(data, chain[j].data)
    ensures ChainOk(Push(chain, key, data), o, i, size)
    ensures forall x :: InChain(Push(chain, key, data), x) <==> InChain(chain, x) || x == data
  {
    PushExact(chain, key, data);
    var r := Push(chain, key, data);
    hide Push;
    forall j | 0 <= j < |r|
      ensures Belongs(r[j], o, i, size)
    {
      if j > 0 {
        assert Belongs(chain[j - 1], o, i, size) && r[j - 1 + 1].data == chain[j - 1].data;
      }
    }
    forall j, k | 0 <= j < k < |r|
      ensures !o.same(r[j].data, r[k].data) && !o.same(r[k].data, r[j].data)
    {
      assert r[k - 1 + 1].data == chain[k - 1].data;
      if j > 0 {
        assert r[j - 1 + 1].data == chain[j - 1].data;
      }
    }
    forall x | InChain(chain, x)
      ensures InChain(r, x)
    {
      var j :| 0 <= j < |chain| && chain[j].data == x;
      assert r[j + 1].data == x;
    }
    forall x | InChain(r, x)
      ensures InChain(chain, x) || x == data
    {
      var j :| 0 <= j < |r| && r[j].data == x;
      if j > 0 {
        assert r[j - 1 + 1].data == chain[j - 1].data;
      }
    }
    assert r[0].data == data;
  }

  lemma PullOk<T(!new)>(chain: Chain<T>, o: Ops<T>, i: nat, size: nat, j: nat)
    requires size > 0 && ChainOk(chain, o, i, size) && j < |chain| && Consistent(o)
    ensures ChainOk(Pull(chain, j), o, i, size)
    ensures forall x :: InChain(Pull(chain, j), x) <==> InChain(chain, x) && x != chain[j].data
  {
    PullExact(chain, j);
    var r := Pull(chain, j);
    hide Pull;
    forall k | 0 <= k < |r|
      ensures Belongs(r[k], o, i, size) && InChain(chain, r[k].data) && r[k].data != chain[j].data
    {
      var p := if k < j then k else k + 1;
      assert Belongs(chain[p], o, i, size) && r[k].data == chain[p].data;
    }
    forall a, b | 0 <= a < b < |r|
      ensures !o.same(r[a].data, r[b].data) && !o.same(r[b].data, r[a].data)
    {
      var p, q := if a < j then a else a + 1, if b < j then b else b + 1;
      assert r[a].data == chain[p].data && r[b].data == chain[q].data;
    }
    forall x | InChain(chain, x) && x != chain[j].data
      ensures InChain(r, x)
    {
      var p :| 0 <= p < |chain| && chain[p].data == x;
      assert r[if p < j then p else p - 1].data == x;
    }
  }

  lemma TablePush<T(!new)>(index: Index<T>, o: Ops<T>, i: nat, data: T)
    requires TableOk(index, o) && Consistent(o) && i == o.hash(data) % |index|
    requires forall j | 0 <= j < |index[i]| :: !o.same(index[i][j].data, data)
    ensures var r := index[i := Push(index[i], o.hash(data), data)];
            TableOk(r, o) && forall x :: Has(r, x) <==> Has(index, x) || x == data
  {
    assert ChainOk(index[i], o, i, |index|);
    PushOk(index[i], o, i, |index|, o.hash(data), data);
    var c := Push(index[i], o.hash(data), data);
    hide Push, ChainOk, InChain;
    var r := index[i := c];
    forall x | Has(index, x) || x == data
      ensures Has(r, x)
    {
      if Has(index, x) {
        var k :| 0 <= k < |index| && InChain(index[k], x);
        assert InChain(r[k], x);
      } else {
        assert InChain(r[i], x);
      }
    }
    forall x | Has(r, x)
      ensures Has(index, x) || x == data
    {
      var k :| 0 <= k < |r| && InChain(r[k], x);
    }
  }

  lemma TablePull<T(!new)>(index: Index<T>, o: Ops<T>, i: nat, j: nat)
    requires TableOk(index, o) && Consistent(o) && i < |index| && j < |index[i]|
    ensures var r := index[i := Pull(index[i], j)];
            TableOk(r, o) && forall x :: Has(r, x) <==> Has(index, x) && x != index[i][j].data
  {
    var d := index[i][j].data;
    var c := Pull(index[i], j);
    assert ChainOk(index[i], o, i, |index|);
    PullOk(index[i], o, i, |index|, j);
    hide Pull;
    var r := index[i := c];
    forall x | Has(index, x) && x != d
      ensures Has(r, x)
    {
      var k :| 0 <= k < |index| && InChain(index[k], x);
      assert InChain(r[k], x);
    }
    forall x | Has(r, x)
      ensures Has(index, x) && x != d
    {
      var k :| 0 <= k < |r| && InChain(r[k], x);
      if k != i {
        var p :| 0 <= p < |index[k]| && index[k][p].data == x;
        assert Belongs(index[k][p], o, k, |index|) && Belongs(index[i][j], o, i, |index|);
      }
    }
  }

  class Hash<T(==, !new)> {
    const ops: Ops<T>
    const maxSize: nat
    var index: Index<T>
    var count: int
    var empty: int
    var ssq: int

    ghost predicate Valid()
      reads this
    {
      Consistent(ops) && TableOk(index, ops) && count == Tally(index, One) && empty == Tally(index, IsZero)
    }

    /** How far the running sum of squares is from the squares of the chain lengths. */
    ghost function Drift(): int
      reads this
    {
      ssq - Tally(index, Square)
    }

    constructor (ops: Ops<T>, size: nat, maxSize: nat)
      requires size > 0 && Consistent(ops)
      ensures Valid() && |index| == size && Drift() == 0 && this.ops == ops && this.maxSize == maxSize
      ensures forall x :: !Has(index, x)
    {
      this.ops, this.maxSize := ops, maxSize;
      index := seq(size, _ => []);
      count, empty, ssq := 0, size, 0;
      new;
      TallyEmpty<T>(size, One);
      TallyEmpty<T>(size, IsZero);
      TallyEmpty<T>(size, Square);
    }

    /** The position of an equal item in the chain, or the end. */
    method Find(i: nat, key: nat, data: T) returns (j: nat)
      requires i < |index|
      ensures j <= |index[i]|
      ensures j < |index[i]| ==> index[i][j].key == key && ops.same(index[i][j].data, data)
      ensures forall k | 0 <= k < j :: !(index[i][k].key == key && ops.same(index[i][k].data, data))
    {
      j := 0;
      while j < |index[i]| && !(index[i][j].key == key && ops.same(index[i][j].data, data))
        invariant j <= |index[i]| && forall k | 0 <= k < j :: !(index[i][k].key == key && ops.same(index[i][k].data, data))
      {
        j := j + 1;
      }
    }

    /** Puts an item that is not there yet at the head of its chain. */
    method Insert(data: T)
      requires Valid() && forall x | Has(index, x) :: !ops.same(x, data)
      modifies this`index, this`count, this`empty, this`ssq
      ensures Valid() && |index| == |old(index)| && Drift() == old(Drift())
      ensures forall x :: Has(index, x) <==> Has(old(index), x) || x == data
    {
      hide TableOk, Has, Tally, Consistent;
      index, empty, ssq := AddTo(index, ops, empty, ssq, data);
      count := count + 1;
    }

    /** One more item makes the table double. */
    ghost predicate Grows()
      reads this
    {
      count + 1 > |index| && !(maxSize != 0 && 2 * |index| > maxSize)
    }

    /** Doubles the table unless that would exceed its maximum size, moving every
        bucket to the chain it belongs to.  The sum of squares is not started afresh,
        so it drifts by the old sum. */
    method Expand()
      requires Valid()
      modifies this`index, this`empty, this`ssq
      ensures Valid() && forall x :: Has(index, x) <==> Has(old(index), x)
      ensures var big := maxSize != 0 && 2 * |old(index)| > maxSize;
              && |index| == (if big then 1 else 2) * |old(index)|
              && (big ==> index == old(index) && ssq == old(ssq))
              && (!big ==> Drift() == old(Drift()) + Tally(old(index), Square))
    {
      hide TableOk, Has, Tally, Consistent;
      var newSize := |index| * 2;
      if maxSize != 0 && newSize > maxSize {
        return;
      }
      ghost var s := ssq;
      SomeChains(index, ops);
      var newIndex, newEmpty, newSsq := Rehash(index, ops, newSize, ssq);
      index, empty, ssq := newIndex, newEmpty, newSsq;
    }

    /** Finds the item equal to `data`; if there is none and a way to make one is
        given, makes it and puts it in. */
    method Get(data: T, alloc: Option<T -> Option<T>>) returns (r: Option<T>)
      requires Valid() && (alloc.Some? ==> forall x | alloc.value(x).Some? :: ops.same(alloc.value(x).value, x))
      modifies this`index, this`count, this`empty, this`ssq
      ensures Valid()
      ensures (exists x :: Has(old(index), x) && ops.same(x, data)) ==>
                r.Some? && Has(old(index), r.value) && ops.same(r.value, data)
      ensures (exists x :: Has(old(index), x) && ops.same(x, data)) || alloc.None? || alloc.value(data).None? ==>
                index == old(index) && Drift() == old(Drift()) && (r.Some? ==> Has(index, r.value))
      ensures (forall x | Has(old(index), x) :: !ops.same(x, data)) ==>
                && r == (if alloc.Some? then alloc.value(data) else None)
                && (forall x :: Has(index, x) <==> Has(old(index), x) || r == Some(x))
                && (r.Some? ==> Drift() == old(Drift()) + if old(Grows()) then Tally(old(index), Square) else 0)
                && (r.Some? ==> (Drift() == old(Drift()) <==> !old(Grows())))
    {
      hide TableOk, Has, Tally, Consistent;
      SquareAtLeast(index);
      if alloc.None? && count == 0 {
        CountNone(index);
        NoneHas(index);
        return None;
      }
      SomeChains(index, ops);
      var key := ops.hash(data);
      var j := Find(key % |index|, key, data);
      FoundExact(index, ops, key % |index|, data, j);
      if j < |index[key % |index|]| {
        return Some(index[key % |index|][j].data);
      }
      if alloc.None? {
        return None;
      }
      r := alloc.value(data);
      if r.None? {
        return;
      }
      FreshAbsent(index, ops, data, r.value);
      ghost var before := index;
      if count + 1 > |index| {
        Expand();
      }
      Insert(r.value);
    }

    method Lookup(data: T) returns (r: Option<T>)
      requires Valid()
      modifies this`index, this`count, this`empty, this`ssq
      ensures Valid() && index == old(index) && Drift() == old(Drift())
      ensures r.Some? <==> exists x :: Has(index, x) && ops.same(x, data)
      ensures r.Some? ==> Has(index, r.value) && ops.same(r.value, data)
    {
      hide TableOk, Has, Tally, Consistent;
      r := Get(data, None);
    }

    /** Takes the item equal to `data` out. */
    method Release(data: T) returns (r: Option<T>)
      requires Valid()
      modifies this`index, this`count, this`empty, this`ssq
      ensures Valid() && |index| == |old(index)| && Drift() == old(Drift())
      ensures r.Some? <==> exists x :: Has(old(index), x) && ops.same(x, data)
      ensures r.Some? ==> Has(old(index), r.value) && ops.same(r.value, data)
      ensures forall x :: Has(index, x) <==> Has(old(index), x) && r != Some(x)
    {
      hide TableOk, Has, Tally, Consistent, Pull, Square;
      SomeChains(index, ops);
      var key := ops.hash(data);
      var i := key % |index|;
      var j := Find(i, key, data);
      FoundExact(index, ops, i, data, j);
      if j == |index[i]| {
        return None;
      }
      TablePull(index, ops, i, j);
      ChainShrinks(index, ops, i, j);
      var chain := Pull(index[i], j);
      TallyUpdate(index, One, i, chain);
      TallyUpdate(index, IsZero, i, chain);
      TallyUpdate(index, Square, i, chain);
      SquareBack(|index[i]|);
      var oldlen := index[i][0].len;
      var newlen := oldlen - 1;
      if chain == [] {
        empty := empty + 1;
      }
      ssq := ssq + (newlen + oldlen) * (newlen - oldlen);
      r := Some(index[i][j].data);
      index := index[i := chain];
      count := count - 1;
    }

    /** Empties the table. */
    method Clean()
      requires Valid()
      modifies this`index, this`count, this`empty, this`ssq
      ensures Valid() && |index| == |old(index)| && Drift() == 0 && forall x :: !Has(index, x)
    {
      hide Tally, Consistent;
      var i := 0;
      ghost var was := index;
      while i < |index|
        invariant i <= |index| == |was| && (forall k | 0 <= k < i :: index[k] == [])
        invariant forall k | i <= k < |was| :: index[k] == was[k]
        invariant count == Tally(index, One)
      {
        TallyUpdate(index, One, i, []);
        count := count - |index[i]|;
        index := index[i := []];
        i := i + 1;
      }
      assert index == seq(|was|, _ => []);
      TallyEmpty<T>(|was|, One);
      TallyEmpty<T>(|was|, IsZero);
      TallyEmpty<T>(|was|, Square);
      ssq, empty := 0, |index|;
    }
  }

  /** Puts an absent item at the head of its chain and brings the statistics up to
      date. */
  method AddTo<T(==, !new)>(index: Index<T>, o: Ops<T>, empty: int, ssq: int, data: T)
    returns (r: Index<T>, empty': int, ssq': int)
    requires TableOk(index, o) && Consistent(o) && forall x | Has(index, x) :: !o.same(x, data)
    ensures TableOk(r, o) && |r| == |index| && forall x :: Has(r, x) <==> Has(index, x) || x == data
    ensures Tally(r, One) == Tally(index, One) + 1
    ensures empty' - Tally(r, IsZero) == empty - Tally(index, IsZero)
    ensures ssq' - Tally(r, Square) == ssq - Tally(index, Square)
  {
    hide TableOk, Has, Tally, Push, Consistent, Square;
    SomeChains(index, o);
    var key := o.hash(data);
    var i := key % |index|;
    AbsentHere(index, o, i, data);
    TablePush(index, o, i, data);
    var chain := Push(index[i], key, data);
    ChainGrows(index, o, i, key, data);
    TallyUpdate(index, One, i, chain);
    TallyUpdate(index, IsZero, i, chain);
    TallyUpdate(index, Square, i, chain);
    SquareStep(|index[i]|);
    var oldlen := if index[i] != [] then index[i][0].len else 0;
    var newlen := oldlen + 1;
    empty' := if newlen == 1 then empty - 1 else empty;
    ssq' := ssq + (newlen + oldlen) * (newlen - oldlen);
    r := index[i := chain];
  }

  /** `x` is in one of the first `i` chains, or among the first `j` of chain `i`. */
  ghost predicate Before<T>(index: Index<T>, i: nat, j: nat, x: T) {
    || (exists k | 0 <= k < i && k < |index| :: InChain(index[k], x))
    || (i < |index| && j <= |index[i]| && InChain(index[i][..j], x))
  }

  /** Moves every bucket into a table of the new size. */
  method Rehash<T(==, !new)>(index: Index<T>, o: Ops<T>, newSize: nat, ssq: int) returns (r: Index<T>, empty: int, ssq': int)
    requires TableOk(index, o) && Consistent(o) && newSize > 0
    ensures TableOk(r, o) && |r| == newSize && forall x :: Has(r, x) <==> Has(index, x)
    ensures Tally(r, One) == Tally(index, One) && empty == Tally(r, IsZero) && ssq' == ssq + Tally(r, Square)
  {
    hide TableOk, Has, Tally, Consistent, Before, Square;
    r, empty, ssq' := seq(newSize, _ => []), newSize, ssq;
    NewTable<T>(newSize, o, index);
    for i := 0 to |index|
      invariant TableOk(r, o) && |r| == newSize && (forall x :: Has(r, x) <==> Before(index, i, 0, x))
      invariant Tally(r, One) == Tally(index[..i], One) && empty == Tally(r, IsZero) && ssq' == ssq + Tally(r, Square)
    {
      for j := 0 to |index[i]|
        invariant TableOk(r, o) && |r| == newSize && (forall x :: Has(r, x) <==> Before(index, i, j, x))
        invariant Tally(r, One) == Tally(index[..i], One) + j && empty == Tally(r, IsZero) && ssq' == ssq + Tally(r, Square)
      {
        NotBefore(index, o, i, j);
        BeforeNext(index, i, j);
        r, empty, ssq' := AddTo(r, o, empty, ssq', index[i][j].data);
      }
      BeforeChain(index, i);
    }
    BeforeAll(index);
  }

  /** A chain adds at least its length to the sum of squares. */
  lemma {:induction false} SquareAtLeast<T>(index: Index<T>)
    ensures Tally(index, Square) >= Tally(index, One)
  {
    if index != [] {
      SquareAtLeast(index[1..]);
      var n := |index[0]|;
      assert n == 0 || n * n >= n;
    }
  }

  lemma SomeChains<T>(index: Index<T>, o: Ops<T>)
    requires TableOk(index, o)
    ensures |index| > 0
  {
  }

  /** The difference of the squares as it is added to the statistics. */
  lemma SquareStep(n: nat)
    ensures (n + 1 + n) * (n + 1 - n) == Square(n + 1) - Square(n)
  {
  }

  lemma AbsentHere<T(!new)>(index: Index<T>, o: Ops<T>, i: nat, data: T)
    requires i < |index| && forall x | Has(index, x) :: !o.same(x, data)
    ensures forall j | 0 <= j < |index[i]| :: !o.same(index[i][j].data, data)
  {
    forall j | 0 <= j < |index[i]|
      ensures !o.same(index[i][j].data, data)
    {
      assert InChain(index[i], index[i][j].data);
      assert Has(index, index[i][j].data);
    }
  }

  lemma ChainGrows<T(!new)>(index: Index<T>, o: Ops<T>, i: nat, key: nat, data: T)
    requires TableOk(index, o) && i < |index|
    ensures |Push(index[i], key, data)| == |index[i]| + 1
    ensures (if index[i] != [] then index[i][0].len else 0) == |index[i]|
  {
    assert ChainOk(index[i], o, i, |index|);
    PushExact(index[i], key, data);
  }

  lemma ChainShrinks<T(!new)>(index: Index<T>, o: Ops<T>, i: nat, j: nat)
    requires TableOk(index, o) && i < |index| && j < |index[i]|
    ensures |Pull(index[i], j)| == |index[i]| - 1 && index[i][0].len == |index[i]|
  {
    assert ChainOk(index[i], o, i, |index|);
    PullExact(index[i], j);
  }

  lemma SquareBack(n: nat)
    requires n > 0
    ensures (n - 1 + n) * (n - 1 - n) == Square(n - 1) - Square(n)
  {
  }

  lemma {:induction false} CountNone<T>(index: Index<T>)
    requires Tally(index, One) == 0
    ensures forall i | 0 <= i < |index| :: index[i] == []
  {
    if index != [] {
      TallyPositive(index[1..]);
      CountNone(index[1..]);
      forall i | 0 <= i < |index|
        ensures index[i] == []
      {
        assert i > 0 ==> index[1..][i - 1] == index[i];
      }
    }
  }

  lemma NoneHas<T(!new)>(index: Index<T>)
    requires forall i | 0 <= i < |index| :: index[i] == []
    ensures forall x :: !Has(index, x)
  {
  }

  lemma {:induction false} TallyPositive<T>(index: Index<T>)
    ensures Tally(index, One) >= 0
  {
    if index != [] {
      TallyPositive(index[1..]);
    }
  }

  /** What was looked for is found, or is nowhere in the table. */
  lemma FoundExact<T(!new)>(index: Index<T>, o: Ops<T>, i: nat, data: T, j: nat)
    requires TableOk(index, o) && Consistent(o) && i < |index| && i == o.hash(data) % |index| && j <= |index[i]|
    requires j < |index[i]| ==> o.same(index[i][j].data, data)
    requires forall k | 0 <= k < j :: !(index[i][k].key == o.hash(data) && o.same(index[i][k].data, data))
    ensures j < |index[i]| ==> Has(index, index[i][j].data)
    ensures j == |index[i]| ==> forall x | Has(index, x) :: !o.same(x, data)
  {
    if j < |index[i]| {
      assert InChain(index[i], index[i][j].data);
    } else {
      forall k | 0 <= k < |index[i]|
        ensures !o.same(index[i][k].data, data)
      {
        assert Belongs(index[i][k], o, i, |index|);
      }
      forall x | Has(index, x)
        ensures !o.same(x, data)
      {
        HasAtIf(index, o, x, data);
      }
    }
  }

  lemma HasAtIf<T(!new)>(index: Index<T>, o: Ops<T>, x: T, data: T)
    requires TableOk(index, o) && Consistent(o) && Has(index, x)
    ensures o.same(x, data) ==> InChain(index[o.hash(data) % |index|], x)
  {
    if o.same(x, data) {
      HasAt(index, o, x, data);
    }
  }

  lemma FreshAbsent<T(!new)>(index: Index<T>, o: Ops<T>, data: T, made: T)
    requires Consistent(o) && o.same(made, data) && forall x | Has(index, x) :: !o.same(x, data)
    ensures forall x | Has(index, x) :: !o.same(x, made)
  {
  }

  lemma NewTable<T(!new)>(n: nat, o: Ops<T>, index: Index<T>)
    requires n > 0
    ensures var r: Index<T> := seq(n, _ => []);
            && TableOk(r, o) && (forall x :: Has(r, x) <==> Before(index, 0, 0, x))
            && Tally(r, One) == Tally(index[..0], One) && Tally(r, IsZero) == n && Tally(r, Square) == 0
  {
    TallyEmpty<T>(n, One);
    TallyEmpty<T>(n, IsZero);
    TallyEmpty<T>(n, Square);
  }

  /** The bucket at (`i`, `j`) is not among the ones before it. */
  lemma NotBefore<T(!new)>(index: Index<T>, o: Ops<T>, i: nat, j: nat)
    requires TableOk(index, o) && Consistent(o) && i < |index| && j < |index[i]|
    ensures forall x | Before(index, i, j, x) :: !o.same(x, index[i][j].data)
  {
    var d := index[i][j].data;
    assert ChainOk(index[i], o, i, |index|) && Belongs(index[i][j], o, i, |index|);
    forall x | Before(index, i, j, x)
      ensures !o.same(x, d)
    {
      if k :| 0 <= k < i && InChain(index[k], x) {
        var p :| 0 <= p < |index[k]| && index[k][p].data == x;
        assert Belongs(index[k][p], o, k, |index|);
      } else {
        var p :| 0 <= p < j && index[i][..j][p].data == x;
        assert index[i][p].data == x;
      }
    }
  }

  lemma BeforeNext<T(!new)>(index: Index<T>, i: nat, j: nat)
    requires i < |index| && j < |index[i]|
    ensures forall x :: Before(index, i, j + 1, x) <==> Before(index, i, j, x) || x == index[i][j].data
  {
    var a, b := index[i][..j], index[i][..j + 1];
    assert b[j] == index[i][j];
    forall x
      ensures InChain(b, x) <==> InChain(a, x) || x == index[i][j].data
    {
      if InChain(a, x) {
        var p :| 0 <= p < |a| && a[p].data == x;
        assert b[p].data == x;
      }
      if InChain(b, x) {
        var p :| 0 <= p < |b| && b[p].data == x;
        assert p < j ==> a[p].data == x;
      }
    }
  }

  lemma BeforeChain<T(!new)>(index: Index<T>, i: nat)
    requires i < |index|
    ensures forall x :: Before(index, i + 1, 0, x) <==> Before(index, i, |index[i]|, x)
    ensures Tally(index[..i + 1], One) == Tally(index[..i], One) + |index[i]|
  {
    assert index[i][..|index[i]|] == index[i];
    TallyLast(index[..i + 1]);
    assert index[..i + 1][..i] == index[..i];
    forall x
      ensures Before(index, i + 1, 0, x) <==> Before(index, i, |index[i]|, x)
    {
      if Before(index, i + 1, 0, x) && i + 1 < |index| {
        assert index[i + 1][..0] == [];
      }
    }
  }

  lemma {:induction false} TallyLast<T>(index: Index<T>)
    requires index != []
    ensures Tally(index, One) == Tally(index[..|index| - 1], One) + |index[|index| - 1]|
  {
    if |index| > 1 {
      TallyLast(index[1..]);
      assert index[1..][..|index| - 2] == index[..|index| - 1][1..];
    }
  }

  lemma BeforeAll<T(!new)>(index: Index<T>)
    ensures forall x :: Before(index, |index|, 0, x) <==> Has(index, x)
    ensures index[..|index|] == index
  {
  }

  /** The statistic is off after one doubling: two items put into a table that
      begins with one chain. */
  method DriftAppears() returns (h: Hash<nat>)
    ensures h.Valid() && h.ssq != Tally(h.index, Square)
  {
    h := new Hash<nat>(Ops((x: nat) => x, (x: nat, y: nat) => x == y), 1, 0);
    h.Insert(5);
    OneChain(h.index, 5);
    var r := h.Get(6, Some((x: nat) => Some(x)));
  }

  lemma OneChain(index: Index<nat>, x: nat)
    requires |index| == 1 && Has(index, x)
    ensures Tally(index, Square) > 0 && Tally(index, One) > 0
  {
    assert index == [index[0]];
    assert |index[0]| > 0;
  }
}
