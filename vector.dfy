/** `array::Vector`: a heap buffer whose length is fixed when it is built.
    Size-checked assignments and the bounds-checked `at` report their
    failures as values instead of throwing. */
module ArrayVector {
  import opened Errors

  class Vector<T(0)> {
    var data: array<T>
    var size: nat

    /** The stored size is the length of the buffer. */
    predicate Valid()
      reads this
    {
      data.Length == size
    }

    function Contents(): seq<T>
      reads this, data
    {
      data[..]
    }

    /** `Vector(n)`: `n` elements whose values are left unspecified. */
    constructor (n: nat)
      ensures Valid() && size == n && fresh(data)
    {
      data := new T[n];
      size := n;
    }

    /** `Vector(n, val)`: `n` copies of `val`. */
    constructor Fill(n: nat, val: T)
      ensures Valid() && fresh(data)
      ensures Contents() == seq(n, _ => val)
    {
      data := new T[n](_ => val);
      size := n;
    }

    /** `Vector(first, last)` and `Vector(init_list)`: the elements of the
        range, in order. */
    constructor FromRange(s: seq<T>)
      ensures Valid() && fresh(data)
      ensures Contents() == s
    {
      data := new T[|s|](i requires 0 <= i < |s| => s[i]);
      size := |s|;
    }

    /** `Vector(const Vector&)`: a new buffer holding the same elements. */
    constructor Copy(v: Vector<T>)
      requires v.Valid()
      ensures Valid() && fresh(data)
      ensures Contents() == v.Contents()
    {
      var n := v.size;
      var d := new T[n];
      var i := 0;
      while i < n
        invariant 0 <= i <= n
        invariant forall j :: 0 <= j < i ==> d[j] == v.data[j]
      {
        d[i] := v.data[i];
        i := i + 1;
      }
      data := d;
      size := n;
    }

    /** `Vector(Vector&&)`: takes over the buffer of `v`, which is left
        empty. */
    constructor Move(v: Vector<T>)
      requires v.Valid()
      modifies v
      ensures Valid() && data == old(v.data) && size == old(v.size)
      ensures v.Valid() && v.size == 0
    {
      data := v.data;
      size := v.size;
      new;
      v.data := new T[0];
      v.size := 0;
    }

    /** `operator=(const Vector&)`: `InvalidArgument` when the sizes
        differ; otherwise a fresh copy of the elements of `v` replaces the
        buffer. */
    method CopyAssign(v: Vector<T>) returns (r: Outcome)
      requires Valid() && v.Valid()
      modifies this
      ensures Valid()
      ensures r.Fail? <==> old(v.size) != old(size)
      ensures r.Fail? ==> r.error == InvalidArgument && data == old(data) && size == old(size)
      ensures r.Pass? ==> fresh(data) && Contents() == old(v.Contents())
    {
      if v.size != size {
        return Fail(InvalidArgument);
      }
      var tmp := new Vector.Copy(v);
      data, size := tmp.data, tmp.size;
      return Pass;
    }

    /** `operator=(Vector&&)`: the sizes must agree; the buffer of `v` is
        taken over and, unless `v` is this vector, `v` is left empty. */
    method MoveAssign(v: Vector<T>)
      requires Valid() && v.Valid() && v.size == size
      modifies this, v
      ensures Valid() && data == old(v.data) && size == old(v.size)
      ensures v != this ==> v.Valid() && v.size == 0
    {
      var tmpData, tmpSize := v.data, v.size;
      v.data, v.size := new T[0], 0;
      data, tmpData := tmpData, data;
      size, tmpSize := tmpSize, size;
    }

    /** `operator=(init_list)`: `InvalidArgument` when the sizes differ;
        otherwise the elements are copied into the same buffer. */
    method InitListAssign(s: seq<T>) returns (r: Outcome)
      requires Valid()
      modifies data
      ensures Valid()
      ensures r.Fail? <==> |s| != size
      ensures r.Fail? ==> r.error == InvalidArgument && Contents() == old(Contents())
      ensures r.Pass? ==> Contents() == s
    {
      if |s| != size {
        return Fail(InvalidArgument);
      }
      var i := 0;
      while i < size
        invariant 0 <= i <= size
        invariant forall j :: 0 <= j < i ==> data[j] == s[j]
      {
        data[i] := s[i];
        i := i + 1;
      }
      return Pass;
    }

    /** `size`: the number of elements. */
    function Size(): (r: nat)
      reads this, data
      requires Valid()
      ensures r == |Contents()|
    {
      size
    }

    /** `max_size`: the size is fixed, so it is the maximum. */
    function MaxSize(): (r: nat)
      reads this, data
      requires Valid()
      ensures r == Size()
    {
      size
    }

    /** `empty`: no elements. */
    function Empty(): (r: bool)
      reads this, data
      requires Valid()
      ensures r <==> Contents() == []
    {
      size == 0
    }

    /** `operator[]` for reading; the index must be in range. */
    function Get(idx: nat): (r: T)
      reads this, data
      requires Valid() && idx < size
      ensures r == Contents()[idx]
    {
      data[idx]
    }

    /** `operator[]` for writing: only element `idx` changes. */
    method Set(idx: nat, val: T)
      requires Valid() && idx < size
      modifies data
      ensures Valid() && Contents() == old(Contents())[idx := val]
    {
      data[idx] := val;
    }

    /** `at` for reading: `OutOfRange` past the end. */
    function At(idx: nat): (r: Result<T>)
      reads this, data
      requires Valid()
      ensures r.Err? <==> idx >= |Contents()|
      ensures r.Err? ==> r.error == OutOfRange
      ensures r.Ok? ==> r.value == Contents()[idx]
    {
      if idx >= size then Err(OutOfRange) else Ok(data[idx])
    }

    /** `at` for writing: `OutOfRange` past the end, otherwise only element
        `idx` changes. */
    method SetAt(idx: nat, val: T) returns (r: Outcome)
      requires Valid()
      modifies data
      ensures Valid()
      ensures r.Fail? <==> idx >= size
      ensures r.Fail? ==> r.error == OutOfRange && Contents() == old(Contents())
      ensures r.Pass? ==> Contents() == old(Contents())[idx := val]
    {
      if idx >= size {
        return Fail(OutOfRange);
      }
      data[idx] := val;
      return Pass;
    }

    /** `front`: the first element of a non-empty vector. */
    function Front(): (r: T)
      reads this, data
      requires Valid() && size > 0
      ensures r == Contents()[0]
    {
      data[0]
    }

    /** `back`: the last element of a non-empty vector. */
    function Back(): (r: T)
      reads this, data
      requires Valid() && size > 0
      ensures r == Contents()[|Contents()| - 1]
    {
      data[size - 1]
    }

    /** Writing through `front`: only the first element changes. */
    method SetFront(val: T)
      requires Valid() && size > 0
      modifies data
      ensures Valid() && Contents() == old(Contents())[0 := val]
    {
      data[0] := val;
    }

    /** Writing through `back`: only the last element changes. */
    method SetBack(val: T)
      requires Valid() && size > 0
      modifies data
      ensures Valid() && Contents() == old(Contents())[size - 1 := val]
    {
      data[size - 1] := val;
    }
  }

  /** `swap`: the two vectors exchange buffers and sizes. */
  method Swap<T(0)>(lhs: Vector<T>, rhs: Vector<T>)
    requires lhs.Valid() && rhs.Valid()
    modifies lhs, rhs
    ensures lhs.Valid() && rhs.Valid()
    ensures lhs.data == old(rhs.data) && lhs.size == old(rhs.size)
    ensures rhs.data == old(lhs.data) && rhs.size == old(lhs.size)
    ensures lhs.Contents() == old(rhs.Contents()) && rhs.Contents() == old(lhs.Contents())
  {
    lhs.data, rhs.data := rhs.data, lhs.data;
    lhs.size, rhs.size := rhs.size, lhs.size;
  }

  // ---------------------------------------------------------------------
  // Comparisons
  // ---------------------------------------------------------------------

  /** `operator==`: same size and the same element at every index. */
  function Equal<T(0, ==)>(lhs: Vector<T>, rhs: Vector<T>): (r: bool)
    reads lhs, lhs.data, rhs, rhs.data
    requires lhs.Valid() && rhs.Valid()
    ensures r <==> lhs.Contents() == rhs.Contents()
  {
    lhs.size == rhs.size && forall i :: 0 <= i < lhs.size ==> lhs.data[i] == rhs.data[i]
  }

  /** `operator!=`. */
  function NotEqual<T(0, ==)>(lhs: Vector<T>, rhs: Vector<T>): (r: bool)
    reads lhs, lhs.data, rhs, rhs.data
    requires lhs.Valid() && rhs.Valid()
    ensures r <==> lhs.Contents() != rhs.Contents()
  {
    !Equal(lhs, rhs)
  }

  /** `std::lexicographical_compare`: walk both sequences while the
      elements agree; the first difference decides, and running out first
      means less. */
  function LexLess(a: seq<int>, b: seq<int>): bool
  {
    if |b| == 0 then false
    else if |a| == 0 then true
    else if a[0] < b[0] then true
    else if b[0] < a[0] then false
    else LexLess(a[1..], b[1..])
  }

  /** The reference ordering: `a` and `b` agree on a common prefix of
      length `k`, after which `a` ends while `b` goes on, or `a[k] < b[k]`. */
  ghost predicate LexBelow(a: seq<int>, b: seq<int>)
  {
    exists k :: 0 <= k <= |a| && k <= |b| && a[..k] == b[..k] &&
      (k == |a| < |b| || (k < |a| && k < |b| && a[k] < b[k]))
  }

  /** The walk computes the reference ordering. */
  lemma {:induction false} LexLessIsLexBelow(a: seq<int>, b: seq<int>)
    ensures LexLess(a, b) <==> LexBelow(a, b)
    decreases |a|
  {
    if |b| == 0 {
    } else if |a| == 0 {
      assert a[..0] == b[..0];
    } else if a[0] != b[0] {
      LexBelowHead(a, b);
    } else {
      LexLessIsLexBelow(a[1..], b[1..]);
      LexBelowTail(a, b);
    }
  }

  /** Sequences that differ at the head are ordered by their heads. */
  lemma LexBelowHead(a: seq<int>, b: seq<int>)
    requires |a| > 0 && |b| > 0 && a[0] != b[0]
    ensures LexBelow(a, b) <==> a[0] < b[0]
  {
    assert a[..0] == b[..0];
    assert forall k :: 0 < k <= |a| && k <= |b| ==> a[..k][0] == a[0] && b[..k][0] == b[0];
  }

  /** Sequences with the same head are ordered by their tails. */
  lemma LexBelowTail(a: seq<int>, b: seq<int>)
    requires |a| > 0 && |b| > 0 && a[0] == b[0]
    ensures LexBelow(a, b) <==> LexBelow(a[1..], b[1..])
  {
    if LexBelow(a, b) {
      var k :| 0 <= k <= |a| && k <= |b| && a[..k] == b[..k] &&
        (k == |a| < |b| || (k < |a| && k < |b| && a[k] < b[k]));
      DropHead(a, b, k);
    }
    if LexBelow(a[1..], b[1..]) {
      var k :| 0 <= k <= |a[1..]| && k <= |b[1..]| && a[1..][..k] == b[1..][..k] &&
        (k == |a[1..]| < |b[1..]| || (k < |a[1..]| && k < |b[1..]| && a[1..][k] < b[1..][k]));
      AddHead(a, b, k);
    }
  }

  lemma DropHead(a: seq<int>, b: seq<int>, k: nat)
    requires |a| > 0 && |b| > 0 && a[0] == b[0]
    requires 0 <= k <= |a| && k <= |b| && a[..k] == b[..k]
    requires k == |a| < |b| || (k < |a| && k < |b| && a[k] < b[k])
    ensures LexBelow(a[1..], b[1..])
  {
    assert a[1..][..k - 1] == a[..k][1..];
    assert b[1..][..k - 1] == b[..k][1..];
    assert k - 1 == |a[1..]| < |b[1..]| || (k - 1 < |a[1..]| && k - 1 < |b[1..]| && a[1..][k - 1] < b[1..][k - 1]);
  }

  lemma AddHead(a: seq<int>, b: seq<int>, k: nat)
    requires |a| > 0 && |b| > 0 && a[0] == b[0]
    requires k <= |a[1..]| && k <= |b[1..]| && a[1..][..k] == b[1..][..k]
    requires k == |a[1..]| < |b[1..]| || (k < |a[1..]| && k < |b[1..]| && a[1..][k] < b[1..][k])
    ensures LexBelow(a, b)
  {
    assert a[..k + 1] == [a[0]] + a[1..][..k];
    assert b[..k + 1] == [b[0]] + b[1..][..k];
    assert k + 1 == |a| < |b| || (k + 1 < |a| && k + 1 < |b| && a[k + 1] < b[k + 1]);
  }

  /** Exactly one of `a < b`, `a == b`, `b < a` holds. */
  lemma {:induction false} LexTrichotomy(a: seq<int>, b: seq<int>)
    ensures a == b ==> !LexLess(a, b) && !LexLess(b, a)
    ensures a != b ==> (LexLess(a, b) <==> !LexLess(b, a))
    decreases |a|
  {
    if |a| > 0 && |b| > 0 && a[0] == b[0] {
      LexTrichotomy(a[1..], b[1..]);
      if a != b {
        assert a == [a[0]] + a[1..] && b == [b[0]] + b[1..];
        assert a[1..] != b[1..];
      }
    } else if |a| == 0 && |b| > 0 {
    } else if |a| > 0 && |b| == 0 {
    } else if |a| > 0 && |b| > 0 {
    } else {
      assert a == b;
    }
  }

  /** The ordering is transitive. */
  lemma {:induction false} LexTransitive(a: seq<int>, b: seq<int>, c: seq<int>)
    requires LexLess(a, b) && LexLess(b, c)
    ensures LexLess(a, c)
    decreases |a|
  {
    if |a| > 0 && a[0] == b[0] && b[0] == c[0] {
      LexTransitive(a[1..], b[1..], c[1..]);
    }
  }

  /** A strict prefix is less than the longer sequence. */
  lemma {:induction false} PrefixIsLess(a: seq<int>, b: seq<int>)
    requires |a| < |b| && a == b[..|a|]
    ensures LexLess(a, b)
    decreases |a|
  {
    if |a| > 0 {
      assert a[1..] == b[1..][..|a| - 1];
      PrefixIsLess(a[1..], b[1..]);
    }
  }

  /** `operator<`: lexicographic comparison of the contents. */
  function Less(lhs: Vector<int>, rhs: Vector<int>): (r: bool)
    reads lhs, lhs.data, rhs, rhs.data
    requires lhs.Valid() && rhs.Valid()
    ensures r <==> LexBelow(lhs.Contents(), rhs.Contents())
  {
    LexLessIsLexBelow(lhs.Contents(), rhs.Contents());
    LexLess(lhs.Contents(), rhs.Contents())
  }

  /** `operator>`, defined as `rhs < lhs`: neither less nor equal. */
  function Greater(lhs: Vector<int>, rhs: Vector<int>): (r: bool)
    reads lhs, lhs.data, rhs, rhs.data
    requires lhs.Valid() && rhs.Valid()
    ensures r <==> !Less(lhs, rhs) && !Equal(lhs, rhs)
  {
    LexTrichotomy(lhs.Contents(), rhs.Contents());
    Less(rhs, lhs)
  }

  /** `operator<=`, defined as `!(rhs < lhs)`: less or equal. */
  function LessEq(lhs: Vector<int>, rhs: Vector<int>): (r: bool)
    reads lhs, lhs.data, rhs, rhs.data
    requires lhs.Valid() && rhs.Valid()
    ensures r <==> Less(lhs, rhs) || Equal(lhs, rhs)
  {
    LexTrichotomy(lhs.Contents(), rhs.Contents());
    !Less(rhs, lhs)
  }

  /** `operator>=`, defined as `!(lhs < rhs)`: greater or equal. */
  function GreaterEq(lhs: Vector<int>, rhs: Vector<int>): (r: bool)
    reads lhs, lhs.data, rhs, rhs.data
    requires lhs.Valid() && rhs.Valid()
    ensures r <==> Greater(lhs, rhs) || Equal(lhs, rhs)
  {
    LexTrichotomy(lhs.Contents(), rhs.Contents());
    !Less(lhs, rhs)
  }
}
