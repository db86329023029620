/** The fixed-capacity vector (include/stl/bits/static_vector.hh) that child lists are kept in. */
module StaticVectors {

  /** push_back drops the value when the vector is full. */
  function Pushed<T>(s: seq<T>, x: T, capacity: nat): seq<T> {
    if |s| + 1 <= capacity then s + [x] else s
  }

  /** erase of one position; an iterator outside the vector erases nothing. */
  function Erased<T>(s: seq<T>, i: int): seq<T> {
    if 0 <= i < |s| then s[..i] + s[i + 1..] else s
  }

  /** erase of a range steps on after each removal, over the element that moved up. */
  function RangeErased<T>(s: seq<T>, first: nat, last: nat): seq<T>
    requires first <= last
    decreases last - first
  {
    if first == last then s else RangeErased(Erased(s, first), first + 1, last)
  }

  /** The position of x, the length of the vector when it is not there (aos::find). */
  function Position<T(==)>(s: seq<T>, x: T): (i: nat)
    ensures i <= |s| && (i < |s| ==> s[i] == x)
    ensures forall k :: 0 <= k < i ==> s[k] != x
  {
    if s == [] || s[0] == x then 0 else 1 + Position(s[1..], x)
  }

  ghost predicate Distinct<T(!new)>(s: seq<T>) {
    forall i, j :: 0 <= i < j < |s| ==> s[i] != s[j]
  }

  /** What stands before the range stays where it is. */
  lemma {:induction false} RangeErasedKeepsFront<T(!new)>(s: seq<T>, first: nat, last: nat, k: nat)
    requires first <= last && k < first && k < |s|
    ensures k < |RangeErased(s, first, last)| && RangeErased(s, first, last)[k] == s[k]
    decreases last - first
  {
    if first < last {
      assert Erased(s, first)[k] == s[k];
      RangeErasedKeepsFront(Erased(s, first), first + 1, last, k);
    }
  }

  /** So the range form does what its name says exactly for ranges of at most one element. */
  lemma RangeErasedIsExact<T(!new)>(s: seq<T>, first: nat, last: nat)
    requires first <= last <= |s| && Distinct(s)
    ensures RangeErased(s, first, last) == s[..first] + s[last..] <==> last <= first + 1
  {
    var exact := s[..first] + s[last..];
    if last <= first + 1 {
      assert first < last ==> RangeErased(Erased(s, first), first + 1, last) == Erased(s, first);
      assert first == last ==> s[..first] + s[first..] == s;
    } else {
      var t := Erased(s, first);
      assert t[first] == s[first + 1];
      RangeErasedKeepsFront(t, first + 1, last, first);
      assert RangeErased(s, first, last)[first] == s[first + 1];
      assert first < |exact| ==> exact[first] == s[last];
    }
  }

  class StaticVector<T(0,==,!new)> {
    const m_array: array<T>
    var m_size: nat

    ghost predicate Valid()
      reads this
    {
      m_size <= m_array.Length
    }

    function Contents(): (s: seq<T>)
      requires Valid()
      reads this, m_array
      ensures |s| == m_size
    {
      m_array[..m_size]
    }

    constructor (capacity: nat)
      ensures Valid() && fresh(m_array) && m_array.Length == capacity && Contents() == []
    {
      m_array := new T[capacity];
      m_size := 0;
    }

    method PushBack(v: T)
      requires Valid()
      modifies this, m_array
      ensures Valid() && Contents() == Pushed(old(Contents()), v, m_array.Length)
    {
      if m_array.Length < m_size + 1 {
        return;
      }
      m_array[m_size] := v;
      m_size := m_size + 1;
    }

    /** Moves the elements behind the position one place down. */
    method Erase(it: int)
      requires Valid()
      modifies this, m_array
      ensures Valid() && Contents() == Erased(old(Contents()), it)
    {
      if it < 0 || it >= m_size {
        return;
      }
      ghost var was := Contents();
      var p := it;
      while p + 1 < m_size
        invariant it <= p < m_size == old(m_size) <= m_array.Length
        invariant forall k :: 0 <= k < it || p < k < m_size ==> m_array[k] == was[k]
        invariant forall k :: it <= k < p ==> m_array[k] == was[k + 1]
      {
        m_array[p] := m_array[p + 1];
        p := p + 1;
      }
      m_size := m_size - 1;
      assert m_array[..m_size] == was[..it] + was[it + 1..];
    }

    method EraseRange(first: nat, last: nat)
      requires Valid() && first <= last <= m_size
      modifies this, m_array
      ensures Valid() && Contents() == RangeErased(old(Contents()), first, last)
    {
      var it := first;
      while it != last
        invariant first <= it <= last && Valid()
        invariant RangeErased(Contents(), it, last) == RangeErased(old(Contents()), first, last)
        decreases last - it
      {
        Erase(it);
        it := it + 1;
      }
    }

    /** aos::find over the vector. */
    method Find(x: T) returns (it: nat)
      requires Valid()
      ensures it == Position(Contents(), x)
    {
      it := 0;
      ghost var s := Contents();
      while it < m_size
        invariant it <= m_size
        invariant Position(s, x) == it + Position(s[it..], x)
      {
        if m_array[it] == x {
          return;
        }
        assert s[it..][1..] == s[it + 1..];
        it := it + 1;
      }
    }
  }
}
