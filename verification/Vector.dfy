/**
 The growable vector's element access and its bubble sort (lib/vector/vector.c).

 Every comparison function the kernel passes to `vector_reorder` answers whether the
 key of its first argument exceeds that of its second, so the sort is given the key.
 */
module Vector {

  datatype Status = Ok | InvalidArgument

  // ------------------------------------------------------------ stable sorting

  ghost predicate SortedBy<T(!new)>(s: seq<T>, key: T -> int) {
    forall i, j :: 0 <= i < j < |s| ==> key(s[i]) <= key(s[j])
  }

  /** The elements with key `k`, in order. */
  ghost function WithKey<T(!new)>(s: seq<T>, key: T -> int, k: int): (r: seq<T>)
    ensures forall x :: x in r <==> x in s && key(x) == k
  {
    if s == [] then []
    else (if key(s[0]) == k then [s[0]] else []) + WithKey(s[1..], key, k)
  }

  /** `b` rearranges `a` without reordering elements of equal key. */
  ghost predicate StablePermutation<T(!new)>(a: seq<T>, b: seq<T>, key: T -> int) {
    forall k :: WithKey(a, key, k) == WithKey(b, key, k)
  }

  lemma {:induction false} WithKeyConcat<T(!new)>(a: seq<T>, b: seq<T>, key: T -> int, k: int)
    ensures WithKey(a + b, key, k) == WithKey(a, key, k) + WithKey(b, key, k)
  {
    if a == [] {
      assert a + b == b;
    } else {
      assert (a + b)[1..] == a[1..] + b;
      WithKeyConcat(a[1..], b, key, k);
    }
  }

  lemma WithKeyHead<T(!new)>(s: seq<T>, key: T -> int, k: int)
    requires s != []
    ensures WithKey(s, key, k) == (if key(s[0]) == k then [s[0]] else []) + WithKey(s[1..], key, k)
  {
  }

  lemma StableChains<T(!new)>(a: seq<T>, b: seq<T>, c: seq<T>, key: T -> int)
    requires StablePermutation(a, b, key) && StablePermutation(b, c, key)
    ensures StablePermutation(a, c, key)
  {
    forall k ensures WithKey(a, key, k) == WithKey(c, key, k) {
      assert WithKey(a, key, k) == WithKey(b, key, k);
    }
  }

  /** Exchanging neighbours of different keys is a stable permutation. */
  lemma SwapIsStable<T(!new)>(s: seq<T>, i: nat, key: T -> int)
    requires i + 1 < |s| && key(s[i]) != key(s[i + 1])
    ensures StablePermutation(s, s[i := s[i + 1]][i + 1 := s[i]], key)
  {
    var s' := s[i := s[i + 1]][i + 1 := s[i]];
    assert s == s[..i] + ([s[i]] + ([s[i + 1]] + s[i + 2..]));
    assert s' == s[..i] + ([s[i + 1]] + ([s[i]] + s[i + 2..]));
    forall k ensures WithKey(s, key, k) == WithKey(s', key, k) {
      SwapWithKey(s[..i], s[i], s[i + 1], s[i + 2..], key, k);
    }
  }

  lemma SwapWithKey<T(!new)>(a: seq<T>, x: T, y: T, d: seq<T>, key: T -> int, k: int)
    requires key(x) != key(y)
    ensures WithKey(a + ([x] + ([y] + d)), key, k) == WithKey(a + ([y] + ([x] + d)), key, k)
  {
    hide WithKey;
    WithKeyConcat(a, [x] + ([y] + d), key, k);
    WithKeyConcat(a, [y] + ([x] + d), key, k);
    FrontsWithKey(x, y, d, key, k);
  }

  lemma FrontsWithKey<T(!new)>(x: T, y: T, d: seq<T>, key: T -> int, k: int)
    requires key(x) != key(y)
    ensures WithKey([x] + ([y] + d), key, k) == WithKey([y] + ([x] + d), key, k)
  {
    hide WithKey;
    WithKeyFront(x, [y] + d, key, k);
    WithKeyFront(y, d, key, k);
    WithKeyFront(y, [x] + d, key, k);
    WithKeyFront(x, d, key, k);
  }

  lemma WithKeyFront<T(!new)>(x: T, s: seq<T>, key: T -> int, k: int)
    ensures WithKey([x] + s, key, k) == if key(x) == k then [x] + WithKey(s, key, k) else WithKey(s, key, k)
  {
    WithKeyHead([x] + s, key, k);
    assert ([x] + s)[1..] == s;
  }

  /** A sequence has only one stable sorted permutation. */
  lemma {:induction false} StableSortIsUnique<T(!new)>(a: seq<T>, b: seq<T>, key: T -> int)
    requires SortedBy(a, key) && SortedBy(b, key) && StablePermutation(a, b, key)
    ensures a == b
    decreases |a|
  {
    hide WithKey;
    if a == [] {
      NoKeyNoElement(b, key);
    } else {
      SameHead(a, b, key);
      forall k ensures WithKey(a[1..], key, k) == WithKey(b[1..], key, k) {
        assert WithKey(a, key, k) == WithKey(b, key, k);
        WithKeyHead(a, key, k);
        WithKeyHead(b, key, k);
        if key(a[0]) == k {
          assert WithKey(a[1..], key, k) == WithKey(a, key, k)[1..];
          assert WithKey(b[1..], key, k) == WithKey(b, key, k)[1..];
        } else {
          assert WithKey(a[1..], key, k) == WithKey(a, key, k);
          assert WithKey(b[1..], key, k) == WithKey(b, key, k);
        }
      }
      StableSortIsUnique(a[1..], b[1..], key);
    }
  }

  lemma NoKeyNoElement<T(!new)>(b: seq<T>, key: T -> int)
    requires StablePermutation([], b, key)
    ensures b == []
  {
    if b != [] {
      WithKeyHead(b, key, key(b[0]));
    }
  }

  lemma SameHead<T(!new)>(a: seq<T>, b: seq<T>, key: T -> int)
    requires SortedBy(a, key) && SortedBy(b, key) && StablePermutation(a, b, key) && a != []
    ensures b != [] && a[0] == b[0]
  {
    hide WithKey;
    var k := key(a[0]);
    assert WithKey(a, key, k) == WithKey(b, key, k);
    assert a[0] in WithKey(a, key, k);
    assert a[0] in b;
    assert WithKey(b, key, key(b[0])) == WithKey(a, key, key(b[0]));
    assert b[0] in WithKey(b, key, key(b[0]));
    assert key(b[0]) == k;
    WithKeyHead(a, key, k);
    WithKeyHead(b, key, k);
    assert WithKey(a, key, k)[0] == WithKey(b, key, k)[0];
  }

  /**
   Giving one element a key above all others moves it to the end and moves nothing else:
   what raising a window does to the children of the screen.
   */
  lemma RaisedGoesLast<T(!new)>(before: seq<T>, i: nat, x: T, after: seq<T>, key: T -> int)
    requires i < |before| && SortedBy(before[..i] + before[i + 1..], key)
    requires forall y :: y in before[..i] + before[i + 1..] ==> key(y) < key(x)
    requires SortedBy(after, key) && StablePermutation(before[i := x], after, key)
    ensures after == before[..i] + before[i + 1..] + [x]
  {
    var a, b := before[..i], before[i + 1..];
    assert before[i := x] == a + ([x] + b);
    assert (a + b) + [x] == a + (b + [x]);
    assert StablePermutation(a + b + [x], before[i := x], key) by {
      forall k ensures WithKey(a + b + [x], key, k) == WithKey(before[i := x], key, k) {
        assert forall y :: y in b ==> y in a + b;
        RotateWithKey(a, x, b, key, k);
      }
    }
    StableChains(a + b + [x], before[i := x], after, key);
    StableSortIsUnique(a + b + [x], after, key);
  }

  lemma {:induction false} NoneWithKey<T(!new)>(s: seq<T>, key: T -> int, k: int)
    requires forall y :: y in s ==> key(y) != k
    ensures WithKey(s, key, k) == []
  {
    if s != [] { NoneWithKey(s[1..], key, k); }
  }

  lemma RotateWithKey<T(!new)>(a: seq<T>, x: T, b: seq<T>, key: T -> int, k: int)
    requires forall y :: y in b ==> key(y) < key(x)
    ensures WithKey(a + ([x] + b), key, k) == WithKey(a + (b + [x]), key, k)
  {
    hide WithKey;
    WithKeyConcat(a, [x] + b, key, k);
    WithKeyConcat(a, b + [x], key, k);
    BackWithKey(x, b, key, k);
  }

  lemma BackWithKey<T(!new)>(x: T, b: seq<T>, key: T -> int, k: int)
    requires forall y :: y in b ==> key(y) < key(x)
    ensures WithKey([x] + b, key, k) == WithKey(b + [x], key, k)
  {
    OneWithKey(x, key, k);
    hide WithKey;
    WithKeyFront(x, b, key, k);
    WithKeyConcat(b, [x], key, k);
    if k == key(x) {
      NoneWithKey(b, key, k);
    } else {
      assert WithKey(b, key, k) + [] == WithKey(b, key, k);
    }
  }

  lemma OneWithKey<T(!new)>(x: T, key: T -> int, k: int)
    ensures WithKey([x], key, k) == if key(x) == k then [x] else []
  {
  }

  // ------------------------------------------------------------------- vector

  class Vector<T(!new)> {
    const memory: array<T>
    var count: nat

    ghost predicate Valid()
      reads this
    {
      count <= memory.Length
    }

    function Elements(): seq<T>
      reads this, memory
      requires Valid()
    {
      memory[..count]
    }

    constructor (elements: seq<T>)
      ensures Valid() && fresh(memory) && Elements() == elements
    {
      memory := new T[|elements|](i requires 0 <= i < |elements| => elements[i]);
      count := |elements|;
    }

    /** `vector_at`; `value` is `otherwise` on an error, which stands for zeroed bytes. */
    method At(index: nat, otherwise: T) returns (status: Status, value: T)
      requires Valid()
      ensures status == Ok <==> index < count
      ensures value == if index < count then Elements()[index] else otherwise
    {
      if index >= count {
        return InvalidArgument, otherwise;
      }
      return Ok, memory[index];
    }

    /** `vector_overwrite`. */
    method Overwrite(index: nat, value: T) returns (status: Status)
      requires Valid()
      modifies memory
      ensures Valid() && (status == Ok <==> index < count)
      ensures Elements() == if index < count then old(Elements())[index := value] else old(Elements())
    {
      if index >= count {
        return InvalidArgument;
      }
      memory[index] := value;
      status := Ok;
    }

    /** The body of the inner loop of `vector_reorder`. */
    method Exchange(j: nat, key: T -> int) returns (swapped: bool)
      requires Valid() && j + 1 < count
      modifies memory
      ensures Valid()
      ensures var s := old(Elements());
              && swapped == (key(s[j]) > key(s[j + 1]))
              && Elements() == if swapped then s[j := s[j + 1]][j + 1 := s[j]] else s
    {
      var s1, a := At(j, memory[0]);
      var s2, b := At(j + 1, memory[0]);
      swapped := key(a) > key(b);
      if swapped {
        var o1 := Overwrite(j, b);
        var o2 := Overwrite(j + 1, a);
      }
    }

    /** `vector_reorder`. */
    method Reorder(key: T -> int)
      requires Valid()
      modifies memory
      ensures Valid() && count == old(count)
      ensures SortedBy(Elements(), key) && StablePermutation(old(Elements()), Elements(), key)
    {
      if count < 2 {
        return;
      }
      hide StablePermutation, SettledFrom;
      NoneSettled(Elements(), key);
      StableItself(Elements(), key);
      for i := 0 to count - 1
        invariant Valid() && StablePermutation(old(Elements()), Elements(), key)
        invariant SettledFrom(Elements(), count - i, key) && (i == count - 1 ==> SortedBy(Elements(), key))
      {
        for j := 0 to count - i - 1
          invariant Valid() && StablePermutation(old(Elements()), Elements(), key)
          invariant SettledFrom(Elements(), count - i, key)
          invariant forall p :: 0 <= p < j ==> key(Elements()[p]) <= key(Elements()[j])
        {
          ghost var before := Elements();
          var swapped := Exchange(j, key);
          if swapped {
            SwapIsStable(before, j, key);
            StableChains(old(Elements()), before, Elements(), key);
            SwapKeepsSettled(before, j, count - i, key);
          }
        }
        PassSettles(Elements(), count - i, key);
      }
    }
  }

  /** The elements from `lo` on are sorted and none before them is larger. */
  ghost predicate SettledFrom<T>(s: seq<T>, lo: int, key: T -> int) {
    forall p, q :: 0 <= p < q < |s| && lo <= q ==> key(s[p]) <= key(s[q])
  }

  lemma NoneSettled<T>(s: seq<T>, key: T -> int)
    ensures SettledFrom(s, |s|, key)
  {
  }

  /** A pass that has carried the largest element up to `lo - 1` has settled it. */
  lemma PassSettles<T(!new)>(s: seq<T>, lo: int, key: T -> int)
    requires 0 < lo <= |s| && SettledFrom(s, lo, key) && forall p :: 0 <= p < lo - 1 ==> key(s[p]) <= key(s[lo - 1])
    ensures SettledFrom(s, lo - 1, key)
    ensures lo == 2 ==> SortedBy(s, key)
  {
  }

  lemma SwapKeepsSettled<T>(s: seq<T>, j: nat, lo: int, key: T -> int)
    requires j + 1 < |s| && SettledFrom(s, lo, key) && j + 1 < lo
    ensures SettledFrom(s[j := s[j + 1]][j + 1 := s[j]], lo, key)
  {
  }

  lemma StableItself<T(!new)>(s: seq<T>, key: T -> int)
    ensures StablePermutation(s, s, key)
  {
  }
}
