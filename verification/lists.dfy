/**
 * The two `java.util.List` operations the line's sections rely on, stated over
 * sequences: `remove(Object)` drops the first equal element, and `removeAll`
 * drops every element that the other collection contains.
 */
module Lists {

  /** The position of the first element equal to `x`. */
  function IndexOf<T(==)>(s: seq<T>, x: T): (i: nat)
    requires x in s
    ensures i < |s| && s[i] == x && x !in s[..i]
  {
    if s[0] == x then 0
    else
      assert s == [s[0]] + s[1..];
      var j := IndexOf(s[1..], x);
      assert s[..j + 1] == [s[0]] + s[1..][..j];
      j + 1
  }

  /** `list.remove(x)`: the first element equal to `x` is dropped; nothing changes if there is none. */
  function RemoveFirst<T(==)>(s: seq<T>, x: T): (r: seq<T>)
    ensures x in s ==> |r| == |s| - 1 && multiset(r) + multiset{x} == multiset(s)
    ensures x !in s ==> r == s
    ensures forall y :: y in r ==> y in s
  {
    if |s| == 0 then s
    else
      assert s == [s[0]] + s[1..];
      if s[0] == x then s[1..]
      else [s[0]] + RemoveFirst(s[1..], x)
  }

  /** Which copy `remove` drops: the first one, the elements before and after it keeping their order. */
  lemma {:induction false} RemoveFirstAt<T>(s: seq<T>, x: T)
    requires x in s
    ensures RemoveFirst(s, x) == s[..IndexOf(s, x)] + s[IndexOf(s, x) + 1..]
  {
    if s[0] == x {
      assert s[..0] + s[1..] == s[1..];
    } else {
      var t := s[1..];
      assert x in t by {
        var k :| 0 <= k < |s| && s[k] == x;
        assert t[k - 1] == x;
      }
      RemoveFirstAt(t, x);
      var j := IndexOf(t, x);
      assert IndexOf(s, x) == j + 1;
      ConsSlices(s, j);
    }
  }

  /** Slicing behind the head of a sequence. */
  lemma ConsSlices<T>(s: seq<T>, j: nat)
    requires j + 1 < |s|
    ensures [s[0]] + (s[1..][..j] + s[1..][j + 1..]) == s[..j + 1] + s[j + 2..]
  {
    assert s[..j + 1] == [s[0]] + s[1..][..j];
    assert s[j + 2..] == s[1..][j + 1..];
  }

  /** `copy.removeAll(t)`: the elements of `s` that `t` does not contain, in their order in `s`. */
  function Without<T(==,!new)>(s: seq<T>, t: seq<T>): (r: seq<T>)
    ensures forall x :: x in r <==> x in s && x !in t
    ensures forall x :: multiset(r)[x] == if x in t then 0 else multiset(s)[x]
  {
    if |s| == 0 then []
    else
      assert s == [s[0]] + s[1..];
      if s[0] in t then Without(s[1..], t)
      else [s[0]] + Without(s[1..], t)
  }

  /** Dropping elements commutes with concatenation, so `Without` keeps the original relative order. */
  lemma {:induction false} WithoutConcat<T(!new)>(a: seq<T>, b: seq<T>, t: seq<T>)
    ensures Without(a + b, t) == Without(a, t) + Without(b, t)
  {
    if |a| > 0 {
      var ab := a + b;
      assert ab[0] == a[0] && ab[1..] == a[1..] + b;
      WithoutConcat(a[1..], b, t);
      if a[0] !in t {
        assert [a[0]] + (Without(a[1..], t) + Without(b, t)) == ([a[0]] + Without(a[1..], t)) + Without(b, t);
      }
    } else {
      assert a + b == b;
    }
  }

  /** No element occurs twice. */
  predicate Distinct<T(==)>(s: seq<T>)
  {
    forall i, j :: 0 <= i < j < |s| ==> s[i] != s[j]
  }

  /** In a sequence without repetitions every element is counted once. */
  lemma {:induction false} DistinctCountsOnce<T>(s: seq<T>)
    requires Distinct(s)
    ensures forall x :: x in s ==> multiset(s)[x] == 1
  {
    if |s| > 0 {
      assert s == [s[0]] + s[1..];
      assert Distinct(s[1..]) by {
        forall i, j | 0 <= i < j < |s[1..]| ensures s[1..][i] != s[1..][j] {
          assert s[1..][i] == s[i + 1] && s[1..][j] == s[j + 1];
        }
      }
      DistinctCountsOnce(s[1..]);
      assert s[0] !in s[1..] by {
        forall k | 0 <= k < |s[1..]| ensures s[1..][k] != s[0] {
          assert s[1..][k] == s[k + 1];
        }
      }
    }
  }

  /** In a sequence without repetitions an element sits at one position only. */
  lemma DistinctIndex<T>(s: seq<T>, i: nat, j: nat)
    requires Distinct(s) && i < |s| && j < |s| && s[i] == s[j]
    ensures i == j
  {
  }

  /** Inserting a fresh element anywhere into a sequence without repetitions keeps it so. */
  lemma DistinctInsert<T>(s: seq<T>, j: nat, w: T)
    requires Distinct(s) && w !in s && j <= |s|
    ensures Distinct(s[..j] + [w] + s[j..])
  {
    var t := s[..j] + [w] + s[j..];
    forall a, b | 0 <= a < b < |t| ensures t[a] != t[b] {
      if a < j && b < j {
        assert t[a] == s[a] && t[b] == s[b];
      } else if a < j && b == j {
        assert t[a] == s[a];
      } else if a < j {
        assert t[a] == s[a] && t[b] == s[b - 1];
      } else if a == j {
        assert t[b] == s[b - 1];
      } else {
        assert t[a] == s[a - 1] && t[b] == s[b - 1];
      }
    }
  }

  /** Dropping one position keeps a sequence without repetitions so. */
  lemma DistinctDrop<T>(s: seq<T>, k: nat)
    requires Distinct(s) && k < |s|
    ensures Distinct(s[..k] + s[k + 1..])
  {
    var t := s[..k] + s[k + 1..];
    forall a, b | 0 <= a < b < |t| ensures t[a] != t[b] {
      if b < k {
        assert t[a] == s[a] && t[b] == s[b];
      } else if a < k {
        assert t[a] == s[a] && t[b] == s[b + 1];
      } else {
        assert t[a] == s[a + 1] && t[b] == s[b + 1];
      }
    }
  }

  /** A sequence holding exactly one element is that element alone. */
  lemma SingletonOf<T>(s: seq<T>, x: T)
    requires multiset(s) == multiset{x}
    ensures s == [x]
  {
    assert |s| == |multiset(s)| == 1;
    assert s[0] in multiset(s);
  }

  /** A sequence holding exactly two elements is those two, in one order or the other. */
  lemma PairOf<T>(s: seq<T>, x: T, y: T)
    requires multiset(s) == multiset{x, y}
    ensures |s| == 2 && ((s[0] == x && s[1] == y) || (s[0] == y && s[1] == x))
  {
    assert |s| == |multiset(s)| == 2;
    assert s == [s[0]] + [s[1]];
    assert multiset(s) == multiset{s[0]} + multiset{s[1]};
    assert s[0] in multiset{x, y};
  }

  /**
   * Removing the element at position `i` of `t` from a sequence `s` with the
   * same elements leaves the elements of `t` without that position.
   */
  lemma RemoveFirstSplice<T>(s: seq<T>, t: seq<T>, i: nat)
    requires multiset(s) == multiset(t) && i < |t|
    ensures t[i] in s
    ensures multiset(RemoveFirst(s, t[i])) == multiset(t[..i]) + multiset(t[i + 1..])
    ensures i == 0 ==> multiset(RemoveFirst(s, t[i])) == multiset(t[1..])
    ensures i == |t| - 1 ==> multiset(RemoveFirst(s, t[i])) == multiset(t[..i])
  {
    assert t == t[..i] + [t[i]] + t[i + 1..];
    assert t[i] in multiset(s);
    var rest := multiset(t[..i]) + multiset(t[i + 1..]);
    MultisetCancel(multiset(RemoveFirst(s, t[i])), rest, multiset{t[i]});
    if i == 0 {
      assert t[..i] == [];
    }
    if i == |t| - 1 {
      assert t[i + 1..] == [];
    }
  }

  /** Cutting out the first or last position, written as a cut at that position. */
  lemma CutAtEnds<T>(s: seq<T>)
    requires |s| > 0
    ensures s[..0] + s[1..] == s[1..]
    ensures s[..|s| - 1] + s[|s|..] == s[..|s| - 1]
  {
  }

  /** Adding an element at the back or the front, written as an insertion at that position. */
  lemma InsertAtEnds<T>(s: seq<T>, x: T)
    ensures s + [x] == s[..|s|] + [x] + s[|s|..]
    ensures [x] + s == s[..0] + [x] + s[0..]
  {
  }

  /** Replacing, in a sequence with the elements of `t`, the element at position `j` of `t` by `mid`. */
  lemma ReplaceMultiset<T>(s: seq<T>, t: seq<T>, j: nat, mid: seq<T>)
    requires multiset(s) == multiset(t) && j < |t|
    ensures multiset(RemoveFirst(s, t[j]) + mid) == multiset(t[..j] + mid + t[j + 1..])
  {
    RemoveFirstSplice(s, t, j);
  }

  /** Replacing the two neighbours `t[k - 1]` and `t[k]`, given in either order, by `m`, as a multiset equation. */
  lemma MergeMultiset<T>(t: seq<T>, k: nat, a: T, b: T, m: T, r: seq<T>)
    requires 0 < k < |t|
    requires (a == t[k - 1] && b == t[k]) || (a == t[k] && b == t[k - 1])
    requires multiset(r) + multiset{a, b} == multiset(t) + multiset{m}
    ensures multiset(r) == multiset(t[..k - 1] + [m] + t[k + 1..])
  {
    assert t == t[..k - 1] + [t[k - 1], t[k]] + t[k + 1..];
    assert multiset{a, b} == multiset{t[k - 1], t[k]};
    assert multiset(t) == multiset(t[..k - 1]) + multiset{a, b} + multiset(t[k + 1..]);
    MultisetCancel(multiset(r), multiset(t[..k - 1] + [m] + t[k + 1..]), multiset{a, b});
  }

  /** The last two elements may be swapped without changing the elements held. */
  lemma SwapLastTwo<T>(s: seq<T>, a: T, b: T)
    ensures multiset(s + [a, b]) == multiset(s + [b, a])
  {
    assert multiset([a, b]) == multiset([b, a]);
  }

  /** Multiset sums cancel. */
  lemma MultisetCancel<T>(x: multiset<T>, y: multiset<T>, z: multiset<T>)
    requires x + z == y + z
    ensures x == y
  {
    forall e ensures x[e] == y[e] {
      assert (x + z)[e] == (y + z)[e];
    }
  }
}
