/**
 * The ordering that LINQ's `OrderByDescending` (and `OrderBy` on a negated
 * key) produces: a stable sort, so that positions with equal keys keep
 * their original relative order. It is given as the sequence of original
 * positions in sorted order, built by insertion.
 */
module StableOrder {

  /** Position `i` goes before position `j`: larger key first, equal keys in original order. */
  predicate Precedes(keys: seq<real>, i: int, j: int)
    requires 0 <= i < |keys| && 0 <= j < |keys|
  {
    keys[i] > keys[j] || (keys[i] == keys[j] && i < j)
  }

  /** `order` lists every position of `keys` exactly once, in stable descending order of key. */
  ghost predicate IsStableDescending(keys: seq<real>, order: seq<int>)
  {
    && |order| == |keys|
    && Positions(order, |keys|)
    && (forall p :: 0 <= p < |keys| ==> p in order)
    && Descending(keys, order)
  }

  /** Every entry of `order` is a position below `n`. */
  predicate Positions(order: seq<int>, n: int)
  {
    forall i :: 0 <= i < |order| ==> 0 <= order[i] < n
  }

  /** Each listed position goes before every later one. */
  ghost predicate Descending(keys: seq<real>, order: seq<int>)
    requires Positions(order, |keys|)
  {
    forall i, j :: 0 <= i < j < |order| ==> Precedes(keys, order[i], order[j])
  }

  /** Where the later position `p` goes among the sorted earlier ones: after every key at least as large. */
  function InsertionPoint(keys: seq<real>, order: seq<int>, p: int): (k: nat)
    requires 0 <= p < |keys|
    requires Positions(order, |keys|)
    ensures k <= |order|
    ensures forall i :: k <= i < |order| ==> keys[order[i]] < keys[p]
    ensures 0 < k ==> keys[order[k - 1]] >= keys[p]
    decreases |order|
  {
    if |order| == 0 || keys[order[|order| - 1]] >= keys[p] then |order|
    else InsertionPoint(keys, order[..|order| - 1], p)
  }

  /** `prev` with position `p` inserted at its insertion point. */
  function Insert(keys: seq<real>, prev: seq<int>, p: int): (r: seq<int>)
    requires 0 <= p < |keys|
    requires Positions(prev, |keys|)
    ensures |r| == |prev| + 1
  {
    var k := InsertionPoint(keys, prev, p);
    prev[..k] + [p] + prev[k..]
  }

  /** Inserting a later position at its insertion point keeps the order stable and descending. */
  lemma InsertKeepsOrder(keys: seq<real>, prev: seq<int>, p: int)
    requires 0 <= p < |keys|
    requires Positions(prev, p)
    requires Descending(keys, prev)
    ensures Descending(keys, Insert(keys, prev, p))
  {
    var k := InsertionPoint(keys, prev, p);
    var r := Insert(keys, prev, p);
    assert r == prev[..k] + [p] + prev[k..];
    forall i, j | 0 <= i < j < |r|
      ensures Precedes(keys, r[i], r[j])
    {
      if j < k {
        assert r[i] == prev[i] && r[j] == prev[j];
      } else if j == k {
        assert r[i] == prev[i] && r[j] == p;
        if i < k - 1 {
          assert Precedes(keys, prev[i], prev[k - 1]);
        }
      } else if i < k {
        assert r[i] == prev[i] && r[j] == prev[j - 1];
      } else if i == k {
        assert r[i] == p && r[j] == prev[j - 1];
      } else {
        assert r[i] == prev[i - 1] && r[j] == prev[j - 1];
      }
    }
  }

  /** Inserting position `p` into a listing of the positions below it lists the positions up to `p`. */
  lemma InsertKeepsElements(keys: seq<real>, prev: seq<int>, p: int)
    requires 0 <= |prev| == p < |keys|
    requires Positions(prev, p)
    requires forall x :: 0 <= x < p ==> x in prev
    ensures var r := Insert(keys, prev, p);
            && Positions(r, p + 1)
            && (forall x :: 0 <= x < p + 1 ==> x in r)
  {
    var k := InsertionPoint(keys, prev, p);
    var r := Insert(keys, prev, p);
    assert r == prev[..k] + [p] + prev[k..];
    forall i | 0 <= i < |r|
      ensures 0 <= r[i] < p + 1
    {
      if i < k {
        assert r[i] == prev[i];
      } else if i > k {
        assert r[i] == prev[i - 1];
      }
    }
    forall x | 0 <= x < p + 1
      ensures x in r
    {
      if x < p {
        assert x in prev;
        var i :| 0 <= i < |prev| && prev[i] == x;
        if i < k {
          assert r[i] == x;
        } else {
          assert r[i + 1] == x;
        }
      } else {
        assert r[k] == x;
      }
    }
  }

  /** `order` lists each of the first `n` positions of `keys` once, in stable descending order of key. */
  ghost predicate SortedPrefix(keys: seq<real>, order: seq<int>, n: int)
  {
    && n <= |keys|
    && |order| == n
    && Positions(order, n)
    && Positions(order, |keys|)
    && (forall p :: 0 <= p < n ==> p in order)
    && Descending(keys, order)
  }

  /** Inserting the next position extends a sorted prefix by one. */
  lemma InsertExtendsPrefix(keys: seq<real>, prev: seq<int>, p: int)
    requires 0 <= p < |keys|
    requires SortedPrefix(keys, prev, p)
    ensures SortedPrefix(keys, Insert(keys, prev, p), p + 1)
  {
    InsertKeepsOrder(keys, prev, p);
    InsertKeepsElements(keys, prev, p);
  }

  /** The first `n` positions of `keys`, stably sorted by descending key. */
  function SortPrefix(keys: seq<real>, n: nat): (order: seq<int>)
    requires n <= |keys|
    ensures SortedPrefix(keys, order, n)
    decreases n
  {
    if n == 0 then []
    else
      var prev := SortPrefix(keys, n - 1);
      InsertExtendsPrefix(keys, prev, n - 1);
      Insert(keys, prev, n - 1)
  }

  /** All positions of `keys`, stably sorted by descending key. */
  function SortOrder(keys: seq<real>): (order: seq<int>)
    ensures IsStableDescending(keys, order)
  {
    SortPrefix(keys, |keys|)
  }

  /** The elements of `s` taken at the positions `order`. */
  function Permute<T>(s: seq<T>, order: seq<int>): (r: seq<T>)
    requires Positions(order, |s|)
    ensures |r| == |order|
  {
    seq(|order|, i requires 0 <= i < |order| => s[order[i]])
  }

  /** Index of the first occurrence of `x` in `s`, as LINQ's `First` finds it. */
  function IndexOf<T(==)>(s: seq<T>, x: T): (i: nat)
    requires x in s
    ensures i < |s| && s[i] == x
    ensures forall j :: 0 <= j < i ==> s[j] != x
  {
    if s[0] == x then 0 else 1 + IndexOf(s[1..], x)
  }

  /** Taking elements at two runs of positions, one after the other. */
  lemma PermuteAppend<T>(s: seq<T>, a: seq<int>, b: seq<int>)
    requires Positions(a, |s|)
    requires Positions(b, |s|)
    ensures Permute(s, a + b) == Permute(s, a) + Permute(s, b)
  {
  }

  /** Cutting the positions in two cuts the elements taken at them in two. */
  lemma PermuteSplit<T>(s: seq<T>, prev: seq<int>, k: int)
    requires Positions(prev, |s|)
    requires 0 <= k <= |prev|
    ensures Permute(s, prev) == Permute(s, prev[..k]) + Permute(s, prev[k..])
  {
    assert prev == prev[..k] + prev[k..];
    PermuteAppend(s, prev[..k], prev[k..]);
  }

  /** A position inserted at place `k` puts its element at place `k`. */
  lemma PermuteInsertAt<T>(s: seq<T>, prev: seq<int>, k: int, p: int)
    requires Positions(prev, |s|)
    requires 0 <= k <= |prev| && 0 <= p < |s|
    ensures Permute(s, prev[..k] + [p] + prev[k..]) == Permute(s, prev[..k]) + [s[p]] + Permute(s, prev[k..])
  {
    var a, b := prev[..k], prev[k..];
    assert Positions(a + [p], |s|);
    PermuteAppend(s, a + [p], b);
    PermuteAppend(s, a, [p]);
  }

  /** The elements at the inserted positions: the new element sits at the insertion point. */
  lemma PermuteInsert<T>(s: seq<T>, keys: seq<real>, prev: seq<int>, p: int)
    requires |keys| == |s| && 0 <= p < |s|
    requires Positions(prev, |s|)
    ensures var k := InsertionPoint(keys, prev, p);
            && Permute(s, prev) == Permute(s, prev[..k]) + Permute(s, prev[k..])
            && Permute(s, Insert(keys, prev, p)) == Permute(s, prev[..k]) + [s[p]] + Permute(s, prev[k..])
  {
    var k := InsertionPoint(keys, prev, p);
    PermuteSplit(s, prev, k);
    PermuteInsertAt(s, prev, k, p);
  }

  /** Inserting a position adds exactly that position's element. */
  lemma InsertMultiset<T>(s: seq<T>, keys: seq<real>, prev: seq<int>, p: int)
    requires |keys| == |s| && 0 <= p < |s|
    requires Positions(prev, |s|)
    ensures multiset(Permute(s, Insert(keys, prev, p))) == multiset(Permute(s, prev)) + multiset{s[p]}
  {
    PermuteInsert(s, keys, prev, p);
  }

  /** Taking the elements in a stable sorted order only rearranges them. */
  lemma {:induction false} PermutePrefixMultiset<T>(s: seq<T>, keys: seq<real>, n: nat)
    requires |keys| == |s| && n <= |s|
    ensures multiset(Permute(s, SortPrefix(keys, n))) == multiset(s[..n])
    decreases n
  {
    if n > 0 {
      assert s[..n] == s[..n - 1] + [s[n - 1]];
      PermutePrefixMultiset(s, keys, n - 1);
      InsertMultiset(s, keys, SortPrefix(keys, n - 1), n - 1);
    }
  }

  /** The position of an element in a stable descending order says which of two goes first. */
  lemma PositionFollowsPrecedence(keys: seq<real>, order: seq<int>, p: int, q: int)
    requires IsStableDescending(keys, order)
    requires 0 <= p < |keys| && 0 <= q < |keys|
    ensures IndexOf(order, p) < IndexOf(order, q) <==> Precedes(keys, p, q)
  {
    var a, b := IndexOf(order, p), IndexOf(order, q);
    if a < b {
      assert Precedes(keys, order[a], order[b]);
    } else if b < a {
      assert Precedes(keys, order[b], order[a]);
    }
  }
}
