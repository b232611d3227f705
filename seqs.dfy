/** Sequence helpers for the mesh containers: sorting a free list into a
    duplicate-free increasing list, the swap-with-last erase of an incidence list,
    and the renaming of the names a list holds. */
module SeqUtil {

  predicate StrictlySorted(s: seq<int>) {
    forall a, b | 0 <= a < b < |s| :: s[a] < s[b]
  }

  predicate NoDup(s: seq<int>) {
    forall a, b | 0 <= a < b < |s| :: s[a] != s[b]
  }

  /** x inserted into a strictly increasing list, unless already there. */
  function Insert(x: int, s: seq<int>): (r: seq<int>)
    requires StrictlySorted(s)
    ensures StrictlySorted(r)
    ensures forall y :: y in r <==> y == x || y in s
  {
    if |s| == 0 then [x]
    else if x < s[0] then [x] + s
    else if x == s[0] then s
    else
      var tail := Insert(x, s[1..]);
      PrependSmallest(s, x, tail);
      [s[0]] + tail
  }

  /** The first entry of a strictly increasing list, put back in front of the
      rest with x inserted, keeps the list increasing. */
  lemma PrependSmallest(s: seq<int>, x: int, tail: seq<int>)
    requires |s| > 0 && StrictlySorted(s) && s[0] < x
    requires StrictlySorted(tail) && forall y :: y in tail <==> y == x || y in s[1..]
    ensures StrictlySorted([s[0]] + tail)
    ensures forall y :: y in [s[0]] + tail <==> y == x || y in s
  {
    var r := [s[0]] + tail;
    forall y | y in tail
      ensures s[0] < y
    {
      if y != x {
        var k :| 0 <= k < |s[1..]| && s[1..][k] == y;
        assert s[k + 1] == y;
      }
    }
    forall a, b | 0 <= a < b < |r|
      ensures r[a] < r[b]
    {
      assert r[b] == tail[b - 1];
      if a > 0 {
        assert r[a] == tail[a - 1];
      } else {
        assert tail[b - 1] in tail;
      }
    }
    assert s == [s[0]] + s[1..];
    forall y
      ensures y in r <==> y == x || y in s
    {
      assert y in r <==> y == s[0] || y in tail;
    }
  }

  /** The names of s in increasing order, each once: what std::sort followed by
      skipping repeated entries walks through. */
  function SortUnique(s: seq<int>): (r: seq<int>)
    ensures StrictlySorted(r)
    ensures forall y :: y in r <==> y in s
    ensures |r| <= |s|
  {
    if |s| == 0 then []
    else
      var r := Insert(s[|s| - 1], SortUnique(s[..|s| - 1]));
      assert forall y :: y in s <==> y in s[..|s| - 1] || y == s[|s| - 1];
      InsertLength(s[|s| - 1], SortUnique(s[..|s| - 1]));
      r
  }

  lemma {:induction false} InsertLength(x: int, s: seq<int>)
    requires StrictlySorted(s)
    ensures |Insert(x, s)| <= |s| + 1
  {
    if |s| > 0 && x > s[0] {
      InsertLength(x, s[1..]);
    }
  }

  /** A strictly increasing list with no duplicates and the same names as a
      duplicate-free list has its length. */
  lemma {:induction false} SameNamesSameLength(s: seq<int>, r: seq<int>)
    requires NoDup(s) && StrictlySorted(r)
    requires forall y :: y in r <==> y in s
    ensures |r| == |s|
  {
    if |r| > 0 {
      assert r[0] in r;
    }
    if |s| > 0 {
      var x := s[|s| - 1];
      var s' := s[..|s| - 1];
      assert x in r;
      var k :| 0 <= k < |r| && r[k] == x;
      var r' := r[..k] + r[k + 1..];
      forall y
        ensures y in r' <==> y in s'
      {
        if y in s' {
          assert y in s;
          var a :| 0 <= a < |s'| && s'[a] == y;
          assert y != x;
        }
        if y in r' {
          assert y in r && y != x;
          assert y in s;
          var a :| 0 <= a < |s| && s[a] == y;
          assert a < |s| - 1;
          assert y in s';
        }
      }
      assert NoDup(s');
      assert StrictlySorted(r') by {
        forall a, b | 0 <= a < b < |r'|
          ensures r'[a] < r'[b]
        {
          var a' := if a < k then a else a + 1;
          var b' := if b < k then b else b + 1;
          assert r'[a] == r[a'] && r'[b] == r[b'];
        }
      }
      SameNamesSameLength(s', r');
    }
  }

  /** Entries renamed through the map f. */
  function MapSeq(f: seq<int>, s: seq<int>): (r: seq<int>)
    requires forall k | 0 <= k < |s| :: 0 <= s[k] < |f|
    ensures |r| == |s|
    ensures forall k | 0 <= k < |s| :: r[k] == f[s[k]]
  {
    seq(|s|, k requires 0 <= k < |s| => f[s[k]])
  }

  /** Every entry equal to a replaced by b. */
  function ReplaceEvery(s: seq<int>, a: int, b: int): (r: seq<int>)
    ensures |r| == |s|
    ensures forall k | 0 <= k < |s| :: r[k] == if s[k] == a then b else s[k]
  {
    seq(|s|, k requires 0 <= k < |s| => if s[k] == a then b else s[k])
  }

  /** The position of the first x in s. */
  function FirstIndex(s: seq<int>, x: int): (j: nat)
    requires x in s
    ensures j < |s| && s[j] == x && x !in s[..j]
  {
    if s[0] == x then 0 else 1 + FirstIndex(s[1..], x)
  }

  /** The swap-with-last erase of the first x: the last entry takes its place and
      the list shrinks by one. Nothing changes when x is absent. */
  function RemoveFirst(s: seq<int>, x: int): (r: seq<int>)
  {
    if x in s then s[FirstIndex(s, x) := s[|s| - 1]][..|s| - 1] else s
  }

  /** RemoveFirst applied k times. */
  function RemoveFirstN(s: seq<int>, x: int, k: nat): seq<int>
  {
    if k == 0 then s else RemoveFirst(RemoveFirstN(s, x, k - 1), x)
  }

  /** The inner loop of remove_triangle: find the first x, overwrite it with the last
      entry and drop the last entry. */
  method SwapRemoveFirst(s: seq<int>, x: int) returns (r: seq<int>)
    ensures r == RemoveFirst(s, x)
    ensures x in s ==> |r| == |s| - 1 && multiset(r) == multiset(s) - multiset{x}
    ensures x !in s ==> r == s
  {
    r := s;
    var j := 0;
    while j < |r|
      invariant 0 <= j <= |r| && r == s
      invariant x !in s[..j]
    {
      if r[j] == x {
        assert FirstIndex(s, x) == j by { FirstIndexUnique(s, x, j); }
        r := r[j := r[|r| - 1]];
        r := r[..|r| - 1];
        RemoveFirstMultiset(s, x);
        return;
      }
      j := j + 1;
    }
    assert s[..j] == s;
  }

  // ---------------------------------------------------------------------------
  // Lemmas

  lemma FirstIndexUnique(s: seq<int>, x: int, j: nat)
    requires j < |s| && s[j] == x && x !in s[..j]
    ensures FirstIndex(s, x) == j
  {
  }

  /** The erase removes exactly one copy of x. */
  lemma RemoveFirstMultiset(s: seq<int>, x: int)
    requires x in s
    ensures multiset(RemoveFirst(s, x)) == multiset(s) - multiset{x}
    ensures |RemoveFirst(s, x)| == |s| - 1
  {
    var j := FirstIndex(s, x);
    var last := |s| - 1;
    assert RemoveFirst(s, x) == s[j := s[last]][..last];
    if j == last {
      assert s == s[..last] + [x];
      assert s[j := s[last]][..last] == s[..last];
    } else {
      SwapDropMultiset(s, j);
    }
  }

  lemma SwapDropMultiset(s: seq<int>, j: nat)
    requires j < |s| - 1
    ensures multiset(s[j := s[|s| - 1]][..|s| - 1]) == multiset(s) - multiset{s[j]}
  {
    var last := |s| - 1;
    var front, mid := s[..j], s[j + 1..last];
    var r := s[j := s[last]][..last];
    assert s == front + [s[j]] + mid + [s[last]];
    assert r == front + [s[last]] + mid;
    assert multiset(s) == multiset(front) + multiset{s[j]} + multiset(mid) + multiset{s[last]};
    assert multiset(r) == multiset(front) + multiset{s[last]} + multiset(mid);
  }

  /** Erasing x k times, with x present at least k times, takes k copies of x away
      and leaves every other count as it was. */
  lemma {:induction false} RemoveFirstNCount(s: seq<int>, x: int, k: nat, t: int)
    requires k <= multiset(s)[x]
    ensures multiset(RemoveFirstN(s, x, k))[t] == multiset(s)[t] - (if t == x then k else 0)
  {
    if k > 0 {
      RemoveFirstNCount(s, x, k - 1, t);
      RemoveFirstNCount(s, x, k - 1, x);
      var p := RemoveFirstN(s, x, k - 1);
      assert x in multiset(p);
      RemoveFirstMultiset(p, x);
    }
  }

  /** When the last entry is the only x, the erase just drops it. */
  lemma RemoveLast(s: seq<int>)
    requires |s| > 0 && s[|s| - 1] !in s[..|s| - 1]
    ensures RemoveFirst(s, s[|s| - 1]) == s[..|s| - 1]
  {
    FirstIndexUnique(s, s[|s| - 1], |s| - 1);
  }

  /** Renaming through f keeps the count of a name a, when f sends no other entry to
      f[a]. */
  lemma {:induction false} MapSeqCount(f: seq<int>, s: seq<int>, a: int)
    requires forall k | 0 <= k < |s| :: 0 <= s[k] < |f|
    requires 0 <= a < |f|
    requires forall k | 0 <= k < |s| :: f[s[k]] == f[a] ==> s[k] == a
    ensures multiset(MapSeq(f, s))[f[a]] == multiset(s)[a]
  {
    if |s| > 0 {
      var s' := s[..|s| - 1];
      MapSeqCount(f, s', a);
      assert s == s' + [s[|s| - 1]];
      assert MapSeq(f, s) == MapSeq(f, s') + [f[s[|s| - 1]]];
    }
  }

  /** A name outside f's image over s does not occur after renaming. */
  lemma MapSeqAbsent(f: seq<int>, s: seq<int>, c: int)
    requires forall k | 0 <= k < |s| :: 0 <= s[k] < |f|
    requires forall k | 0 <= k < |s| :: f[s[k]] != c
    ensures multiset(MapSeq(f, s))[c] == 0
  {
    assert c !in MapSeq(f, s);
  }

  /** Moving name a to b in a renamed list: where a occurs, replacing it after the
      renaming is renaming through f[a := b]; where it does not, nothing changes. */
  lemma RenameEntry(f: seq<int>, s: seq<int>, a: int, b: int, present: bool)
    requires forall k | 0 <= k < |s| :: 0 <= s[k] < |f|
    requires 0 <= a < |f| && f[a] == a
    requires forall k | 0 <= k < |s| :: f[s[k]] == a ==> s[k] == a
    requires !present ==> a !in s
    ensures (if present then ReplaceEvery(MapSeq(f, s), a, b) else MapSeq(f, s)) == MapSeq(f[a := b], s)
  {
  }
}
