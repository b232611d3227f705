/** The Triangle record of includes/mesh/core/triangle.h: the names of three vertices. */
module Triangles {

  /** A triangle: the vertex names v[0], v[1], v[2], in winding order. Being a value,
      it is copied field by field, which is all the copy constructors and the copy
      assignment of the source do. */
  datatype Triangle = Triangle(v0: int, v1: int, v2: int)
  {
    /** Corner k, the source's v[k]. */
    function Corner(k: nat): int
      requires k < 3
    {
      if k == 0 then v0 else if k == 1 then v1 else v2
    }

    /** The same triangle with corner k set to x. */
    function WithCorner(k: nat, x: int): (r: Triangle)
      requires k < 3
      ensures r.Corner(k) == x
      ensures forall j | 0 <= j < 3 && j != k :: r.Corner(j) == Corner(j)
    {
      if k == 0 then Triangle(x, v1, v2)
      else if k == 1 then Triangle(v0, x, v2)
      else Triangle(v0, v1, x)
    }

    predicate Has(x: int) {
      v0 == x || v1 == x || v2 == x
    }

    /** How many corners name x (a degenerate triangle may repeat a vertex). */
    function Count(x: int): (c: nat)
      ensures c <= 3
      ensures c > 0 <==> Has(x)
    {
      (if v0 == x then 1 else 0) + (if v1 == x then 1 else 0) + (if v2 == x then 1 else 0)
    }

    /** How many of the first i corners name x. */
    function CountBelow(x: int, i: nat): (c: nat)
      requires i <= 3
      ensures c <= i
      ensures i == 3 ==> c == Count(x)
    {
      (if i > 0 && v0 == x then 1 else 0) + (if i > 1 && v1 == x then 1 else 0)
        + (if i > 2 && v2 == x then 1 else 0)
    }

    /** vlist(): the three vertex names as a list. */
    function VList(): (r: seq<int>)
      ensures |r| == 3
      ensures forall k | 0 <= k < 3 :: r[k] == Corner(k)
    {
      [v0, v1, v2]
    }

    /** Every corner equal to a renamed to b. */
    function ReplaceAll(a: int, b: int): (r: Triangle)
      ensures forall k | 0 <= k < 3 :: r.Corner(k) == if Corner(k) == a then b else Corner(k)
    {
      Triangle(if v0 == a then b else v0, if v1 == a then b else v1, if v2 == a then b else v2)
    }

    /** The first corner equal to a (if any) renamed to b. */
    function ReplaceFirst(a: int, b: int): Triangle
    {
      if v0 == a then Triangle(b, v1, v2)
      else if v1 == a then Triangle(v0, b, v2)
      else if v2 == a then Triangle(v0, v1, b)
      else this
    }

    /** ReplaceFirst applied r times. */
    function ReplaceFirstN(a: int, b: int, r: nat): Triangle
    {
      if r == 0 then this else ReplaceFirstN(a, b, r - 1).ReplaceFirst(a, b)
    }

    /** Every corner c renamed to ren[c]. */
    function Rename(ren: seq<int>): (r: Triangle)
      requires forall k | 0 <= k < 3 :: 0 <= Corner(k) < |ren|
      ensures forall k | 0 <= k < 3 :: r.Corner(k) == ren[Corner(k)]
    {
      assert Corner(0) == v0 && Corner(1) == v1 && Corner(2) == v2;
      Triangle(ren[v0], ren[v1], ren[v2])
    }
  }

  /** The constructors from an int pointer and from a vector: the first three entries. */
  function FromSeq(s: seq<int>): (t: Triangle)
    requires |s| >= 3
    ensures forall k | 0 <= k < 3 :: t.Corner(k) == s[k]
  {
    Triangle(s[0], s[1], s[2])
  }

  /** index_of: the first position whose corner is x, or -1 when x is not a corner. */
  method IndexOf(t: Triangle, x: int) returns (r: int)
    ensures -1 <= r < 3
    ensures r == -1 <==> !t.Has(x)
    ensures r != -1 ==> t.Corner(r) == x
    ensures forall k | 0 <= k < r :: t.Corner(k) != x
  {
    var i := 0;
    while i < 3
      invariant 0 <= i <= 3
      invariant forall k | 0 <= k < i :: t.Corner(k) != x
    {
      if t.Corner(i) == x {
        return i;
      }
      i := i + 1;
    }
    assert t.Corner(0) != x && t.Corner(1) != x && t.Corner(2) != x;
    return -1;
  }

  // ---------------------------------------------------------------------------
  // Lemmas

  /** vlist() and the list constructor are inverse. */
  lemma VListRoundTrip(t: Triangle, s: seq<int>)
    requires |s| == 3
    ensures FromSeq(t.VList()) == t
    ensures FromSeq(s).VList() == s
  {
  }

  /** Setting the corner that index_of found, to a name not in the triangle, is
      ReplaceFirst. */
  lemma WithFirstCorner(t: Triangle, a: int, b: int, k: nat)
    requires k < 3 && t.Corner(k) == a
    requires forall j | 0 <= j < k :: t.Corner(j) != a
    ensures t.WithCorner(k, b) == t.ReplaceFirst(a, b)
  {
    if k == 1 {
      assert t.Corner(0) != a;
    } else if k == 2 {
      assert t.Corner(0) != a && t.Corner(1) != a;
    }
  }

  /** Renaming one occurrence of a moves one count from a to b and leaves the
      other names' counts alone. */
  lemma ReplaceFirstCount(t: Triangle, a: int, b: int, x: int)
    requires a != b && t.Has(a)
    ensures t.ReplaceFirst(a, b).Count(a) == t.Count(a) - 1
    ensures t.ReplaceFirst(a, b).Count(b) == t.Count(b) + 1
    ensures x != a && x != b ==> t.ReplaceFirst(a, b).Count(x) == t.Count(x)
  {
  }

  /** Replacing the first occurrence as many times as a occurs replaces all of them. */
  lemma {:induction false} ReplaceFirstNAll(t: Triangle, a: int, b: int)
    requires a != b
    ensures t.ReplaceFirstN(a, b, t.Count(a)) == t.ReplaceAll(a, b)
  {
    var n := t.Count(a);
    if n == 0 {
    } else if n == 1 {
      assert t.ReplaceFirstN(a, b, 1) == t.ReplaceFirst(a, b);
    } else if n == 2 {
      assert t.ReplaceFirstN(a, b, 1) == t.ReplaceFirst(a, b);
      assert t.ReplaceFirstN(a, b, 2) == t.ReplaceFirst(a, b).ReplaceFirst(a, b);
    } else {
      assert t.ReplaceFirstN(a, b, 1) == t.ReplaceFirst(a, b);
      assert t.ReplaceFirstN(a, b, 2) == t.ReplaceFirst(a, b).ReplaceFirst(a, b);
      assert t.ReplaceFirstN(a, b, 3) == t.ReplaceFirst(a, b).ReplaceFirst(a, b).ReplaceFirst(a, b);
    }
  }

  /** Renaming a to b, with b not a corner: b gets a's count, a disappears. */
  lemma ReplaceAllCount(t: Triangle, a: int, b: int, x: int)
    requires a != b && !t.Has(b)
    ensures t.ReplaceAll(a, b).Count(b) == t.Count(a)
    ensures t.ReplaceAll(a, b).Count(a) == 0
    ensures x != a && x != b ==> t.ReplaceAll(a, b).Count(x) == t.Count(x)
  {
  }

  /** Renaming through an injective map preserves how often each name occurs. */
  lemma RenameCount(t: Triangle, ren: seq<int>, x: int)
    requires forall k | 0 <= k < 3 :: 0 <= t.Corner(k) < |ren|
    requires 0 <= x < |ren|
    requires forall k | 0 <= k < 3 :: ren[t.Corner(k)] == ren[x] ==> t.Corner(k) == x
    ensures t.Rename(ren).Count(ren[x]) == t.Count(x)
  {
    assert ren[t.v0] == ren[x] ==> t.v0 == x by { assert t.Corner(0) == t.v0; }
    assert ren[t.v1] == ren[x] ==> t.v1 == x by { assert t.Corner(1) == t.v1; }
    assert ren[t.v2] == ren[x] ==> t.v2 == x by { assert t.Corner(2) == t.v2; }
  }

  /** Renaming through the identity changes nothing. */
  lemma RenameIdentity(t: Triangle, ren: seq<int>)
    requires forall k | 0 <= k < 3 :: 0 <= t.Corner(k) < |ren|
    requires forall x | 0 <= x < |ren| :: ren[x] == x
    ensures t.Rename(ren) == t
  {
    assert t.Corner(0) == t.v0 && t.Corner(1) == t.v1 && t.Corner(2) == t.v2;
  }

  /** Renaming a to b after renaming through ren is renaming through ren[a := b],
      when ren sends only a to a. */
  lemma RenameThenReplace(t: Triangle, ren: seq<int>, a: int, b: int)
    requires forall k | 0 <= k < 3 :: 0 <= t.Corner(k) < |ren|
    requires 0 <= a < |ren| && ren[a] == a
    requires forall k | 0 <= k < 3 :: ren[t.Corner(k)] == a ==> t.Corner(k) == a
    ensures t.Rename(ren).ReplaceAll(a, b) == t.Rename(ren[a := b])
  {
    assert ren[t.v0] == a ==> t.v0 == a by { assert t.Corner(0) == t.v0; }
    assert ren[t.v1] == a ==> t.v1 == a by { assert t.Corner(1) == t.v1; }
    assert ren[t.v2] == a ==> t.v2 == a by { assert t.Corner(2) == t.v2; }
  }
}
