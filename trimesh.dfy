/** The TriMesh container of includes/mesh/core/trimesh.h: vertex data, triangles
    and per-vertex incidence lists in growable arrays, with free lists of dead
    names that are reused last-in first-out and removed by garbage collection. */
module TriMeshes {
  import opened Triangles
  import opened SeqUtil

  /** Name x is in use in a store of the given size whose free list is dead. */
  predicate Live(dead: seq<int>, size: int, x: int) {
    0 <= x < size && x !in dead
  }

  /** How many corners of triangle t name vertex v; a dead triangle counts nothing. */
  function Refs(deadTris: seq<int>, tris: seq<Triangle>, v: int, t: int): nat {
    if Live(deadTris, |tris|, t) then tris[t].Count(v) else 0
  }

  /** The incidence lists mirror the triangles: vertex v's list holds the name of each
      live triangle once per corner of it that is v, and nothing else. */
  ghost predicate Mirrors(deadTris: seq<int>, tris: seq<Triangle>, inc: seq<seq<int>>) {
    forall v, t | 0 <= v < |inc| :: multiset(inc[v])[t] == Refs(deadTris, tris, v, t)
  }

  /** Every corner of a live triangle is a live vertex. */
  ghost predicate CornersLive(deadTris: seq<int>, tris: seq<Triangle>, deadVerts: seq<int>, nVerts: int) {
    forall t, k | Live(deadTris, |tris|, t) && 0 <= k < 3 :: Live(deadVerts, nVerts, tris[t].Corner(k))
  }

  /** The free lists name slots of their arrays, each at most once. */
  ghost predicate FreeListOk(dead: seq<int>, size: int) {
    (forall k | 0 <= k < |dead| :: 0 <= dead[k] < size) && NoDup(dead)
  }

  ghost predicate MeshInvariant(deadTris: seq<int>, tris: seq<Triangle>, deadVerts: seq<int>,
                                nVerts: int, inc: seq<seq<int>>) {
    && |inc| == nVerts
    && FreeListOk(deadTris, |tris|)
    && FreeListOk(deadVerts, nVerts)
    && CornersLive(deadTris, tris, deadVerts, nVerts)
    && Mirrors(deadTris, tris, inc)
  }

  /** n copies of name t. */
  function Repeat(t: int, n: nat): (r: seq<int>)
    ensures |r| == n && forall k | 0 <= k < n :: r[k] == t
    ensures multiset(r)[t] == n
    ensures forall u | u != t :: multiset(r)[u] == 0
  {
    if n == 0 then [] else Repeat(t, n - 1) + [t]
  }

  function Reversed(s: seq<int>): (r: seq<int>)
    ensures |r| == |s| && forall k | 0 <= k < |s| :: r[k] == s[|s| - 1 - k]
  {
    if |s| == 0 then [] else [s[|s| - 1]] + Reversed(s[..|s| - 1])
  }

  /** Reversing one more entry from the front puts it last. */
  lemma ReversedTail(s: seq<int>, k: int)
    requires 0 <= k < |s|
    ensures Reversed(s[k..]) == Reversed(s[k + 1..]) + [s[k]]
  {
    var r, r' := Reversed(s[k..]), Reversed(s[k + 1..]);
    assert forall m | 0 <= m < |r'| :: r'[m] == s[|s| - 1 - m];
    assert forall m | 0 <= m < |r| :: r[m] == s[|s| - 1 - m];
  }

  /** The index buffer of get_buffers: the triangles' corners laid end to end. */
  function Flatten(tris: seq<Triangle>): (r: seq<int>)
    ensures |r| == 3 * |tris|
    ensures forall i, k | 0 <= i < |tris| && 0 <= k < 3 :: r[3 * i + k] == tris[i].Corner(k)
  {
    if |tris| == 0 then []
    else
      var front := Flatten(tris[..|tris| - 1]);
      var r := front + tris[|tris| - 1].VList();
      assert forall p | 0 <= p < |front| :: r[p] == front[p];
      r
  }

  class TriMesh<V> {
    var deadTris: seq<int>
    var triData: seq<Triangle>
    var deadVerts: seq<int>
    var vertData: seq<V>
    var incidence: seq<seq<int>>

    ghost predicate Valid()
      reads this
    {
      MeshInvariant(deadTris, triData, deadVerts, |vertData|, incidence)
    }

    predicate LiveVertex(v: int)
      reads this
    {
      Live(deadVerts, |vertData|, v)
    }

    predicate LiveTriangle(t: int)
      reads this
    {
      Live(deadTris, |triData|, t)
    }

    /** TriMesh(): an empty mesh. */
    constructor ()
      ensures Valid()
      ensures deadTris == [] && triData == [] && deadVerts == [] && vertData == [] && incidence == []
    {
      deadTris, triData, deadVerts, vertData, incidence := [], [], [], [], [];
    }

    /** The copy (and move) constructor: all five containers are copied. */
    constructor Copy(other: TriMesh<V>)
      ensures deadTris == other.deadTris && triData == other.triData && deadVerts == other.deadVerts
      ensures vertData == other.vertData && incidence == other.incidence
      ensures other.Valid() ==> Valid()
    {
      deadTris := other.deadTris;
      triData := other.triData;
      deadVerts := other.deadVerts;
      vertData := other.vertData;
      incidence := other.incidence;
    }

    /** Copy (and move) assignment: all five containers take other's contents. */
    method Assign(other: TriMesh<V>)
      modifies this
      ensures deadTris == old(other.deadTris) && triData == old(other.triData)
      ensures deadVerts == old(other.deadVerts) && vertData == old(other.vertData)
      ensures incidence == old(other.incidence)
      ensures old(other.Valid()) ==> Valid()
    {
      deadTris := other.deadTris;
      triData := other.triData;
      deadVerts := other.deadVerts;
      vertData := other.vertData;
      incidence := other.incidence;
    }

    /** swap: the two meshes exchange their containers. */
    method Swap(other: TriMesh<V>)
      modifies this, other
      ensures deadTris == old(other.deadTris) && other.deadTris == old(deadTris)
      ensures triData == old(other.triData) && other.triData == old(triData)
      ensures deadVerts == old(other.deadVerts) && other.deadVerts == old(deadVerts)
      ensures vertData == old(other.vertData) && other.vertData == old(vertData)
      ensures incidence == old(other.incidence) && other.incidence == old(incidence)
      ensures old(Valid()) && old(other.Valid()) ==> Valid() && other.Valid()
    {
      deadTris, other.deadTris := other.deadTris, deadTris;
      triData, other.triData := other.triData, triData;
      deadVerts, other.deadVerts := other.deadVerts, deadVerts;
      vertData, other.vertData := other.vertData, vertData;
      incidence, other.incidence := other.incidence, incidence;
    }

    /** clear: all five containers emptied. */
    method Clear()
      modifies this
      ensures Valid()
      ensures deadTris == [] && triData == [] && deadVerts == [] && vertData == [] && incidence == []
    {
      deadTris, triData, deadVerts, vertData, incidence := [], [], [], [], [];
    }

    /** triangle(t): a live triangle's corners are live vertices, and each of them lists
        t among its incident triangles. */
    function Triangle(t: int): (r: Triangle)
      reads this
      requires Valid() && LiveTriangle(t)
      ensures forall k | 0 <= k < 3 :: LiveVertex(r.Corner(k)) && t in incidence[r.Corner(k)]
    {
      var r := triData[t];
      assert forall k | 0 <= k < 3 :: multiset(incidence[r.Corner(k)])[t] == r.Count(r.Corner(k));
      r
    }

    /** vertex_incidence(v): the live triangles having v as a corner, each once per
        such corner. */
    function VertexIncidence(v: int): (r: seq<int>)
      reads this
      requires Valid() && 0 <= v < |vertData|
      ensures forall t :: multiset(r)[t] == (if LiveTriangle(t) then triData[t].Count(v) else 0)
      ensures forall k | 0 <= k < |r| :: LiveTriangle(r[k]) && triData[r[k]].Has(v)
      ensures !LiveVertex(v) ==> r == []
    {
      var r := incidence[v];
      assert forall k | 0 <= k < |r| :: multiset(r)[r[k]] > 0;
      DeadVertexUnused(deadTris, triData, deadVerts, |vertData|, incidence, v);
      r
    }

    /** add_vertex: reuse the most recently freed name, else append. The vertex gets
        the data and an empty incidence list. */
    method AddVertex(data: V) returns (n: int)
      requires Valid()
      modifies this`deadVerts, this`vertData, this`incidence
      ensures Valid() && LiveVertex(n)
      ensures old(|deadVerts|) > 0 ==>
        && n == old(deadVerts[|deadVerts| - 1])
        && deadVerts == old(deadVerts[..|deadVerts| - 1])
        && vertData == old(vertData)[n := data] && incidence == old(incidence)[n := []]
      ensures old(|deadVerts|) == 0 ==>
        && n == old(|vertData|) && deadVerts == []
        && vertData == old(vertData) + [data] && incidence == old(incidence) + [[]]
    {
      var deadVerts0, nVerts0, inc0 := deadVerts, |vertData|, incidence;
      if |deadVerts| > 0 {
        n := deadVerts[|deadVerts| - 1];
        deadVerts := deadVerts[..|deadVerts| - 1];
        incidence := incidence[n := []];
        vertData := vertData[n := data];
      } else {
        incidence := incidence + [[]];
        vertData := vertData + [data];
        n := |incidence| - 1;
      }
      TakeName(deadVerts0, nVerts0, deadVerts, |vertData|, n);
      AddVertexKeeps(deadVerts0, nVerts0, inc0, deadVerts, |vertData|, incidence, deadTris, triData, n);
    }

    /** add_triangle: reuse the most recently freed name, else append; the name joins
        the incidence list of each corner (twice for a corner named twice). */
    method AddTriangle(tri: Triangle) returns (n: int)
      requires Valid()
      requires forall k | 0 <= k < 3 :: LiveVertex(tri.Corner(k))
      modifies this`deadTris, this`triData, this`incidence
      ensures Valid() && LiveTriangle(n)
      ensures old(|deadTris|) > 0 ==>
        && n == old(deadTris[|deadTris| - 1])
        && deadTris == old(deadTris[..|deadTris| - 1]) && triData == old(triData)[n := tri]
      ensures old(|deadTris|) == 0 ==>
        && n == old(|triData|) && deadTris == [] && triData == old(triData) + [tri]
      ensures |incidence| == old(|incidence|)
      ensures forall v | 0 <= v < |incidence| :: incidence[v] == old(incidence[v]) + Repeat(n, tri.Count(v))
    {
      if |deadTris| > 0 {
        n := deadTris[|deadTris| - 1];
        deadTris := deadTris[..|deadTris| - 1];
        triData := triData[n := tri];
      } else {
        n := |triData|;
        triData := triData + [tri];
      }
      assert forall k | 0 <= k < 3 :: Live(deadVerts, |vertData|, tri.Corner(k));
      var inc := AppendToCorners(incidence, tri, n);
      incidence := inc;
      TakeName(old(deadTris), old(|triData|), deadTris, |triData|, n);
      AddTriangleKeeps(old(deadTris), old(triData), deadTris, triData, deadVerts, |vertData|,
                       old(incidence), incidence, n, tri);
    }

    /** The three-name alias of add_triangle. */
    method AddTriangleOf(v0: int, v1: int, v2: int) returns (n: int)
      requires Valid()
      requires LiveVertex(v0) && LiveVertex(v1) && LiveVertex(v2)
      modifies this`deadTris, this`triData, this`incidence
      ensures Valid() && LiveTriangle(n) && triData[n] == Triangles.Triangle(v0, v1, v2)
      ensures old(|deadTris|) > 0 ==>
        && n == old(deadTris[|deadTris| - 1])
        && deadTris == old(deadTris[..|deadTris| - 1]) && triData == old(triData)[n := Triangles.Triangle(v0, v1, v2)]
      ensures old(|deadTris|) == 0 ==>
        && n == old(|triData|) && deadTris == [] && triData == old(triData) + [Triangles.Triangle(v0, v1, v2)]
      ensures |incidence| == old(|incidence|)
      ensures forall v | 0 <= v < |incidence| ::
        incidence[v] == old(incidence[v]) + Repeat(n, Triangles.Triangle(v0, v1, v2).Count(v))
    {
      var tri := Triangles.Triangle(v0, v1, v2);
      assert tri.Corner(0) == v0 && tri.Corner(1) == v1 && tri.Corner(2) == v2;
      n := AddTriangle(tri);
    }

    /** remove_triangle: one copy of n leaves the incidence list of each corner (by
        overwriting it with the last entry), and n joins the free list. */
    method RemoveTriangle(n: int)
      requires Valid() && LiveTriangle(n)
      modifies this`deadTris, this`incidence
      ensures Valid()
      ensures deadTris == old(deadTris) + [n]
      ensures |incidence| == old(|incidence|)
      ensures forall v | 0 <= v < |incidence| ::
        incidence[v] == RemoveFirstN(old(incidence[v]), n, triData[n].Count(v))
      ensures forall v, t | 0 <= v < |incidence| ::
        multiset(incidence[v])[t] == multiset(old(incidence[v]))[t] - (if t == n then triData[n].Count(v) else 0)
    {
      var tri := triData[n];
      assert forall k | 0 <= k < 3 :: Live(deadVerts, |vertData|, tri.Corner(k));
      var inc := RemoveFromCorners(incidence, tri, n);
      incidence := inc;
      deadTris := deadTris + [n];
      RemoveTriangleKeeps(old(deadTris), triData, deadVerts, |vertData|, old(incidence), incidence, n);
    }

    /** remove_vertex: every triangle on n is removed, last incidence entry first, and
        n joins the free list. Each triangle on n must use it as one corner only. */
    method RemoveVertex(n: int)
      requires Valid() && LiveVertex(n)
      requires forall t | LiveTriangle(t) :: triData[t].Count(n) <= 1
      modifies this`deadTris, this`incidence, this`deadVerts
      ensures Valid()
      ensures deadVerts == old(deadVerts) + [n]
      ensures deadTris == old(deadTris) + Reversed(old(incidence[n]))
      ensures incidence[n] == []
      ensures forall t :: LiveTriangle(t) <==> old(LiveTriangle(t)) && !triData[t].Has(n)
    {
      ghost var inc0, dead0 := incidence[n], deadTris;
      RemoveIncident(n, inc0, dead0);
      RemoveVertexKeeps(deadTris, triData, deadVerts, |vertData|, incidence, n);
      deadVerts := deadVerts + [n];
      RemovedAreIncident(dead0, triData, inc0, deadTris, n);
    }

    /** The state of the loop of remove_vertex after the entries of n's list inc0
        past i were removed, last first, from a mesh with free triangle list dead0. */
    ghost predicate Removing(n: int, inc0: seq<int>, dead0: seq<int>, i: int)
      reads this
    {
      && -1 <= i < |inc0|
      && Valid() && LiveVertex(n)
      && incidence[n] == inc0[..i + 1] && deadTris == dead0 + Reversed(inc0[i + 1..])
      && forall t | LiveTriangle(t) :: triData[t].Count(n) <= 1
    }

    /** The loop of remove_vertex: the triangles of n's list inc0 are removed from
        the last entry down. */
    method RemoveIncident(n: int, ghost inc0: seq<int>, ghost dead0: seq<int>)
      requires Valid() && LiveVertex(n) && incidence[n] == inc0 && deadTris == dead0
      requires forall t | LiveTriangle(t) :: triData[t].Count(n) <= 1
      modifies this`deadTris, this`incidence
      ensures Valid() && incidence[n] == [] && deadTris == dead0 + Reversed(inc0)
    {
      var i := |incidence[n]| - 1;
      assert inc0[..i + 1] == inc0 && inc0[i + 1..] == [];
      while i >= 0
        invariant Removing(n, inc0, dead0, i)
      {
        RemoveLastIncident(n, i, inc0, dead0);
        i := i - 1;
      }
      assert inc0[0..] == inc0;
    }

    /** One pass of the loop of remove_vertex: the triangle at the end of n's list
        (entry i of the list inc0 that n started with) is removed. */
    method RemoveLastIncident(n: int, i: int, ghost inc0: seq<int>, ghost dead0: seq<int>)
      requires Removing(n, inc0, dead0, i) && i >= 0
      modifies this`deadTris, this`incidence
      ensures Removing(n, inc0, dead0, i - 1)
    {
      var t := incidence[n][i];
      var s := incidence[n];
      assert multiset(s)[t] > 0;
      assert LiveTriangle(t);
      OnlyLastCopy(s, t);
      RemoveTriangle(t);
      assert RemoveFirstN(s, t, 1) == RemoveFirst(s, t);
      RemoveLast(s);
      ReversedTail(inc0, i);
      assert deadTris == dead0 + (Reversed(inc0[i + 1..]) + [t]);
    }

    /** garbage_collect(cleanup_orphan_vertices): the arrays are replaced by those
        Collect computes, with both free lists emptied. A surviving vertex x is now
        named ren[x], a live triangle t is now named tren[t]. */
    method GarbageCollect(cleanup: bool)
      returns (ghost ren: seq<int>, ghost vinv: seq<int>, ghost tren: seq<int>, ghost tinv: seq<int>)
      requires Valid()
      modifies this
      ensures Valid() && deadTris == [] && deadVerts == []
      ensures |ren| == old(|vertData|) && |vinv| == |vertData| && |tren| == old(|triData|) && |tinv| == |triData|
      ensures forall x | Kept(old(deadVerts), old(incidence), cleanup, x) ::
        0 <= ren[x] < |vertData| && vinv[ren[x]] == x && vertData[ren[x]] == old(vertData[x])
      ensures forall y | 0 <= y < |vertData| :: Kept(old(deadVerts), old(incidence), cleanup, vinv[y]) && ren[vinv[y]] == y
      ensures forall x | Kept(old(deadVerts), old(incidence), cleanup, x) && x < |vertData| :: ren[x] == x
      ensures forall t | old(LiveTriangle(t)) :: 0 <= tren[t] < |triData| && tinv[tren[t]] == t
      ensures forall t | old(LiveTriangle(t)) && t < |triData| :: tren[t] == t
      ensures forall y | 0 <= y < |triData| :: old(LiveTriangle(tinv[y])) && tren[tinv[y]] == y
      ensures forall t | old(LiveTriangle(t)) :: triData[tren[t]] == old(triData[t]).Rename(ren)
      ensures forall x | Kept(old(deadVerts), old(incidence), cleanup, x) ::
        (forall k | 0 <= k < old(|incidence[x]|) :: 0 <= old(incidence[x][k]) < |tren|)
        && incidence[ren[x]] == MapSeq(tren, old(incidence[x]))
      ensures |triData| == old(|triData| - |deadTris|)
      ensures !cleanup ==> |vertData| == old(|vertData| - |deadVerts|)
      ensures cleanup ==> forall v | 0 <= v < |vertData| :: |incidence[v]| > 0
    {
      var tris, verts, inc;
      tris, verts, inc, ren, vinv, tren, tinv := Collect(deadTris, triData, deadVerts, vertData, incidence, cleanup);
      deadTris, triData := [], tris;
      deadVerts, vertData, incidence := [], verts, inc;
    }

    /** With both free lists empty, garbage_collect(false) changes nothing: every
        vertex and every triangle keeps its name, its data and its incidence list. */
    method CollectWhenNothingDead()
      requires Valid() && deadTris == [] && deadVerts == []
      modifies this
      ensures Valid()
      ensures vertData == old(vertData) && triData == old(triData) && incidence == old(incidence)
    {
      ghost var verts0, tris0, inc0 := vertData, triData, incidence;
      ghost var ren, vinv, tren, tinv := GarbageCollect(false);
      assert forall x | 0 <= x < |vertData| :: ren[x] == x by {
        forall x | 0 <= x < |vertData| ensures ren[x] == x {
          assert Kept([], inc0, false, x);
        }
      }
      assert forall t | 0 <= t < |triData| :: tren[t] == t by {
        forall t | 0 <= t < |triData| ensures tren[t] == t {
          assert Live([], |tris0|, t);
        }
      }
      forall x | 0 <= x < |vertData|
        ensures vertData[x] == verts0[x] && incidence[x] == inc0[x]
      {
        assert Kept([], inc0, false, x);
        assert ren[x] == x;
      }
      forall t | 0 <= t < |triData|
        ensures triData[t] == tris0[t]
      {
        assert Live([], |tris0|, t);
        assert forall k | 0 <= k < 3 :: ren[tris0[t].Corner(k)] == tris0[t].Corner(k);
        assert triData[t].Corner(0) == tris0[t].Corner(0);
        assert triData[t].Corner(1) == tris0[t].Corner(1);
        assert triData[t].Corner(2) == tris0[t].Corner(2);
      }
    }

    /** get_buffers: the vertex data with its count, and the index buffer (the
        triangles' corners end to end) with its length, three per triangle. */
    method GetBuffers() returns (vertBuffer: seq<V>, vertSize: int, indexBuffer: seq<int>, indexSize: int)
      ensures vertBuffer == vertData && vertSize == |vertData|
      ensures indexSize == 3 * |triData| == |indexBuffer|
      ensures forall i, k | 0 <= i < |triData| && 0 <= k < 3 :: indexBuffer[3 * i + k] == triData[i].Corner(k)
      ensures Valid() && deadTris == [] && deadVerts == [] ==>
        forall k | 0 <= k < indexSize :: 0 <= indexBuffer[k] < vertSize
    {
      indexBuffer := Flatten(triData);
      indexSize := 3 * |triData|;
      vertBuffer := vertData;
      vertSize := |vertData|;
      if Valid() && deadTris == [] && deadVerts == [] {
        forall k | 0 <= k < indexSize
          ensures 0 <= indexBuffer[k] < vertSize
        {
          var i, c := k / 3, k % 3;
          assert k == 3 * i + c;
          assert LiveTriangle(i);
          assert Live(deadVerts, |vertData|, triData[i].Corner(c));
        }
      }
    }
  }

  /** The loop of add_triangle: name n appended to the list of each corner in turn. */
  method AppendToCorners(inc: seq<seq<int>>, tri: Triangle, n: int) returns (r: seq<seq<int>>)
    requires forall k | 0 <= k < 3 :: 0 <= tri.Corner(k) < |inc|
    ensures |r| == |inc|
    ensures forall v | 0 <= v < |inc| :: r[v] == inc[v] + Repeat(n, tri.Count(v))
  {
    r := inc;
    for i := 0 to 3
      invariant |r| == |inc|
      invariant forall v | 0 <= v < |r| :: r[v] == inc[v] + Repeat(n, tri.CountBelow(v, i))
    {
      var c := tri.Corner(i);
      var r' := r[c := r[c] + [n]];
      AppendOne(inc, tri, n, i, r, r');
      r := r';
    }
  }

  /** Appending n to the list of corner i extends the appends for corners 0..i-1. */
  lemma AppendOne(inc: seq<seq<int>>, tri: Triangle, n: int, i: int, r: seq<seq<int>>, r': seq<seq<int>>)
    requires 0 <= i < 3 && 0 <= tri.Corner(i) < |inc| && |r| == |inc|
    requires forall v | 0 <= v < |r| :: r[v] == inc[v] + Repeat(n, tri.CountBelow(v, i))
    requires r' == r[tri.Corner(i) := r[tri.Corner(i)] + [n]]
    ensures forall v | 0 <= v < |r'| :: r'[v] == inc[v] + Repeat(n, tri.CountBelow(v, i + 1))
  {
    var c := tri.Corner(i);
    forall v | 0 <= v < |r|
      ensures r'[v] == inc[v] + Repeat(n, tri.CountBelow(v, i + 1))
    {
      if v == c {
        assert tri.CountBelow(c, i + 1) == tri.CountBelow(c, i) + 1;
        assert Repeat(n, tri.CountBelow(c, i) + 1) == Repeat(n, tri.CountBelow(c, i)) + [n];
      } else {
        assert tri.CountBelow(v, i + 1) == tri.CountBelow(v, i);
      }
    }
  }

  /** The loop of remove_triangle: one copy of n erased (swap with last) from the
      list of each corner in turn. */
  method RemoveFromCorners(inc: seq<seq<int>>, tri: Triangle, n: int) returns (r: seq<seq<int>>)
    requires forall k | 0 <= k < 3 :: 0 <= tri.Corner(k) < |inc|
    ensures |r| == |inc|
    ensures forall v | 0 <= v < |inc| :: r[v] == RemoveFirstN(inc[v], n, tri.Count(v))
  {
    r := inc;
    for i := 0 to 3
      invariant |r| == |inc|
      invariant forall v | 0 <= v < |r| :: r[v] == RemoveFirstN(inc[v], n, tri.CountBelow(v, i))
    {
      var c := tri.Corner(i);
      var ind := SwapRemoveFirst(r[c], n);
      RemoveCornerStep(inc, tri, n, i, r, ind);
      r := r[c := ind];
    }
  }

  /** One pass of the corner loop of remove_triangle: erasing one more n from the
      list of corner i counts corner i as done. */
  lemma RemoveCornerStep(inc: seq<seq<int>>, tri: Triangle, n: int, i: nat, r: seq<seq<int>>, ind: seq<int>)
    requires i < 3 && |r| == |inc| && 0 <= tri.Corner(i) < |inc|
    requires forall v | 0 <= v < |r| :: r[v] == RemoveFirstN(inc[v], n, tri.CountBelow(v, i))
    requires ind == RemoveFirst(r[tri.Corner(i)], n)
    ensures forall v | 0 <= v < |r| ::
      r[tri.Corner(i) := ind][v] == RemoveFirstN(inc[v], n, tri.CountBelow(v, i + 1))
  {
    var c := tri.Corner(i);
    forall v | 0 <= v < |r|
      ensures r[c := ind][v] == RemoveFirstN(inc[v], n, tri.CountBelow(v, i + 1))
    {
      if v == c {
        assert tri.CountBelow(c, i + 1) == tri.CountBelow(c, i) + 1;
      } else {
        assert tri.CountBelow(v, i + 1) == tri.CountBelow(v, i);
      }
    }
  }

  // ---------------------------------------------------------------------------
  // The invariant across the single-step operations

  /** Taking a name for a new entry, as add_vertex and add_triangle do: the last
      free name, or a fresh slot at the end. Only that name changes status. */
  lemma TakeName(dead0: seq<int>, size0: nat, dead: seq<int>, size: int, n: int)
    requires FreeListOk(dead0, size0)
    requires (|dead0| > 0 && n == dead0[|dead0| - 1] && dead == dead0[..|dead0| - 1] && size == size0)
          || (|dead0| == 0 && n == size0 && dead == [] && size == size0 + 1)
    ensures FreeListOk(dead, size)
    ensures !Live(dead0, size0, n) && Live(dead, size, n)
    ensures forall x | x != n :: Live(dead, size, x) <==> Live(dead0, size0, x)
  {
    if |dead0| > 0 {
      assert n in dead0;
      forall k | 0 <= k < |dead|
        ensures dead[k] != n
      {
        assert dead[k] == dead0[k] && k < |dead0| - 1;
      }
      assert n !in dead;
      forall x | x != n
        ensures x in dead <==> x in dead0
      {
        if x in dead0 {
          var k :| 0 <= k < |dead0| && dead0[k] == x;
          assert dead[k] == x;
        }
      }
    }
  }

  /** Giving a name that was not in use an empty incidence list keeps the invariant:
      no live triangle names it. */
  lemma AddVertexKeeps(deadVerts0: seq<int>, nVerts0: int, inc0: seq<seq<int>>,
                       deadVerts: seq<int>, nVerts: int, inc: seq<seq<int>>,
                       deadTris: seq<int>, tris: seq<Triangle>, n: int)
    requires MeshInvariant(deadTris, tris, deadVerts0, nVerts0, inc0)
    requires FreeListOk(deadVerts, nVerts)
    requires !Live(deadVerts0, nVerts0, n) && Live(deadVerts, nVerts, n)
    requires forall x | x != n :: Live(deadVerts, nVerts, x) <==> Live(deadVerts0, nVerts0, x)
    requires nVerts == nVerts0 || (nVerts == nVerts0 + 1 && n == nVerts0)
    requires |inc| == nVerts && inc[n] == []
    requires forall v | 0 <= v < nVerts && v != n :: inc[v] == inc0[v]
    ensures MeshInvariant(deadTris, tris, deadVerts, nVerts, inc)
  {
    forall t, k | Live(deadTris, |tris|, t) && 0 <= k < 3
      ensures tris[t].Corner(k) != n && Live(deadVerts, nVerts, tris[t].Corner(k))
    {
      assert Live(deadVerts0, nVerts0, tris[t].Corner(k));
    }
    forall v, t | 0 <= v < |inc|
      ensures multiset(inc[v])[t] == Refs(deadTris, tris, v, t)
    {
      if v != n {
        assert multiset(inc0[v])[t] == Refs(deadTris, tris, v, t);
      } else if Live(deadTris, |tris|, t) {
        assert tris[t].Corner(0) != n && tris[t].Corner(1) != n && tris[t].Corner(2) != n;
      }
    }
  }

  /** Adding triangle n, a name not in use, on live corners, with n appended once per
      corner to the corner lists, keeps the invariant. */
  lemma AddTriangleKeeps(deadTris0: seq<int>, tris0: seq<Triangle>, deadTris: seq<int>, tris: seq<Triangle>,
                         deadVerts: seq<int>, nVerts: int, inc0: seq<seq<int>>, inc: seq<seq<int>>,
                         n: int, tri: Triangle)
    requires MeshInvariant(deadTris0, tris0, deadVerts, nVerts, inc0)
    requires FreeListOk(deadTris, |tris|)
    requires !Live(deadTris0, |tris0|, n) && Live(deadTris, |tris|, n)
    requires forall x | x != n :: Live(deadTris, |tris|, x) <==> Live(deadTris0, |tris0|, x)
    requires tris[n] == tri
    requires |tris0| <= |tris|
    requires forall x | x != n && Live(deadTris0, |tris0|, x) :: tris[x] == tris0[x]
    requires forall k | 0 <= k < 3 :: Live(deadVerts, nVerts, tri.Corner(k))
    requires |inc| == |inc0| && forall v | 0 <= v < |inc| :: inc[v] == inc0[v] + Repeat(n, tri.Count(v))
    ensures MeshInvariant(deadTris, tris, deadVerts, nVerts, inc)
  {
    forall v, t | 0 <= v < |inc|
      ensures multiset(inc[v])[t] == Refs(deadTris, tris, v, t)
    {
      assert multiset(inc0[v])[t] == Refs(deadTris0, tris0, v, t);
      assert multiset(inc[v]) == multiset(inc0[v]) + multiset(Repeat(n, tri.Count(v)));
    }
  }

  /** Dropping one copy of n from each corner's list and freeing n keeps the invariant. */
  lemma RemoveTriangleKeeps(deadTris0: seq<int>, tris: seq<Triangle>, deadVerts: seq<int>, nVerts: int,
                            inc0: seq<seq<int>>, inc: seq<seq<int>>, n: int)
    requires MeshInvariant(deadTris0, tris, deadVerts, nVerts, inc0) && Live(deadTris0, |tris|, n)
    requires |inc| == |inc0|
    requires forall v | 0 <= v < |inc| :: inc[v] == RemoveFirstN(inc0[v], n, tris[n].Count(v))
    ensures MeshInvariant(deadTris0 + [n], tris, deadVerts, nVerts, inc)
    ensures forall v, t | 0 <= v < |inc| ::
      multiset(inc[v])[t] == multiset(inc0[v])[t] - (if t == n then tris[n].Count(v) else 0)
  {
    forall v, t | 0 <= v < |inc|
      ensures multiset(inc[v])[t] == multiset(inc0[v])[t] - (if t == n then tris[n].Count(v) else 0)
    {
      assert multiset(inc0[v])[n] == tris[n].Count(v);
      RemoveFirstNCount(inc0[v], n, tris[n].Count(v), t);
    }
  }

  /** A vertex whose incidence list is empty can be freed. */
  lemma RemoveVertexKeeps(deadTris: seq<int>, tris: seq<Triangle>, deadVerts: seq<int>, nVerts: int,
                          inc: seq<seq<int>>, n: int)
    requires MeshInvariant(deadTris, tris, deadVerts, nVerts, inc) && Live(deadVerts, nVerts, n)
    requires inc[n] == []
    ensures MeshInvariant(deadTris, tris, deadVerts + [n], nVerts, inc)
  {
    forall t, k | Live(deadTris, |tris|, t) && 0 <= k < 3
      ensures tris[t].Corner(k) != n
    {
      assert multiset(inc[n])[t] == 0;
    }
  }

  /** A dead vertex is a corner of no live triangle, so its incidence list is empty. */
  lemma DeadVertexUnused(deadTris: seq<int>, tris: seq<Triangle>, deadVerts: seq<int>, nVerts: int,
                         inc: seq<seq<int>>, v: int)
    requires MeshInvariant(deadTris, tris, deadVerts, nVerts, inc) && 0 <= v < nVerts
    ensures !Live(deadVerts, nVerts, v) ==> inc[v] == []
  {
    if !Live(deadVerts, nVerts, v) {
      forall t
        ensures multiset(inc[v])[t] == 0
      {
        assert multiset(inc[v])[t] == Refs(deadTris, tris, v, t);
        if Live(deadTris, |tris|, t) {
          assert forall k | 0 <= k < 3 :: Live(deadVerts, nVerts, tris[t].Corner(k));
          assert tris[t].Corner(0) != v && tris[t].Corner(1) != v && tris[t].Corner(2) != v;
        }
      }
      assert multiset(inc[v]) == multiset{};
    }
  }

  /** In a list with each name at most once, a last entry t has no other copy. */
  lemma OnlyLastCopy(s: seq<int>, t: int)
    requires |s| > 0 && s[|s| - 1] == t && multiset(s)[t] <= 1
    ensures t !in s[..|s| - 1]
  {
    assert s == s[..|s| - 1] + [t];
    assert multiset(s) == multiset(s[..|s| - 1]) + multiset{t};
  }

  /** The triangles remove_vertex frees are exactly the live triangles on n. */
  lemma RemovedAreIncident(deadTris0: seq<int>, tris: seq<Triangle>, s: seq<int>, deadTris: seq<int>, n: int)
    requires deadTris == deadTris0 + Reversed(s)
    requires forall t :: multiset(s)[t] == Refs(deadTris0, tris, n, t)
    ensures forall t :: Live(deadTris, |tris|, t) <==> Live(deadTris0, |tris|, t) && !tris[t].Has(n)
  {
    forall t
      ensures t in Reversed(s) <==> t in s
      ensures Live(deadTris, |tris|, t) <==> Live(deadTris0, |tris|, t) && !tris[t].Has(n)
    {
      var r := Reversed(s);
      if t in s {
        var k :| 0 <= k < |s| && s[k] == t;
        assert r[|s| - 1 - k] == t;
      }
      if t in r {
        var k :| 0 <= k < |r| && r[k] == t;
        assert s[|s| - 1 - k] == t;
      }
      assert t in s <==> multiset(s)[t] > 0;
    }
  }

  // ---------------------------------------------------------------------------
  // Garbage collection

  /** The renaming that moves nothing. */
  function Identity(N: nat): (r: seq<int>)
    ensures |r| == N && forall x | 0 <= x < N :: r[x] == x
  {
    seq(N, x => x)
  }

  /** Slot y is occupied while a compaction loop has reached n and the holes d[i..]
      are still to be filled. */
  predicate InUse(d: seq<int>, i: int, n: int, y: int)
    requires 0 <= i <= |d|
  {
    0 <= y <= n && y !in d[i..]
  }

  /** The relabelling loop of garbage_collect: for each entry t of the incidence list
      s, last entry first, the first corner of triangle t named a becomes b. */
  method RelabelCorners(tris: seq<Triangle>, s: seq<int>, a: int, b: int) returns (r: seq<Triangle>)
    requires forall k | 0 <= k < |s| :: 0 <= s[k] < |tris|
    ensures |r| == |tris|
    ensures forall t | 0 <= t < |tris| :: r[t] == tris[t].ReplaceFirstN(a, b, multiset(s)[t])
  {
    r := tris;
    var l := |s| - 1;
    while l >= 0
      invariant -1 <= l < |s| && |r| == |tris|
      invariant forall t | 0 <= t < |tris| :: r[t] == tris[t].ReplaceFirstN(a, b, multiset(s[l + 1..])[t])
    {
      var t := s[l];
      var k := IndexOf(r[t], a);
      ghost var r0 := r;
      if k != -1 {
        WithFirstCorner(r[t], a, b, k);
        r := r[t := r[t].WithCorner(k, b)];
      } else {
        assert r[t].ReplaceFirst(a, b) == r[t];
      }
      RelabelOne(tris, s, l, a, b, r0, r);
      l := l - 1;
    }
    assert s[0..] == s;
  }

  /** Relabelling the triangle of entry l extends the relabelling of the entries
      after it. */
  lemma RelabelOne(tris: seq<Triangle>, s: seq<int>, l: int, a: int, b: int, r: seq<Triangle>, r': seq<Triangle>)
    requires 0 <= l < |s| && 0 <= s[l] < |tris| && |r| == |tris|
    requires forall t | 0 <= t < |tris| :: r[t] == tris[t].ReplaceFirstN(a, b, multiset(s[l + 1..])[t])
    requires r' == r[s[l] := r[s[l]].ReplaceFirst(a, b)]
    ensures forall t | 0 <= t < |tris| :: r'[t] == tris[t].ReplaceFirstN(a, b, multiset(s[l..])[t])
  {
    assert s[l..] == [s[l]] + s[l + 1..];
    assert multiset(s[l..]) == multiset(s[l + 1..]) + multiset{s[l]};
  }

  /** Relabelling vertex n to the free slot v, for every live triangle on n, is
      renaming n to v on top of the renaming so far. */
  lemma RelabelStep(tris0: seq<Triangle>, tris1: seq<Triangle>, tris2: seq<Triangle>,
                    deadT: seq<int>, s: seq<int>, ren: seq<int>, n: int, v: int)
    requires |tris1| == |tris0| == |tris2|
    requires 0 <= n < |ren| && ren[n] == n && n != v
    requires forall t, k | Live(deadT, |tris0|, t) && 0 <= k < 3 ::
      0 <= tris0[t].Corner(k) < |ren| && (ren[tris0[t].Corner(k)] == n ==> tris0[t].Corner(k) == n)
    requires forall t | Live(deadT, |tris0|, t) :: tris1[t] == tris0[t].Rename(ren)
    requires forall t | 0 <= t < |tris0| :: multiset(s)[t] == Refs(deadT, tris0, n, t)
    requires forall t | 0 <= t < |tris1| :: tris2[t] == tris1[t].ReplaceFirstN(n, v, multiset(s)[t])
    ensures forall t | Live(deadT, |tris0|, t) :: tris2[t] == tris0[t].Rename(ren[n := v])
  {
    forall t | Live(deadT, |tris0|, t)
      ensures tris2[t] == tris0[t].Rename(ren[n := v])
    {
      var tri := tris0[t];
      assert forall k | 0 <= k < 3 :: 0 <= tri.Corner(k) < |ren|;
      assert tri.Corner(0) == tri.v0 && tri.Corner(1) == tri.v1 && tri.Corner(2) == tri.v2;
      RenameCount(tri, ren, n);
      ReplaceFirstNAll(tris1[t], n, v);
      RenameThenReplace(tri, ren, n, v);
    }
  }

  /** ren maps every name in use before compaction (outside d) to a slot in use now,
      inv maps every slot in use now back, and names not yet passed by the top index
      n have not moved. */
  ghost predicate Renaming(d: seq<int>, N: int, i: int, n: int, ren: seq<int>, inv: seq<int>)
    requires 0 <= i <= |d|
  {
    && n < N && |ren| == N && |inv| == N
    && (forall x | Live(d, N, x) :: InUse(d, i, n, ren[x]) && inv[ren[x]] == x)
    && (forall y | InUse(d, i, n, y) :: Live(d, N, inv[y]) && ren[inv[y]] == y)
    && (forall x | Live(d, N, x) && x <= n :: ren[x] == x)
  }

  /** Lowering the top past a hole at the end moves nothing. */
  lemma SkipHoleStep(d: seq<int>, N: int, i: int, j: int, n: int, ren: seq<int>, inv: seq<int>)
    requires StrictlySorted(d) && forall k | 0 <= k < |d| :: 0 <= d[k] < N
    requires Scan(d, N, i, j, n) && j >= i && d[j] == n
    requires Renaming(d, N, i, n, ren, inv)
    ensures Scan(d, N, i, j - 1, n - 1) && Renaming(d, N, i, n - 1, ren, inv)
  {
    assert n in d[i..];
    if j - 1 >= i {
      assert d[j - 1] < d[j];
    }
  }

  /** Moving the top name n into the hole v = d[i] keeps ren and inv inverse. */
  lemma MoveStep(d: seq<int>, N: int, i: int, n: int, ren: seq<int>, inv: seq<int>)
    requires StrictlySorted(d) && 0 <= i < |d| && 0 <= d[i] < n
    requires Live(d, N, n) && n !in d[i..]
    requires Renaming(d, N, i, n, ren, inv)
    ensures ren[n] == n && inv[n] == n
    ensures forall x | Live(d, N, x) && x != n :: ren[x] != n && ren[x] != d[i]
    ensures Renaming(d, N, i + 1, n - 1, ren[n := d[i]], inv[d[i] := n])
  {
    var v := d[i];
    var ren', inv' := ren[n := v], inv[v := n];
    assert InUse(d, i, n, n);
    assert v in d[i..];
    assert forall y | y in d[i + 1..] :: y in d[i..];
    assert v !in d[i + 1..] by {
      forall k | i + 1 <= k < |d|
        ensures d[k] != v
      {
        assert d[i] < d[k];
      }
    }
    forall x | Live(d, N, x)
      ensures InUse(d, i + 1, n - 1, ren'[x]) && inv'[ren'[x]] == x
    {
      if x != n {
        assert ren[x] != n;
      }
    }
    forall y | InUse(d, i + 1, n - 1, y)
      ensures Live(d, N, inv'[y]) && ren'[inv'[y]] == y
    {
      if y != v {
        assert InUse(d, i, n, y);
      }
    }
  }

  /** The incidence list of a vertex names only live triangles. */
  lemma EntriesLive(deadTris: seq<int>, tris: seq<Triangle>, inc: seq<seq<int>>, v: int)
    requires Mirrors(deadTris, tris, inc) && 0 <= v < |inc|
    ensures forall k | 0 <= k < |inc[v]| :: Live(deadTris, |tris|, inc[v][k])
  {
    forall k | 0 <= k < |inc[v]|
      ensures Live(deadTris, |tris|, inc[v][k])
    {
      assert multiset(inc[v])[inc[v][k]] == Refs(deadTris, tris, v, inc[v][k]);
    }
  }

  /** Copying slot n into slot v, which no name in use maps to, carries the data of
      old name n along and leaves the others in place. */
  lemma MoveDataStep<V>(d: seq<int>, N: int, n: int, v: int, ren: seq<int>, verts: seq<V>, inc: seq<seq<int>>,
                        verts1: seq<V>, inc1: seq<seq<int>>)
    requires |ren| == N && 0 <= v < N && 0 <= n < N && |verts1| == |inc1| == N && ren[n] == n
    requires |verts| == |inc| == N
    requires forall x | Live(d, N, x) :: 0 <= ren[x] < N
    requires forall x | Live(d, N, x) && x != n :: ren[x] != n && ren[x] != v
    requires forall x | Live(d, N, x) :: verts1[ren[x]] == verts[x] && inc1[ren[x]] == inc[x]
    ensures forall x | Live(d, N, x) ::
      verts1[v := verts1[n]][ren[n := v][x]] == verts[x] && inc1[v := inc1[n]][ren[n := v][x]] == inc[x]
  {
  }

  /** The indices of a compaction loop over the increasing hole list d of an array
      of N slots: the holes d[j+1..] lie above the top slot n, the hole d[j] (while
      j has not crossed i) lies at or below it, and every slot lowered past n was
      either a hole or filled a hole d[..i]. */
  ghost predicate Scan(d: seq<int>, N: int, i: int, j: int, n: int) {
    && 0 <= i <= |d| && i - 1 <= j < |d| && -1 <= n < N
    && (N - 1) - n == (|d| - 1 - j) + i
    && (forall k | j < k < |d| :: d[k] > n)
    && (j >= i ==> d[j] <= n)
  }

  /** Relative to the renaming ren, the arrays verts1, inc1, tris1 hold the data of
      verts, inc, tris: the data of a vertex x in use sits at ren[x], and a live
      triangle's corners are renamed through ren. */
  ghost predicate Carried<V>(d: seq<int>, N: int, ren: seq<int>, verts: seq<V>, inc: seq<seq<int>>,
                             deadTris: seq<int>, tris: seq<Triangle>,
                             verts1: seq<V>, inc1: seq<seq<int>>, tris1: seq<Triangle>)
  {
    && |ren| == N == |verts| == |inc| == |verts1| == |inc1| && |tris1| == |tris|
    && CornersLive(deadTris, tris, d, N)
    && (forall x | Live(d, N, x) :: 0 <= ren[x] < N && verts1[ren[x]] == verts[x] && inc1[ren[x]] == inc[x])
    && (forall t | Live(deadTris, |tris|, t) :: tris1[t] == tris[t].Rename(ren))
  }

  /** Before the first step of a compaction loop, nothing has moved. */
  lemma StartScan(d: seq<int>, N: nat, ren: seq<int>, inv: seq<int>)
    requires forall k | 0 <= k < |d| :: 0 <= d[k] < N
    requires |ren| == |inv| == N
    requires forall x | 0 <= x < N :: ren[x] == x && inv[x] == x
    ensures Scan(d, N, 0, |d| - 1, N - 1) && Renaming(d, N, 0, N - 1, ren, inv)
  {
  }

  /** The inner loop "skip removals from end of list": lower the top slot n past the
      holes at the end. */
  method SkipHoles(d: seq<int>, N: int, i: int, j: int, n: int, ghost ren: seq<int>, ghost inv: seq<int>)
    returns (j': int, n': int)
    requires StrictlySorted(d) && forall k | 0 <= k < |d| :: 0 <= d[k] < N
    requires Scan(d, N, i, j, n) && i < |d| && Renaming(d, N, i, n, ren, inv)
    ensures Scan(d, N, i, j', n') && Renaming(d, N, i, n', ren, inv)
    ensures j' >= i ==> d[j'] < n'
  {
    j', n' := j, n;
    while j' >= i && d[j'] == n'
      invariant Scan(d, N, i, j', n') && Renaming(d, N, i, n', ren, inv)
    {
      SkipHoleStep(d, N, i, j', n', ren, inv);
      n' := n' - 1;
      j' := j' - 1;
    }
  }

  /** When the lowest remaining hole d[i] is at or below the top n after skipping,
      n is a name in use that no hole d[i..] names, and the hole lies strictly below. */
  lemma TopInUse(d: seq<int>, N: int, i: int, j: int, n: int)
    requires StrictlySorted(d) && forall k | 0 <= k < |d| :: 0 <= d[k] < N
    requires Scan(d, N, i, j, n) && i < |d| && d[i] <= n
    requires j >= i ==> d[j] < n
    ensures 0 <= d[i] < n && Live(d, N, n) && n !in d[i..]
  {
    assert j >= i;
    forall k | 0 <= k < |d|
      ensures d[k] != n
    {
      if k < i {
        assert d[k] < d[i];
      } else if k < j {
        assert d[k] < d[j];
      }
    }
  }

  /** When the loop stops, the slots 0..n are exactly those still in use, and there
      are N - |d| of them. */
  lemma FinishScan(d: seq<int>, N: int, i: int, j: int, n: int)
    requires StrictlySorted(d) && Scan(d, N, i, j, n)
    requires i == |d| || n < d[i]
    ensures n + 1 == N - |d|
    ensures forall y | 0 <= y <= n :: InUse(d, i, n, y)
  {
    forall k | i <= k < |d|
      ensures d[k] > n
    {
      if k > i {
        assert d[i] < d[k];
      }
    }
    forall y | 0 <= y <= n
      ensures InUse(d, i, n, y)
    {
      assert forall k | i <= k < |d| :: d[k] != y;
    }
  }

  /** Cutting the arrays to the slots 0..n still in use when the loop stops gives
      the result of the vertex phase. */
  lemma FinishCompaction<V>(d: seq<int>, N: int, i: int, j: int, n: int, ren: seq<int>, inv: seq<int>,
                            verts: seq<V>, inc: seq<seq<int>>, deadTris: seq<int>, tris: seq<Triangle>,
                            verts1: seq<V>, inc1: seq<seq<int>>, tris1: seq<Triangle>)
    requires StrictlySorted(d) && Scan(d, N, i, j, n) && (i == |d| || n < d[i])
    requires Renaming(d, N, i, n, ren, inv)
    requires Carried(d, N, ren, verts, inc, deadTris, tris, verts1, inc1, tris1)
    ensures n + 1 == N - |d|
    ensures n + 1 <= |inv| && n + 1 <= |verts1| && n + 1 <= |inc1|
    ensures forall x | Live(d, N, x) :: 0 <= ren[x] < n + 1 && inv[ren[x]] == x
    ensures forall y | 0 <= y < n + 1 :: Live(d, N, inv[y]) && ren[inv[y]] == y
    ensures forall x | Live(d, N, x) :: verts1[ren[x]] == verts[x] && inc1[ren[x]] == inc[x]
    ensures forall x | Live(d, N, x) && x < n + 1 :: ren[x] == x
  {
    FinishScan(d, N, i, j, n);
  }

  /** One step of the vertex phase: the top vertex n, in use, moves into the hole
      v = d[i], relabelling the corners of its triangles and copying its data and
      incidence list. */
  method MoveVertex<V>(d: seq<int>, N: int, i: int, n: int, verts: seq<V>, inc: seq<seq<int>>,
                       deadTris: seq<int>, tris: seq<Triangle>,
                       verts1: seq<V>, inc1: seq<seq<int>>, tris1: seq<Triangle>,
                       ghost ren: seq<int>, ghost inv: seq<int>)
    returns (verts2: seq<V>, inc2: seq<seq<int>>, tris2: seq<Triangle>, ghost ren2: seq<int>, ghost inv2: seq<int>)
    requires StrictlySorted(d) && 0 <= i < |d| && 0 <= d[i] < n
    requires Live(d, N, n) && n !in d[i..]
    requires Mirrors(deadTris, tris, inc)
    requires Renaming(d, N, i, n, ren, inv)
    requires Carried(d, N, ren, verts, inc, deadTris, tris, verts1, inc1, tris1)
    ensures ren2 == ren[n := d[i]] && inv2 == inv[d[i] := n]
    ensures Renaming(d, N, i + 1, n - 1, ren2, inv2)
    ensures Carried(d, N, ren2, verts, inc, deadTris, tris, verts2, inc2, tris2)
  {
    var v := d[i];
    MoveStep(d, N, i, n, ren, inv);
    assert inc1[n] == inc[n];
    EntriesLive(deadTris, tris, inc, n);
    // Relabel vertex n to v
    tris2 := RelabelCorners(tris1, inc1[n], n, v);
    RelabelStep(tris, tris1, tris2, deadTris, inc[n], ren, n, v);
    // Move its data and its incidence list
    MoveDataStep(d, N, n, v, ren, verts, inc, verts1, inc1);
    verts2 := verts1[v := verts1[n]];
    inc2 := inc1[v := inc1[n]];
    ren2 := ren[n := v];
    inv2 := inv[v := n];
  }

  /** The vertex phase of garbage_collect over the increasing list d of dead vertex
      names: the highest vertex in use moves into the lowest hole, with every
      triangle corner naming it renamed, until no hole lies below the top; then the
      arrays are cut to the vertices in use. ren maps an old name in use to its new
      name and inv maps back. */
  method CompactVertices<V>(d: seq<int>, verts: seq<V>, inc: seq<seq<int>>, deadTris: seq<int>, tris: seq<Triangle>)
    returns (verts': seq<V>, inc': seq<seq<int>>, tris': seq<Triangle>, ghost ren: seq<int>, ghost inv: seq<int>)
    requires |verts| == |inc|
    requires StrictlySorted(d) && forall k | 0 <= k < |d| :: 0 <= d[k] < |verts|
    requires CornersLive(deadTris, tris, d, |verts|)
    requires Mirrors(deadTris, tris, inc)
    ensures |verts'| == |inc'| == |verts| - |d| && |tris'| == |tris|
    ensures |ren| == |verts| && |inv| == |verts'|
    ensures forall x | Live(d, |verts|, x) :: 0 <= ren[x] < |verts'| && inv[ren[x]] == x
    ensures forall y | 0 <= y < |verts'| :: Live(d, |verts|, inv[y]) && ren[inv[y]] == y
    ensures forall x | Live(d, |verts|, x) :: verts'[ren[x]] == verts[x] && inc'[ren[x]] == inc[x]
    ensures forall x | Live(d, |verts|, x) && x < |verts'| :: ren[x] == x
    ensures forall t | Live(deadTris, |tris|, t) :: tris'[t] == tris[t].Rename(ren)
  {
    var i, j, n;
    i, j, n, verts', inc', tris', ren, inv := VertexLoop(d, verts, inc, deadTris, tris);
    FinishCompaction(d, |verts|, i, j, n, ren, inv, verts, inc, deadTris, tris, verts', inc', tris');
    verts' := verts'[..n + 1];
    inc' := inc'[..n + 1];
    inv := inv[..n + 1];
  }

  /** One pass of the vertex phase's outer loop: skip the holes at the top, then
      either stop, when the top lies below the lowest remaining hole d[i], or move
      the top vertex into that hole. */
  method VertexStep<V>(d: seq<int>, i: int, j: int, n: int, verts: seq<V>, inc: seq<seq<int>>,
                       deadTris: seq<int>, tris: seq<Triangle>,
                       verts1: seq<V>, inc1: seq<seq<int>>, tris1: seq<Triangle>, ghost ren: seq<int>, ghost inv: seq<int>)
    returns (done: bool, j': int, n': int, verts2: seq<V>, inc2: seq<seq<int>>, tris2: seq<Triangle>,
             ghost ren2: seq<int>, ghost inv2: seq<int>)
    requires StrictlySorted(d) && forall k | 0 <= k < |d| :: 0 <= d[k] < |verts|
    requires Mirrors(deadTris, tris, inc)
    requires Scan(d, |verts|, i, j, n) && i < |d| && Renaming(d, |verts|, i, n, ren, inv)
    requires Carried(d, |verts|, ren, verts, inc, deadTris, tris, verts1, inc1, tris1)
    ensures done ==> n' < d[i] && Scan(d, |verts|, i, j', n') && Renaming(d, |verts|, i, n', ren2, inv2)
    ensures !done ==> Scan(d, |verts|, i + 1, j', n') && Renaming(d, |verts|, i + 1, n', ren2, inv2)
    ensures Carried(d, |verts|, ren2, verts, inc, deadTris, tris, verts2, inc2, tris2)
  {
    var N := |verts|;
    j', n' := SkipHoles(d, N, i, j, n, ren, inv);
    var v := d[i];
    if n' < v {
      return true, j', n', verts1, inc1, tris1, ren, inv;
    }
    TopInUse(d, N, i, j', n');
    verts2, inc2, tris2, ren2, inv2 := MoveVertex(d, N, i, n', verts, inc, deadTris, tris, verts1, inc1, tris1, ren, inv);
    done := false;
    n' := n' - 1;
  }

  /** The outer loop of the vertex phase, up to the point where it stops. */
  method VertexLoop<V>(d: seq<int>, verts: seq<V>, inc: seq<seq<int>>, deadTris: seq<int>, tris: seq<Triangle>)
    returns (i: int, j: int, n: int, verts': seq<V>, inc': seq<seq<int>>, tris': seq<Triangle>,
             ghost ren: seq<int>, ghost inv: seq<int>)
    requires |verts| == |inc|
    requires StrictlySorted(d) && forall k | 0 <= k < |d| :: 0 <= d[k] < |verts|
    requires CornersLive(deadTris, tris, d, |verts|)
    requires Mirrors(deadTris, tris, inc)
    ensures Scan(d, |verts|, i, j, n) && (i == |d| || n < d[i])
    ensures Renaming(d, |verts|, i, n, ren, inv)
    ensures Carried(d, |verts|, ren, verts, inc, deadTris, tris, verts', inc', tris')
  {
    var N, m := |verts|, |d|;
    verts', inc', tris' := verts, inc, tris;
    ren := Identity(N);
    inv := Identity(N);
    StartScan(d, N, ren, inv);
    forall t | Live(deadTris, |tris|, t)
      ensures tris'[t] == tris[t].Rename(ren)
    {
      RenameIdentity(tris[t], ren);
    }
    n := N - 1;
    i, j := 0, m - 1;
    while i < m
      invariant Scan(d, N, i, j, n) && Renaming(d, N, i, n, ren, inv)
      invariant Carried(d, N, ren, verts, inc, deadTris, tris, verts', inc', tris')
    {
      var done;
      done, j, n, verts', inc', tris', ren, inv := VertexStep(d, i, j, n, verts, inc, deadTris, tris, verts', inc', tris', ren, inv);
      if done {
        return;
      }
      i := i + 1;
    }
  }

  /** In the incidence lists of the corners of tri, every entry a becomes b; the
      other lists are untouched. */
  method RenameInCorners(inc: seq<seq<int>>, tri: Triangle, a: int, b: int) returns (r: seq<seq<int>>)
    requires forall k | 0 <= k < 3 :: 0 <= tri.Corner(k) < |inc|
    ensures |r| == |inc|
    ensures forall v | 0 <= v < |inc| :: r[v] == if tri.Has(v) then ReplaceEvery(inc[v], a, b) else inc[v]
  {
    r := inc;
    for k := 0 to 3
      invariant |r| == |inc|
      invariant forall v | 0 <= v < |inc| :: r[v] == if tri.CountBelow(v, k) > 0 then ReplaceEvery(inc[v], a, b) else inc[v]
    {
      var c := tri.Corner(k);
      assert ReplaceEvery(ReplaceEvery(inc[c], a, b), a, b) == ReplaceEvery(inc[c], a, b);
      r := r[c := ReplaceEvery(r[c], a, b)];
    }
  }

  /** Relative to the renaming tren, tris1 holds the live triangles of tris and inc1
      the incidence lists of inc with every entry renamed. */
  ghost predicate CarriedTris(d: seq<int>, N: int, tren: seq<int>, tris: seq<Triangle>, inc: seq<seq<int>>,
                              tris1: seq<Triangle>, inc1: seq<seq<int>>)
  {
    && |tren| == N == |tris| == |tris1| && |inc1| == |inc|
    && (forall v | 0 <= v < |inc| :: forall k | 0 <= k < |inc[v]| :: 0 <= inc[v][k] < N && inc[v][k] !in d)
    && (forall x | Live(d, N, x) :: 0 <= tren[x] < N && tris1[tren[x]] == tris[x])
    && (forall v | 0 <= v < |inc| :: inc1[v] == MapSeq(tren, inc[v]))
  }

  /** One step of the triangle phase: the top triangle n, live, moves into the hole
      t = d[i], and the incidence lists of its corners follow it. */
  method MoveTriangle(d: seq<int>, N: int, i: int, n: int, tris: seq<Triangle>, inc: seq<seq<int>>,
                      tris1: seq<Triangle>, inc1: seq<seq<int>>, ghost tren: seq<int>, ghost tinv: seq<int>)
    returns (tris2: seq<Triangle>, inc2: seq<seq<int>>, ghost tren2: seq<int>, ghost tinv2: seq<int>)
    requires StrictlySorted(d) && 0 <= i < |d| && 0 <= d[i] < n
    requires Live(d, N, n) && n !in d[i..] && N == |tris|
    requires Mirrors(d, tris, inc)
    requires forall x, k | Live(d, |tris|, x) && 0 <= k < 3 :: 0 <= tris[x].Corner(k) < |inc|
    requires Renaming(d, N, i, n, tren, tinv)
    requires CarriedTris(d, N, tren, tris, inc, tris1, inc1)
    ensures tren2 == tren[n := d[i]] && tinv2 == tinv[d[i] := n]
    ensures Renaming(d, N, i + 1, n - 1, tren2, tinv2)
    ensures CarriedTris(d, N, tren2, tris, inc, tris2, inc2)
  {
    var t := d[i];
    MoveStep(d, N, i, n, tren, tinv);
    var tri := tris1[n];
    assert tri == tris[n];
    tris2 := tris1[t := tri];
    inc2 := RenameInCorners(inc1, tri, n, t);
    tren2 := tren[n := t];
    tinv2 := tinv[t := n];
    forall v | 0 <= v < |inc|
      ensures inc2[v] == MapSeq(tren2, inc[v])
    {
      if !tri.Has(v) {
        assert multiset(inc[v])[n] == Refs(d, tris, v, n);
      }
      RenameEntry(tren, inc[v], n, t, tri.Has(v));
    }
  }

  /** One pass of the triangle phase's outer loop: skip the holes at the top, then
      either stop, when the top lies below the lowest remaining hole d[i], or move
      the top triangle into that hole. */
  method TriangleStep(d: seq<int>, i: int, j: int, n: int, tris: seq<Triangle>, inc: seq<seq<int>>,
                      tris1: seq<Triangle>, inc1: seq<seq<int>>, ghost tren: seq<int>, ghost tinv: seq<int>)
    returns (done: bool, j': int, n': int, tris2: seq<Triangle>, inc2: seq<seq<int>>,
             ghost tren2: seq<int>, ghost tinv2: seq<int>)
    requires StrictlySorted(d) && forall k | 0 <= k < |d| :: 0 <= d[k] < |tris|
    requires Mirrors(d, tris, inc)
    requires forall x, k | Live(d, |tris|, x) && 0 <= k < 3 :: 0 <= tris[x].Corner(k) < |inc|
    requires Scan(d, |tris|, i, j, n) && i < |d| && Renaming(d, |tris|, i, n, tren, tinv)
    requires CarriedTris(d, |tris|, tren, tris, inc, tris1, inc1)
    ensures done ==> n' < d[i] && Scan(d, |tris|, i, j', n') && Renaming(d, |tris|, i, n', tren2, tinv2)
    ensures !done ==> Scan(d, |tris|, i + 1, j', n') && Renaming(d, |tris|, i + 1, n', tren2, tinv2)
    ensures CarriedTris(d, |tris|, tren2, tris, inc, tris2, inc2)
  {
    var N := |tris|;
    j', n' := SkipHoles(d, N, i, j, n, tren, tinv);
    var t := d[i];
    if n' < t {
      return true, j', n', tris1, inc1, tren, tinv;
    }
    TopInUse(d, N, i, j', n');
    tris2, inc2, tren2, tinv2 := MoveTriangle(d, N, i, n', tris, inc, tris1, inc1, tren, tinv);
    done := false;
    n' := n' - 1;
  }

  /** The triangle phase of garbage_collect over the increasing list d of dead
      triangle names, with the incidence lists kept in step: the highest live
      triangle moves into the lowest hole until no hole lies below the top, every
      incidence entry naming it follows it, and the array is cut to the live
      triangles. tren maps an old live name to its new name and tinv maps back. */
  method CompactTriangles(d: seq<int>, tris: seq<Triangle>, inc: seq<seq<int>>)
    returns (tris': seq<Triangle>, inc': seq<seq<int>>, ghost tren: seq<int>, ghost tinv: seq<int>)
    requires StrictlySorted(d) && forall k | 0 <= k < |d| :: 0 <= d[k] < |tris|
    requires Mirrors(d, tris, inc)
    requires forall x, k | Live(d, |tris|, x) && 0 <= k < 3 :: 0 <= tris[x].Corner(k) < |inc|
    ensures |tris'| == |tris| - |d| && |inc'| == |inc|
    ensures |tren| == |tris| && |tinv| == |tris'|
    ensures forall x | Live(d, |tris|, x) :: 0 <= tren[x] < |tris'| && tinv[tren[x]] == x
    ensures forall y | 0 <= y < |tris'| :: Live(d, |tris|, tinv[y]) && tren[tinv[y]] == y
    ensures forall x | Live(d, |tris|, x) :: tris'[tren[x]] == tris[x]
    ensures forall x | Live(d, |tris|, x) && x < |tris'| :: tren[x] == x
    ensures forall v | 0 <= v < |inc| :: forall k | 0 <= k < |inc[v]| :: 0 <= inc[v][k] < |tris| && inc[v][k] !in d
    ensures forall v | 0 <= v < |inc| :: inc'[v] == MapSeq(tren, inc[v])
    ensures Mirrors([], tris', inc')
  {
    var i, j, n;
    i, j, n, tris', inc', tren, tinv := TriangleLoop(d, tris, inc);
    FinishTriangles(d, |tris|, i, j, n, tren, tinv, tris, inc, tris', inc');
    tris' := tris'[..n + 1];
    tinv := tinv[..n + 1];
  }

  /** The outer loop of the triangle phase, up to the point where it stops. */
  method TriangleLoop(d: seq<int>, tris: seq<Triangle>, inc: seq<seq<int>>)
    returns (i: int, j: int, n: int, tris': seq<Triangle>, inc': seq<seq<int>>, ghost tren: seq<int>, ghost tinv: seq<int>)
    requires StrictlySorted(d) && forall k | 0 <= k < |d| :: 0 <= d[k] < |tris|
    requires Mirrors(d, tris, inc)
    requires forall x, k | Live(d, |tris|, x) && 0 <= k < 3 :: 0 <= tris[x].Corner(k) < |inc|
    ensures Scan(d, |tris|, i, j, n) && (i == |d| || n < d[i])
    ensures Renaming(d, |tris|, i, n, tren, tinv)
    ensures CarriedTris(d, |tris|, tren, tris, inc, tris', inc')
  {
    var N, m := |tris|, |d|;
    tris', inc' := tris, inc;
    tren := Identity(N);
    tinv := Identity(N);
    StartScan(d, N, tren, tinv);
    IdentityCarries(d, tren, tris, inc);
    n := N - 1;
    i, j := 0, m - 1;
    while i < m
      invariant Scan(d, N, i, j, n) && Renaming(d, N, i, n, tren, tinv)
      invariant CarriedTris(d, N, tren, tris, inc, tris', inc')
    {
      var done;
      done, j, n, tris', inc', tren, tinv := TriangleStep(d, i, j, n, tris, inc, tris', inc', tren, tinv);
      if done {
        return;
      }
      i := i + 1;
    }
  }

  /** Before the first move, the identity renaming carries everything. */
  lemma IdentityCarries(d: seq<int>, tren: seq<int>, tris: seq<Triangle>, inc: seq<seq<int>>)
    requires Mirrors(d, tris, inc)
    requires |tren| == |tris| && forall x | 0 <= x < |tris| :: tren[x] == x
    ensures CarriedTris(d, |tris|, tren, tris, inc, tris, inc)
  {
    forall v | 0 <= v < |inc|
      ensures forall k | 0 <= k < |inc[v]| :: 0 <= inc[v][k] < |tris| && inc[v][k] !in d
    {
      EntriesLive(d, tris, inc, v);
    }
    forall v | 0 <= v < |inc|
      ensures inc[v] == MapSeq(tren, inc[v])
    {
    }
  }

  /** Cutting the triangle array to the slots 0..n still live when the loop stops
      gives the result of the triangle phase. */
  lemma FinishTriangles(d: seq<int>, N: int, i: int, j: int, n: int, tren: seq<int>, tinv: seq<int>,
                        tris: seq<Triangle>, inc: seq<seq<int>>, tris1: seq<Triangle>, inc1: seq<seq<int>>)
    requires StrictlySorted(d) && Scan(d, N, i, j, n) && (i == |d| || n < d[i])
    requires Mirrors(d, tris, inc) && Renaming(d, N, i, n, tren, tinv)
    requires CarriedTris(d, N, tren, tris, inc, tris1, inc1)
    ensures n + 1 == N - |d| && n + 1 <= |tinv| && n + 1 <= |tris1|
    ensures forall x | Live(d, N, x) :: 0 <= tren[x] < n + 1 && tinv[tren[x]] == x
    ensures forall y | 0 <= y < n + 1 :: Live(d, N, tinv[y]) && tren[tinv[y]] == y
    ensures forall x | Live(d, N, x) && x < n + 1 :: tren[x] == x
    ensures forall x | Live(d, N, x) :: tris1[..n + 1][tren[x]] == tris[x]
    ensures Mirrors([], tris1[..n + 1], inc1)
  {
    FinishScan(d, N, i, j, n);
    RenamedMirrors(d, tris, inc, tren, tinv[..n + 1], tris1[..n + 1], inc1);
  }

  /** Incidence lists renamed through a bijection between the live triangles and the
      slots of a dead-free array, carrying each live triangle along, mirror it. */
  lemma RenamedMirrors(d: seq<int>, tris: seq<Triangle>, inc: seq<seq<int>>, tren: seq<int>, tinv: seq<int>,
                       tris1: seq<Triangle>, inc1: seq<seq<int>>)
    requires Mirrors(d, tris, inc) && |tren| == |tris| && |tinv| == |tris1| && |inc1| == |inc|
    requires forall x | Live(d, |tris|, x) :: 0 <= tren[x] < |tris1| && tinv[tren[x]] == x
    requires forall y | 0 <= y < |tris1| :: Live(d, |tris|, tinv[y]) && tren[tinv[y]] == y
    requires forall x | Live(d, |tris|, x) :: tris1[tren[x]] == tris[x]
    requires forall v | 0 <= v < |inc| :: forall k | 0 <= k < |inc[v]| :: 0 <= inc[v][k] < |tris| && inc[v][k] !in d
    requires forall v | 0 <= v < |inc| :: inc1[v] == MapSeq(tren, inc[v])
    ensures Mirrors([], tris1, inc1)
  {
    forall v, y | 0 <= v < |inc1|
      ensures multiset(inc1[v])[y] == Refs([], tris1, v, y)
    {
      if 0 <= y < |tris1| {
        var x := tinv[y];
        MapSeqCount(tren, inc[v], x);
        assert multiset(inc[v])[x] == Refs(d, tris, v, x);
      } else {
        MapSeqAbsent(tren, inc[v], y);
      }
    }
  }

  /** A vertex survives garbage collection: it is in use and, when orphans are
      cleaned up, some triangle is incident on it. */
  predicate Kept(deadVerts: seq<int>, inc: seq<seq<int>>, cleanup: bool, x: int) {
    Live(deadVerts, |inc|, x) && !(cleanup && |inc[x]| == 0)
  }

  /** The cleanup loop of garbage_collect: from the last vertex down, every vertex
      with an empty incidence list is removed, which for such a vertex only pushes
      its name on the free list (possibly a second time, for a dead vertex). */
  method PushOrphans(dead: seq<int>, inc: seq<seq<int>>) returns (r: seq<int>)
    ensures |dead| <= |r| && r[..|dead|] == dead
    ensures forall k | |dead| <= k < |r| :: 0 <= r[k] < |inc|
    ensures forall x :: x in r <==> x in dead || (0 <= x < |inc| && |inc[x]| == 0)
  {
    r := dead;
    var i := |inc| - 1;
    while i >= 0
      invariant -1 <= i < |inc| && |dead| <= |r| && r[..|dead|] == dead
      invariant forall k | |dead| <= k < |r| :: i < r[k] < |inc|
      invariant forall x :: x in r <==> x in dead || (i < x < |inc| && |inc[x]| == 0)
    {
      if |inc[i]| == 0 {
        r := r + [i];
      }
      i := i - 1;
    }
  }

  /** A vertex with an empty incidence list is a corner of no live triangle, so
      adding such vertices to the dead ones keeps every corner alive. */
  lemma OrphansUnused(deadTris: seq<int>, tris: seq<Triangle>, deadVerts: seq<int>, inc: seq<seq<int>>, dv: seq<int>)
    requires Mirrors(deadTris, tris, inc) && CornersLive(deadTris, tris, deadVerts, |inc|)
    requires forall x :: x in dv <==> x in deadVerts || (0 <= x < |inc| && |inc[x]| == 0)
    ensures CornersLive(deadTris, tris, dv, |inc|)
  {
    forall t, k | Live(deadTris, |tris|, t) && 0 <= k < 3
      ensures Live(dv, |inc|, tris[t].Corner(k))
    {
      var c := tris[t].Corner(k);
      assert Live(deadVerts, |inc|, c);
      assert multiset(inc[c])[t] == Refs(deadTris, tris, c, t) > 0;
      assert t in inc[c];
    }
  }

  /** After the vertex phase the triangles, renamed, and the moved incidence lists
      still mirror each other, and every corner is one of the remaining vertices. */
  lemma VertexPhaseResult<V>(d: seq<int>, N: int, deadTris: seq<int>, tris: seq<Triangle>, inc: seq<seq<int>>,
                             verts1: seq<V>, inc1: seq<seq<int>>, tris1: seq<Triangle>, ren: seq<int>, inv: seq<int>)
    requires |inc| == N && Mirrors(deadTris, tris, inc) && CornersLive(deadTris, tris, d, N)
    requires |inc1| == |verts1| && |tris1| == |tris| && |ren| == N && |inv| == |verts1|
    requires forall x | Live(d, N, x) :: 0 <= ren[x] < |verts1| && inv[ren[x]] == x
    requires forall y | 0 <= y < |verts1| :: Live(d, N, inv[y]) && ren[inv[y]] == y
    requires forall x | Live(d, N, x) :: inc1[ren[x]] == inc[x]
    requires forall t | Live(deadTris, |tris|, t) :: tris1[t] == tris[t].Rename(ren)
    ensures Mirrors(deadTris, tris1, inc1)
    ensures CornersLive(deadTris, tris1, [], |verts1|)
  {
    forall y, t | 0 <= y < |inc1|
      ensures multiset(inc1[y])[t] == Refs(deadTris, tris1, y, t)
    {
      var x := inv[y];
      assert multiset(inc[x])[t] == Refs(deadTris, tris, x, t);
      if Live(deadTris, |tris|, t) {
        assert forall k | 0 <= k < 3 :: Live(d, N, tris[t].Corner(k));
        RenameCount(tris[t], ren, x);
      }
    }
    forall t, k | Live(deadTris, |tris1|, t) && 0 <= k < 3
      ensures Live([], |verts1|, tris1[t].Corner(k))
    {
      assert Live(d, N, tris[t].Corner(k));
    }
  }

  /** The names of a list all lie in 0..N-1 when those of a list holding them do. */
  lemma NamesInRange(s: seq<int>, r: seq<int>, N: int)
    requires forall k | 0 <= k < |s| :: 0 <= s[k] < N
    requires forall y :: y in r ==> y in s
    ensures forall k | 0 <= k < |r| :: 0 <= r[k] < N
  {
    forall k | 0 <= k < |r|
      ensures 0 <= r[k] < N
    {
      assert r[k] in r;
    }
  }

  /** The vertex half of garbage_collect: optionally the orphans join the dead
      vertices, then the dead vertices are compacted away. */
  method VertexPhase<V>(deadTris: seq<int>, tris: seq<Triangle>, deadVerts: seq<int>, verts: seq<V>,
                        inc: seq<seq<int>>, cleanup: bool)
    returns (verts': seq<V>, inc': seq<seq<int>>, tris': seq<Triangle>, ghost ren: seq<int>, ghost vinv: seq<int>)
    requires MeshInvariant(deadTris, tris, deadVerts, |verts|, inc)
    ensures MeshInvariant(deadTris, tris', [], |verts'|, inc')
    ensures |ren| == |verts| && |vinv| == |verts'| && |tris'| == |tris|
    ensures forall x | Kept(deadVerts, inc, cleanup, x) :: 0 <= ren[x] < |verts'| && vinv[ren[x]] == x
    ensures forall y | 0 <= y < |verts'| :: Kept(deadVerts, inc, cleanup, vinv[y]) && ren[vinv[y]] == y
    ensures forall x | Kept(deadVerts, inc, cleanup, x) :: verts'[ren[x]] == verts[x] && inc'[ren[x]] == inc[x]
    ensures forall x | Kept(deadVerts, inc, cleanup, x) && x < |verts'| :: ren[x] == x
    ensures forall t | Live(deadTris, |tris|, t) :: tris'[t] == tris[t].Rename(ren)
    ensures !cleanup ==> |verts'| == |verts| - |deadVerts|
    ensures cleanup ==> forall v | 0 <= v < |inc'| :: |inc'[v]| > 0
  {
    var N := |verts|;
    var dv := deadVerts;
    if cleanup {
      dv := PushOrphans(deadVerts, inc);
      OrphansUnused(deadTris, tris, deadVerts, inc, dv);
    }
    assert forall k | 0 <= k < |dv| :: 0 <= dv[k] < N;
    var d := SortUnique(dv);
    NamesInRange(dv, d, N);
    assert forall x :: Live(d, N, x) <==> Kept(deadVerts, inc, cleanup, x);
    verts', inc', tris', ren, vinv := CompactVertices(d, verts, inc, deadTris, tris);
    VertexPhaseResult(d, N, deadTris, tris, inc, verts', inc', tris', ren, vinv);
    if !cleanup {
      SameNamesSameLength(deadVerts, d);
    } else {
      forall v | 0 <= v < |inc'|
        ensures |inc'[v]| > 0
      {
        assert Kept(deadVerts, inc, cleanup, vinv[v]);
      }
    }
  }

  /** The triangle half of garbage_collect, on a mesh with no dead vertex: the dead
      triangles are compacted away and the incidence lists follow. */
  method TrianglePhase(deadTris: seq<int>, tris: seq<Triangle>, nVerts: int, inc: seq<seq<int>>)
    returns (tris': seq<Triangle>, inc': seq<seq<int>>, ghost tren: seq<int>, ghost tinv: seq<int>)
    requires MeshInvariant(deadTris, tris, [], nVerts, inc)
    ensures MeshInvariant([], tris', [], nVerts, inc')
    ensures |tren| == |tris| && |tinv| == |tris'| && |tris'| == |tris| - |deadTris|
    ensures forall t | Live(deadTris, |tris|, t) :: 0 <= tren[t] < |tris'| && tinv[tren[t]] == t
    ensures forall y | 0 <= y < |tris'| :: Live(deadTris, |tris|, tinv[y]) && tren[tinv[y]] == y
    ensures forall t | Live(deadTris, |tris|, t) :: tris'[tren[t]] == tris[t]
    ensures forall t | Live(deadTris, |tris|, t) && t < |tris'| :: tren[t] == t
    ensures forall v | 0 <= v < |inc| :: forall k | 0 <= k < |inc[v]| :: 0 <= inc[v][k] < |tris| && inc[v][k] !in deadTris
    ensures forall v | 0 <= v < |inc| :: inc'[v] == MapSeq(tren, inc[v])
  {
    var dt := SortUnique(deadTris);
    SameNamesSameLength(deadTris, dt);
    NamesInRange(deadTris, dt, |tris|);
    assert forall t :: Live(dt, |tris|, t) <==> Live(deadTris, |tris|, t);
    tris', inc', tren, tinv := CompactTriangles(dt, tris, inc);
    forall y, k | Live([], |tris'|, y) && 0 <= k < 3
      ensures Live([], nVerts, tris'[y].Corner(k))
    {
      assert Live(deadTris, |tris|, tinv[y]);
    }
  }

  /** garbage_collect on the mesh's arrays: optionally the orphans are removed, then
      the dead vertices and the dead triangles are compacted away. Every surviving
      vertex x moves to ren[x] with its data and its incidence list, whose entries
      are renamed through tren; every live triangle t moves to tren[t] with its
      corners renamed through ren; no name below the new size moves; the result has
      no dead names and satisfies the mesh invariant. */
  method Collect<V>(deadTris: seq<int>, tris: seq<Triangle>, deadVerts: seq<int>, verts: seq<V>,
                    inc: seq<seq<int>>, cleanup: bool)
    returns (tris': seq<Triangle>, verts': seq<V>, inc': seq<seq<int>>,
             ghost ren: seq<int>, ghost vinv: seq<int>, ghost tren: seq<int>, ghost tinv: seq<int>)
    requires MeshInvariant(deadTris, tris, deadVerts, |verts|, inc)
    ensures MeshInvariant([], tris', [], |verts'|, inc')
    ensures |ren| == |verts| && |vinv| == |verts'| && |tren| == |tris| && |tinv| == |tris'|
    ensures forall x | Kept(deadVerts, inc, cleanup, x) :: 0 <= ren[x] < |verts'| && vinv[ren[x]] == x
    ensures forall y | 0 <= y < |verts'| :: Kept(deadVerts, inc, cleanup, vinv[y]) && ren[vinv[y]] == y
    ensures forall x | Kept(deadVerts, inc, cleanup, x) :: verts'[ren[x]] == verts[x]
    ensures forall x | Kept(deadVerts, inc, cleanup, x) && x < |verts'| :: ren[x] == x
    ensures forall t | Live(deadTris, |tris|, t) :: 0 <= tren[t] < |tris'| && tinv[tren[t]] == t
    ensures forall y | 0 <= y < |tris'| :: Live(deadTris, |tris|, tinv[y]) && tren[tinv[y]] == y
    ensures forall t | Live(deadTris, |tris|, t) && t < |tris'| :: tren[t] == t
    ensures forall t | Live(deadTris, |tris|, t) :: tris'[tren[t]] == tris[t].Rename(ren)
    ensures forall x | 0 <= x < |inc| :: forall k | 0 <= k < |inc[x]| :: 0 <= inc[x][k] < |tris| && inc[x][k] !in deadTris
    ensures forall x | Kept(deadVerts, inc, cleanup, x) :: inc'[ren[x]] == MapSeq(tren, inc[x])
    ensures |tris'| == |tris| - |deadTris|
    ensures !cleanup ==> |verts'| == |verts| - |deadVerts|
    ensures cleanup ==> forall v | 0 <= v < |inc'| :: |inc'[v]| > 0
  {
    var inc1, tris1;
    verts', inc1, tris1, ren, vinv := VertexPhase(deadTris, tris, deadVerts, verts, inc, cleanup);
    tris', inc', tren, tinv := TrianglePhase(deadTris, tris1, |verts'|, inc1);
    forall x | 0 <= x < |inc|
      ensures forall k | 0 <= k < |inc[x]| :: 0 <= inc[x][k] < |tris| && inc[x][k] !in deadTris
    {
      EntriesLive(deadTris, tris, inc, x);
    }
  }

  // ---------------------------------------------------------------------------
  // The collection loops as written

  /** The duplicate skip of garbage_collect's loops: from i, move past entries equal
      to the one before. */
  function SkipRepeats(d: seq<int>, i: int): (r: int)
    requires 0 < i <= |d|
    ensures i <= r <= |d|
    ensures forall k | i <= k < r :: d[k - 1] == d[k]
    ensures r < |d| ==> d[r - 1] != d[r]
    decreases |d| - i
  {
    if i < |d| && d[i - 1] == d[i] then SkipRepeats(d, i + 1) else i
  }

  /** The inner loop "skip removals from end of list" as written: j and n step down
      together while d[j] is n. */
  function SkipTop(d: seq<int>, i: int, j: int, n: int): (r: (int, int))
    requires 0 <= i && -1 <= j < |d|
    ensures -1 <= r.0 <= j && r.1 == n - (j - r.0)
    ensures r.0 >= i ==> d[r.0] != r.1
    decreases j + 1
  {
    if j >= i && d[j] == n then SkipTop(d, i, j - 1, n - 1) else (j, n)
  }

  /** The slot count the vertex loop of garbage_collect ends with, as written, on
      the sorted free list d (duplicates included): the loop from index i with the
      tail index j and the top slot n. */
  function SizeAsWritten(d: seq<int>, i: int, j: int, n: int): int
    requires 0 <= i <= |d| && -1 <= j < |d|
    decreases |d| - i
  {
    var i' := if i > 0 then SkipRepeats(d, i) else i;
    if i' == |d| then n + 1
    else
      var (j', n') := SkipTop(d, i', j, n);
      if n' < d[i'] then n' + 1
      else SizeAsWritten(d, i' + 1, j', n' - 1)
  }

  /** Three vertices, all removed, then garbage_collect(true): the cleanup pushes
      each of them a second time, and the loop as written walks the sorted list
      [0, 0, 1, 1, 2, 2] to a size of 1, keeping a dead vertex. The tail skip passes
      only one copy of the top hole before the top slot moves into a hole. */
  lemma RepeatedHolesAsWritten()
    ensures forall x | 0 <= x < 3 :: x in [0, 0, 1, 1, 2, 2]
    ensures SizeAsWritten([0, 0, 1, 1, 2, 2], 0, 5, 2) == 1
  {
    var d := [0, 0, 1, 1, 2, 2];
    assert SkipTop(d, 0, 4, 1) == (4, 1);
    assert SkipTop(d, 0, 5, 2) == (4, 1);
    assert SkipRepeats(d, 2) == 2;
    assert SkipRepeats(d, 1) == 2;
    assert SkipTop(d, 2, 4, 0) == (4, 0);
    assert SizeAsWritten(d, 1, 4, 0) == 1;
  }

  /** The triangle phase of garbage_collect as written: the same moves of triangles
      as CompactTriangles, while the incidence lists are left as they were. */
  method CompactTrianglesAsWritten(d: seq<int>, tris: seq<Triangle>, inc: seq<seq<int>>)
    returns (tris': seq<Triangle>, inc': seq<seq<int>>, ghost tren: seq<int>, ghost tinv: seq<int>)
    requires StrictlySorted(d) && forall k | 0 <= k < |d| :: 0 <= d[k] < |tris|
    requires Mirrors(d, tris, inc)
    requires forall x, k | Live(d, |tris|, x) && 0 <= k < 3 :: 0 <= tris[x].Corner(k) < |inc|
    ensures |tris'| == |tris| - |d| && inc' == inc
    ensures |tren| == |tris| && |tinv| == |tris'|
    ensures forall x | Live(d, |tris|, x) :: 0 <= tren[x] < |tris'| && tinv[tren[x]] == x
    ensures forall y | 0 <= y < |tris'| :: Live(d, |tris|, tinv[y]) && tren[tinv[y]] == y
    ensures forall x | Live(d, |tris|, x) :: tris'[tren[x]] == tris[x]
    ensures forall x | Live(d, |tris|, x) && x < |tris'| :: tren[x] == x
  {
    var moved;
    tris', moved, tren, tinv := CompactTriangles(d, tris, inc);
    inc' := inc;
  }

  /** Two triangles on vertices 0, 1, 2, the first removed: the triangle phase as
      written moves triangle 1 to slot 0 but every incidence list still names 1, a
      slot that no longer exists. */
  method StaleIncidenceWitness() returns (tris': seq<Triangle>, inc': seq<seq<int>>)
    ensures MeshInvariant([0], [Triangle(0, 1, 2), Triangle(0, 1, 2)], [], 3, [[1], [1], [1]])
    ensures !Mirrors([], tris', inc')
  {
    var tri := Triangle(0, 1, 2);
    var tris, inc := [tri, tri], [[1], [1], [1]];
    forall v, t | 0 <= v < |inc|
      ensures multiset(inc[v])[t] == Refs([0], tris, v, t)
    {
      assert inc[v] == [1];
      assert tri.Corner(v) == v;
    }
    ghost var tren, tinv;
    tris', inc', tren, tinv := CompactTrianglesAsWritten([0], tris, inc);
    assert multiset(inc'[0])[1] == 1;
    assert Refs([], tris', 0, 1) == 0;
  }
}
