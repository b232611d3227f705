/** repair_mesh_vertices of includes/mesh/algorithms/repair.h: vertices that lie
    within a tolerance of each other are fused. Positions are bucketed into a
    spatial grid; each vertex, from the last down, looks up the vertices recorded in
    the 27 cells around its own, and every one of them close enough to it is fused
    into it: its triangles are retargeted onto the survivor (or dropped when they
    already use it) and it is removed. The float geometry is abstracted: key gives
    the grid cell of a vertex's data and close says whether two vertices lie within
    the tolerance. */
module Repair {
  import opened Triangles
  import opened SeqUtil
  import opened TriMeshes

  /** A cell of the spatial grid (the integer vector ipos). */
  datatype Cell = Cell(x: int, y: int, z: int)

  /** d is one of the 27 cells around c (c included). */
  predicate Near(d: Cell, c: Cell) {
    -1 <= d.x - c.x <= 1 && -1 <= d.y - c.y <= 1 && -1 <= d.z - c.z <= 1
  }

  // ---------------------------------------------------------------------------
  // Probing the neighbouring cells

  /** The position of cell d among the 27 cells around c in the order of the three
      nested neighbour loops: x outermost and z innermost, each offset running from
      -1 to 1. */
  function Index(c: Cell, d: Cell): int {
    9 * (d.x - c.x + 1) + 3 * (d.y - c.y + 1) + (d.z - c.z + 1)
  }

  /** The cells probed so far are the first cells around c, in probing order. */
  ghost predicate InOrder(c: Cell, probed: seq<Cell>) {
    forall k | 0 <= k < |probed| :: Near(probed[k], c) && Index(c, probed[k]) == k
  }

  /** What one probe of cell d pushes: the entry stored there, when there is one
      and it is positive. */
  function Hit(hash: map<Cell, int>, d: Cell): seq<int> {
    if d in hash && hash[d] > 0 then [hash[d]] else []
  }

  /** What probing the cells in order pushes. */
  function Hits(hash: map<Cell, int>, cells: seq<Cell>): seq<int> {
    if |cells| == 0 then [] else Hits(hash, cells[..|cells| - 1]) + Hit(hash, cells[|cells| - 1])
  }

  /** The neighbour loops: the overlaps of a vertex in cell c are the positive
      entries of the 27 cells around c, each once when the hash stores each positive
      entry at one cell only. */
  method Probe(hash: map<Cell, int>, c: Cell) returns (overlaps: seq<int>)
    ensures forall v :: v in overlaps <==> v > 0 && exists d :: Near(d, c) && d in hash && hash[d] == v
    ensures Injective(hash) ==> NoDup(overlaps)
  {
    overlaps := [];
    ghost var probed: seq<Cell> := [];
    for x := -1 to 2
      invariant |probed| == 9 * (x + 1) && InOrder(c, probed) && overlaps == Hits(hash, probed)
    {
      for y := -1 to 2
        invariant |probed| == 9 * (x + 1) + 3 * (y + 1) && InOrder(c, probed) && overlaps == Hits(hash, probed)
      {
        for z := -1 to 2
          invariant |probed| == 9 * (x + 1) + 3 * (y + 1) + z + 1
          invariant InOrder(c, probed) && overlaps == Hits(hash, probed)
        {
          var d := Cell(c.x + x, c.y + y, c.z + z);
          assert (probed + [d])[..|probed|] == probed;
          probed := probed + [d];
          if d in hash && hash[d] > 0 {
            overlaps := overlaps + [hash[d]];
          }
        }
      }
    }
    ProbeFinds(hash, c, probed);
  }

  /** Each positive entry sits at one cell only. */
  predicate Injective(hash: map<Cell, int>) {
    forall d, e | d in hash && e in hash && hash[d] == hash[e] > 0 :: d == e
  }

  /** A probe sequence pushes exactly the positive entries of the cells probed. */
  lemma {:induction false} HitsMembers(hash: map<Cell, int>, cells: seq<Cell>)
    ensures forall v :: v in Hits(hash, cells) <==>
      v > 0 && exists k | 0 <= k < |cells| :: cells[k] in hash && hash[cells[k]] == v
  {
    if |cells| > 0 {
      var front := cells[..|cells| - 1];
      HitsMembers(hash, front);
      forall v | v > 0 && exists k | 0 <= k < |cells| :: cells[k] in hash && hash[cells[k]] == v
        ensures v in Hits(hash, cells)
      {
        var k :| 0 <= k < |cells| && cells[k] in hash && hash[cells[k]] == v;
        if k < |cells| - 1 {
          assert front[k] == cells[k];
        }
      }
    }
  }

  /** Probing distinct cells of a hash that stores each positive entry at one cell
      only pushes no entry twice. */
  lemma {:induction false} HitsNoDup(hash: map<Cell, int>, cells: seq<Cell>)
    requires forall a, b | 0 <= a < b < |cells| :: cells[a] != cells[b]
    requires Injective(hash)
    ensures NoDup(Hits(hash, cells))
  {
    if |cells| > 0 {
      var front, last := cells[..|cells| - 1], cells[|cells| - 1];
      HitsNoDup(hash, front);
      HitsMembers(hash, front);
      if last in hash && hash[last] > 0 {
        forall k | 0 <= k < |front| && front[k] in hash
          ensures hash[front[k]] != hash[last]
        {
          assert front[k] == cells[k];
        }
        assert hash[last] !in Hits(hash, front);
      }
    }
  }

  /** Probing all 27 cells around c pushes the positive entries of the cells near
      c, each once when the hash stores each positive entry at one cell only. */
  lemma ProbeFinds(hash: map<Cell, int>, c: Cell, probed: seq<Cell>)
    requires |probed| == 27 && InOrder(c, probed)
    ensures forall v :: v in Hits(hash, probed) <==> v > 0 && exists d :: Near(d, c) && d in hash && hash[d] == v
    ensures Injective(hash) ==> NoDup(Hits(hash, probed))
  {
    HitsMembers(hash, probed);
    forall d | Near(d, c)
      ensures probed[Index(c, d)] == d
    {
      var e := probed[Index(c, d)];
      assert Near(e, c) && Index(c, e) == Index(c, d);
    }
    forall d | Near(d, c) && d in hash && hash[d] > 0
      ensures exists k | 0 <= k < |probed| :: probed[k] in hash && hash[probed[k]] == hash[d]
    {
      assert probed[Index(c, d)] == d;
    }
    if Injective(hash) {
      forall a, b | 0 <= a < b < |probed|
        ensures probed[a] != probed[b]
      {
        assert Index(c, probed[a]) != Index(c, probed[b]);
      }
      HitsNoDup(hash, probed);
    }
  }

  // ---------------------------------------------------------------------------
  // Fusing one vertex into another

  /** No corner of tri repeats a vertex. */
  predicate Simple(tri: Triangle) {
    tri.v0 != tri.v1 && tri.v1 != tri.v2 && tri.v0 != tri.v2
  }

  /** Every live triangle of a mesh is simple. */
  ghost predicate Proper(deadTris: seq<int>, tris: seq<Triangle>) {
    forall t | Live(deadTris, |tris|, t) :: Simple(tris[t])
  }

  /** The triangles of ts, in order, that name i: those the fuse loop drops. */
  function Dropped(ts: seq<int>, tris: seq<Triangle>, i: int): (r: seq<int>)
    requires forall k | 0 <= k < |ts| :: 0 <= ts[k] < |tris|
    ensures forall t | t in r :: t in ts
    ensures forall k | 0 <= k < |ts| :: ts[k] in r <==> tris[ts[k]].Has(i)
  {
    if |ts| == 0 then []
    else
      var front := ts[..|ts| - 1];
      var r := Dropped(front, tris, i) + (if tris[ts[|ts| - 1]].Has(i) then [ts[|ts| - 1]] else []);
      assert forall k | 0 <= k < |front| :: front[k] == ts[k];
      r
  }

  /** The fuse loop of v into i, after the triangles done (in the order met): each
      of them, a live triangle of the mesh before (with free triangle names dead0
      and triangles tris0) on v, is dropped when it names i and otherwise has v
      replaced by i in place; every other triangle is as before. */
  ghost predicate Fused(dead0: seq<int>, tris0: seq<Triangle>, v: int, i: int, done: seq<int>,
                        deadTris: seq<int>, tris: seq<Triangle>)
  {
    && |tris| == |tris0|
    && (forall k | 0 <= k < |done| :: Live(dead0, |tris0|, done[k]) && tris0[done[k]].Has(v))
    && deadTris == dead0 + Dropped(done, tris0, i)
    && (forall t | 0 <= t < |tris| ::
          tris[t] == if t in done && !tris0[t].Has(i) then tris0[t].ReplaceAll(v, i) else tris0[t])
  }

  /** Setting the corner of a simple triangle that holds v to a name i it does not
      hold replaces every v by i, and leaves the triangle simple. */
  lemma Retarget(tri: Triangle, v: int, i: int, w: nat)
    requires Simple(tri) && w < 3 && tri.Corner(w) == v && !tri.Has(i)
    ensures tri.WithCorner(w, i) == tri.ReplaceAll(v, i)
    ensures Simple(tri.WithCorner(w, i))
  {
  }

  /** A triangle on v not yet met by the fuse loop is still live and unchanged. */
  lemma FusedUntouched(dead0: seq<int>, tris0: seq<Triangle>, v: int, i: int, done: seq<int>,
                       deadTris: seq<int>, tris: seq<Triangle>, t: int)
    requires Fused(dead0, tris0, v, i, done, deadTris, tris)
    requires Live(dead0, |tris0|, t) && t !in done
    ensures Live(deadTris, |tris|, t) && tris[t] == tris0[t]
  {
    assert t !in Dropped(done, tris0, i);
  }

  /** The fuse loop state after dropping triangle t, which names i. */
  lemma FusedDrop(dead0: seq<int>, tris0: seq<Triangle>, v: int, i: int, done: seq<int>,
                  deadTris: seq<int>, tris: seq<Triangle>, t: int)
    requires Fused(dead0, tris0, v, i, done, deadTris, tris)
    requires Live(dead0, |tris0|, t) && tris0[t].Has(v) && tris0[t].Has(i) && t !in done
    ensures Fused(dead0, tris0, v, i, done + [t], deadTris + [t], tris)
  {
    assert (done + [t])[..|done|] == done;
  }

  /** The fuse loop state after retargeting triangle t, which does not name i. */
  lemma FusedKeep(dead0: seq<int>, tris0: seq<Triangle>, v: int, i: int, done: seq<int>,
                  deadTris: seq<int>, tris: seq<Triangle>, t: int)
    requires Fused(dead0, tris0, v, i, done, deadTris, tris)
    requires Live(dead0, |tris0|, t) && tris0[t].Has(v) && !tris0[t].Has(i) && t !in done
    ensures Fused(dead0, tris0, v, i, done + [t], deadTris, tris[t := tris0[t].ReplaceAll(v, i)])
  {
    assert (done + [t])[..|done|] == done;
  }

  /** One pass of the triangle loop of the fuse: triangle t on v is removed; unless
      it names i, its v corner is set to i and it is added back, taking its own
      name again from the top of the free list. */
  method FuseTriangle<V>(mesh: TriMesh<V>, i: int, v: int, t: int,
                         ghost dead0: seq<int>, ghost tris0: seq<Triangle>, ghost done: seq<int>)
    requires mesh.Valid() && Proper(mesh.deadTris, mesh.triData) && mesh.LiveVertex(i) && i != v
    requires Proper(dead0, tris0) && Fused(dead0, tris0, v, i, done, mesh.deadTris, mesh.triData)
    requires Live(dead0, |tris0|, t) && tris0[t].Has(v) && t !in done
    modifies mesh`deadTris, mesh`triData, mesh`incidence
    ensures mesh.Valid() && Proper(mesh.deadTris, mesh.triData)
    ensures Fused(dead0, tris0, v, i, done + [t], mesh.deadTris, mesh.triData)
  {
    ghost var dead1, tris1 := mesh.deadTris, mesh.triData;
    FusedUntouched(dead0, tris0, v, i, done, dead1, tris1, t);
    var tri := mesh.Triangle(t);
    mesh.RemoveTriangle(t);
    var at := IndexOf(tri, i);
    if at != -1 {
      FusedDrop(dead0, tris0, v, i, done, dead1, tris1, t);
      ProperDrop(dead1, tris1, t);
      return;
    }
    var w := IndexOf(tri, v);
    Retarget(tri, v, i, w);
    tri := tri.WithCorner(w, i);
    var n := mesh.AddTriangle(tri);
    assert n == t && mesh.deadTris == dead1;
    FusedKeep(dead0, tris0, v, i, done, dead1, tris1, t);
    ProperKeep(dead1, tris1, t, tri);
  }

  lemma ProperDrop(deadTris: seq<int>, tris: seq<Triangle>, t: int)
    requires Proper(deadTris, tris)
    ensures Proper(deadTris + [t], tris)
  {
  }

  lemma ProperKeep(deadTris: seq<int>, tris: seq<Triangle>, t: int, tri: Triangle)
    requires Proper(deadTris, tris) && 0 <= t < |tris| && Simple(tri)
    ensures Proper(deadTris, tris[t := tri])
  {
  }


  /** A snapshot of v's incidence list names no triangle twice when every live
      triangle is simple. */
  lemma IncidenceNoDup(deadTris: seq<int>, tris: seq<Triangle>, s: seq<int>, v: int)
    requires Proper(deadTris, tris)
    requires forall t :: multiset(s)[t] == (if Live(deadTris, |tris|, t) then tris[t].Count(v) else 0)
    ensures NoDup(s)
    ensures forall k | 0 <= k < |s| :: 0 <= s[k] < |tris|
    ensures forall t | 0 <= t < |tris| :: t in s <==> Live(deadTris, |tris|, t) && tris[t].Has(v)
  {
    forall k | 0 <= k < |s|
      ensures 0 <= s[k] < |tris|
    {
      assert multiset(s)[s[k]] > 0;
    }
    forall t | 0 <= t < |tris|
      ensures t in s <==> Live(deadTris, |tris|, t) && tris[t].Has(v)
    {
      assert t in s <==> multiset(s)[t] > 0;
    }
    forall a, b | 0 <= a < b < |s|
      ensures s[a] != s[b]
    {
      var t := s[a];
      assert s == s[..b] + s[b..];
      assert multiset(s) == multiset(s[..b]) + multiset(s[b..]);
      assert t in s[..b] && s[b] in s[b..];
      assert multiset(s)[t] > 0;
      assert Simple(tris[t]);
      assert multiset(s)[t] <= 1;
    }
  }

  /** After the fuse loop no live triangle names v, so v's incidence list is empty. */
  lemma NoneLeft(deadTris: seq<int>, tris: seq<Triangle>, deadVerts: seq<int>, nVerts: int,
                 inc: seq<seq<int>>, v: int)
    requires MeshInvariant(deadTris, tris, deadVerts, nVerts, inc) && 0 <= v < nVerts
    requires forall t | Live(deadTris, |tris|, t) :: !tris[t].Has(v)
    ensures inc[v] == []
  {
    forall t
      ensures multiset(inc[v])[t] == 0
    {
      assert multiset(inc[v])[t] == Refs(deadTris, tris, v, t);
    }
    assert multiset(inc[v]) == multiset{};
  }

  /** The triangle loop of the fuse of v into i: every triangle on v, from the last
      incidence entry down, is dropped or retargeted. */
  method FuseTriangles<V>(mesh: TriMesh<V>, i: int, v: int) returns (ghost done: seq<int>)
    requires mesh.Valid() && Proper(mesh.deadTris, mesh.triData)
    requires mesh.LiveVertex(i) && 0 <= v < |mesh.vertData| && i != v
    modifies mesh`deadTris, mesh`triData, mesh`incidence
    ensures mesh.Valid() && Proper(mesh.deadTris, mesh.triData)
    ensures done == Reversed(old(mesh.incidence[v]))
    ensures forall k | 0 <= k < |old(mesh.incidence[v])| :: 0 <= old(mesh.incidence[v][k]) < |old(mesh.triData)|
    ensures forall t | 0 <= t < |old(mesh.triData)| ::
      t in done <==> old(mesh.LiveTriangle(t)) && old(mesh.triData[t]).Has(v)
    ensures Fused(old(mesh.deadTris), old(mesh.triData), v, i, done, mesh.deadTris, mesh.triData)
  {
    ghost var dead0, tris0 := mesh.deadTris, mesh.triData;
    var tris := mesh.VertexIncidence(v);
    IncidenceNoDup(dead0, tris0, tris, v);
    done := FuseAll(mesh, i, v, tris, dead0, tris0);
    ReversedMembers(tris);
  }

  /** The loop over the incidence list tris of v, from its last entry down. */
  method FuseAll<V>(mesh: TriMesh<V>, i: int, v: int, tris: seq<int>,
                    ghost dead0: seq<int>, ghost tris0: seq<Triangle>) returns (ghost done: seq<int>)
    requires mesh.Valid() && Proper(mesh.deadTris, mesh.triData)
    requires mesh.LiveVertex(i) && i != v
    requires dead0 == mesh.deadTris && tris0 == mesh.triData && NoDup(tris)
    requires forall k | 0 <= k < |tris| :: Live(dead0, |tris0|, tris[k]) && tris0[tris[k]].Has(v)
    modifies mesh`deadTris, mesh`triData, mesh`incidence
    ensures mesh.Valid() && Proper(mesh.deadTris, mesh.triData)
    ensures done == Reversed(tris)
    ensures Fused(dead0, tris0, v, i, done, mesh.deadTris, mesh.triData)
  {
    done := [];
    var k := |tris| - 1;
    assert mesh.deadTris == dead0 + Dropped(done, tris0, i);
    while k >= 0
      invariant -1 <= k < |tris|
      invariant mesh.Valid() && Proper(mesh.deadTris, mesh.triData) && mesh.LiveVertex(i)
      invariant done == Reversed(tris[k + 1..])
      invariant Fused(dead0, tris0, v, i, done, mesh.deadTris, mesh.triData)
    {
      ReversedStep(tris, k);
      FuseTriangle(mesh, i, v, tris[k], dead0, tris0, done);
      done := done + [tris[k]];
      k := k - 1;
    }
    assert tris[0..] == tris;
  }

  /** Reversing one more entry from the front puts it last, and it was not among
      the entries already reversed. */
  lemma ReversedStep(s: seq<int>, k: int)
    requires 0 <= k < |s| && NoDup(s)
    ensures Reversed(s[k..]) == Reversed(s[k + 1..]) + [s[k]]
    ensures s[k] !in Reversed(s[k + 1..])
  {
    ReversedTail(s, k);
    var r' := Reversed(s[k + 1..]);
    assert forall m | 0 <= m < |r'| :: r'[m] == s[|s| - 1 - m];
  }

  /** A reversed list has the entries of the list. */
  lemma ReversedMembers(s: seq<int>)
    ensures forall t :: t in Reversed(s) <==> t in s
  {
    var r := Reversed(s);
    forall t | t in s
      ensures t in r
    {
      var m :| 0 <= m < |s| && s[m] == t;
      assert r[|s| - 1 - m] == t;
    }
  }

  /** The end of the triangle loop: every triangle on v has been dropped or
      retargeted, so no live triangle names v any more. */
  lemma FusedFinal(dead0: seq<int>, tris0: seq<Triangle>, v: int, i: int, done: seq<int>,
                   deadTris: seq<int>, tris: seq<Triangle>)
    requires Fused(dead0, tris0, v, i, done, deadTris, tris) && Proper(dead0, tris0) && i != v
    requires forall t | 0 <= t < |tris0| :: t in done <==> Live(dead0, |tris0|, t) && tris0[t].Has(v)
    ensures forall t | 0 <= t < |tris| ::
      tris[t] == if Live(dead0, |tris0|, t) && tris0[t].Has(v) && !tris0[t].Has(i)
                 then tris0[t].ReplaceAll(v, i) else tris0[t]
    ensures forall t | 0 <= t < |tris| ::
      Live(deadTris, |tris|, t) <==> Live(dead0, |tris0|, t) && !(tris0[t].Has(v) && tris0[t].Has(i))
    ensures forall t | Live(deadTris, |tris|, t) :: !tris[t].Has(v)
  {
    forall t | Live(deadTris, |tris|, t)
      ensures !tris[t].Has(v)
    {
      if t in done {
        assert Simple(tris0[t]);
        assert tris0[t].Count(v) == 1;
      }
    }
  }

  /** Fusing v into i (the body of the overlap loop past the distance test): every
      triangle on v is dropped when it already names i, and otherwise keeps its name
      with v replaced by i; then v, left with no triangles, is removed. */
  method FuseVertex<V>(mesh: TriMesh<V>, i: int, v: int)
    requires mesh.Valid() && Proper(mesh.deadTris, mesh.triData)
    requires mesh.LiveVertex(i) && mesh.LiveVertex(v) && i != v
    modifies mesh`deadTris, mesh`triData, mesh`incidence, mesh`deadVerts
    ensures mesh.Valid() && Proper(mesh.deadTris, mesh.triData)
    ensures mesh.deadVerts == old(mesh.deadVerts) + [v] && mesh.incidence[v] == []
    ensures |mesh.triData| == old(|mesh.triData|)
    ensures forall k | 0 <= k < |old(mesh.incidence[v])| :: 0 <= old(mesh.incidence[v][k]) < |mesh.triData|
    ensures mesh.deadTris == old(mesh.deadTris) + Dropped(Reversed(old(mesh.incidence[v])), old(mesh.triData), i)
    ensures forall t | 0 <= t < |mesh.triData| ::
      mesh.triData[t] == if old(mesh.LiveTriangle(t)) && old(mesh.triData[t]).Has(v) && !old(mesh.triData[t]).Has(i)
                         then old(mesh.triData[t]).ReplaceAll(v, i) else old(mesh.triData[t])
    ensures forall t | 0 <= t < |mesh.triData| ::
      mesh.LiveTriangle(t) <==> old(mesh.LiveTriangle(t)) && !(old(mesh.triData[t]).Has(v) && old(mesh.triData[t]).Has(i))
  {
    ghost var dead0, tris0 := mesh.deadTris, mesh.triData;
    ghost var done := FuseTriangles(mesh, i, v);
    FusedFinal(dead0, tris0, v, i, done, mesh.deadTris, mesh.triData);
    NoneLeft(mesh.deadTris, mesh.triData, mesh.deadVerts, |mesh.vertData|, mesh.incidence, v);
    ghost var dead1 := mesh.deadTris;
    mesh.RemoveVertex(v);
    assert mesh.deadTris == dead1 + Reversed([]);
  }

  /** One fuse of v into i on the triangles (free names dead0, data tris0), as
      FuseVertex leaves them: a live triangle on v is dropped when it names i and
      otherwise has v replaced by i; every other triangle is as before. */
  ghost predicate FuseEffect(dead0: seq<int>, tris0: seq<Triangle>, v: int, i: int,
                             dead: seq<int>, tris: seq<Triangle>) {
    && |tris| == |tris0|
    && (forall t | 0 <= t < |tris| ::
          tris[t] == if Live(dead0, |tris0|, t) && tris0[t].Has(v) && !tris0[t].Has(i)
                     then tris0[t].ReplaceAll(v, i) else tris0[t])
    && (forall t | 0 <= t < |tris| ::
          Live(dead, |tris|, t) <==> Live(dead0, |tris0|, t) && !(tris0[t].Has(v) && tris0[t].Has(i)))
  }

  // ---------------------------------------------------------------------------
  // Fusions composed

  /** The renaming rep with every vertex it sends to v sent to i instead: what rep
      becomes when v is fused into i. */
  function Redirect(rep: seq<int>, v: int, i: int): seq<int> {
    seq(|rep|, x requires 0 <= x < |rep| => if rep[x] == v then i else rep[x])
  }

  /** The renaming that leaves each of n vertices where it is. */
  function Identity(n: nat): seq<int> {
    seq(n, x => x)
  }

  /** The triangles (free names dead, data tris) are those of a base (free names
      dead0, data tris0) with every corner renamed through rep: a live triangle of the
      base stays live exactly when its renamed corners are distinct, and then holds
      them. */
  ghost predicate Merged(dead0: seq<int>, tris0: seq<Triangle>, rep: seq<int>,
                         dead: seq<int>, tris: seq<Triangle>) {
    && |tris| == |tris0|
    && (forall t, k | Live(dead0, |tris0|, t) && 0 <= k < 3 :: 0 <= tris0[t].Corner(k) < |rep|)
    && (forall t | 0 <= t < |tris| ::
          Live(dead, |tris|, t) <==> Live(dead0, |tris0|, t) && Simple(tris0[t].Rename(rep)))
    && (forall t | Live(dead0, |tris0|, t) && Live(dead, |tris|, t) :: tris[t] == tris0[t].Rename(rep))
  }

  /** Renaming through the redirected renaming is renaming, then replacing v by i. */
  lemma RenameRedirect(tri: Triangle, rep: seq<int>, v: int, i: int)
    requires forall k | 0 <= k < 3 :: 0 <= tri.Corner(k) < |rep|
    ensures tri.Rename(Redirect(rep, v, i)) == tri.Rename(rep).ReplaceAll(v, i)
  {
    var a, b := tri.Rename(Redirect(rep, v, i)), tri.Rename(rep).ReplaceAll(v, i);
    assert a.Corner(0) == b.Corner(0) && a.Corner(1) == b.Corner(1) && a.Corner(2) == b.Corner(2);
  }

  /** Replacing v by another name i keeps a triangle simple exactly when it did not
      name both already. */
  lemma ReplaceSimple(tri: Triangle, v: int, i: int)
    requires v != i
    ensures Simple(tri.ReplaceAll(v, i)) <==> Simple(tri) && !(tri.Has(v) && tri.Has(i))
  {
  }

  /** A fuse of v into i after the base was renamed through rep leaves the base
      renamed through rep redirected from v to i. */
  lemma {:induction false} MergedFuse(dead0: seq<int>, tris0: seq<Triangle>, rep: seq<int>,
                                      dead1: seq<int>, tris1: seq<Triangle>, v: int, i: int,
                                      dead2: seq<int>, tris2: seq<Triangle>)
    requires Merged(dead0, tris0, rep, dead1, tris1) && v != i
    requires FuseEffect(dead1, tris1, v, i, dead2, tris2)
    ensures Merged(dead0, tris0, Redirect(rep, v, i), dead2, tris2)
  {
    var rep' := Redirect(rep, v, i);
    forall t | 0 <= t < |tris2|
      ensures Live(dead2, |tris2|, t) <==> Live(dead0, |tris0|, t) && Simple(tris0[t].Rename(rep'))
      ensures Live(dead0, |tris0|, t) && Live(dead2, |tris2|, t) ==> tris2[t] == tris0[t].Rename(rep')
    {
      if Live(dead0, |tris0|, t) {
        var tri := tris0[t].Rename(rep);
        RenameRedirect(tris0[t], rep, v, i);
        ReplaceSimple(tri, v, i);
        if Live(dead1, |tris1|, t) {
          assert tris1[t] == tri;
        }
      }
    }
  }

  /** A base whose triangles are all live and simple is itself renamed through the
      identity. */
  lemma MergedIdentity(tris: seq<Triangle>, n: nat)
    requires forall t, k | 0 <= t < |tris| && 0 <= k < 3 :: 0 <= tris[t].Corner(k) < n
    requires Proper([], tris)
    ensures Merged([], tris, Identity(n), [], tris)
  {
    forall t | 0 <= t < |tris|
      ensures tris[t].Rename(Identity(n)) == tris[t]
    {
      var r := tris[t].Rename(Identity(n));
      assert r.Corner(0) == tris[t].Corner(0) && r.Corner(1) == tris[t].Corner(1) && r.Corner(2) == tris[t].Corner(2);
    }
  }

  /** What the vertex loop has fused so far, over vertices verts of which deadVerts
      are dead: rep[x] is the live vertex x has ended up in and into[x] the vertex x
      was fused into, both x itself while x lives. Every dead vertex was fused into a
      vertex close to it whose cell is near its own, and ends up where that one does. */
  ghost predicate Fusions<V>(key: V -> Cell, close: (V, V) -> bool, verts: seq<V>, deadVerts: seq<int>,
                             rep: seq<int>, into: seq<int>) {
    && |rep| == |verts| && |into| == |verts|
    && (forall x | 0 <= x < |verts| :: 0 <= rep[x] < |verts| && Live(deadVerts, |verts|, rep[x]) && 0 <= into[x] < |verts|)
    && (forall x | Live(deadVerts, |verts|, x) :: rep[x] == x && into[x] == x)
    && (forall x | 0 <= x < |verts| && !Live(deadVerts, |verts|, x) ::
          && into[x] != x && close(verts[into[x]], verts[x])
          && Near(key(verts[x]), key(verts[into[x]])) && rep[x] == rep[into[x]])
  }

  /** Fusing live v into live i, close to it and in a nearby cell, keeps the record. */
  lemma FuseFusions<V>(key: V -> Cell, close: (V, V) -> bool, verts: seq<V>, deadVerts: seq<int>,
                       rep: seq<int>, into: seq<int>, v: int, i: int)
    requires Fusions(key, close, verts, deadVerts, rep, into)
    requires Live(deadVerts, |verts|, v) && Live(deadVerts, |verts|, i) && v != i
    requires close(verts[i], verts[v]) && Near(key(verts[v]), key(verts[i]))
    ensures Fusions(key, close, verts, deadVerts + [v], Redirect(rep, v, i), into[v := i])
  {
    var dv, rep' := deadVerts + [v], Redirect(rep, v, i);
    assert forall x :: Live(dv, |verts|, x) <==> Live(deadVerts, |verts|, x) && x != v;
    forall x | 0 <= x < |verts|
      ensures Live(dv, |verts|, rep'[x])
    {
      assert Live(deadVerts, |verts|, rep[x]);
    }
  }

  // ---------------------------------------------------------------------------
  // The vertex loop

  /** The vertex hash: every cell holds -1 or a live vertex above i recorded at its
      own cell. */
  ghost predicate HashSound<V>(hash: map<Cell, int>, key: V -> Cell, verts: seq<V>, deadVerts: seq<int>, i: int) {
    forall d | d in hash ::
      hash[d] == -1 || (i < hash[d] && Live(deadVerts, |verts|, hash[d]) && key(verts[hash[d]]) == d)
  }

  /** A sound hash stores each vertex at one cell only. */
  lemma HashInjective<V>(hash: map<Cell, int>, key: V -> Cell, verts: seq<V>, deadVerts: seq<int>, i: int)
    requires HashSound(hash, key, verts, deadVerts, i)
    ensures Injective(hash)
  {
  }

  /** The vertex loop's invariant before vertex i: the mesh is sound with simple
      triangles and its original vertex data, no vertex up to i is dead, and the hash
      is sound. */
  ghost predicate Repairing<V>(mesh: TriMesh<V>, key: V -> Cell, verts: seq<V>, hash: map<Cell, int>, i: int)
    reads mesh
  {
    && mesh.Valid() && Proper(mesh.deadTris, mesh.triData) && mesh.vertData == verts
    && -1 <= i < |verts|
    && (forall k | 0 <= k < |mesh.deadVerts| :: mesh.deadVerts[k] > i)
    && HashSound(hash, key, verts, mesh.deadVerts, i)
  }

  /** The candidates of vertex i, in cell c: vertices above i whose cells are near c. */
  ghost predicate Candidates<V>(key: V -> Cell, verts: seq<V>, overlaps: seq<int>, c: Cell, i: int) {
    forall k | 0 <= k < |overlaps| ::
      0 <= overlaps[k] < |verts| && i < overlaps[k] && Near(key(verts[overlaps[k]]), c)
  }

  /** What the probe finds in a sound hash are candidates, each listed once. */
  lemma ProbeCandidates<V>(hash: map<Cell, int>, key: V -> Cell, verts: seq<V>, deadVerts: seq<int>,
                           i: int, c: Cell, overlaps: seq<int>)
    requires HashSound(hash, key, verts, deadVerts, i)
    requires forall v :: v in overlaps <==> v > 0 && exists d :: Near(d, c) && d in hash && hash[d] == v
    ensures Candidates(key, verts, overlaps, c, i)
    ensures forall k | 0 <= k < |overlaps| :: overlaps[k] !in deadVerts
  {
    forall k | 0 <= k < |overlaps|
      ensures 0 <= overlaps[k] < |verts| && i < overlaps[k] && Near(key(verts[overlaps[k]]), c)
      ensures overlaps[k] !in deadVerts
    {
      assert overlaps[k] in overlaps;
      var d :| Near(d, c) && d in hash && hash[d] == overlaps[k];
    }
  }

  /** The overlap loop's state before entry j (entries j+1 onwards done): the
      vertices dead on entry stay dead in front; each vertex that died since is a
      done entry close to i; each done entry close to i is dead; no entry still to
      do is dead. */
  ghost predicate ScanState<V>(dv0: seq<int>, deadVerts: seq<int>, verts: seq<V>, close: (V, V) -> bool,
                               i: int, overlaps: seq<int>, j: int) {
    && 0 <= i < |verts| && -1 <= j < |overlaps| && NoDup(overlaps)
    && |dv0| <= |deadVerts| && deadVerts[..|dv0|] == dv0
    && (forall k | |dv0| <= k < |deadVerts| ::
          deadVerts[k] in overlaps[j + 1..] && 0 <= deadVerts[k] < |verts| && close(verts[i], verts[deadVerts[k]]))
    && (forall k | j < k < |overlaps| && 0 <= overlaps[k] < |verts| && close(verts[i], verts[overlaps[k]]) ::
          overlaps[k] in deadVerts)
    && (forall k | 0 <= k <= j :: overlaps[k] !in deadVerts)
  }

  /** Entry j, close to i, fused: it is now dead, the rest unchanged. */
  lemma ScanFused<V>(dv0: seq<int>, deadVerts: seq<int>, verts: seq<V>, close: (V, V) -> bool,
                     i: int, overlaps: seq<int>, j: int)
    requires ScanState(dv0, deadVerts, verts, close, i, overlaps, j) && 0 <= j
    requires 0 <= overlaps[j] < |verts| && close(verts[i], verts[overlaps[j]])
    ensures ScanState(dv0, deadVerts + [overlaps[j]], verts, close, i, overlaps, j - 1)
  {
    var dv := deadVerts + [overlaps[j]];
    assert dv[..|dv0|] == deadVerts[..|dv0|];
    forall k | |dv0| <= k < |dv|
      ensures dv[k] in overlaps[j..]
    {
      if k < |deadVerts| {
        var m :| 0 <= m < |overlaps[j + 1..]| && overlaps[j + 1..][m] == dv[k];
        assert overlaps[j..][m + 1] == dv[k];
      } else {
        assert overlaps[j..][0] == dv[k];
      }
    }
    forall k | 0 <= k <= j - 1
      ensures overlaps[k] !in dv
    {
      assert overlaps[k] != overlaps[j];
    }
  }

  /** Entry j, not close to i, skipped. */
  lemma ScanSkipped<V>(dv0: seq<int>, deadVerts: seq<int>, verts: seq<V>, close: (V, V) -> bool,
                       i: int, overlaps: seq<int>, j: int)
    requires ScanState(dv0, deadVerts, verts, close, i, overlaps, j) && 0 <= j
    requires 0 <= overlaps[j] < |verts| && !close(verts[i], verts[overlaps[j]])
    ensures ScanState(dv0, deadVerts, verts, close, i, overlaps, j - 1)
  {
    forall k | |dv0| <= k < |deadVerts|
      ensures deadVerts[k] in overlaps[j..]
    {
      var m :| 0 <= m < |overlaps[j + 1..]| && overlaps[j + 1..][m] == deadVerts[k];
      assert overlaps[j..][m + 1] == deadVerts[k];
    }
  }

  /** Clearing the cell of a vertex v that has just died keeps the hash sound. */
  lemma ClearSound<V>(hash: map<Cell, int>, key: V -> Cell, verts: seq<V>, deadVerts: seq<int>, i: int, v: int)
    requires HashSound(hash, key, verts, deadVerts, i) && 0 <= v < |verts|
    ensures HashSound(hash[key(verts[v]) := -1], key, verts, deadVerts + [v], i)
  {
  }

  /** Recording live vertex i at its own cell makes the hash sound below i. */
  lemma RecordSound<V>(hash: map<Cell, int>, key: V -> Cell, verts: seq<V>, deadVerts: seq<int>, i: int)
    requires HashSound(hash, key, verts, deadVerts, i) && Live(deadVerts, |verts|, i)
    ensures HashSound(hash[key(verts[i]) := i], key, verts, deadVerts, i - 1)
  {
  }

  /** One entry of the overlap loop: a candidate v close to i is fused into i and
      its cell cleared; any other is skipped and nothing changes. The fuse redirects
      the survivor of every vertex that ended up in v to i, and records i as what v
      was fused into. */
  method ScanStep<V>(mesh: TriMesh<V>, key: V -> Cell, close: (V, V) -> bool, hash: map<Cell, int>, i: int,
                     overlaps: seq<int>, j: int, ghost dv0: seq<int>,
                     ghost tris0: seq<Triangle>, ghost rep: seq<int>, ghost into: seq<int>)
    returns (hash': map<Cell, int>, ghost rep': seq<int>, ghost into': seq<int>)
    requires Repairing(mesh, key, mesh.vertData, hash, i) && 0 <= j
    requires ScanState(dv0, mesh.deadVerts, mesh.vertData, close, i, overlaps, j)
    requires Candidates(key, mesh.vertData, overlaps, key(mesh.vertData[i]), i)
    requires Fusions(key, close, mesh.vertData, mesh.deadVerts, rep, into)
    requires Merged([], tris0, rep, mesh.deadTris, mesh.triData)
    modifies mesh`deadTris, mesh`triData, mesh`incidence, mesh`deadVerts
    ensures Repairing(mesh, key, old(mesh.vertData), hash', i)
    ensures ScanState(dv0, mesh.deadVerts, old(mesh.vertData), close, i, overlaps, j - 1)
    ensures Fusions(key, close, mesh.vertData, mesh.deadVerts, rep', into')
    ensures Merged([], tris0, rep', mesh.deadTris, mesh.triData)
    ensures |mesh.triData| == old(|mesh.triData|) && |old(mesh.deadTris)| <= |mesh.deadTris|
    ensures var v := overlaps[j];
      close(old(mesh.vertData[i]), old(mesh.vertData[v])) ==>
        && hash' == hash[key(old(mesh.vertData[v])) := -1]
        && mesh.deadVerts == old(mesh.deadVerts) + [v]
        && FuseEffect(old(mesh.deadTris), old(mesh.triData), v, i, mesh.deadTris, mesh.triData)
        && rep' == Redirect(rep, v, i) && into' == into[v := i]
    ensures var v := overlaps[j];
      !close(old(mesh.vertData[i]), old(mesh.vertData[v])) ==>
        && hash' == hash && rep' == rep && into' == into
        && mesh.deadVerts == old(mesh.deadVerts) && mesh.deadTris == old(mesh.deadTris)
        && mesh.triData == old(mesh.triData) && mesh.incidence == old(mesh.incidence)
  {
    ghost var verts, dv, dt, tris := mesh.vertData, mesh.deadVerts, mesh.deadTris, mesh.triData;
    var v := overlaps[j];
    if close(mesh.vertData[i], mesh.vertData[v]) {
      FuseVertex(mesh, i, v);
      hash' := hash[key(mesh.vertData[v]) := -1];
      ClearSound(hash, key, verts, dv, i, v);
      ScanFused(dv0, dv, verts, close, i, overlaps, j);
      assert FuseEffect(dt, tris, v, i, mesh.deadTris, mesh.triData);
      MergedFuse([], tris0, rep, dt, tris, v, i, mesh.deadTris, mesh.triData);
      FuseFusions(key, close, verts, dv, rep, into, v, i);
      rep', into' := Redirect(rep, v, i), into[v := i];
    } else {
      hash', rep', into' := hash, rep, into;
      ScanSkipped(dv0, dv, verts, close, i, overlaps, j);
    }
  }

  /** At the end of the overlap loop: every vertex that died is a candidate close to
      i, and every candidate the hash held near i's cell that is close to i died. */
  lemma ScanFinished<V>(hash: map<Cell, int>, key: V -> Cell, verts: seq<V>, close: (V, V) -> bool,
                        dv0: seq<int>, deadVerts: seq<int>, i: int, c: Cell, overlaps: seq<int>, fused: seq<int>)
    requires ScanState(dv0, deadVerts, verts, close, i, overlaps, -1) && fused == deadVerts[|dv0|..]
    requires Candidates(key, verts, overlaps, c, i) && HashSound(hash, key, verts, dv0, i)
    requires forall k | 0 <= k < |overlaps| :: overlaps[k] !in dv0
    requires forall v :: v in overlaps <==> v > 0 && exists d :: Near(d, c) && d in hash && hash[d] == v
    ensures forall k | 0 <= k < |fused| ::
      && i < fused[k] < |verts| && close(verts[i], verts[fused[k]]) && Near(key(verts[fused[k]]), c)
      && key(verts[fused[k]]) in hash && hash[key(verts[fused[k]])] == fused[k]
    ensures forall d | Near(d, c) && d in hash && hash[d] > 0 ::
      0 <= hash[d] < |verts| && (close(verts[i], verts[hash[d]]) ==> hash[d] in fused)
  {
    forall k | |dv0| <= k < |deadVerts|
      ensures i < deadVerts[k] < |verts| && Near(key(verts[deadVerts[k]]), c)
    {
      assert overlaps[0..] == overlaps;
      assert deadVerts[k] in overlaps;
    }
    forall k | 0 <= k < |fused|
      ensures i < fused[k] < |verts| && close(verts[i], verts[fused[k]]) && Near(key(verts[fused[k]]), c)
      ensures key(verts[fused[k]]) in hash && hash[key(verts[fused[k]])] == fused[k]
    {
      assert fused[k] == deadVerts[|dv0| + k];
      assert fused[k] in overlaps;
      var d :| Near(d, c) && d in hash && hash[d] == fused[k];
    }
    forall d | Near(d, c) && d in hash && hash[d] > 0
      ensures 0 <= hash[d] < |verts| && (close(verts[i], verts[hash[d]]) ==> hash[d] in deadVerts)
    {
      assert hash[d] in overlaps;
      var m :| 0 <= m < |overlaps| && overlaps[m] == hash[d];
      if close(verts[i], verts[hash[d]]) {
        var k :| 0 <= k < |deadVerts| && deadVerts[k] == hash[d];
        assert deadVerts[..|dv0|] == dv0;
        assert fused[k - |dv0|] == hash[d];
      }
    }
  }

  /** hash with the cell of each vertex of vs, in turn, set to -1. */
  ghost function Cleared<V>(hash: map<Cell, int>, key: V -> Cell, verts: seq<V>, vs: seq<int>): map<Cell, int>
    requires forall k | 0 <= k < |vs| :: 0 <= vs[k] < |verts|
  {
    if |vs| == 0 then hash
    else Cleared(hash, key, verts, vs[..|vs| - 1])[key(verts[vs[|vs| - 1]]) := -1]
  }

  /** Clearing the cells of vs leaves every other cell as it was. */
  lemma {:induction false} ClearedElsewhere<V>(hash: map<Cell, int>, key: V -> Cell, verts: seq<V>, vs: seq<int>, c: Cell)
    requires forall k | 0 <= k < |vs| :: 0 <= vs[k] < |verts| && key(verts[vs[k]]) != c
    ensures c in Cleared(hash, key, verts, vs) <==> c in hash
    ensures c in hash ==> Cleared(hash, key, verts, vs)[c] == hash[c]
  {
    if |vs| > 0 {
      ClearedElsewhere(hash, key, verts, vs[..|vs| - 1], c);
    }
  }

  /** The overlap loop's bookkeeping before entry j: fused lists the vertices that
      have died so far in this pass; the hash has their cells cleared, their
      survivors are redirected to i and i is what they were fused into. */
  ghost predicate PassSoFar<V>(key: V -> Cell, verts: seq<V>, hash0: map<Cell, int>, rep0: seq<int>, into0: seq<int>,
                               i: int, fused: seq<int>, hash: map<Cell, int>, rep: seq<int>, into: seq<int>) {
    && (forall k | 0 <= k < |fused| :: 0 <= fused[k] < |verts| && fused[k] != i)
    && hash == Cleared(hash0, key, verts, fused)
    && |rep| == |rep0| && |into| == |into0|
    && (forall x | 0 <= x < |rep| :: rep[x] == if rep0[x] in fused then i else rep0[x])
    && (forall x | 0 <= x < |into| :: into[x] == if x in fused then i else into0[x])
  }

  /** One more fused vertex v extends the bookkeeping. */
  lemma PassStep<V>(key: V -> Cell, verts: seq<V>, hash0: map<Cell, int>, rep0: seq<int>, into0: seq<int>,
                    i: int, fused: seq<int>, hash: map<Cell, int>, rep: seq<int>, into: seq<int>, v: int)
    requires PassSoFar(key, verts, hash0, rep0, into0, i, fused, hash, rep, into)
    requires 0 <= v < |verts| && v < |into| && v != i
    ensures PassSoFar(key, verts, hash0, rep0, into0, i, fused + [v],
                      hash[key(verts[v]) := -1], Redirect(rep, v, i), into[v := i])
  {
    assert (fused + [v])[..|fused|] == fused;
  }

  /** A list is its first n entries followed by the rest. */
  lemma SplitAt(s: seq<int>, n: nat)
    requires n <= |s|
    ensures s == s[..n] + s[n..]
  {
  }

  /** Appending to a list appends to each of its tails. */
  lemma SliceAppend(s: seq<int>, n: nat, v: int)
    requires n <= |s|
    ensures (s + [v])[n..] == s[n..] + [v]
  {
  }

  /** One pass of the vertex loop, for vertex i in cell key(vertex i): every
      overlapping vertex close to i is fused into it and its hash entry cleared,
      then i is recorded at its cell. Exactly the candidates close to i die (fused,
      in the order met): the vertices the hash records near i's cell. Every vertex
      that ended up in one of them now ends up in i, and the triangles are the base
      renamed through the survivors so redirected. */
  method RepairVertex<V>(mesh: TriMesh<V>, key: V -> Cell, close: (V, V) -> bool, hash: map<Cell, int>, i: int,
                         ghost tris0: seq<Triangle>, ghost rep: seq<int>, ghost into: seq<int>)
    returns (hash': map<Cell, int>, ghost fused: seq<int>, ghost rep': seq<int>, ghost into': seq<int>)
    requires Repairing(mesh, key, mesh.vertData, hash, i) && i >= 0
    requires Fusions(key, close, mesh.vertData, mesh.deadVerts, rep, into)
    requires Merged([], tris0, rep, mesh.deadTris, mesh.triData)
    modifies mesh`deadTris, mesh`triData, mesh`incidence, mesh`deadVerts
    ensures Repairing(mesh, key, old(mesh.vertData), hash', i - 1)
    ensures Fusions(key, close, mesh.vertData, mesh.deadVerts, rep', into')
    ensures Merged([], tris0, rep', mesh.deadTris, mesh.triData)
    ensures |mesh.triData| == old(|mesh.triData|) && |old(mesh.deadTris)| <= |mesh.deadTris|
    ensures mesh.deadVerts == old(mesh.deadVerts) + fused
    ensures forall k | 0 <= k < |fused| ::
      && i < fused[k] < |mesh.vertData|
      && close(mesh.vertData[i], mesh.vertData[fused[k]])
      && Near(key(mesh.vertData[fused[k]]), key(mesh.vertData[i]))
      && key(mesh.vertData[fused[k]]) in hash && hash[key(mesh.vertData[fused[k]])] == fused[k]
    ensures forall d | Near(d, key(mesh.vertData[i])) && d in hash && hash[d] > 0 ::
      0 <= hash[d] < |mesh.vertData| &&
      (close(mesh.vertData[i], mesh.vertData[hash[d]]) ==> hash[d] in fused)
    ensures hash' == Cleared(hash, key, mesh.vertData, fused)[key(mesh.vertData[i]) := i]
    ensures |rep'| == |rep| && forall x | 0 <= x < |rep| :: rep'[x] == if rep[x] in fused then i else rep[x]
    ensures |into'| == |into| && forall x | 0 <= x < |into| :: into'[x] == if x in fused then i else into[x]
  {
    ghost var verts, dv0 := mesh.vertData, mesh.deadVerts;
    var c := key(mesh.vertData[i]);
    var overlaps := Probe(hash, c);
    HashInjective(hash, key, verts, dv0, i);
    ProbeCandidates(hash, key, verts, dv0, i, c, overlaps);
    assert dv0[..|dv0|] == dv0;
    hash', rep', into' := ScanOverlaps(mesh, key, close, hash, i, overlaps, tris0, rep, into);
    fused := mesh.deadVerts[|dv0|..];
    SplitAt(mesh.deadVerts, |dv0|);
    ScanFinished(hash, key, verts, close, dv0, mesh.deadVerts, i, c, overlaps, fused);
    RecordSound(hash', key, verts, mesh.deadVerts, i);
    hash' := hash'[c := i];
  }

  /** The overlap loop of one pass, entries taken from the last to the first, each
      through ScanStep; on exit the pass's bookkeeping covers every vertex fused. */
  method ScanOverlaps<V>(mesh: TriMesh<V>, key: V -> Cell, close: (V, V) -> bool, hash: map<Cell, int>, i: int,
                         overlaps: seq<int>, ghost tris0: seq<Triangle>, ghost rep: seq<int>, ghost into: seq<int>)
    returns (hash': map<Cell, int>, ghost rep': seq<int>, ghost into': seq<int>)
    requires Repairing(mesh, key, mesh.vertData, hash, i)
    requires ScanState(mesh.deadVerts, mesh.deadVerts, mesh.vertData, close, i, overlaps, |overlaps| - 1)
    requires Candidates(key, mesh.vertData, overlaps, key(mesh.vertData[i]), i)
    requires Fusions(key, close, mesh.vertData, mesh.deadVerts, rep, into)
    requires Merged([], tris0, rep, mesh.deadTris, mesh.triData)
    modifies mesh`deadTris, mesh`triData, mesh`incidence, mesh`deadVerts
    ensures Repairing(mesh, key, old(mesh.vertData), hash', i)
    ensures ScanState(old(mesh.deadVerts), mesh.deadVerts, old(mesh.vertData), close, i, overlaps, -1)
    ensures Fusions(key, close, mesh.vertData, mesh.deadVerts, rep', into')
    ensures Merged([], tris0, rep', mesh.deadTris, mesh.triData)
    ensures |mesh.triData| == old(|mesh.triData|) && |old(mesh.deadTris)| <= |mesh.deadTris|
    ensures PassSoFar(key, mesh.vertData, hash, rep, into, i, mesh.deadVerts[|old(mesh.deadVerts)|..], hash', rep', into')
  {
    ghost var verts, dv0 := mesh.vertData, mesh.deadVerts;
    assert dv0[|dv0|..] == [];
    hash' := hash;
    rep', into' := rep, into;
    var j := |overlaps| - 1;
    while j >= 0
      invariant -1 <= j < |overlaps|
      invariant Repairing(mesh, key, verts, hash', i)
      invariant ScanState(dv0, mesh.deadVerts, verts, close, i, overlaps, j)
      invariant |mesh.triData| == old(|mesh.triData|) && |old(mesh.deadTris)| <= |mesh.deadTris|
      invariant Fusions(key, close, verts, mesh.deadVerts, rep', into')
      invariant Merged([], tris0, rep', mesh.deadTris, mesh.triData)
      invariant PassSoFar(key, verts, hash, rep, into, i, mesh.deadVerts[|dv0|..], hash', rep', into')
    {
      ghost var dv, h0, r0, n0 := mesh.deadVerts, hash', rep', into';
      hash', rep', into' := ScanStep(mesh, key, close, hash', i, overlaps, j, dv0, tris0, rep', into');
      if close(verts[i], verts[overlaps[j]]) {
        PassStep(key, verts, hash, rep, into, i, dv[|dv0|..], h0, r0, n0, overlaps[j]);
        SliceAppend(dv, |dv0|, overlaps[j]);
      }
      j := j - 1;
    }
  }

  /** Garbage collection keeps every live triangle simple: it renames the corners
      of each through a renaming that is one to one on live vertices. */
  lemma ProperRenamed(deadTris: seq<int>, tris: seq<Triangle>, deadVerts: seq<int>, nVerts: int,
                      tris': seq<Triangle>, ren: seq<int>, vinv: seq<int>, tren: seq<int>, tinv: seq<int>)
    requires Proper(deadTris, tris) && CornersLive(deadTris, tris, deadVerts, nVerts)
    requires |ren| == nVerts && |tren| == |tris| && |tinv| == |tris'|
    requires forall x | Live(deadVerts, nVerts, x) :: 0 <= ren[x] < |vinv| && vinv[ren[x]] == x
    requires forall y | 0 <= y < |tris'| :: Live(deadTris, |tris|, tinv[y]) && tren[tinv[y]] == y
    requires forall t | Live(deadTris, |tris|, t) :: 0 <= tren[t] < |tris'|
    requires forall t | Live(deadTris, |tris|, t) :: tris'[tren[t]] == tris[t].Rename(ren)
    ensures Proper([], tris')
  {
    forall y | Live([], |tris'|, y)
      ensures Simple(tris'[y])
    {
      var t := tinv[y];
      var tri := tris[t];
      assert forall k | 0 <= k < 3 :: Live(deadVerts, nVerts, tri.Corner(k));
      assert tri.Corner(0) == tri.v0 && tri.Corner(1) == tri.v1 && tri.Corner(2) == tri.v2;
      assert vinv[ren[tri.v0]] == tri.v0 && vinv[ren[tri.v1]] == tri.v1 && vinv[ren[tri.v2]] == tri.v2;
      assert tris'[y] == tri.Rename(ren);
    }
  }

  /** What repair_mesh_vertices does to the vertices, from the input (dead0 free
      among verts0) to the output verts: each live input vertex x ends up in output
      vertex fate[x]. Either x survives (into[x] == x), its data kept there and no
      other survivor sharing that name; or x was fused into into[x], a live input
      vertex close to it whose cell is near its own, and ends up where that one does.
      Every output vertex y is where the survivor origin[y] ended up. */
  ghost predicate VertexOutcome<V>(key: V -> Cell, close: (V, V) -> bool, dead0: seq<int>, verts0: seq<V>,
                                   verts: seq<V>, fate: seq<int>, into: seq<int>, origin: seq<int>) {
    && |fate| == |verts0| && |into| == |verts0| && |origin| == |verts|
    && (forall x | Live(dead0, |verts0|, x) ::
          0 <= fate[x] < |verts| && 0 <= into[x] < |verts0| && Live(dead0, |verts0|, into[x]))
    && (forall x | Live(dead0, |verts0|, x) && into[x] == x :: verts[fate[x]] == verts0[x])
    && (forall x | Live(dead0, |verts0|, x) && into[x] != x ::
          && close(verts0[into[x]], verts0[x]) && Near(key(verts0[x]), key(verts0[into[x]]))
          && fate[x] == fate[into[x]])
    && (forall x, y | Live(dead0, |verts0|, x) && Live(dead0, |verts0|, y) && into[x] == x && into[y] == y && x != y ::
          fate[x] != fate[y])
    && (forall y | 0 <= y < |origin| ::
          && 0 <= origin[y] < |verts0| && Live(dead0, |verts0|, origin[y])
          && into[origin[y]] == origin[y] && fate[origin[y]] == y)
  }

  /** What repair_mesh_vertices does to the triangles, from the input (dead0 free
      among tris0) to the output tris, given where each vertex ended up (fate): each
      output triangle y is the live input triangle tsrc[y] with its corners renamed
      through fate, no input triangle is used twice, and a live input triangle is
      used exactly when its renamed corners are distinct. */
  ghost predicate TriangleOutcome(dead0: seq<int>, tris0: seq<Triangle>, tris: seq<Triangle>,
                                  fate: seq<int>, tsrc: seq<int>) {
    && (forall t, k | Live(dead0, |tris0|, t) && 0 <= k < 3 :: 0 <= tris0[t].Corner(k) < |fate|)
    && |tsrc| == |tris|
    && (forall y | 0 <= y < |tsrc| :: Live(dead0, |tris0|, tsrc[y]) && tris[y] == tris0[tsrc[y]].Rename(fate))
    && (forall y, z | 0 <= y < z < |tsrc| :: tsrc[y] != tsrc[z])
    && (forall t | Live(dead0, |tris0|, t) :: t in tsrc <==> Simple(tris0[t].Rename(fate)))
  }

  /** The names the vertex outcome is stated with, built from the renamings of the
      two collections (ren1, vinv1, ren2, vinv2) and the fusions recorded between
      them (rep, into). */
  lemma FateNames(dv0: seq<int>, n0: nat, ren1: seq<int>, vinv1: seq<int>, rep: seq<int>, into: seq<int>,
                  ren2: seq<int>, vinv2: seq<int>)
    returns (fate: seq<int>, into0: seq<int>, origin: seq<int>)
    requires |ren1| == n0 && |rep| == |into| == |vinv1| == |ren2|
    requires forall x | Live(dv0, n0, x) :: 0 <= ren1[x] < |rep|
    requires forall z | 0 <= z < |rep| :: 0 <= rep[z] < |rep| && 0 <= into[z] < |rep|
    requires forall y | 0 <= y < |vinv2| :: 0 <= vinv2[y] < |rep|
    ensures |fate| == n0 && |into0| == n0 && |origin| == |vinv2|
    ensures forall x | Live(dv0, n0, x) :: fate[x] == ren2[rep[ren1[x]]] && into0[x] == vinv1[into[ren1[x]]]
    ensures forall y | 0 <= y < |vinv2| :: origin[y] == vinv1[vinv2[y]]
  {
    fate := seq(n0, x requires 0 <= x < n0 => if Live(dv0, n0, x) then ren2[rep[ren1[x]]] else 0);
    into0 := seq(n0, x requires 0 <= x < n0 => if Live(dv0, n0, x) then vinv1[into[ren1[x]]] else x);
    origin := seq(|vinv2|, y requires 0 <= y < |vinv2| => vinv1[vinv2[y]]);
  }

  /** The fusions, recorded over the names between the two collections (rep, into),
      carried back to the input names and forward to the output names. */
  lemma VertexFates<V>(key: V -> Cell, close: (V, V) -> bool, dv0: seq<int>, verts0: seq<V>,
                       ren1: seq<int>, vinv1: seq<int>, verts1: seq<V>,
                       dvE: seq<int>, rep: seq<int>, into: seq<int>,
                       ren2: seq<int>, vinv2: seq<int>, verts2: seq<V>,
                       fate: seq<int>, into0: seq<int>, origin: seq<int>)
    requires |ren1| == |verts0| && |vinv1| == |verts1|
    requires forall x | Live(dv0, |verts0|, x) ::
      0 <= ren1[x] < |verts1| && vinv1[ren1[x]] == x && verts1[ren1[x]] == verts0[x]
    requires forall y | 0 <= y < |verts1| :: 0 <= vinv1[y] < |verts0| && Live(dv0, |verts0|, vinv1[y]) && ren1[vinv1[y]] == y
    requires Fusions(key, close, verts1, dvE, rep, into)
    requires |ren2| == |verts1| && |vinv2| == |verts2|
    requires forall x | Live(dvE, |verts1|, x) ::
      0 <= ren2[x] < |verts2| && vinv2[ren2[x]] == x && verts2[ren2[x]] == verts1[x]
    requires forall y | 0 <= y < |verts2| :: 0 <= vinv2[y] < |verts1| && Live(dvE, |verts1|, vinv2[y]) && ren2[vinv2[y]] == y
    requires |fate| == |verts0| && |into0| == |verts0| && |origin| == |verts2|
    requires forall x | Live(dv0, |verts0|, x) :: fate[x] == ren2[rep[ren1[x]]] && into0[x] == vinv1[into[ren1[x]]]
    requires forall y | 0 <= y < |verts2| :: origin[y] == vinv1[vinv2[y]]
    ensures VertexOutcome(key, close, dv0, verts0, verts2, fate, into0, origin)
  {
    var n0 := |verts0|;
    forall x, y | Live(dv0, n0, x) && Live(dv0, n0, y) && into0[x] == x && into0[y] == y && x != y
      ensures fate[x] != fate[y]
    {
      VertexFate(key, close, dv0, verts0, ren1, vinv1, verts1, dvE, rep, into, ren2, verts2, x);
      VertexFate(key, close, dv0, verts0, ren1, vinv1, verts1, dvE, rep, into, ren2, verts2, y);
      assert rep[ren1[x]] == ren1[x] && rep[ren1[y]] == ren1[y];
      assert vinv2[fate[x]] == ren1[x] && vinv2[fate[y]] == ren1[y];
    }
    forall y | 0 <= y < |origin|
      ensures 0 <= origin[y] < n0 && Live(dv0, n0, origin[y]) && into0[origin[y]] == origin[y] && fate[origin[y]] == y
    {
      var z := vinv2[y];
      assert ren1[origin[y]] == z && rep[z] == z;
    }
    forall x | Live(dv0, n0, x)
      ensures 0 <= fate[x] < |verts2| && 0 <= into0[x] < n0 && Live(dv0, n0, into0[x])
      ensures into0[x] == x <==> Live(dvE, |verts1|, ren1[x])
      ensures into0[x] == x ==> verts2[fate[x]] == verts0[x]
      ensures into0[x] != x ==>
        && close(verts0[into0[x]], verts0[x]) && Near(key(verts0[x]), key(verts0[into0[x]]))
        && fate[x] == fate[into0[x]]
    {
      VertexFate(key, close, dv0, verts0, ren1, vinv1, verts1, dvE, rep, into, ren2, verts2, x);
      assert fate[vinv1[into[ren1[x]]]] == ren2[rep[into[ren1[x]]]];
    }
  }

  /** One live input vertex x, named z = ren1[x] between the collections: it
      survives exactly when z does, and otherwise the vertex it was fused into, named
      back, is close to it, in a nearby cell, and shares its survivor. */
  lemma VertexFate<V>(key: V -> Cell, close: (V, V) -> bool, dv0: seq<int>, verts0: seq<V>,
                      ren1: seq<int>, vinv1: seq<int>, verts1: seq<V>,
                      dvE: seq<int>, rep: seq<int>, into: seq<int>,
                      ren2: seq<int>, verts2: seq<V>, x: int)
    requires Live(dv0, |verts0|, x) && |ren1| == |verts0| && |vinv1| == |verts1|
    requires forall x | Live(dv0, |verts0|, x) ::
      0 <= ren1[x] < |verts1| && vinv1[ren1[x]] == x && verts1[ren1[x]] == verts0[x]
    requires forall y | 0 <= y < |verts1| :: 0 <= vinv1[y] < |verts0| && Live(dv0, |verts0|, vinv1[y]) && ren1[vinv1[y]] == y
    requires Fusions(key, close, verts1, dvE, rep, into)
    requires |ren2| == |verts1|
    requires forall x | Live(dvE, |verts1|, x) :: 0 <= ren2[x] < |verts2| && verts2[ren2[x]] == verts1[x]
    ensures var z := ren1[x]; var w := vinv1[into[z]];
      && 0 <= ren2[rep[z]] < |verts2| && 0 <= w < |verts0| && Live(dv0, |verts0|, w)
      && (w == x <==> Live(dvE, |verts1|, z))
      && (w == x ==> verts2[ren2[rep[z]]] == verts0[x])
      && (w != x ==>
            && close(verts0[w], verts0[x]) && Near(key(verts0[x]), key(verts0[w]))
            && ren1[w] == into[z] && rep[into[z]] == rep[z])
  {
    var z := ren1[x];
    var w := into[z];
    assert ren1[vinv1[w]] == w && verts0[vinv1[w]] == verts1[w];
    if Live(dvE, |verts1|, z) {
      assert rep[z] == z && w == z;
    } else {
      assert w != z && close(verts1[w], verts1[z]) && Near(key(verts1[z]), key(verts1[w]));
    }
  }

  /** The triangles, followed through the first collection (tren1), the vertex loop
      (the base renamed through rep) and the last collection (tren2). */
  lemma TriangleFates(dv0: seq<int>, n0: nat, dt0: seq<int>, tris0: seq<Triangle>,
                      ren1: seq<int>, tren1: seq<int>, tinv1: seq<int>, tris1: seq<Triangle>,
                      dvE: seq<int>, rep: seq<int>, dtE: seq<int>, trisE: seq<Triangle>,
                      ren2: seq<int>, vinv2: seq<int>, tren2: seq<int>, tinv2: seq<int>, tris2: seq<Triangle>,
                      fate: seq<int>)
    returns (tsrc: seq<int>)
    requires forall t, k | Live(dt0, |tris0|, t) && 0 <= k < 3 ::
      0 <= tris0[t].Corner(k) < n0 && Live(dv0, n0, tris0[t].Corner(k))
    requires |ren1| == n0 && |fate| == n0 && |ren2| == |rep|
    requires forall x | Live(dv0, n0, x) :: 0 <= ren1[x] < |rep|
    requires forall x | 0 <= x < |rep| :: 0 <= rep[x] < |rep| && Live(dvE, |rep|, rep[x])
    requires forall x | Live(dv0, n0, x) :: fate[x] == ren2[rep[ren1[x]]]
    requires |tren1| == |tris0| && |tinv1| == |tris1|
    requires forall t | Live(dt0, |tris0|, t) :: 0 <= tren1[t] < |tris1| && tinv1[tren1[t]] == t
    requires forall y | 0 <= y < |tris1| :: Live(dt0, |tris0|, tinv1[y]) && tren1[tinv1[y]] == y
    requires forall t | Live(dt0, |tris0|, t) :: tris1[tren1[t]] == tris0[t].Rename(ren1)
    requires Merged([], tris1, rep, dtE, trisE)
    requires forall x | Live(dvE, |rep|, x) :: 0 <= ren2[x] < |vinv2| && vinv2[ren2[x]] == x
    requires |tren2| == |trisE| && |tinv2| == |tris2|
    requires forall t | Live(dtE, |trisE|, t) :: 0 <= tren2[t] < |tris2| && tinv2[tren2[t]] == t
    requires forall y | 0 <= y < |tris2| :: Live(dtE, |trisE|, tinv2[y]) && tren2[tinv2[y]] == y
    requires forall t | Live(dtE, |trisE|, t) ::
      (forall k | 0 <= k < 3 :: 0 <= trisE[t].Corner(k) < |ren2|) && tris2[tren2[t]] == trisE[t].Rename(ren2)
    ensures TriangleOutcome(dt0, tris0, tris2, fate, tsrc)
  {
    tsrc := seq(|tris2|, y requires 0 <= y < |tris2| => tinv1[tinv2[y]]);
    forall y, z | 0 <= y < z < |tsrc|
      ensures tsrc[y] != tsrc[z]
    {
      assert tren1[tsrc[y]] == tinv2[y] && tren1[tsrc[z]] == tinv2[z];
      assert tren2[tinv2[y]] == y && tren2[tinv2[z]] == z;
    }
    forall y | 0 <= y < |tsrc|
      ensures Live(dt0, |tris0|, tsrc[y]) && tris2[y] == tris0[tsrc[y]].Rename(fate)
    {
      assert tren1[tsrc[y]] == tinv2[y];
      TriangleFate(dv0, n0, dt0, tris0, ren1, tren1, tris1, dvE, rep, dtE, trisE, ren2, vinv2, tren2, tris2, fate, tsrc[y]);
    }
    forall t | Live(dt0, |tris0|, t)
      ensures t in tsrc <==> Simple(tris0[t].Rename(fate))
    {
      TriangleFate(dv0, n0, dt0, tris0, ren1, tren1, tris1, dvE, rep, dtE, trisE, ren2, vinv2, tren2, tris2, fate, t);
      if t in tsrc {
        var y :| 0 <= y < |tsrc| && tsrc[y] == t;
        assert tren1[t] == tinv2[y];
      }
    }
  }

  /** One live input triangle t, named tren1[t] between the collections: it is still
      live after the vertex loop exactly when its corners renamed through fate are
      distinct, and then the last collection leaves it holding them. */
  lemma TriangleFate(dv0: seq<int>, n0: nat, dt0: seq<int>, tris0: seq<Triangle>,
                     ren1: seq<int>, tren1: seq<int>, tris1: seq<Triangle>,
                     dvE: seq<int>, rep: seq<int>, dtE: seq<int>, trisE: seq<Triangle>,
                     ren2: seq<int>, vinv2: seq<int>, tren2: seq<int>, tris2: seq<Triangle>,
                     fate: seq<int>, t: int)
    requires forall t, k | Live(dt0, |tris0|, t) && 0 <= k < 3 ::
      0 <= tris0[t].Corner(k) < n0 && Live(dv0, n0, tris0[t].Corner(k))
    requires |ren1| == n0 && |fate| == n0 && |ren2| == |rep|
    requires forall x | Live(dv0, n0, x) :: 0 <= ren1[x] < |rep|
    requires forall x | 0 <= x < |rep| :: 0 <= rep[x] < |rep| && Live(dvE, |rep|, rep[x])
    requires forall x | Live(dv0, n0, x) :: fate[x] == ren2[rep[ren1[x]]]
    requires |tren1| == |tris0|
    requires forall t | Live(dt0, |tris0|, t) :: 0 <= tren1[t] < |tris1|
    requires forall t | Live(dt0, |tris0|, t) :: tris1[tren1[t]] == tris0[t].Rename(ren1)
    requires Merged([], tris1, rep, dtE, trisE)
    requires forall x | Live(dvE, |rep|, x) :: 0 <= ren2[x] < |vinv2| && vinv2[ren2[x]] == x
    requires |tren2| == |trisE|
    requires forall t | Live(dtE, |trisE|, t) :: 0 <= tren2[t] < |tris2|
    requires forall t | Live(dtE, |trisE|, t) ::
      (forall k | 0 <= k < 3 :: 0 <= trisE[t].Corner(k) < |ren2|) && tris2[tren2[t]] == trisE[t].Rename(ren2)
    requires Live(dt0, |tris0|, t)
    ensures Live(dtE, |trisE|, tren1[t]) <==> Simple(tris0[t].Rename(fate))
    ensures Live(dtE, |trisE|, tren1[t]) ==> tris2[tren2[tren1[t]]] == tris0[t].Rename(fate)
  {
    var t1 := tren1[t];
    var a := tris0[t];
    var b := tris1[t1];
    var c := b.Rename(rep);
    var d := a.Rename(fate);
    assert b == a.Rename(ren1);
    assert forall k | 0 <= k < 3 :: Live(dv0, n0, a.Corner(k));
    assert forall k | 0 <= k < 3 :: c.Corner(k) == rep[ren1[a.Corner(k)]];
    assert forall k | 0 <= k < 3 :: d.Corner(k) == ren2[c.Corner(k)];
    assert forall k | 0 <= k < 3 :: Live(dvE, |rep|, c.Corner(k));
    assert Simple(d) <==> Simple(c) by {
      assert forall k | 0 <= k < 3 :: vinv2[d.Corner(k)] == c.Corner(k);
      assert d.Corner(0) == d.v0 && d.Corner(1) == d.v1 && d.Corner(2) == d.v2;
      assert c.Corner(0) == c.v0 && c.Corner(1) == c.v1 && c.Corner(2) == c.v2;
    }
    if Live(dtE, |trisE|, t1) {
      var e := tris2[tren2[t1]];
      assert e == c.Rename(ren2);
      assert e.Corner(0) == d.Corner(0) && e.Corner(1) == d.Corner(1) && e.Corner(2) == d.Corner(2);
    }
  }


  /** Vertex w is hidden from the probe of every vertex up to x: a vertex y
      between them, in w's own cell and not close to w, took over that cell. */
  ghost predicate Shadowed<V>(key: V -> Cell, close: (V, V) -> bool, verts: seq<V>, x: int, w: int) {
    0 <= w < |verts| && exists y | x < y < w && 0 <= y :: key(verts[y]) == key(verts[w]) && !close(verts[y], verts[w])
  }

  /** Before vertex i: each live vertex above i is either still recorded at its own
      cell or shadowed there since. */
  ghost predicate Recorded<V>(hash: map<Cell, int>, key: V -> Cell, close: (V, V) -> bool, verts: seq<V>,
                              deadVerts: seq<int>, i: int) {
    forall w | i < w && Live(deadVerts, |verts|, w) ::
      (key(verts[w]) in hash && hash[key(verts[w])] == w) || Shadowed(key, close, verts, i, w)
  }

  /** The vertex loop's completeness above i: two live vertices above i, close and
      in nearby cells, both survive only when the later one was shadowed. */
  ghost predicate Complete<V>(key: V -> Cell, close: (V, V) -> bool, verts: seq<V>, deadVerts: seq<int>, i: int) {
    forall x, w | i < x < w && Live(deadVerts, |verts|, x) && Live(deadVerts, |verts|, w) &&
                  Near(key(verts[w]), key(verts[x])) && close(verts[x], verts[w]) ::
      Shadowed(key, close, verts, x, w)
  }

  /** One pass of the vertex loop, as RepairVertex states it, keeps the vertex
      loop's completeness: a survivor near i and close to it was not recorded at its
      cell, so it was shadowed; and a survivor recorded in i's own cell is now
      shadowed by i. */
  lemma CompleteStep<V>(key: V -> Cell, close: (V, V) -> bool, verts: seq<V>, dead0: seq<int>,
                        hash: map<Cell, int>, i: int, fused: seq<int>, hash': map<Cell, int>)
    requires Live(dead0, |verts|, i)
    requires Recorded(hash, key, close, verts, dead0, i) && Complete(key, close, verts, dead0, i)
    requires forall k | 0 <= k < |fused| ::
      && i < fused[k] < |verts| && key(verts[fused[k]]) in hash && hash[key(verts[fused[k]])] == fused[k]
    requires forall d | Near(d, key(verts[i])) && d in hash && hash[d] > 0 ::
      0 <= hash[d] < |verts| && (close(verts[i], verts[hash[d]]) ==> hash[d] in fused)
    requires hash' == Cleared(hash, key, verts, fused)[key(verts[i]) := i]
    ensures Recorded(hash', key, close, verts, dead0 + fused, i - 1)
    ensures Complete(key, close, verts, dead0 + fused, i - 1)
  {
    var n, dv, c := |verts|, dead0 + fused, key(verts[i]);
    assert forall w :: Live(dv, n, w) <==> Live(dead0, n, w) && w !in fused;
    forall w | i - 1 < w && Live(dv, n, w)
      ensures (key(verts[w]) in hash' && hash'[key(verts[w])] == w) || Shadowed(key, close, verts, i - 1, w)
    {
      var d := key(verts[w]);
      if w != i {
        if d in hash && hash[d] == w {
          if d == c {
            assert Near(d, c) && hash[d] > 0;
            assert !close(verts[i], verts[w]);
            assert Shadowed(key, close, verts, i - 1, w);
          } else {
            assert forall k | 0 <= k < |fused| :: key(verts[fused[k]]) != d;
            ClearedElsewhere(hash, key, verts, fused, d);
          }
        } else {
          var y :| i < y < w && 0 <= y && key(verts[y]) == key(verts[w]) && !close(verts[y], verts[w]);
        }
      }
    }
    forall x, w | i - 1 < x < w && Live(dv, n, x) && Live(dv, n, w) &&
                  Near(key(verts[w]), key(verts[x])) && close(verts[x], verts[w])
      ensures Shadowed(key, close, verts, x, w)
    {
    }
  }

  /** The completeness of repair_mesh_vertices over the input (dead0 free among
      verts0), with survivors those x with into[x] == x and rank[x] the position of x
      in the vertex loop, which visits the vertices from the highest rank down:
      ranks are distinct, and two survivors close to each other and in nearby cells
      are both kept only when a live vertex between them in the loop, in the later
      one's cell and not close to it, took over that cell. */
  ghost predicate LoopComplete<V>(key: V -> Cell, close: (V, V) -> bool, dead0: seq<int>, verts0: seq<V>,
                                  into: seq<int>, rank: seq<int>) {
    && |into| == |verts0| && |rank| == |verts0|
    && (forall x, y | Live(dead0, |verts0|, x) && Live(dead0, |verts0|, y) && x != y :: rank[x] != rank[y])
    && (forall x, w | Live(dead0, |verts0|, x) && Live(dead0, |verts0|, w) && into[x] == x && into[w] == w &&
                      rank[x] < rank[w] && Near(key(verts0[w]), key(verts0[x])) && close(verts0[x], verts0[w]) ::
          exists y | Live(dead0, |verts0|, y) ::
            rank[x] < rank[y] < rank[w] && key(verts0[y]) == key(verts0[w]) && !close(verts0[y], verts0[w]))
  }

  /** When every two live input vertices are close and in nearby cells, at most one
      survives the repair. */
  lemma OneSurvivor<V>(key: V -> Cell, close: (V, V) -> bool, dead0: seq<int>, verts0: seq<V>,
                       into: seq<int>, rank: seq<int>)
    requires LoopComplete(key, close, dead0, verts0, into, rank)
    requires forall x, y | Live(dead0, |verts0|, x) && Live(dead0, |verts0|, y) ::
      Near(key(verts0[x]), key(verts0[y])) && close(verts0[x], verts0[y])
    ensures forall x, w | Live(dead0, |verts0|, x) && Live(dead0, |verts0|, w) && into[x] == x && into[w] == w :: x == w
  {
    forall x, w | Live(dead0, |verts0|, x) && Live(dead0, |verts0|, w) && into[x] == x && into[w] == w
      ensures x == w
    {
      if x != w {
        assert false;
      }
    }
  }


  /** The vertex loop's completeness, on the names between the two collections,
      carried back to the input names: the rank of an input vertex is its name after
      the first collection. */
  lemma CompleteFates<V>(key: V -> Cell, close: (V, V) -> bool, dv0: seq<int>, verts0: seq<V>,
                         ren1: seq<int>, vinv1: seq<int>, verts1: seq<V>,
                         dvE: seq<int>, rep: seq<int>, into: seq<int>, into0: seq<int>)
    requires |ren1| == |verts0| && |vinv1| == |verts1| && |into0| == |verts0|
    requires forall x | Live(dv0, |verts0|, x) ::
      0 <= ren1[x] < |verts1| && vinv1[ren1[x]] == x && verts1[ren1[x]] == verts0[x]
    requires forall y | 0 <= y < |verts1| :: 0 <= vinv1[y] < |verts0| && Live(dv0, |verts0|, vinv1[y]) && ren1[vinv1[y]] == y
    requires Fusions(key, close, verts1, dvE, rep, into)
    requires forall x | Live(dv0, |verts0|, x) :: into0[x] == vinv1[into[ren1[x]]]
    requires Complete(key, close, verts1, dvE, -1)
    ensures LoopComplete(key, close, dv0, verts0, into0, ren1)
  {
    var n0, n1 := |verts0|, |verts1|;
    forall x | Live(dv0, n0, x) && into0[x] == x
      ensures Live(dvE, n1, ren1[x])
    {
      assert ren1[vinv1[into[ren1[x]]]] == into[ren1[x]];
    }
    forall x, w | Live(dv0, n0, x) && Live(dv0, n0, w) && into0[x] == x && into0[w] == w &&
                  ren1[x] < ren1[w] && Near(key(verts0[w]), key(verts0[x])) && close(verts0[x], verts0[w])
      ensures exists y | Live(dv0, n0, y) ::
        ren1[x] < ren1[y] < ren1[w] && key(verts0[y]) == key(verts0[w]) && !close(verts0[y], verts0[w])
    {
      var x1, w1 := ren1[x], ren1[w];
      assert Shadowed(key, close, verts1, x1, w1);
      var y1 :| x1 < y1 < w1 && 0 <= y1 && key(verts1[y1]) == key(verts1[w1]) && !close(verts1[y1], verts1[w1]);
      var y := vinv1[y1];
      assert ren1[y] == y1 && verts0[y] == verts1[y1];
    }
  }

  /** The vertex loop of repair_mesh_vertices, on a collected mesh: each vertex
      from the last down is repaired with RepairVertex against a hash that starts
      empty. Afterwards the triangles are the entry ones renamed through rep, each
      vertex's survivor, and into records what each dead vertex was fused into. */
  method RepairVertices<V>(mesh: TriMesh<V>, key: V -> Cell, close: (V, V) -> bool)
    returns (ghost rep: seq<int>, ghost into: seq<int>)
    requires mesh.Valid() && Proper([], mesh.triData) && mesh.deadTris == [] && mesh.deadVerts == []
    modifies mesh`deadTris, mesh`triData, mesh`incidence, mesh`deadVerts
    ensures mesh.Valid() && Proper(mesh.deadTris, mesh.triData) && mesh.vertData == old(mesh.vertData)
    ensures Fusions(key, close, mesh.vertData, mesh.deadVerts, rep, into)
    ensures Merged([], old(mesh.triData), rep, mesh.deadTris, mesh.triData)
    ensures Complete(key, close, mesh.vertData, mesh.deadVerts, -1)
  {
    ghost var verts1, tris1 := mesh.vertData, mesh.triData;
    MergedIdentity(tris1, |verts1|);
    rep, into := Identity(|verts1|), Identity(|verts1|);
    var hash: map<Cell, int> := map[];
    var i := |mesh.vertData| - 1;
    while i >= 0
      invariant Repairing(mesh, key, verts1, hash, i)
      invariant Fusions(key, close, verts1, mesh.deadVerts, rep, into)
      invariant Merged([], tris1, rep, mesh.deadTris, mesh.triData)
      invariant Recorded(hash, key, close, verts1, mesh.deadVerts, i) && Complete(key, close, verts1, mesh.deadVerts, i)
    {
      ghost var fused, hash0, dead0 := [], hash, mesh.deadVerts;
      hash, fused, rep, into := RepairVertex(mesh, key, close, hash, i, tris1, rep, into);
      CompleteStep(key, close, verts1, dead0, hash0, i, fused, hash);
      i := i - 1;
    }
  }

  /** What garbage_collect() with no orphan cleanup does to a mesh with simple
      triangles, stated on values: every live vertex and live triangle of the old
      lists gets a new name through a bijection (ren and vinv, tren and tinv); each
      vertex keeps its data and each triangle is the old one renamed through ren. */
  ghost predicate Collected<V>(dt0: seq<int>, tris0: seq<Triangle>, dv0: seq<int>, verts0: seq<V>,
                               ren: seq<int>, vinv: seq<int>, tren: seq<int>, tinv: seq<int>,
                               tris1: seq<Triangle>, verts1: seq<V>)
  {
    && CornersLive(dt0, tris0, dv0, |verts0|)
    && |ren| == |verts0| && |vinv| == |verts1| && |tren| == |tris0| && |tinv| == |tris1|
    && (forall x | Live(dv0, |verts0|, x) ::
          0 <= ren[x] < |verts1| && vinv[ren[x]] == x && verts1[ren[x]] == verts0[x])
    && (forall y | 0 <= y < |verts1| :: 0 <= vinv[y] < |verts0| && Live(dv0, |verts0|, vinv[y]) && ren[vinv[y]] == y)
    && (forall t | Live(dt0, |tris0|, t) ::
          0 <= tren[t] < |tris1| && tinv[tren[t]] == t && tris1[tren[t]] == tris0[t].Rename(ren))
    && (forall y | 0 <= y < |tris1| :: Live(dt0, |tris0|, tinv[y]) && tren[tinv[y]] == y)
    && |tris1| == |tris0| - |dt0|
  }

  /** garbage_collect() as repair_mesh_vertices calls it (no orphan cleanup), on a
      mesh with simple triangles: the free lists end empty and the lists are
      renamed as Collected describes. */
  method CollectSimple<V>(mesh: TriMesh<V>)
    returns (ghost ren: seq<int>, ghost vinv: seq<int>, ghost tren: seq<int>, ghost tinv: seq<int>)
    requires mesh.Valid() && Proper(mesh.deadTris, mesh.triData)
    modifies mesh
    ensures mesh.Valid() && Proper([], mesh.triData) && mesh.deadTris == [] && mesh.deadVerts == []
    ensures Collected(old(mesh.deadTris), old(mesh.triData), old(mesh.deadVerts), old(mesh.vertData),
                      ren, vinv, tren, tinv, mesh.triData, mesh.vertData)
  {
    ghost var dt0, tris0, dv0, nv0, inc0 := mesh.deadTris, mesh.triData, mesh.deadVerts, |mesh.vertData|, mesh.incidence;
    assert forall x :: Kept(dv0, inc0, false, x) <==> Live(dv0, nv0, x);
    ren, vinv, tren, tinv := mesh.GarbageCollect(false);
    ProperRenamed(dt0, tris0, dv0, nv0, mesh.triData, ren, vinv, tren, tinv);
  }

  /** The vertex outcome of repair_mesh_vertices from its three phases: a
      collection, the vertex loop and a second collection. fate is each input
      vertex's survivor renamed by both collections. */
  lemma VertexPhases<V>(key: V -> Cell, close: (V, V) -> bool,
                        dt0: seq<int>, tris0: seq<Triangle>, dv0: seq<int>, verts0: seq<V>,
                        ren1: seq<int>, vinv1: seq<int>, tren1: seq<int>, tinv1: seq<int>,
                        tris1: seq<Triangle>, verts1: seq<V>,
                        rep: seq<int>, into1: seq<int>, dtE: seq<int>, trisE: seq<Triangle>, dvE: seq<int>,
                        ren2: seq<int>, vinv2: seq<int>, tren2: seq<int>, tinv2: seq<int>,
                        tris2: seq<Triangle>, verts2: seq<V>)
    returns (fate: seq<int>, into: seq<int>, origin: seq<int>)
    requires Collected(dt0, tris0, dv0, verts0, ren1, vinv1, tren1, tinv1, tris1, verts1)
    requires Fusions(key, close, verts1, dvE, rep, into1)
    requires Complete(key, close, verts1, dvE, -1)
    requires Collected(dtE, trisE, dvE, verts1, ren2, vinv2, tren2, tinv2, tris2, verts2)
    ensures VertexOutcome(key, close, dv0, verts0, verts2, fate, into, origin)
    ensures LoopComplete(key, close, dv0, verts0, into, ren1)
    ensures |fate| == |verts0| && forall x | Live(dv0, |verts0|, x) :: fate[x] == ren2[rep[ren1[x]]]
  {
    fate, into, origin := FateNames(dv0, |verts0|, ren1, vinv1, rep, into1, ren2, vinv2);
    VertexFates(key, close, dv0, verts0, ren1, vinv1, verts1, dvE, rep, into1, ren2, vinv2, verts2,
                fate, into, origin);
    CompleteFates(key, close, dv0, verts0, ren1, vinv1, verts1, dvE, rep, into1, into);
  }

  /** The triangle outcome of repair_mesh_vertices from the same three phases,
      for the fate VertexPhases gives. */
  lemma TrianglePhases<V>(key: V -> Cell, close: (V, V) -> bool,
                          dt0: seq<int>, tris0: seq<Triangle>, dv0: seq<int>, verts0: seq<V>,
                          ren1: seq<int>, vinv1: seq<int>, tren1: seq<int>, tinv1: seq<int>,
                          tris1: seq<Triangle>, verts1: seq<V>,
                          rep: seq<int>, into1: seq<int>, dtE: seq<int>, trisE: seq<Triangle>, dvE: seq<int>,
                          ren2: seq<int>, vinv2: seq<int>, tren2: seq<int>, tinv2: seq<int>,
                          tris2: seq<Triangle>, verts2: seq<V>, fate: seq<int>)
    returns (tsrc: seq<int>)
    requires Collected(dt0, tris0, dv0, verts0, ren1, vinv1, tren1, tinv1, tris1, verts1)
    requires Fusions(key, close, verts1, dvE, rep, into1)
    requires Merged([], tris1, rep, dtE, trisE)
    requires Collected(dtE, trisE, dvE, verts1, ren2, vinv2, tren2, tinv2, tris2, verts2)
    requires |fate| == |verts0| && forall x | Live(dv0, |verts0|, x) :: fate[x] == ren2[rep[ren1[x]]]
    ensures TriangleOutcome(dt0, tris0, tris2, fate, tsrc)
  {
    tsrc := TriangleFates(dv0, |verts0|, dt0, tris0, ren1, tren1, tinv1, tris1, dvE, rep, dtE, trisE,
                          ren2, vinv2, tren2, tinv2, tris2, fate);
  }

  /** repair_mesh_vertices: a garbage collection, the vertex loop from the last
      vertex down, and a final garbage collection. The result is sound, with no free
      name and only simple triangles; its vertices and triangles are those of the
      input as VertexOutcome and TriangleOutcome describe: survivors keep their data,
      every other vertex was fused into a close one, and the triangles are the input
      ones with their corners renamed, less those that collapsed. */
  method RepairMeshVertices<V>(mesh: TriMesh<V>, key: V -> Cell, close: (V, V) -> bool)
    returns (ghost fate: seq<int>, ghost into: seq<int>, ghost origin: seq<int>, ghost tsrc: seq<int>,
             ghost rank: seq<int>)
    requires mesh.Valid() && Proper(mesh.deadTris, mesh.triData)
    modifies mesh
    ensures mesh.Valid() && Proper(mesh.deadTris, mesh.triData)
    ensures mesh.deadTris == [] && mesh.deadVerts == []
    ensures VertexOutcome(key, close, old(mesh.deadVerts), old(mesh.vertData), mesh.vertData, fate, into, origin)
    ensures TriangleOutcome(old(mesh.deadTris), old(mesh.triData), mesh.triData, fate, tsrc)
    ensures LoopComplete(key, close, old(mesh.deadVerts), old(mesh.vertData), into, rank)
    ensures |mesh.triData| <= old(|mesh.triData| - |mesh.deadTris|)
  {
    ghost var dt0, tris0, dv0, verts0 := mesh.deadTris, mesh.triData, mesh.deadVerts, mesh.vertData;
    ghost var ren1, vinv1, tren1, tinv1 := CollectSimple(mesh);
    ghost var verts1, tris1 := mesh.vertData, mesh.triData;
    ghost var rep, into1 := RepairVertices(mesh, key, close);
    ghost var dtE, trisE, dvE := mesh.deadTris, mesh.triData, mesh.deadVerts;
    ghost var ren2, vinv2, tren2, tinv2 := CollectSimple(mesh);
    fate, into, origin := VertexPhases(key, close, dt0, tris0, dv0, verts0, ren1, vinv1, tren1, tinv1,
                                       tris1, verts1, rep, into1, dtE, trisE, dvE,
                                       ren2, vinv2, tren2, tinv2, mesh.triData, mesh.vertData);
    tsrc := TrianglePhases(key, close, dt0, tris0, dv0, verts0, ren1, vinv1, tren1, tinv1,
                           tris1, verts1, rep, into1, dtE, trisE, dvE,
                           ren2, vinv2, tren2, tinv2, mesh.triData, mesh.vertData, fate);
    rank := ren1;
  }
}
