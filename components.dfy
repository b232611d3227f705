/** connected_components of includes/mesh/algorithms/connected_components.h: a flood
    fill over the incidence lists that copies each connected part of a mesh into a
    fresh TriMesh, translating vertex names through the visited_v array and marking
    copied triangles in the visited_t array. */
module Components {
  import opened Triangles
  import opened SeqUtil
  import opened TriMeshes

  /** The lists of ss laid end to end. */
  function Concat(ss: seq<seq<int>>): (r: seq<int>)
    ensures |ss| > 0 ==> r == Concat(ss[..|ss| - 1]) + ss[|ss| - 1]
  {
    if |ss| == 0 then [] else Concat(ss[..|ss| - 1]) + ss[|ss| - 1]
  }

  /** The number of vertex slots across the meshes ms. */
  function VertexTotal<V>(ms: seq<TriMesh<V>>): nat
    reads ms
  {
    if |ms| == 0 then 0 else VertexTotal(ms[..|ms| - 1]) + |ms[|ms| - 1].vertData|
  }

  /** The number of triangle slots across the meshes ms. */
  function TriangleTotal<V>(ms: seq<TriMesh<V>>): nat
    reads ms
  {
    if |ms| == 0 then 0 else TriangleTotal(ms[..|ms| - 1]) + |ms[|ms| - 1].triData|
  }

  /** Meshes holding as many vertices and triangles as the lists vOf and tOf hold
      names hold as many in all as those lists laid end to end. */
  lemma {:induction false} Totals<V>(ms: seq<TriMesh<V>>, vOf: seq<seq<int>>, tOf: seq<seq<int>>)
    requires |ms| == |vOf| == |tOf|
    requires forall c | 0 <= c < |ms| :: |vOf[c]| == |ms[c].vertData| && |tOf[c]| == |ms[c].triData|
    ensures VertexTotal(ms) == |Concat(vOf)| && TriangleTotal(ms) == |Concat(tOf)|
  {
    if |ms| > 0 {
      Totals(ms[..|ms| - 1], vOf[..|ms| - 1], tOf[..|ms| - 1]);
    }
  }

  /** Two lists without repeats and without a common name join into one. */
  lemma NoDupJoin(a: seq<int>, b: seq<int>)
    requires NoDup(a) && NoDup(b) && forall k | 0 <= k < |b| :: b[k] !in a
    ensures NoDup(a + b)
  {
    forall p, q | 0 <= p < q < |a + b|
      ensures (a + b)[p] != (a + b)[q]
    {
      if p < |a| && q >= |a| {
        assert (a + b)[p] in a && (a + b)[q] == b[q - |a|];
      }
    }
  }

  /** A list without repeats holding exactly the names 0 to N - 1 has length N. */
  lemma AllNames(s: seq<int>, N: nat)
    requires NoDup(s) && forall x :: x in s <==> 0 <= x < N
    ensures |s| == N
  {
    var r := Identity(N);
    assert StrictlySorted(r);
    assert forall x :: x in r <==> 0 <= x < N by {
      forall x | 0 <= x < N ensures x in r { assert r[x] == x; }
    }
    SameNamesSameLength(s, r);
  }

  /** How many entries of s are negative: the names visited_v has still to assign. */
  function Unvisited(s: seq<int>): nat {
    if |s| == 0 then 0 else Unvisited(s[..|s| - 1]) + (if s[|s| - 1] < 0 then 1 else 0)
  }

  /** Assigning a name to an unvisited entry leaves one fewer unvisited. */
  lemma {:induction false} VisitOne(s: seq<int>, u: int, x: int)
    requires 0 <= u < |s| && s[u] < 0 <= x
    ensures Unvisited(s[u := x]) == Unvisited(s) - 1
  {
    var s' := s[u := x];
    if u < |s| - 1 {
      assert s'[..|s| - 1] == s[..|s| - 1][u := x];
      VisitOne(s[..|s| - 1], u, x);
    } else {
      assert s'[..|s| - 1] == s[..|s| - 1];
    }
  }

  /** Source vertex u carries the name vv[u] in the mesh being built, whose source
      vertices, in name order, are vs. */
  ghost predicate Placed(vv: seq<int>, vs: seq<int>, u: int) {
    0 <= u < |vv| && 0 <= vv[u] < |vs| && vs[vv[u]] == u
  }

  /** Every visited vertex that is neither waiting on the stack nor the one being
      processed has had all its incident triangles visited. */
  ghost predicate Closed(inc: seq<seq<int>>, vv: seq<int>, vt: seq<int>, toVisit: seq<int>, cur: int) {
    |vv| == |inc| &&
    forall v | 0 <= v < |inc| && vv[v] >= 0 && v !in toVisit && v != cur ::
      forall k | 0 <= k < |inc[v]| :: 0 <= inc[v][k] < |vt| && vt[inc[v][k]] >= 0
  }

  /** mVerts and mTris, the data and triangles of one part, are copies in order of the
      source vertices vs and the source triangles ts of a mesh with vertex data verts,
      free triangle names deadTris and triangles tris; vv and vt give each of those
      source names its name in the part, and the part's triangles have their corners
      renamed through vv. */
  ghost predicate Part<V>(verts: seq<V>, deadTris: seq<int>, tris: seq<Triangle>, vv: seq<int>, vt: seq<int>,
                          vs: seq<int>, ts: seq<int>, mVerts: seq<V>, mTris: seq<Triangle>)
  {
    && |vv| == |verts| && |vt| == |tris|
    && |vs| == |mVerts| && |ts| == |mTris|
    && (forall y | 0 <= y < |vs| :: 0 <= vs[y] < |vv| && vv[vs[y]] == y && mVerts[y] == verts[vs[y]])
    && (forall y | 0 <= y < |ts| :: Live(deadTris, |tris|, ts[y]) && vt[ts[y]] == y)
    && (forall y, k | 0 <= y < |ts| && 0 <= k < 3 ::
          Placed(vv, vs, tris[ts[y]].Corner(k)) && mTris[y].Corner(k) == vv[tris[ts[y]].Corner(k)])
  }

  /** The copy made so far by one flood: the part is exact, and the visited arrays vv
      and vt extend before and beforeT by exactly its names. */
  ghost predicate Copy<V>(verts: seq<V>, deadTris: seq<int>, tris: seq<Triangle>,
                          before: seq<int>, beforeT: seq<int>, vv: seq<int>, vt: seq<int>,
                          vs: seq<int>, ts: seq<int>, mVerts: seq<V>, mTris: seq<Triangle>)
  {
    && Part(verts, deadTris, tris, vv, vt, vs, ts, mVerts, mTris)
    && |before| == |vv| && |beforeT| == |vt|
    && Unvisited(vv) + |vs| == Unvisited(before)
    && (forall y | 0 <= y < |vs| :: before[vs[y]] < 0)
    && (forall v | 0 <= v < |vv| :: if before[v] >= 0 then vv[v] == before[v] else vv[v] >= 0 ==> v in vs)
    && (forall y | 0 <= y < |ts| :: beforeT[ts[y]] < 0)
    && (forall t | 0 <= t < |vt| :: if beforeT[t] >= 0 then vt[t] == beforeT[t] else vt[t] >= 0 ==> t in ts)
  }

  /** Giving unvisited vertex u the next name of the part keeps the copy exact. */
  lemma CopyVertex<V>(verts: seq<V>, deadTris: seq<int>, tris: seq<Triangle>,
                      before: seq<int>, beforeT: seq<int>, vv: seq<int>, vt: seq<int>,
                      vs: seq<int>, ts: seq<int>, mVerts: seq<V>, mTris: seq<Triangle>, u: int)
    requires Copy(verts, deadTris, tris, before, beforeT, vv, vt, vs, ts, mVerts, mTris)
    requires 0 <= u < |vv| && vv[u] < 0
    ensures Copy(verts, deadTris, tris, before, beforeT, vv[u := |vs|], vt, vs + [u], ts, mVerts + [verts[u]], mTris)
    ensures Placed(vv[u := |vs|], vs + [u], u)
  {
    VisitOne(vv, u, |vs|);
    var vv', vs' := vv[u := |vs|], vs + [u];
    assert forall y | 0 <= y < |vs| :: vs[y] != u;
    forall y, k | 0 <= y < |ts| && 0 <= k < 3
      ensures Placed(vv', vs', tris[ts[y]].Corner(k))
    {
      assert Placed(vv, vs, tris[ts[y]].Corner(k));
    }
  }

  /** Recording live unvisited triangle t, whose corners are all placed, as the next
      triangle of the part keeps the copy exact. */
  lemma CopyTriangle<V>(verts: seq<V>, deadTris: seq<int>, tris: seq<Triangle>,
                        before: seq<int>, beforeT: seq<int>, vv: seq<int>, vt: seq<int>,
                        vs: seq<int>, ts: seq<int>, mVerts: seq<V>, mTris: seq<Triangle>, t: int, tri: Triangle)
    requires Copy(verts, deadTris, tris, before, beforeT, vv, vt, vs, ts, mVerts, mTris)
    requires Live(deadTris, |tris|, t) && vt[t] < 0
    requires forall k | 0 <= k < 3 :: Placed(vv, vs, tris[t].Corner(k)) && tri.Corner(k) == vv[tris[t].Corner(k)]
    ensures Copy(verts, deadTris, tris, before, beforeT, vv, vt[t := |ts|], vs, ts + [t], mVerts, mTris + [tri])
  {
    assert forall y | 0 <= y < |ts| :: ts[y] != t;
  }

  /** A corner of an unvisited live triangle that is already visited belongs to the
      part being built: a vertex of an earlier part would have had the triangle
      visited with it. */
  lemma CornerPlaced<V>(verts: seq<V>, deadTris: seq<int>, tris: seq<Triangle>, deadVerts: seq<int>, inc: seq<seq<int>>,
                        before: seq<int>, beforeT: seq<int>, vv: seq<int>, vt: seq<int>,
                        vs: seq<int>, ts: seq<int>, mVerts: seq<V>, mTris: seq<Triangle>, t: int, c: int)
    requires MeshInvariant(deadTris, tris, deadVerts, |verts|, inc)
    requires Copy(verts, deadTris, tris, before, beforeT, vv, vt, vs, ts, mVerts, mTris)
    requires Closed(inc, before, beforeT, [], -1)
    requires Live(deadTris, |tris|, t) && vt[t] < 0 && 0 <= c < 3
    requires 0 <= tris[t].Corner(c) < |vv| && vv[tris[t].Corner(c)] >= 0
    ensures Placed(vv, vs, tris[t].Corner(c))
  {
    var u := tris[t].Corner(c);
    assert multiset(inc[u])[t] == Refs(deadTris, tris, u, t) > 0;
    var k :| 0 <= k < |inc[u]| && inc[u][k] == t;
    assert beforeT[t] < 0;
    assert before[u] < 0;
    var y :| 0 <= y < |vs| && vs[y] == u;
  }

  /** The heap side of a flood: the source mesh and the part m are sound, m has no
      free names, and m is the copy described by the rest. */
  ghost predicate Building<V>(mesh: TriMesh<V>, m: TriMesh<V>, before: seq<int>, beforeT: seq<int>,
                              vv: seq<int>, vt: seq<int>, vs: seq<int>, ts: seq<int>)
    reads mesh, m
  {
    && mesh.Valid() && m.Valid() && m.deadVerts == [] && m.deadTris == []
    && |mesh.incidence| == |mesh.vertData|
    && Copy(mesh.vertData, mesh.deadTris, mesh.triData, before, beforeT, vv, vt, vs, ts, m.vertData, m.triData)
  }

  /** One corner u of the triangle being copied: its name in the part, adding the
      vertex to m and pushing it on the stack when it has none yet. */
  method TranslateCorner<V>(mesh: TriMesh<V>, m: TriMesh<V>, u: int, visitedV: array<int>,
                            ghost before: seq<int>, ghost beforeT: seq<int>, ghost vt: seq<int>,
                            toVisit: seq<int>, ghost vs: seq<int>, ghost ts: seq<int>)
    returns (name: int, toVisit': seq<int>, ghost vs': seq<int>)
    requires m != mesh
    requires Building(mesh, m, before, beforeT, visitedV[..], vt, vs, ts)
    requires 0 <= u < visitedV.Length && (visitedV[u] >= 0 ==> Placed(visitedV[..], vs, u))
    modifies m`deadVerts, m`vertData, m`incidence, visitedV
    ensures Building(mesh, m, before, beforeT, visitedV[..], vt, vs', ts)
    ensures name == visitedV[u] && Placed(visitedV[..], vs', u)
    ensures m.triData == old(m.triData)
    ensures old(visitedV[u]) >= 0 ==> vs' == vs && toVisit' == toVisit && visitedV[..] == old(visitedV[..])
    ensures old(visitedV[u]) < 0 ==>
      name == |vs| && vs' == vs + [u] && toVisit' == toVisit + [u] && visitedV[..] == old(visitedV[..])[u := name]
  {
    name := visitedV[u];
    toVisit', vs' := toVisit, vs;
    if name < 0 {
      ghost var vv := visitedV[..];
      CopyVertex(mesh.vertData, mesh.deadTris, mesh.triData, before, beforeT, vv, vt, vs, ts, m.vertData, m.triData, u);
      toVisit' := toVisit + [u];
      name := m.AddVertex(mesh.vertData[u]);
      visitedV[u] := name;
      vs' := vs + [u];
      assert visitedV[..] == vv[u := |vs|];
    }
  }

  /** Naming a new vertex leaves every earlier placement as it was. */
  lemma PlacedGrow(vv: seq<int>, vs: seq<int>, u: int, w: int)
    requires Placed(vv, vs, w) && 0 <= u < |vv| && vv[u] < 0
    ensures Placed(vv[u := |vs|], vs + [u], w) && vv[u := |vs|][w] == vv[w]
  {
  }

  /** The corner loop's record of names stays exact when corner k gets its name. */
  lemma NamesGrow(tri: Triangle, k: int, u: int, name: int, n0: seq<int>, n: seq<int>,
                  vv: seq<int>, vs: seq<int>, vv': seq<int>, vs': seq<int>)
    requires 0 <= k < 3 && u == tri.Corner(k) && |n0| == 3 && n == n0[k := name]
    requires forall j | 0 <= j < k :: Placed(vv, vs, tri.Corner(j)) && n0[j] == vv[tri.Corner(j)]
    requires (vv' == vv && vs' == vs) || (0 <= u < |vv| && vv[u] < 0 && vv' == vv[u := |vs|] && vs' == vs + [u])
    requires Placed(vv', vs', u) && name == vv'[u]
    ensures forall j | 0 <= j < k + 1 :: Placed(vv', vs', tri.Corner(j)) && n[j] == vv'[tri.Corner(j)]
  {
    forall j | 0 <= j < k
      ensures Placed(vv', vs', tri.Corner(j)) && n[j] == vv'[tri.Corner(j)]
    {
      if vv' != vv {
        PlacedGrow(vv, vs, u, tri.Corner(j));
      }
    }
  }

  /** Pushing a newly visited vertex keeps every processed vertex closed. */
  lemma PushKeepsClosed(inc: seq<seq<int>>, vv: seq<int>, vt: seq<int>, toVisit: seq<int>, cur: int, u: int, x: int)
    requires Closed(inc, vv, vt, toVisit, cur) && 0 <= u < |vv| && vv[u] < 0
    ensures Closed(inc, vv[u := x], vt, toVisit + [u], cur)
  {
    forall v | 0 <= v < |inc| && vv[u := x][v] >= 0 && v !in toVisit + [u] && v != cur
      ensures forall k | 0 <= k < |inc[v]| :: 0 <= inc[v][k] < |vt| && vt[inc[v][k]] >= 0
    {
      assert v != u && vv[v] >= 0 && v !in toVisit;
    }
  }

  /** Marking a triangle visited keeps every processed vertex closed. */
  lemma MarkKeepsClosed(inc: seq<seq<int>>, vv: seq<int>, vt: seq<int>, toVisit: seq<int>, cur: int, t: int, x: int)
    requires Closed(inc, vv, vt, toVisit, cur) && 0 <= t < |vt| && x >= 0
    ensures Closed(inc, vv, vt[t := x], toVisit, cur)
  {
  }

  /** A sound flood state: the copy is exact, every processed vertex is closed and
      every vertex on the stack is one of the part's. */
  ghost predicate Flooding<V>(mesh: TriMesh<V>, m: TriMesh<V>, before: seq<int>, beforeT: seq<int>,
                              vv: seq<int>, vt: seq<int>, toVisit: seq<int>, cur: int, vs: seq<int>, ts: seq<int>)
    reads mesh, m
  {
    && Building(mesh, m, before, beforeT, vv, vt, vs, ts)
    && Closed(mesh.incidence, vv, vt, toVisit, cur)
    && (forall j | 0 <= j < |toVisit| :: toVisit[j] in vs)
  }

  /** The invariant of the corner loop of the copy of triangle tri after k corners:
      m, the visited arrays and the stack are a sound flood state, and n[j] is the
      name in the part of each corner j below k. */
  ghost predicate CornersDone<V>(mesh: TriMesh<V>, m: TriMesh<V>, tri: Triangle, k: int, cur: int, n: seq<int>,
                                 vv: seq<int>, vt: seq<int>, before: seq<int>, beforeT: seq<int>,
                                 toVisit: seq<int>, vs: seq<int>, ts: seq<int>)
    reads mesh, m
  {
    && Flooding(mesh, m, before, beforeT, vv, vt, toVisit, cur, vs, ts)
    && 0 <= k <= 3 && |n| == 3
    && forall j | 0 <= j < k :: Placed(vv, vs, tri.Corner(j)) && n[j] == vv[tri.Corner(j)]
  }

  /** One pass of the corner loop: corner k of tri gets its name in n[k]. */
  method TranslateCornerAt<V>(mesh: TriMesh<V>, m: TriMesh<V>, t: int, tri: Triangle, k: int, cur: int, n: array<int>,
                              visitedV: array<int>, ghost vt: seq<int>, ghost before: seq<int>, ghost beforeT: seq<int>,
                              toVisit: seq<int>, ghost vs: seq<int>, ghost ts: seq<int>)
    returns (toVisit': seq<int>, ghost vs': seq<int>)
    requires m != mesh && n != visitedV && 0 <= k < 3
    requires CornersDone(mesh, m, tri, k, cur, n[..], visitedV[..], vt, before, beforeT, toVisit, vs, ts)
    requires Closed(mesh.incidence, before, beforeT, [], -1)
    requires mesh.LiveTriangle(t) && vt[t] < 0 && tri == mesh.triData[t]
    modifies m`deadVerts, m`vertData, m`incidence, visitedV, n
    ensures CornersDone(mesh, m, tri, k + 1, cur, n[..], visitedV[..], vt, before, beforeT, toVisit', vs', ts)
    ensures |vs'| - |vs| == |toVisit'| - |toVisit| && vs <= vs'
    ensures m.triData == old(m.triData)
  {
    var u := tri.Corner(k);
    assert mesh.LiveVertex(u);
    if visitedV[u] >= 0 {
      CornerPlaced(mesh.vertData, mesh.deadTris, mesh.triData, mesh.deadVerts, mesh.incidence, before, beforeT,
                   visitedV[..], vt, vs, ts, m.vertData, m.triData, t, k);
    }
    ghost var vv := visitedV[..];
    var name;
    name, toVisit', vs' := TranslateCorner(mesh, m, u, visitedV, before, beforeT, vt, toVisit, vs, ts);
    if vv[u] < 0 {
      PushKeepsClosed(mesh.incidence, vv, vt, toVisit, cur, u, name);
    }
    ghost var n0 := n[..];
    n[k] := name;
    NamesGrow(tri, k, u, name, n0, n[..], vv, vs, visitedV[..], vs');
  }


  /** The corner loop of the copy of triangle tri: n[k] becomes the name in the part
      of corner k, each corner without a name being added to m and pushed. */
  method TranslateCorners<V>(mesh: TriMesh<V>, m: TriMesh<V>, t: int, tri: Triangle, cur: int, n: array<int>,
                             visitedV: array<int>, ghost vt: seq<int>, ghost before: seq<int>, ghost beforeT: seq<int>,
                             toVisit: seq<int>, ghost vs: seq<int>, ghost ts: seq<int>)
    returns (toVisit': seq<int>, ghost vs': seq<int>)
    requires m != mesh && n != visitedV && n.Length == 3
    requires CornersDone(mesh, m, tri, 0, cur, n[..], visitedV[..], vt, before, beforeT, toVisit, vs, ts)
    requires Closed(mesh.incidence, before, beforeT, [], -1)
    requires mesh.LiveTriangle(t) && vt[t] < 0 && tri == mesh.triData[t]
    modifies m`deadVerts, m`vertData, m`incidence, visitedV, n
    ensures CornersDone(mesh, m, tri, 3, cur, n[..], visitedV[..], vt, before, beforeT, toVisit', vs', ts)
    ensures |vs'| - |vs| == |toVisit'| - |toVisit| && vs <= vs'
    ensures m.triData == old(m.triData)
  {
    toVisit', vs' := toVisit, vs;
    for k := 0 to 3
      invariant CornersDone(mesh, m, tri, k, cur, n[..], visitedV[..], vt, before, beforeT, toVisit', vs', ts)
      invariant |vs'| - |vs| == |toVisit'| - |toVisit| && vs <= vs'
      invariant m.triData == old(m.triData)
    {
      toVisit', vs' := TranslateCornerAt(mesh, m, t, tri, k, cur, n, visitedV, vt, before, beforeT, toVisit', vs', ts);
    }
  }

  /** Copy the unvisited live triangle t into m: translate its three corners, then add
      the translated triangle and record its name in visited_t. */
  method VisitTriangle<V>(mesh: TriMesh<V>, m: TriMesh<V>, t: int, cur: int, visitedV: array<int>, visitedT: array<int>,
                          ghost before: seq<int>, ghost beforeT: seq<int>,
                          toVisit: seq<int>, ghost vs: seq<int>, ghost ts: seq<int>)
    returns (toVisit': seq<int>, ghost vs': seq<int>, ghost ts': seq<int>)
    requires m != mesh && visitedV != visitedT
    requires Flooding(mesh, m, before, beforeT, visitedV[..], visitedT[..], toVisit, cur, vs, ts)
    requires Closed(mesh.incidence, before, beforeT, [], -1)
    requires mesh.LiveTriangle(t) && visitedT[t] < 0
    modifies m, visitedV, visitedT
    ensures Flooding(mesh, m, before, beforeT, visitedV[..], visitedT[..], toVisit', cur, vs', ts')
    ensures |vs'| - |vs| == |toVisit'| - |toVisit| && vs <= vs'
    ensures ts' == ts + [t] && visitedT[..] == old(visitedT[..])[t := |ts|]
  {
    var tri := mesh.Triangle(t);
    var n := new int[3];
    toVisit', vs' := TranslateCorners(mesh, m, t, tri, cur, n, visitedV, visitedT[..], before, beforeT, toVisit, vs, ts);
    AddCopy(mesh, m, t, tri, cur, n, visitedV, visitedT, before, beforeT, toVisit', vs', ts);
    ts' := ts + [t];
  }

  /** The end of the copy of triangle t, once its corners have names n in the part:
      add_triangle in m, whose answer is recorded in visited_t. */
  method AddCopy<V>(mesh: TriMesh<V>, m: TriMesh<V>, t: int, tri: Triangle, cur: int, n: array<int>,
                    visitedV: array<int>, visitedT: array<int>, ghost before: seq<int>, ghost beforeT: seq<int>,
                    ghost toVisit: seq<int>, ghost vs: seq<int>, ghost ts: seq<int>)
    requires m != mesh && visitedV != visitedT
    requires CornersDone(mesh, m, tri, 3, cur, n[..], visitedV[..], visitedT[..], before, beforeT, toVisit, vs, ts)
    requires mesh.LiveTriangle(t) && visitedT[t] < 0 && tri == mesh.triData[t]
    modifies m, visitedT
    ensures Flooding(mesh, m, before, beforeT, visitedV[..], visitedT[..], toVisit, cur, vs, ts + [t])
    ensures visitedT[..] == old(visitedT[..])[t := |ts|]
  {
    ghost var mVerts, mTris, vt := m.vertData, m.triData, visitedT[..];
    var nt := m.AddTriangleOf(n[0], n[1], n[2]);
    CopyTriangle(mesh.vertData, mesh.deadTris, mesh.triData, before, beforeT, visitedV[..], vt, vs, ts,
                 mVerts, mTris, t, Triangles.Triangle(n[0], n[1], n[2]));
    MarkKeepsClosed(mesh.incidence, visitedV[..], vt, toVisit, cur, t, nt);
    visitedT[t] := nt;
  }

  /** A vertex whose incident triangles are all visited is closed once processed. */
  lemma CloseVertex(inc: seq<seq<int>>, vv: seq<int>, vt: seq<int>, toVisit: seq<int>, v: int)
    requires Closed(inc, vv, vt, toVisit, v) && 0 <= v < |inc|
    requires forall k | 0 <= k < |inc[v]| :: 0 <= inc[v][k] < |vt| && vt[inc[v][k]] >= 0
    ensures Closed(inc, vv, vt, toVisit, -1)
  {
  }

  /** Popping v off the stack makes it the vertex being processed. */
  lemma PopKeepsClosed(inc: seq<seq<int>>, vv: seq<int>, vt: seq<int>, toVisit: seq<int>)
    requires Closed(inc, vv, vt, toVisit, -1) && |toVisit| > 0
    ensures Closed(inc, vv, vt, toVisit[..|toVisit| - 1], toVisit[|toVisit| - 1])
  {
    assert toVisit == toVisit[..|toVisit| - 1] + [toVisit[|toVisit| - 1]];
  }

  /** Process the popped vertex v: copy each of its incident triangles not yet
      visited, scanning its incidence list from the back. */
  method VisitVertex<V>(mesh: TriMesh<V>, m: TriMesh<V>, v: int, visitedV: array<int>, visitedT: array<int>,
                        ghost before: seq<int>, ghost beforeT: seq<int>,
                        toVisit: seq<int>, ghost vs: seq<int>, ghost ts: seq<int>)
    returns (toVisit': seq<int>, ghost vs': seq<int>, ghost ts': seq<int>)
    requires m != mesh && visitedV != visitedT
    requires Flooding(mesh, m, before, beforeT, visitedV[..], visitedT[..], toVisit, v, vs, ts)
    requires Closed(mesh.incidence, before, beforeT, [], -1)
    requires 0 <= v < |mesh.vertData|
    modifies m, visitedV, visitedT
    ensures Flooding(mesh, m, before, beforeT, visitedV[..], visitedT[..], toVisit', -1, vs', ts')
    ensures |vs'| - |vs| == |toVisit'| - |toVisit| && vs <= vs'
  {
    var incidence := mesh.VertexIncidence(v);
    assert incidence == mesh.incidence[v];
    toVisit', vs', ts' := toVisit, vs, ts;
    var j := |incidence| - 1;
    while j >= 0
      invariant -1 <= j < |incidence|
      invariant Flooding(mesh, m, before, beforeT, visitedV[..], visitedT[..], toVisit', v, vs', ts')
      invariant |vs'| - |vs| == |toVisit'| - |toVisit| && vs <= vs'
      invariant forall q | j < q < |incidence| :: visitedT[incidence[q]] >= 0
    {
      var t := incidence[j];
      if visitedT[t] >= 0 {
        j := j - 1;
        continue;
      }
      toVisit', vs', ts' := VisitTriangle(mesh, m, t, v, visitedV, visitedT, before, beforeT, toVisit', vs', ts');
      j := j - 1;
    }
    CloseVertex(mesh.incidence, visitedV[..], visitedT[..], toVisit', v);
  }

  /** The start of a flood from unvisited vertex i: a new mesh holding i alone, with
      i on the stack. */
  method StartFlood<V>(mesh: TriMesh<V>, i: int, visitedV: array<int>, ghost beforeT: seq<int>)
    returns (m: TriMesh<V>, ghost vs: seq<int>, ghost ts: seq<int>)
    requires mesh.Valid() && visitedV.Length == |mesh.vertData| && |beforeT| == |mesh.triData|
    requires 0 <= i < visitedV.Length && visitedV[i] < 0
    requires Closed(mesh.incidence, visitedV[..], beforeT, [], -1)
    modifies visitedV
    ensures fresh(m) && vs == [i] && ts == []
    ensures Flooding(mesh, m, old(visitedV[..]), beforeT, visitedV[..], beforeT, [i], -1, vs, ts)
  {
    ghost var before := visitedV[..];
    m := new TriMesh();
    assert Copy(mesh.vertData, mesh.deadTris, mesh.triData, before, beforeT, before, beforeT, [], [], [], []);
    CopyVertex(mesh.vertData, mesh.deadTris, mesh.triData, before, beforeT, before, beforeT, [], [], [], [], i);
    PushKeepsClosed(mesh.incidence, before, beforeT, [], -1, i, 0);
    var name := m.AddVertex(mesh.vertData[i]);
    visitedV[i] := name;
    vs, ts := [i], [];
    assert visitedV[..] == before[i := 0];
  }

  /** The flood from unvisited vertex i: a new mesh m receives i, then every vertex and
      triangle reachable from it, until the stack is empty. */
  method Flood<V>(mesh: TriMesh<V>, i: int, visitedV: array<int>, visitedT: array<int>)
    returns (m: TriMesh<V>, ghost vs: seq<int>, ghost ts: seq<int>)
    requires mesh.Valid() && visitedV != visitedT
    requires visitedV.Length == |mesh.vertData| && visitedT.Length == |mesh.triData|
    requires 0 <= i < visitedV.Length && visitedV[i] < 0
    requires Closed(mesh.incidence, visitedV[..], visitedT[..], [], -1)
    modifies visitedV, visitedT
    ensures fresh(m)
    ensures Flooding(mesh, m, old(visitedV[..]), old(visitedT[..]), visitedV[..], visitedT[..], [], -1, vs, ts)
    ensures |vs| > 0 && vs[0] == i
  {
    ghost var before, beforeT := visitedV[..], visitedT[..];
    m, vs, ts := StartFlood(mesh, i, visitedV, visitedT[..]);
    var toVisit := [i];
    while |toVisit| > 0
      invariant Flooding(mesh, m, before, beforeT, visitedV[..], visitedT[..], toVisit, -1, vs, ts)
      invariant fresh(m) && |vs| > 0 && vs[0] == i
      decreases Unvisited(visitedV[..]) + |toVisit|
    {
      var v := toVisit[|toVisit| - 1];
      PopKeepsClosed(mesh.incidence, visitedV[..], visitedT[..], toVisit);
      toVisit := toVisit[..|toVisit| - 1];
      ghost var vs0 := vs;
      toVisit, vs, ts := VisitVertex(mesh, m, v, visitedV, visitedT, before, beforeT, toVisit, vs, ts);
      assert vs[0] == vs0[0];
    }
  }


  /** The names of the parts' source vertices vOf and source triangles tOf, laid end
      to end, repeat nothing and are exactly the names marked in the visited arrays vv
      and vt; the triangles are live in a store of nt slots with free list deadTris. */
  ghost predicate Cover(vv: seq<int>, vt: seq<int>, deadTris: seq<int>, nt: int, vOf: seq<seq<int>>, tOf: seq<seq<int>>) {
    && NoDup(Concat(vOf)) && (forall v | v in Concat(vOf) :: 0 <= v < |vv|)
    && (forall v | 0 <= v < |vv| :: vv[v] >= 0 <==> v in Concat(vOf))
    && NoDup(Concat(tOf)) && (forall t | t in Concat(tOf) :: Live(deadTris, nt, t))
    && (forall t | 0 <= t < |vt| :: vt[t] >= 0 <==> t in Concat(tOf))
  }

  /** Mesh m is a sound part of mesh, with no free names, copied from the source
      vertices vs and triangles ts. */
  ghost predicate PartOf<V>(mesh: TriMesh<V>, m: TriMesh<V>, vv: seq<int>, vt: seq<int>, vs: seq<int>, ts: seq<int>)
    reads mesh, m
  {
    && m.Valid() && m.deadVerts == [] && m.deadTris == [] && |vs| > 0
    && Part(mesh.vertData, mesh.deadTris, mesh.triData, vv, vt, vs, ts, m.vertData, m.triData)
  }

  /** The parts found so far, result, with the source vertices vOf[c] and source
      triangles tOf[c] of part c: each part is an exact copy, and the visited arrays
      vv and vt mark exactly the names of all parts, each name in one part once. */
  ghost predicate Parts<V>(mesh: TriMesh<V>, vv: seq<int>, vt: seq<int>,
                           result: seq<TriMesh<V>>, vOf: seq<seq<int>>, tOf: seq<seq<int>>)
    reads mesh, result
  {
    && mesh.Valid() && |vv| == |mesh.vertData| && |vt| == |mesh.triData|
    && |result| == |vOf| == |tOf|
    && (forall c | 0 <= c < |result| :: PartOf(mesh, result[c], vv, vt, vOf[c], tOf[c]))
    && Cover(vv, vt, mesh.deadTris, |mesh.triData|, vOf, tOf)
  }

  /** A part stays exact when the visited arrays only gain names. */
  lemma PartKept<V>(verts: seq<V>, deadTris: seq<int>, tris: seq<Triangle>, before: seq<int>, beforeT: seq<int>,
                    vv: seq<int>, vt: seq<int>, vs: seq<int>, ts: seq<int>, mVerts: seq<V>, mTris: seq<Triangle>)
    requires Part(verts, deadTris, tris, before, beforeT, vs, ts, mVerts, mTris)
    requires |vv| == |before| && |vt| == |beforeT|
    requires forall v | 0 <= v < |vv| && before[v] >= 0 :: vv[v] == before[v]
    requires forall t | 0 <= t < |vt| && beforeT[t] >= 0 :: vt[t] == beforeT[t]
    ensures Part(verts, deadTris, tris, vv, vt, vs, ts, mVerts, mTris)
  {
    forall y, k | 0 <= y < |ts| && 0 <= k < 3
      ensures Placed(vv, vs, tris[ts[y]].Corner(k)) && mTris[y].Corner(k) == vv[tris[ts[y]].Corner(k)]
    {
      assert Placed(before, vs, tris[ts[y]].Corner(k));
    }
  }

  /** The names of a finished flood join the cover. */
  lemma CoverGrows<V>(verts: seq<V>, deadTris: seq<int>, tris: seq<Triangle>, before: seq<int>, beforeT: seq<int>,
                      vv: seq<int>, vt: seq<int>, vs: seq<int>, ts: seq<int>, mVerts: seq<V>, mTris: seq<Triangle>,
                      vOf: seq<seq<int>>, tOf: seq<seq<int>>)
    requires Cover(before, beforeT, deadTris, |tris|, vOf, tOf)
    requires Copy(verts, deadTris, tris, before, beforeT, vv, vt, vs, ts, mVerts, mTris)
    ensures Cover(vv, vt, deadTris, |tris|, vOf + [vs], tOf + [ts])
  {
    var vOf', tOf' := vOf + [vs], tOf + [ts];
    assert vOf'[..|vOf|] == vOf && tOf'[..|tOf|] == tOf;
    assert Concat(vOf') == Concat(vOf) + vs && Concat(tOf') == Concat(tOf) + ts;
    assert NoDup(vs) by {
      forall p, q | 0 <= p < q < |vs| ensures vs[p] != vs[q] {
        assert vv[vs[p]] == p && vv[vs[q]] == q;
      }
    }
    assert NoDup(ts) by {
      forall p, q | 0 <= p < q < |ts| ensures ts[p] != ts[q] {
        assert vt[ts[p]] == p && vt[ts[q]] == q;
      }
    }
    forall y | 0 <= y < |vs| ensures vs[y] !in Concat(vOf) {
      assert before[vs[y]] < 0;
    }
    forall y | 0 <= y < |ts| ensures ts[y] !in Concat(tOf) {
      assert beforeT[ts[y]] < 0;
    }
    NoDupJoin(Concat(vOf), vs);
    NoDupJoin(Concat(tOf), ts);
  }

  /** Every name visited in vv stays visited in vv'. */
  ghost predicate Grows(vv: seq<int>, vv': seq<int>) {
    |vv'| == |vv| && forall v | 0 <= v < |vv| && vv[v] >= 0 :: vv'[v] >= 0
  }

  /** Every vertex below i is visited. */
  ghost predicate VisitedBelow(vv: seq<int>, i: int) {
    0 <= i <= |vv| && forall v | 0 <= v < i :: vv[v] >= 0
  }

  lemma VisitedBelowNext(vv: seq<int>, vv': seq<int>, i: int)
    requires VisitedBelow(vv, i) && i < |vv| && Grows(vv, vv') && vv'[i] >= 0
    ensures VisitedBelow(vv', i + 1)
  {
  }

  /** A flood from i leaves every vertex visited before it visited, and i too. */
  lemma StillVisited<V>(verts: seq<V>, deadTris: seq<int>, tris: seq<Triangle>, before: seq<int>, beforeT: seq<int>,
                        vv: seq<int>, vt: seq<int>, vs: seq<int>, ts: seq<int>, mVerts: seq<V>, mTris: seq<Triangle>, i: int)
    requires Copy(verts, deadTris, tris, before, beforeT, vv, vt, vs, ts, mVerts, mTris)
    requires |vs| > 0 && vs[0] == i
    ensures forall v | 0 <= v < |vv| && before[v] >= 0 :: vv[v] >= 0
    ensures 0 <= i < |vv| && vv[i] >= 0
  {
  }

  /** A finished flood adds one part. */
  lemma AddPart<V>(mesh: TriMesh<V>, m: TriMesh<V>, before: seq<int>, beforeT: seq<int>, vv: seq<int>, vt: seq<int>,
                   result: seq<TriMesh<V>>, vOf: seq<seq<int>>, tOf: seq<seq<int>>, vs: seq<int>, ts: seq<int>)
    requires Parts(mesh, before, beforeT, result, vOf, tOf)
    requires Building(mesh, m, before, beforeT, vv, vt, vs, ts) && |vs| > 0
    ensures Parts(mesh, vv, vt, result + [m], vOf + [vs], tOf + [ts])
  {
    var verts, deadTris, tris := mesh.vertData, mesh.deadTris, mesh.triData;
    forall c | 0 <= c < |result|
      ensures PartOf(mesh, result[c], vv, vt, vOf[c], tOf[c])
    {
      PartKept(verts, deadTris, tris, before, beforeT, vv, vt, vOf[c], tOf[c], result[c].vertData, result[c].triData);
    }
    CoverGrows(verts, deadTris, tris, before, beforeT, vv, vt, vs, ts, m.vertData, m.triData, vOf, tOf);
    var result' := result + [m];
    assert forall c | 0 <= c < |result| :: result'[c] == result[c];
  }

  /** Part m of mesh, a sound mesh with no free names, holds the data of the
      source vertices vs in order, names giving each its place in m, and holds the
      source triangles ts, all live, with their corners renamed through names, every
      corner of such a triangle lying in vs. */
  ghost predicate PartSplit<V>(mesh: TriMesh<V>, m: TriMesh<V>, names: seq<int>, vs: seq<int>, ts: seq<int>)
    reads mesh, m
  {
    && m.Valid() && m.deadVerts == [] && m.deadTris == [] && |names| == |mesh.vertData|
    && |m.vertData| == |vs| > 0 && |m.triData| == |ts|
    && (forall y | 0 <= y < |vs| ::
          0 <= vs[y] < |names| && names[vs[y]] == y && m.vertData[y] == mesh.vertData[vs[y]])
    && (forall y, k | 0 <= y < |ts| && 0 <= k < 3 ::
          && Live(mesh.deadTris, |mesh.triData|, ts[y]) && mesh.triData[ts[y]].Corner(k) in vs
          && m.triData[y].Corner(k) == names[mesh.triData[ts[y]].Corner(k)])
  }

  /** The lists vOf and tOf name every vertex slot of a mesh with nv vertex slots
      once, and every live triangle of a mesh with nt triangle slots and free
      triangle names deadTris once. */
  ghost predicate CoverAll(nv: int, deadTris: seq<int>, nt: int, vOf: seq<seq<int>>, tOf: seq<seq<int>>) {
    && NoDup(Concat(vOf)) && (forall v :: v in Concat(vOf) <==> 0 <= v < nv)
    && NoDup(Concat(tOf)) && (forall t :: t in Concat(tOf) <==> Live(deadTris, nt, t))
  }

  /** The meshes result split mesh: each is a part of it built from the source
      vertices vOf[c] and source triangles tOf[c], and every vertex slot of mesh,
      live or dead, is a source vertex of exactly one part, and every live triangle
      a source triangle of exactly one part. */
  ghost predicate Split<V>(mesh: TriMesh<V>, result: seq<TriMesh<V>>, names: seq<int>,
                           vOf: seq<seq<int>>, tOf: seq<seq<int>>)
    reads mesh, result
  {
    && |result| == |vOf| == |tOf| && |names| == |mesh.vertData|
    && (forall c | 0 <= c < |result| :: PartSplit(mesh, result[c], names, vOf[c], tOf[c]))
    && CoverAll(|mesh.vertData|, mesh.deadTris, |mesh.triData|, vOf, tOf)
  }

  /** The invariant of the outer loop of connected_components after vertex i - 1:
      the parts found are sound, distinct meshes other than the source, every
      processed vertex is closed and every vertex below i is visited. */
  ghost predicate Searched<V>(mesh: TriMesh<V>, vv: seq<int>, vt: seq<int>, i: int,
                              result: seq<TriMesh<V>>, vOf: seq<seq<int>>, tOf: seq<seq<int>>)
    reads mesh, result
  {
    && Parts(mesh, vv, vt, result, vOf, tOf)
    && Closed(mesh.incidence, vv, vt, [], -1)
    && VisitedBelow(vv, i)
    && (forall c | 0 <= c < |result| :: result[c] != mesh)
    && (forall c, d | 0 <= c < d < |result| :: result[c] != result[d])
  }

  /** Distinct meshes, none of them mesh, stay so when a new one joins. */
  lemma Distinct<V>(ms: seq<TriMesh<V>>, m: TriMesh<V>, mesh: TriMesh<V>)
    requires forall c, d | 0 <= c < d < |ms| :: ms[c] != ms[d]
    requires forall c | 0 <= c < |ms| :: ms[c] != m && ms[c] != mesh
    requires m != mesh
    ensures forall c, d | 0 <= c < d < |ms + [m]| :: (ms + [m])[c] != (ms + [m])[d]
    ensures forall c | 0 <= c < |ms + [m]| :: (ms + [m])[c] != mesh
  {
  }

  /** The outer loop's invariant after a flood from i adds part m. */
  lemma SearchedAdd<V>(mesh: TriMesh<V>, vv0: seq<int>, vv: seq<int>, vt: seq<int>, i: int,
                       result: seq<TriMesh<V>>, vOf: seq<seq<int>>, tOf: seq<seq<int>>,
                       m: TriMesh<V>, vs: seq<int>, ts: seq<int>)
    requires VisitedBelow(vv0, i) && 0 <= i < |vv0|
    requires forall c | 0 <= c < |result| :: result[c] != mesh
    requires forall c, d | 0 <= c < d < |result| :: result[c] != result[d]
    requires Parts(mesh, vv, vt, result + [m], vOf + [vs], tOf + [ts])
    requires Closed(mesh.incidence, vv, vt, [], -1)
    requires |vv| == |vv0| && vv[i] >= 0
    requires forall v | 0 <= v < |vv| && vv0[v] >= 0 :: vv[v] >= 0
    requires m != mesh && forall c | 0 <= c < |result| :: result[c] != m
    ensures Searched(mesh, vv, vt, i + 1, result + [m], vOf + [vs], tOf + [ts])
  {
    VisitedBelowNext(vv0, vv, i);
    Distinct(result, m, mesh);
  }

  /** One pass of the outer loop of connected_components from unvisited vertex i:
      flood from it and add the new part. */
  method FloodPart<V>(mesh: TriMesh<V>, i: int, visitedV: array<int>, visitedT: array<int>,
                      result: seq<TriMesh<V>>, ghost vOf: seq<seq<int>>, ghost tOf: seq<seq<int>>)
    returns (result': seq<TriMesh<V>>, ghost vOf': seq<seq<int>>, ghost tOf': seq<seq<int>>)
    requires visitedV != visitedT
    requires Searched(mesh, visitedV[..], visitedT[..], i, result, vOf, tOf)
    requires 0 <= i < visitedV.Length && visitedV[i] < 0
    modifies visitedV, visitedT
    ensures Searched(mesh, visitedV[..], visitedT[..], i + 1, result', vOf', tOf')
  {
    ghost var before, beforeT := visitedV[..], visitedT[..];
    var m;
    ghost var vs, ts;
    m, vs, ts := Flood(mesh, i, visitedV, visitedT);
    FloodDone(mesh, before, beforeT, visitedV[..], visitedT[..], i, result, vOf, tOf, m, vs, ts);
    result', vOf', tOf' := result + [m], vOf + [vs], tOf + [ts];
  }

  /** A finished flood from unvisited vertex i, into a mesh m new to the parts found,
      advances the outer loop's invariant past i. */
  lemma FloodDone<V>(mesh: TriMesh<V>, before: seq<int>, beforeT: seq<int>, vv: seq<int>, vt: seq<int>, i: int,
                     result: seq<TriMesh<V>>, vOf: seq<seq<int>>, tOf: seq<seq<int>>,
                     m: TriMesh<V>, vs: seq<int>, ts: seq<int>)
    requires Searched(mesh, before, beforeT, i, result, vOf, tOf) && 0 <= i < |before|
    requires Flooding(mesh, m, before, beforeT, vv, vt, [], -1, vs, ts) && |vs| > 0 && vs[0] == i
    requires m != mesh && forall c | 0 <= c < |result| :: result[c] != m
    ensures Searched(mesh, vv, vt, i + 1, result + [m], vOf + [vs], tOf + [ts])
  {
    StillVisited(mesh.vertData, mesh.deadTris, mesh.triData, before, beforeT, vv, vt,
                 vs, ts, m.vertData, m.triData, i);
    AddPart(mesh, m, before, beforeT, vv, vt, result, vOf, tOf, vs, ts);
    SearchedAdd(mesh, before, vv, vt, i, result, vOf, tOf, m, vs, ts);
  }


  /** A vertex visited by an earlier flood is passed over. */
  lemma SearchedSkip<V>(mesh: TriMesh<V>, vv: seq<int>, vt: seq<int>, i: int,
                        result: seq<TriMesh<V>>, vOf: seq<seq<int>>, tOf: seq<seq<int>>)
    requires Searched(mesh, vv, vt, i, result, vOf, tOf) && 0 <= i < |vv| && vv[i] >= 0
    ensures Searched(mesh, vv, vt, i + 1, result, vOf, tOf)
  {
  }

  /** One pass of the outer loop: vertex i starts a new part unless already visited. */
  method SearchFrom<V>(mesh: TriMesh<V>, i: int, visitedV: array<int>, visitedT: array<int>,
                       result: seq<TriMesh<V>>, ghost vOf: seq<seq<int>>, ghost tOf: seq<seq<int>>)
    returns (result': seq<TriMesh<V>>, ghost vOf': seq<seq<int>>, ghost tOf': seq<seq<int>>)
    requires visitedV != visitedT && 0 <= i < visitedV.Length
    requires Searched(mesh, visitedV[..], visitedT[..], i, result, vOf, tOf)
    modifies visitedV, visitedT
    ensures Searched(mesh, visitedV[..], visitedT[..], i + 1, result', vOf', tOf')
  {
    if visitedV[i] < 0 {
      result', vOf', tOf' := FloodPart(mesh, i, visitedV, visitedT, result, vOf, tOf);
    } else {
      SearchedSkip(mesh, visitedV[..], visitedT[..], i, result, vOf, tOf);
      result', vOf', tOf' := result, vOf, tOf;
    }
  }

  /** The outer loop of connected_components: every vertex not visited by an earlier
      flood starts a new part. */
  method Search<V>(mesh: TriMesh<V>, visitedV: array<int>, visitedT: array<int>)
    returns (result: seq<TriMesh<V>>, ghost vOf: seq<seq<int>>, ghost tOf: seq<seq<int>>)
    requires visitedV != visitedT
    requires Searched(mesh, visitedV[..], visitedT[..], 0, [], [], [])
    modifies visitedV, visitedT
    ensures Searched(mesh, visitedV[..], visitedT[..], visitedV.Length, result, vOf, tOf)
  {
    result, vOf, tOf := [], [], [];
    for i := 0 to visitedV.Length
      invariant Searched(mesh, visitedV[..], visitedT[..], i, result, vOf, tOf)
    {
      result, vOf, tOf := SearchFrom(mesh, i, visitedV, visitedT, result, vOf, tOf);
    }
  }

  /** connected_components: the parts of the mesh, found by flooding from each vertex
      not yet visited, in turn. Every vertex slot, live or dead, lands in
      exactly one part, and every live triangle in exactly one; part c copies the data
      of its source vertices vOf[c], in order, and the triangles tOf[c] with their
      corners renamed through names, a triangle's corners lying in its own part. */
  method ConnectedComponents<V>(mesh: TriMesh<V>)
    returns (result: seq<TriMesh<V>>, ghost names: seq<int>, ghost vOf: seq<seq<int>>, ghost tOf: seq<seq<int>>)
    requires mesh.Valid()
    ensures forall c, d | 0 <= c < d < |result| :: result[c] != result[d]
    ensures forall c | 0 <= c < |result| :: result[c] != mesh
    ensures Split(mesh, result, names, vOf, tOf)
    ensures VertexTotal(result) == |mesh.vertData|
    ensures TriangleTotal(result) == |mesh.triData| - |mesh.deadTris|
  {
    var nv := |mesh.vertData|;
    var nt := |mesh.triData|;
    var visitedV := new int[nv](_ => -1);
    var visitedT := new int[nt](_ => -1);
    assert Searched(mesh, visitedV[..], visitedT[..], 0, [], [], []);
    result, vOf, tOf := Search(mesh, visitedV, visitedT);
    names := visitedV[..];
    Finish(mesh, names, visitedT[..], result, vOf, tOf);
  }

  /** Once every vertex is visited and closed, every live triangle is visited: its
      first corner's incidence list names it. */
  lemma LiveVisited(inc: seq<seq<int>>, deadTris: seq<int>, tris: seq<Triangle>, deadVerts: seq<int>, nv: int,
                    vv: seq<int>, vt: seq<int>)
    requires MeshInvariant(deadTris, tris, deadVerts, nv, inc)
    requires Closed(inc, vv, vt, [], -1) && VisitedBelow(vv, |vv|)
    ensures forall t | Live(deadTris, |tris|, t) :: 0 <= t < |vt| && vt[t] >= 0
  {
    forall t | Live(deadTris, |tris|, t)
      ensures 0 <= t < |vt| && vt[t] >= 0
    {
      var u := tris[t].Corner(0);
      assert Live(deadVerts, nv, u);
      assert multiset(inc[u])[t] == Refs(deadTris, tris, u, t) > 0;
      var k :| 0 <= k < |inc[u]| && inc[u][k] == t;
    }
  }

  /** When every vertex and every live triangle is visited, the parts name all of
      them, and hold as many names as there are vertex slots and live triangles. */
  lemma CoverAllNames(nv: nat, deadTris: seq<int>, nt: nat, vv: seq<int>, vt: seq<int>,
                      vOf: seq<seq<int>>, tOf: seq<seq<int>>)
    requires Cover(vv, vt, deadTris, nt, vOf, tOf) && |vv| == nv && |vt| == nt
    requires FreeListOk(deadTris, nt) && VisitedBelow(vv, nv)
    requires forall t | Live(deadTris, nt, t) :: vt[t] >= 0
    ensures CoverAll(nv, deadTris, nt, vOf, tOf)
    ensures |Concat(vOf)| == nv && |Concat(tOf)| == nt - |deadTris|
  {
    AllNames(Concat(vOf), nv);
    assert forall k | 0 <= k < |deadTris| :: deadTris[k] !in Concat(tOf);
    NoDupJoin(Concat(tOf), deadTris);
    AllNames(Concat(tOf) + deadTris, nt);
  }

  /** An exact copy names its source vertices and keeps its triangles' corners among
      them. */
  lemma PartNamed<V>(verts: seq<V>, deadTris: seq<int>, tris: seq<Triangle>, vv: seq<int>, vt: seq<int>,
                     vs: seq<int>, ts: seq<int>, mVerts: seq<V>, mTris: seq<Triangle>)
    requires Part(verts, deadTris, tris, vv, vt, vs, ts, mVerts, mTris)
    ensures forall y, k | 0 <= y < |ts| && 0 <= k < 3 ::
              && Live(deadTris, |tris|, ts[y]) && tris[ts[y]].Corner(k) in vs
              && mTris[y].Corner(k) == vv[tris[ts[y]].Corner(k)]
  {
    forall y, k | 0 <= y < |ts| && 0 <= k < 3
      ensures tris[ts[y]].Corner(k) in vs
    {
      assert Placed(vv, vs, tris[ts[y]].Corner(k));
    }
  }

  /** Each part found is a part of the mesh in the sense of PartSplit, and the parts
      hold as many vertices and triangles as their source lists name. */
  lemma EachPart<V>(mesh: TriMesh<V>, names: seq<int>, vt: seq<int>,
                    result: seq<TriMesh<V>>, vOf: seq<seq<int>>, tOf: seq<seq<int>>)
    requires Parts(mesh, names, vt, result, vOf, tOf)
    ensures forall c | 0 <= c < |result| :: PartSplit(mesh, result[c], names, vOf[c], tOf[c])
    ensures VertexTotal(result) == |Concat(vOf)| && TriangleTotal(result) == |Concat(tOf)|
  {
    forall c | 0 <= c < |result|
      ensures PartSplit(mesh, result[c], names, vOf[c], tOf[c])
      ensures |vOf[c]| == |result[c].vertData| && |tOf[c]| == |result[c].triData|
    {
      assert PartOf(mesh, result[c], names, vt, vOf[c], tOf[c]);
      PartNamed(mesh.vertData, mesh.deadTris, mesh.triData, names, vt, vOf[c], tOf[c],
                result[c].vertData, result[c].triData);
    }
    Totals(result, vOf, tOf);
  }

  /** After the outer loop every vertex is visited, so the parts split the mesh. */
  lemma Finish<V>(mesh: TriMesh<V>, names: seq<int>, vt: seq<int>,
                  result: seq<TriMesh<V>>, vOf: seq<seq<int>>, tOf: seq<seq<int>>)
    requires Parts(mesh, names, vt, result, vOf, tOf)
    requires Closed(mesh.incidence, names, vt, [], -1)
    requires VisitedBelow(names, |names|)
    ensures Split(mesh, result, names, vOf, tOf)
    ensures VertexTotal(result) == |mesh.vertData|
    ensures TriangleTotal(result) == |mesh.triData| - |mesh.deadTris|
  {
    LiveVisited(mesh.incidence, mesh.deadTris, mesh.triData, mesh.deadVerts, |mesh.vertData|, names, vt);
    CoverAllNames(|mesh.vertData|, mesh.deadTris, |mesh.triData|, names, vt, vOf, tOf);
    EachPart(mesh, names, vt, result, vOf, tOf);
  }
}
