/**
  The contact graph seen as a value: every person's identifier mapped to that
  person's neighbours and contact levels. The two graph classes expose their
  state through this view, and everything proved about edges, paths and the
  "degrees apart" labelling is proved here, once, on values.
 */
module Contacts {
  import opened Base

  /** identifier -> (neighbour identifier -> contact level) */
  type Adjacency = map<Id, map<Id, real>>

  /** identifier -> degrees apart (`None` when not calculated) */
  type Labelling = map<Id, Option<int>>

  // ---------------------------------------------------------------------------
  // Edges
  // ---------------------------------------------------------------------------

  /** The representation invariants of a person, over the whole graph: every
      neighbour is a person of the graph, nobody is their own neighbour, and
      each contact level is stored on both people. */
  ghost predicate WellFormed(adj: Adjacency) {
    forall a, b :: a in adj && b in adj[a] ==>
      b in adj && b != a && a in adj[b] && adj[b][a] == adj[a][b]
  }

  /** Every neighbour is a person of the graph. */
  ghost predicate Closed(adj: Adjacency) {
    forall a :: a in adj ==> adj[a].Keys <= adj.Keys
  }

  /** The contact level between `a` and `b`: the stored weight, or 0 when they
      are not adjacent. */
  function Weight(adj: Adjacency, a: Id, b: Id): real
    requires a in adj
  {
    if b in adj[a] then adj[a][b] else 0.0
  }

  /** The adjacency after the contact level of `a` and `b` is written on both people. */
  function Connect(adj: Adjacency, a: Id, b: Id, w: real): (r: Adjacency)
    requires a in adj && b in adj
    ensures r.Keys == adj.Keys
  {
    adj[a := adj[a][b := w]][b := adj[b][a := w]]
  }

  /** Writing an edge keeps the invariants, reads back as `w` in both
      directions, and changes no other contact level. */
  lemma ConnectSound(adj: Adjacency, a: Id, b: Id, w: real)
    requires WellFormed(adj) && a in adj && b in adj && a != b
    ensures WellFormed(Connect(adj, a, b, w))
    ensures Weight(Connect(adj, a, b, w), a, b) == w
    ensures Weight(Connect(adj, a, b, w), b, a) == w
    ensures forall x, y :: x in adj && !(x == a && y == b) && !(x == b && y == a) ==>
      Weight(Connect(adj, a, b, w), x, y) == Weight(adj, x, y)
  {
    var r := Connect(adj, a, b, w);
    forall x, y | x in r && y in r[x]
      ensures y in r && y != x && x in r[y] && r[y][x] == r[x][y]
    {
      if x == a && y == b {
      } else if x == b && y == a {
      } else {
        assert y in adj[x];
      }
    }
  }

  // ---------------------------------------------------------------------------
  // Paths
  // ---------------------------------------------------------------------------

  /** A path: a non-empty sequence of people of the graph, each a neighbour of
      the one before. It has |path| - 1 hops. */
  ghost predicate IsPath(adj: Adjacency, path: seq<Id>)
    decreases |path|
  {
    && |path| > 0
    && path[0] in adj
    && (|path| == 1 || (path[1] in adj[path[0]] && IsPath(adj, path[1..])))
  }

  function Last(path: seq<Id>): Id
    requires |path| > 0
  {
    path[|path| - 1]
  }

  /** No person occurs twice. */
  ghost predicate Simple(path: seq<Id>) {
    forall i, j :: 0 <= i < j < |path| ==> path[i] != path[j]
  }

  /** No person of the path is in `visited`. */
  ghost predicate Avoids(path: seq<Id>, visited: set<Id>) {
    forall i :: 0 <= i < |path| ==> path[i] !in visited
  }

  lemma {:induction false} PathInGraph(adj: Adjacency, path: seq<Id>, i: int)
    requires IsPath(adj, path) && 0 <= i < |path|
    ensures path[i] in adj
  {
    if i > 0 {
      PathInGraph(adj, path[1..], i - 1);
    }
  }

  lemma {:induction false} PathSuffix(adj: Adjacency, path: seq<Id>, k: int)
    requires IsPath(adj, path) && 0 <= k < |path|
    ensures IsPath(adj, path[k..])
  {
    if k > 0 {
      PathSuffix(adj, path[1..], k - 1);
      assert path[1..][k - 1..] == path[k..];
    }
  }

  lemma {:induction false} PathPrefix(adj: Adjacency, path: seq<Id>, k: int)
    requires IsPath(adj, path) && 0 < k <= |path|
    ensures IsPath(adj, path[..k])
  {
    if k > 1 {
      PathPrefix(adj, path[1..], k - 1);
      assert path[..k][1..] == path[1..][..k - 1];
    }
  }

  /** Two paths that meet at a person join into one. */
  lemma {:induction false} PathJoin(adj: Adjacency, a: seq<Id>, b: seq<Id>)
    requires IsPath(adj, a) && IsPath(adj, b) && Last(a) == b[0]
    ensures IsPath(adj, a + b[1..])
  {
    if |a| == 1 {
      assert a + b[1..] == b;
    } else {
      PathJoin(adj, a[1..], b);
      assert (a + b[1..])[1..] == a[1..] + b[1..];
    }
  }

  /** Cutting the loop out of a path that visits a person twice leaves a shorter
      path with the same ends. */
  lemma CutLoop(adj: Adjacency, path: seq<Id>, i: int, j: int)
    requires IsPath(adj, path) && 0 <= i < j < |path| && path[i] == path[j]
    ensures IsPath(adj, path[..i + 1] + path[j + 1..])
    ensures |path[..i + 1] + path[j + 1..]| < |path|
    ensures (path[..i + 1] + path[j + 1..])[0] == path[0]
    ensures Last(path[..i + 1] + path[j + 1..]) == Last(path)
  {
    PathPrefix(adj, path, i + 1);
    PathSuffix(adj, path, j);
    assert path[j..][1..] == path[j + 1..];
    PathJoin(adj, path[..i + 1], path[j..]);
  }

  /** A walk that repeats people can always be shortened to a simple path
      between the same two people: exploring only simple paths loses no
      shortest one. */
  lemma {:induction false} ShortcutToSimple(adj: Adjacency, path: seq<Id>)
    returns (s: seq<Id>)
    requires IsPath(adj, path)
    ensures IsPath(adj, s) && Simple(s)
    ensures s[0] == path[0] && Last(s) == Last(path) && |s| <= |path|
    decreases |path|
  {
    if Simple(path) {
      s := path;
    } else {
      var i, j :| 0 <= i < j < |path| && path[i] == path[j];
      CutLoop(adj, path, i, j);
      s := ShortcutToSimple(adj, path[..i + 1] + path[j + 1..]);
    }
  }

  // ---------------------------------------------------------------------------
  // Degrees-apart labels
  // ---------------------------------------------------------------------------

  /** The label is present and at most `k`. */
  predicate AtMost(l: Option<int>, k: int) {
    l.Some? && l.value <= k
  }

  /** `l` is no higher than `m`, reading `None` as infinity. */
  predicate NoHigher(l: Option<int>, m: Option<int>) {
    m.None? || AtMost(l, m.value)
  }

  /** The label a walk at depth `d` leaves on the person it enters: `d` when the
      old label is missing or larger, the old label otherwise. */
  function Entered(l: Option<int>, d: int): (r: Option<int>)
    ensures AtMost(r, d) && NoHigher(r, l)
    ensures r == l || r == Some(d)
  {
    if l.None? || d < l.value then Some(d) else l
  }

  /** The depth at which a walk enters each person it reaches; people it never
      enters are absent. */
  type Depths = map<Id, int>

  /** Two sets of depths combined: every person of either, at the smaller depth. */
  function Meet(a: Depths, b: Depths): Depths {
    map v | v in a.Keys + b.Keys :: if v in a && (v !in b || a[v] <= b[v]) then a[v] else b[v]
  }

  lemma MeetComm(a: Depths, b: Depths)
    ensures Meet(a, b) == Meet(b, a)
  {
    assert forall v :: v in Meet(a, b) ==> Meet(a, b)[v] == Meet(b, a)[v];
  }

  lemma MeetAssoc(a: Depths, b: Depths, c: Depths)
    ensures Meet(Meet(a, b), c) == Meet(a, Meet(b, c))
  {
    var lhs, rhs := Meet(Meet(a, b), c), Meet(a, Meet(b, c));
    forall v | v in lhs ensures lhs[v] == rhs[v] {
      if v in a && v in b && v in c {
        assert lhs[v] == Min3(a[v], b[v], c[v]) == rhs[v];
      }
    }
  }

  function Min3(x: int, y: int, z: int): int {
    if x <= y && x <= z then x else if y <= z then y else z
  }

  /** The labels after every person in `r` has been entered at their depth in
      `r`. */
  function Apply(labels: Labelling, r: Depths): Labelling {
    map v | v in labels :: if v in r then Entered(labels[v], r[v]) else labels[v]
  }

  /** Entering keeps everybody, lowers a label to the entry depth when it is
      missing or larger, and otherwise keeps it. */
  lemma ApplyValues(labels: Labelling, r: Depths)
    ensures Apply(labels, r).Keys == labels.Keys
    ensures forall v :: v in labels ==> NoHigher(Apply(labels, r)[v], labels[v])
    ensures forall v :: v in labels && v in r ==> AtMost(Apply(labels, r)[v], r[v])
    ensures forall v :: v in labels ==>
      Apply(labels, r)[v] == labels[v] || (v in r && Apply(labels, r)[v] == Some(r[v]))
  {
  }

  /** Entering people in two rounds leaves the same labels as entering each
      once at the smaller of its two depths: the order of a walk's writes does
      not matter. */
  lemma ApplyTwice(labels: Labelling, r1: Depths, r2: Depths)
    ensures Apply(Apply(labels, r1), r2) == Apply(labels, Meet(r1, r2))
  {
    var lhs, rhs := Apply(Apply(labels, r1), r2), Apply(labels, Meet(r1, r2));
    forall v | v in labels ensures lhs[v] == rhs[v] {
    }
  }

  /** Some member of a non-empty set. */
  ghost function Pick(s: set<Id>): (x: Id)
    requires s != {}
    ensures x in s
  {
    var x :| x in s; x
  }

  /** The depths at which the walk of `calculate_degrees_apart` enters people,
      started at `p` at depth `d` with `visited` on the call path: `p` itself
      at `d`, then a walk at `d + 1` from every neighbour that is not on the
      call path, which now includes `p`. */
  ghost function Reach(adj: Adjacency, p: Id, d: int, visited: set<Id>): Depths
    requires Closed(adj) && p in adj && p !in visited
    decreases adj.Keys - visited, 0
  {
    Meet(map[p := d], ReachAll(adj, adj[p].Keys - (visited + {p}), d + 1, visited + {p}))
  }

  /** The depths entered by walks at depth `d` from every person in `qs`,
      combined; which person is walked first does not matter (ReachAllSplit). */
  ghost function ReachAll(adj: Adjacency, qs: set<Id>, d: int, visited: set<Id>): Depths
    requires Closed(adj) && qs <= adj.Keys && qs !! visited
    decreases adj.Keys - visited, 1, qs
  {
    if qs == {} then map[]
    else
      var q := Pick(qs);
      Meet(Reach(adj, q, d, visited), ReachAll(adj, qs - {q}, d, visited))
  }

  /** Any member of `qs` can be walked first. */
  lemma {:induction false} ReachAllSplit(adj: Adjacency, qs: set<Id>, q: Id, d: int, visited: set<Id>)
    requires Closed(adj) && qs <= adj.Keys && qs !! visited && q in qs
    ensures ReachAll(adj, qs, d, visited) == Meet(Reach(adj, q, d, visited), ReachAll(adj, qs - {q}, d, visited))
    decreases qs
  {
    var x := Pick(qs);
    if x != q {
      ReachAllSplit(adj, qs - {x}, q, d, visited);
      ReachAllSplit(adj, qs - {q}, x, d, visited);
      assert qs - {x} - {q} == qs - {q} - {x};
      var rx, rq, rest := Reach(adj, x, d, visited), Reach(adj, q, d, visited), ReachAll(adj, qs - {x} - {q}, d, visited);
      MeetAssoc(rx, rq, rest);
      MeetAssoc(rq, rx, rest);
      MeetComm(rx, rq);
    }
  }

  /** The labels after the walk from `p` has entered everybody it reaches. */
  ghost function AfterWalk(labels: Labelling, adj: Adjacency, p: Id, d: int, visited: set<Id>): Labelling
    requires Closed(adj) && p in adj && p !in visited
  {
    Apply(labels, Reach(adj, p, d, visited))
  }

  /** The labels after the walks from every member of `qs`. */
  ghost function AfterWalks(labels: Labelling, adj: Adjacency, qs: set<Id>, d: int, visited: set<Id>): Labelling
    requires Closed(adj) && qs <= adj.Keys && qs !! visited
  {
    Apply(labels, ReachAll(adj, qs, d, visited))
  }

  /** Walking one more person of a set: the labels after the walks from `qs`
      and then from `q` are those of the walks from `qs + {q}`. */
  lemma ReachAllStep(adj: Adjacency, labels: Labelling, qs: set<Id>, q: Id, d: int, visited: set<Id>)
    requires Closed(adj) && qs <= adj.Keys && q in adj && q !in qs && q !in visited && qs !! visited
    ensures AfterWalk(AfterWalks(labels, adj, qs, d, visited), adj, q, d, visited)
         == AfterWalks(labels, adj, qs + {q}, d, visited)
  {
    ReachAllSplit(adj, qs + {q}, q, d, visited);
    assert qs + {q} - {q} == qs;
    ApplyTwice(labels, ReachAll(adj, qs, d, visited), Reach(adj, q, d, visited));
    MeetComm(ReachAll(adj, qs, d, visited), Reach(adj, q, d, visited));
  }

  /** The walk from `p` is its entry at depth `d` followed by the walks from
      the neighbours off the call path, one hop deeper. */
  lemma ReachUnfold(adj: Adjacency, labels: Labelling, p: Id, d: int, visited: set<Id>)
    requires Closed(adj) && p in adj && p !in visited
    ensures AfterWalks(Apply(labels, map[p := d]), adj, adj[p].Keys - (visited + {p}), d + 1, visited + {p})
         == AfterWalk(labels, adj, p, d, visited)
  {
    ApplyTwice(labels, map[p := d], ReachAll(adj, adj[p].Keys - (visited + {p}), d + 1, visited + {p}));
  }

  /** Every depth the walk from `p` enters is `d` plus the hops of a simple
      path from `p` to that person that avoids `visited`. */
  lemma {:induction false} ReachSound(adj: Adjacency, p: Id, d: int, visited: set<Id>, v: Id)
    returns (path: seq<Id>)
    requires Closed(adj) && p in adj && p !in visited && v in Reach(adj, p, d, visited)
    ensures IsPath(adj, path) && path[0] == p && Last(path) == v
    ensures Simple(path) && Avoids(path, visited)
    ensures Reach(adj, p, d, visited)[v] == d + |path| - 1
    decreases adj.Keys - visited, 0
  {
    var pv := visited + {p};
    var rest := ReachAll(adj, adj[p].Keys - pv, d + 1, pv);
    if v in rest && Reach(adj, p, d, visited)[v] == rest[v] {
      var tail := ReachAllSound(adj, adj[p].Keys - pv, d + 1, pv, v);
      path := [p] + tail;
      assert path[1..] == tail;
      forall i | 0 < i < |path|
        ensures path[i] == tail[i - 1] && path[i] !in pv
      {
      }
    } else {
      path := [p];
    }
  }

  /** Every depth the walks from `qs` enter is `d` plus the hops of a simple
      path from a member of `qs` to that person that avoids `visited`. */
  lemma {:induction false} ReachAllSound(adj: Adjacency, qs: set<Id>, d: int, visited: set<Id>, v: Id)
    returns (path: seq<Id>)
    requires Closed(adj) && qs <= adj.Keys && qs !! visited && v in ReachAll(adj, qs, d, visited)
    ensures IsPath(adj, path) && path[0] in qs && Last(path) == v
    ensures Simple(path) && Avoids(path, visited)
    ensures ReachAll(adj, qs, d, visited)[v] == d + |path| - 1
    decreases adj.Keys - visited, 1, qs
  {
    var x := Pick(qs);
    var rx := Reach(adj, x, d, visited);
    if v in rx && ReachAll(adj, qs, d, visited)[v] == rx[v] {
      path := ReachSound(adj, x, d, visited, v);
    } else {
      path := ReachAllSound(adj, qs - {x}, d, visited, v);
    }
  }

  /** Every simple path from `p` that avoids `visited` ends at a person the walk
      enters at depth at most `d` plus the path's hops. */
  lemma {:induction false} ReachComplete(adj: Adjacency, p: Id, d: int, visited: set<Id>, path: seq<Id>)
    requires Closed(adj) && p in adj && p !in visited
    requires IsPath(adj, path) && Simple(path) && Avoids(path, visited) && path[0] == p
    ensures Last(path) in Reach(adj, p, d, visited)
    ensures Reach(adj, p, d, visited)[Last(path)] <= d + |path| - 1
    decreases adj.Keys - visited, 0
  {
    if |path| > 1 {
      var pv := visited + {p};
      var tail := path[1..];
      assert tail[0] == path[1] && path[1] != path[0];
      forall i | 0 <= i < |tail| ensures tail[i] !in pv {
        assert tail[i] == path[i + 1];
      }
      assert Last(tail) == Last(path);
      ReachAllComplete(adj, adj[p].Keys - pv, d + 1, pv, tail);
    }
  }

  /** Every simple path from a member of `qs` that avoids `visited` ends at a
      person the walks enter at depth at most `d` plus the path's hops. */
  lemma {:induction false} ReachAllComplete(adj: Adjacency, qs: set<Id>, d: int, visited: set<Id>, path: seq<Id>)
    requires Closed(adj) && qs <= adj.Keys && qs !! visited
    requires IsPath(adj, path) && Simple(path) && Avoids(path, visited) && path[0] in qs
    ensures Last(path) in ReachAll(adj, qs, d, visited)
    ensures ReachAll(adj, qs, d, visited)[Last(path)] <= d + |path| - 1
    decreases adj.Keys - visited, 1, qs
  {
    ReachAllSplit(adj, qs, path[0], d, visited);
    ReachComplete(adj, path[0], d, visited, path);
  }

  /** A walk started with nothing visited bounds every path from its start,
      repeated people or not: exploring only simple paths loses no shortest
      path. */
  lemma ReachBoundsAllPaths(adj: Adjacency, p: Id, d: int, path: seq<Id>)
    requires Closed(adj) && p in adj && IsPath(adj, path) && path[0] == p
    ensures Last(path) in Reach(adj, p, d, {})
    ensures Reach(adj, p, d, {})[Last(path)] <= d + |path| - 1
  {
    var s := ShortcutToSimple(adj, path);
    assert Avoids(s, {});
    ReachComplete(adj, p, d, {}, s);
  }

  /** Started with nothing visited, the walk from `p` enters exactly the
      people some path from `p` reaches, each at `d` plus the fewest hops of
      such a path. */
  lemma ReachIsDistance(adj: Adjacency, p: Id, d: int, v: Id)
    requires Closed(adj) && p in adj
    ensures v in Reach(adj, p, d, {}) <==>
      exists path :: IsPath(adj, path) && path[0] == p && Last(path) == v
    ensures v in Reach(adj, p, d, {}) ==>
      exists path :: IsPath(adj, path) && path[0] == p && Last(path) == v
                     && Reach(adj, p, d, {})[v] == d + |path| - 1
    ensures forall path :: IsPath(adj, path) && path[0] == p && Last(path) == v ==>
      v in Reach(adj, p, d, {}) && Reach(adj, p, d, {})[v] <= d + |path| - 1
  {
    if v in Reach(adj, p, d, {}) {
      var path := ReachSound(adj, p, d, {}, v);
    }
    forall path | IsPath(adj, path) && path[0] == p && Last(path) == v
      ensures v in Reach(adj, p, d, {}) && Reach(adj, p, d, {})[v] <= d + |path| - 1
    {
      ReachBoundsAllPaths(adj, p, d, path);
    }
  }

  /** A walk from `p` at depth `d` with nothing visited leaves a person whom no
      path from `p` reaches untouched, and lowers every other person's label
      to `d` plus their hop distance from `p` when it is missing or larger. */
  lemma WalkFromPerson(adj: Adjacency, labels: Labelling, p: Id, d: int, v: Id)
    requires Closed(adj) && p in adj && v in labels
    ensures (!exists path :: IsPath(adj, path) && path[0] == p && Last(path) == v) ==>
      AfterWalk(labels, adj, p, d, {})[v] == labels[v]
    ensures NoHigher(AfterWalk(labels, adj, p, d, {})[v], labels[v])
    ensures forall path :: IsPath(adj, path) && path[0] == p && Last(path) == v ==>
      AtMost(AfterWalk(labels, adj, p, d, {})[v], d + |path| - 1)
    ensures AfterWalk(labels, adj, p, d, {})[v] == labels[v] ||
      exists path :: IsPath(adj, path) && path[0] == p && Last(path) == v
                     && AfterWalk(labels, adj, p, d, {})[v] == Some(d + |path| - 1)
  {
    ReachIsDistance(adj, p, d, v);
    ApplyValues(labels, Reach(adj, p, d, {}));
  }

  // ---------------------------------------------------------------------------
  // The labelling recalculate_degrees produces
  // ---------------------------------------------------------------------------

  /** Every label present is the hop count of some path from an infected person. */
  ghost predicate Attained(adj: Adjacency, infected: set<Id>, labels: Labelling) {
    forall v :: v in labels && labels[v].Some? ==>
      exists path :: IsPath(adj, path) && path[0] in infected && Last(path) == v && labels[v].value == |path| - 1
  }

  /** Every path from an infected person ends at a person labelled at most its hop count. */
  ghost predicate Bounded(adj: Adjacency, infected: set<Id>, labels: Labelling) {
    forall path :: IsPath(adj, path) && path[0] in infected ==>
      Last(path) in labels && AtMost(labels[Last(path)], |path| - 1)
  }

  /** Degrees apart: every person is labelled with the minimum number of hops
      from any infected person, and `None` when no infected person reaches them. */
  ghost predicate IsDegreeLabelling(adj: Adjacency, infected: set<Id>, labels: Labelling) {
    && labels.Keys == adj.Keys
    && Attained(adj, infected, labels)
    && Bounded(adj, infected, labels)
  }

  /** The labels right after the infected people among `ids` are set to 0 and
      everyone else to `None`. */
  function Seeded(ids: set<Id>, infected: set<Id>): (r: Labelling)
    ensures r.Keys == ids
    ensures forall v :: v in ids && v in infected ==> r[v] == Some(0)
    ensures forall v :: v in ids && v !in infected ==> r[v] == None
  {
    map v | v in ids :: if v in infected then Some(0) else None
  }

  /** The labels recalculate_degrees leaves: the seeded labels after a walk at
      depth 0 from every infected person. */
  ghost function DegreesApart(adj: Adjacency, infected: set<Id>): Labelling
    requires Closed(adj) && infected <= adj.Keys
  {
    AfterWalks(Seeded(adj.Keys, infected), adj, infected, 0, {})
  }

  /** The walks from the infected people produce the degrees-apart labelling. */
  lemma DegreesApartCorrect(adj: Adjacency, infected: set<Id>)
    requires Closed(adj) && infected <= adj.Keys
    ensures IsDegreeLabelling(adj, infected, DegreesApart(adj, infected))
  {
    DegreesApartAttained(adj, infected);
    DegreesApartBounded(adj, infected);
  }

  lemma DegreesApartAttained(adj: Adjacency, infected: set<Id>)
    requires Closed(adj) && infected <= adj.Keys
    ensures Attained(adj, infected, DegreesApart(adj, infected))
  {
    forall v | v in DegreesApart(adj, infected) && DegreesApart(adj, infected)[v].Some?
      ensures exists path :: IsPath(adj, path) && path[0] in infected && Last(path) == v
                             && DegreesApart(adj, infected)[v].value == |path| - 1
    {
      var path := DegreesApartWitness(adj, infected, v);
    }
  }

  /** The path from an infected person that explains one label. */
  lemma DegreesApartWitness(adj: Adjacency, infected: set<Id>, v: Id) returns (path: seq<Id>)
    requires Closed(adj) && infected <= adj.Keys
    requires v in DegreesApart(adj, infected) && DegreesApart(adj, infected)[v].Some?
    ensures IsPath(adj, path) && path[0] in infected && Last(path) == v
    ensures DegreesApart(adj, infected)[v].value == |path| - 1
  {
    var seeds, r := Seeded(adj.Keys, infected), ReachAll(adj, infected, 0, {});
    if DegreesApart(adj, infected)[v] == seeds[v] {
      path := [v];
    } else {
      path := ReachAllSound(adj, infected, 0, {}, v);
    }
  }

  lemma DegreesApartBounded(adj: Adjacency, infected: set<Id>)
    requires Closed(adj) && infected <= adj.Keys
    ensures Bounded(adj, infected, DegreesApart(adj, infected))
  {
    var labels := DegreesApart(adj, infected);
    forall path | IsPath(adj, path) && path[0] in infected
      ensures Last(path) in labels && AtMost(labels[Last(path)], |path| - 1)
    {
      var s := ShortcutToSimple(adj, path);
      assert Avoids(s, {});
      ReachAllComplete(adj, infected, 0, {}, s);
      PathInGraph(adj, path, |path| - 1);
      ApplyValues(Seeded(adj.Keys, infected), ReachAll(adj, infected, 0, {}));
    }
  }

  /** Infected people are 0 degrees apart. */
  lemma InfectedAtZero(adj: Adjacency, infected: set<Id>, labels: Labelling, v: Id)
    requires IsDegreeLabelling(adj, infected, labels) && v in adj && v in infected
    ensures labels[v] == Some(0)
  {
    assert IsPath(adj, [v]) && Last([v]) == v;
  }

  /** A person has no label exactly when no infected person reaches them. */
  lemma NoneIffUnreachable(adj: Adjacency, infected: set<Id>, labels: Labelling, v: Id)
    requires IsDegreeLabelling(adj, infected, labels) && v in adj
    ensures labels[v].None? <==>
      !exists path :: IsPath(adj, path) && path[0] in infected && Last(path) == v
  {
    if labels[v].Some? {
      var path :| IsPath(adj, path) && path[0] in infected && Last(path) == v && labels[v].value == |path| - 1;
    }
  }

  /** The degrees-apart labelling of a graph and an infected set is unique, so
      recalculating with the same infected people gives the same labels. */
  lemma DegreeLabellingUnique(adj: Adjacency, infected: set<Id>, l1: Labelling, l2: Labelling)
    requires IsDegreeLabelling(adj, infected, l1) && IsDegreeLabelling(adj, infected, l2)
    ensures l1 == l2
  {
    forall v | v in adj ensures l1[v] == l2[v] {
      if l1[v].Some? {
        var path :| IsPath(adj, path) && path[0] in infected && Last(path) == v && l1[v].value == |path| - 1;
      }
      if l2[v].Some? {
        var path :| IsPath(adj, path) && path[0] in infected && Last(path) == v && l2[v].value == |path| - 1;
      }
    }
  }
}
