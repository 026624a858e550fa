/**
  The friendship graph as a value: a map from each user to the set of its
  friends, the three mutations of the graph as functions on that map, and the
  notions the breadth-first queries are specified by (walks, and the set of
  users reachable within a number of hops).
 */
module GraphSpec {

  type Vertex = string

  /** The adjacency list: user id -> ids of that user's friends. */
  type Adjacency = map<Vertex, set<Vertex>>

  /** The friends of `u`; an unknown user has none. */
  function Neighbours(g: Adjacency, u: Vertex): set<Vertex>
  {
    if u in g then g[u] else {}
  }

  /** Friendship is recorded on both sides, so every friend is also a user. */
  ghost predicate Symmetric(g: Adjacency)
  {
    forall u, v :: u in g && v in g[u] ==> v in g && u in g[v]
  }

  lemma SubsetSize(a: set<Vertex>, b: set<Vertex>)
    requires a <= b
    ensures |a| <= |b|
  {
    assert b == a + (b - a);
  }

  /** No sequence element occurs twice. */
  predicate Distinct(s: seq<Vertex>)
  {
    forall i, j :: 0 <= i < j < |s| ==> s[i] != s[j]
  }

  // ---------------------------------------------------------------------
  // Mutations
  // ---------------------------------------------------------------------

  /** `addUser`: a known user keeps its friends, a new one gets none. */
  function WithUser(g: Adjacency, u: Vertex): (r: Adjacency)
    ensures r.Keys == g.Keys + {u}
    ensures r[u] == Neighbours(g, u)
    ensures forall v :: v in g ==> r[v] == g[v]
  {
    if u in g then g else g[u := {}]
  }

  /**
    `addFriendship`: both users are created if needed, then each is added to
    the other's set. Nothing stops `a == b`, which records a self-friendship.
   */
  function WithEdge(g: Adjacency, a: Vertex, b: Vertex): (r: Adjacency)
    ensures r.Keys == g.Keys + {a, b}
    ensures forall v :: v in r ==>
      r[v] == Neighbours(g, v) + (if v == a then {b} else {}) + (if v == b then {a} else {})
  {
    var g1 := WithUser(WithUser(g, a), b);
    var g2 := g1[a := g1[a] + {b}];
    g2[b := g2[b] + {a}]
  }

  /**
    `removeFriendship`: each side that is a user loses the other; no user is
    created or removed.
   */
  function WithoutEdge(g: Adjacency, a: Vertex, b: Vertex): (r: Adjacency)
    ensures r.Keys == g.Keys
    ensures forall v :: v in r ==>
      r[v] == g[v] - (if v == a then {b} else {}) - (if v == b then {a} else {})
  {
    var g1 := if a in g then g[a := g[a] - {b}] else g;
    if b in g1 then g1[b := g1[b] - {a}] else g1
  }

  lemma WithUserPreservesSymmetry(g: Adjacency, u: Vertex)
    requires Symmetric(g)
    ensures Symmetric(WithUser(g, u))
  {
  }

  lemma WithEdgePreservesSymmetry(g: Adjacency, a: Vertex, b: Vertex)
    requires Symmetric(g)
    ensures Symmetric(WithEdge(g, a, b))
  {
    var r := WithEdge(g, a, b);
    forall x, y | x in r && y in r[x]
      ensures y in r && x in r[y]
    {
      if y in Neighbours(g, x) {
        assert x in Neighbours(g, y);
      }
    }
  }

  lemma WithoutEdgePreservesSymmetry(g: Adjacency, a: Vertex, b: Vertex)
    requires Symmetric(g)
    ensures Symmetric(WithoutEdge(g, a, b))
  {
  }

  /** Adding a user that is already there changes nothing; adding twice is adding once. */
  lemma WithUserIdempotent(g: Adjacency, u: Vertex)
    ensures u in g ==> WithUser(g, u) == g
    ensures WithUser(WithUser(g, u), u) == WithUser(g, u)
  {
  }

  /** Repeating a friendship changes nothing, so in particular no degree. */
  lemma WithEdgeIdempotent(g: Adjacency, a: Vertex, b: Vertex)
    ensures WithEdge(WithEdge(g, a, b), a, b) == WithEdge(g, a, b)
    ensures forall v :: |Neighbours(WithEdge(WithEdge(g, a, b), a, b), v)| == |Neighbours(WithEdge(g, a, b), v)|
  {
    var r1 := WithEdge(g, a, b);
    var r2 := WithEdge(r1, a, b);
    assert r2.Keys == r1.Keys;
    forall v | v in r2
      ensures r2[v] == r1[v]
    {
    }
  }

  /**
    Removing a friendship that was just added restores every friend set; only
    the users the addition created remain, with no friends.
   */
  lemma WithoutEdgeUndoesWithEdge(g: Adjacency, a: Vertex, b: Vertex)
    requires Symmetric(g)
    requires b !in Neighbours(g, a)
    ensures WithoutEdge(WithEdge(g, a, b), a, b) == WithUser(WithUser(g, a), b)
  {
    assert a !in Neighbours(g, b);
    UndoNewEdge(g, a, b);
  }

  /** `WithoutEdgeUndoesWithEdge` once both directions of the edge are known to be absent. */
  lemma UndoNewEdge(g: Adjacency, a: Vertex, b: Vertex)
    requires b !in Neighbours(g, a) && a !in Neighbours(g, b)
    ensures WithoutEdge(WithEdge(g, a, b), a, b) == WithUser(WithUser(g, a), b)
  {
    var e := WithEdge(g, a, b);
    var r := WithoutEdge(e, a, b);
    var w := WithUser(WithUser(g, a), b);
    assert r.Keys == e.Keys == w.Keys;
    forall v | v in r
      ensures r[v] == w[v]
    {
      assert v in e;
      UndoAt(g, a, b, v);
    }
  }

  /** One user's friends after adding and removing a new edge. */
  lemma UndoAt(g: Adjacency, a: Vertex, b: Vertex, v: Vertex)
    requires b !in Neighbours(g, a) && a !in Neighbours(g, b)
    requires v in WithEdge(g, a, b)
    ensures WithoutEdge(WithEdge(g, a, b), a, b)[v] == Neighbours(g, v)
    ensures WithUser(WithUser(g, a), b)[v] == Neighbours(g, v)
  {
    var e := WithEdge(g, a, b);
    var n := Neighbours(g, v);
    if v == a && v == b {
      assert e[v] == n + {a};
    } else if v == a {
      assert e[v] == n + {b};
    } else if v == b {
      assert e[v] == n + {a};
    } else {
      assert e[v] == n;
    }
  }


  // ---------------------------------------------------------------------
  // Degree sums
  // ---------------------------------------------------------------------

  /** The sum of the sizes of all friend sets. */
  ghost function DegreeSum(g: Adjacency): nat
    decreases |g.Keys|
  {
    if g == map[] then 0
    else
      var k :| k in g;
      |g[k]| + DegreeSum(g - {k})
  }

  /** The sum can be taken starting from any user, whichever one the definition picks. */
  lemma {:induction false} DegreeSumRemove(g: Adjacency, k: Vertex)
    requires k in g
    ensures DegreeSum(g) == |g[k]| + DegreeSum(g - {k})
    decreases |g.Keys|
  {
    var j :| j in g && DegreeSum(g) == |g[j]| + DegreeSum(g - {j});
    if j != k {
      var gj, gk := g - {j}, g - {k};
      assert |gj.Keys| < |g.Keys| by {
        assert gj.Keys < g.Keys;
      }
      assert |gk.Keys| < |g.Keys| by {
        assert gk.Keys < g.Keys;
      }
      DegreeSumRemove(gj, k);
      DegreeSumRemove(gk, j);
      assert gj - {k} == gk - {j};
    }
  }

  /** Replacing one friend set changes the sum by the difference of the sizes. */
  lemma DegreeSumUpdate(g: Adjacency, k: Vertex, friends: set<Vertex>)
    requires k in g
    ensures DegreeSum(g[k := friends]) + |g[k]| == DegreeSum(g) + |friends|
  {
    DegreeSumRemove(g, k);
    DegreeSumRemove(g[k := friends], k);
    assert g[k := friends] - {k} == g - {k};
  }

  /** A graph where every friend set is empty has degree sum 0. */
  lemma {:induction false} DegreeSumZero(g: Adjacency)
    requires forall v :: v in g ==> g[v] == {}
    ensures DegreeSum(g) == 0
    decreases |g.Keys|
  {
    if g != map[] {
      var k :| k in g;
      DegreeSumRemove(g, k);
      assert (g - {k}).Keys < g.Keys;
      DegreeSumZero(g - {k});
    }
  }

  /** Nobody is their own friend. */
  ghost predicate Loopless(g: Adjacency)
  {
    forall v :: v in g ==> v !in g[v]
  }

  /**
    Without self-friendships, every friendship is counted once from each
    side, so the degree sum is even and halving it counts friendships.
   */
  lemma {:induction false} DegreeSumEven(g: Adjacency)
    requires Symmetric(g) && Loopless(g)
    ensures DegreeSum(g) % 2 == 0
    decreases DegreeSum(g)
  {
    if DegreeSum(g) != 0 {
      var a: Vertex :| a in g && g[a] != {} by {
        if forall v :: v in g ==> g[v] == {} {
          DegreeSumZero(g);
        }
      }
      var b :| b in g[a];
      assert a != b && b in g && a in g[b];
      var g1 := g[a := g[a] - {b}];
      var r := g1[b := g[b] - {a}];
      assert r == WithoutEdge(g, a, b);
      WithoutEdgePreservesSymmetry(g, a, b);
      DegreeSumUpdate(g, a, g[a] - {b});
      DegreeSumUpdate(g1, b, g[b] - {a});
      assert |g[a] - {b}| == |g[a]| - 1;
      assert |g[b] - {a}| == |g[b]| - 1;
      assert g1[b] == g[b];
      assert DegreeSum(r) + 2 == DegreeSum(g);
      DegreeSumEven(r);
      TwoMore(DegreeSum(r), DegreeSum(g));
    }
  }

  lemma TwoMore(x: nat, y: nat)
    requires x % 2 == 0 && x + 2 == y
    ensures y % 2 == 0
  {
  }

  /** A single self-friendship gives an odd degree sum, so half of it is not a whole number. */
  lemma SelfFriendshipOddSum(a: Vertex)
    ensures WithEdge(map[], a, a) == map[a := {a}]
    ensures DegreeSum(WithEdge(map[], a, a)) == 1
  {
    var r := WithEdge(map[], a, a);
    assert r == map[a := {a}];
    DegreeSumRemove(r, a);
    assert r - {a} == map[];
  }

  // ---------------------------------------------------------------------
  // Walks and hop distance
  // ---------------------------------------------------------------------

  /** Consecutive users of `p` are friends. */
  ghost predicate IsWalk(g: Adjacency, p: seq<Vertex>)
  {
    |p| >= 1 && forall i :: 0 <= i < |p| - 1 ==> p[i + 1] in Neighbours(g, p[i])
  }

  /** The users reachable from `s` by a walk of at most `n` friendships. */
  ghost function Within(g: Adjacency, s: Vertex, n: nat): set<Vertex>
    decreases n
  {
    if n == 0 then {s}
    else
      var prev := Within(g, s, n - 1);
      prev + (set w, y | w in prev && y in Neighbours(g, w) :: y)
  }

  /**
    The users a breadth-first search from `u` bounded by `maxDistance` finds
    at two or more hops: not `u`, not a friend of `u`.
   */
  ghost function Suggestions(g: Adjacency, u: Vertex, maxDistance: int): set<Vertex>
  {
    if u !in g || maxDistance < 2 then {}
    else Within(g, u, maxDistance) - Within(g, u, 1)
  }

  lemma WithinOne(g: Adjacency, s: Vertex)
    ensures Within(g, s, 1) == {s} + Neighbours(g, s)
  {
    assert Within(g, s, 0) == {s};
  }

  lemma {:induction false} WithinMonotone(g: Adjacency, s: Vertex, m: nat, n: nat)
    requires m <= n
    ensures Within(g, s, m) <= Within(g, s, n)
    decreases n
  {
    if m < n {
      WithinMonotone(g, s, m, n - 1);
    }
  }

  /** A suggestion is neither the user nor one of the user's friends. */
  lemma SuggestionsExcludeSelfAndFriends(g: Adjacency, u: Vertex, maxDistance: int)
    ensures u !in Suggestions(g, u, maxDistance)
    ensures Suggestions(g, u, maxDistance) !! Neighbours(g, u)
  {
    WithinOne(g, u);
  }

  /** Every suggestion is within `maxDistance` hops and at least two. */
  lemma {:induction false} SuggestionsWithinBounds(g: Adjacency, u: Vertex, maxDistance: int, v: Vertex)
    requires v in Suggestions(g, u, maxDistance)
    ensures 2 <= maxDistance
    ensures exists p :: IsWalk(g, p) && p[0] == u && p[|p| - 1] == v && 3 <= |p| <= maxDistance + 1
  {
    var p := WithinHasWalk(g, u, maxDistance, v);
    if |p| <= 2 {
      WalkWithin(g, p);
      WithinMonotone(g, u, |p| - 1, 1);
    }
  }

  /** The last user of a walk is within its length of the first. */
  lemma {:induction false} WalkWithin(g: Adjacency, p: seq<Vertex>)
    requires IsWalk(g, p)
    ensures p[|p| - 1] in Within(g, p[0], |p| - 1)
    decreases |p|
  {
    if |p| > 1 {
      var q := p[..|p| - 1];
      assert IsWalk(g, q);
      WalkWithin(g, q);
      assert p[|p| - 1] in Neighbours(g, q[|q| - 1]);
    }
  }

  /** `p` is a walk from `s` to `e`. */
  ghost predicate Connects(g: Adjacency, p: seq<Vertex>, s: Vertex, e: Vertex)
  {
    IsWalk(g, p) && p[0] == s && p[|p| - 1] == e
  }

  /** A user outside every hop bound is the end of no walk. */
  lemma Unreachable(g: Adjacency, s: Vertex, e: Vertex)
    requires forall n: nat :: e !in Within(g, s, n)
    ensures forall p :: !Connects(g, p, s, e)
  {
    forall p | Connects(g, p, s, e) ensures false {
      WalkWithin(g, p);
    }
  }

  /** A user outside the first `k` hop bounds is the end of no walk of fewer than `k` friendships. */
  lemma NoShorterWalk(g: Adjacency, s: Vertex, e: Vertex, k: nat)
    requires forall n: nat :: n < k ==> e !in Within(g, s, n)
    ensures forall p :: Connects(g, p, s, e) ==> k + 1 <= |p|
  {
    forall p | Connects(g, p, s, e) ensures k + 1 <= |p| {
      WalkWithin(g, p);
    }
  }

  /** Conversely, a user within `n` hops is the end of a walk of at most `n` friendships. */
  lemma {:induction false} WithinHasWalk(g: Adjacency, s: Vertex, n: nat, v: Vertex) returns (p: seq<Vertex>)
    requires v in Within(g, s, n)
    ensures IsWalk(g, p) && p[0] == s && p[|p| - 1] == v && |p| <= n + 1
    decreases n
  {
    if n == 0 {
      p := [s];
    } else if v in Within(g, s, n - 1) {
      p := WithinHasWalk(g, s, n - 1, v);
    } else {
      var w :| w in Within(g, s, n - 1) && v in Neighbours(g, w);
      var q := WithinHasWalk(g, s, n - 1, w);
      p := q + [v];
    }
  }

  /**
    The heart of every breadth-first query: if `dist` labels a set of found
    users, the start with 0, every expanded user has all its friends found
    with a label at most one higher, and every label below `bound` has been
    expanded, then every user within `n <= bound` hops is found with a label
    of at most `n`.
   */
  lemma {:induction false} WithinCovered(g: Adjacency, s: Vertex, dist: map<Vertex, nat>, done: set<Vertex>, bound: nat, n: nat)
    requires s in dist && dist[s] == 0
    requires done <= dist.Keys
    requires forall x, y :: x in done && y in Neighbours(g, x) ==> y in dist && dist[y] <= dist[x] + 1
    requires forall v :: v in dist && dist[v] < bound ==> v in done
    requires n <= bound
    ensures forall v :: v in Within(g, s, n) ==> v in dist && dist[v] <= n
    decreases n
  {
    if n > 0 {
      WithinCovered(g, s, dist, done, bound, n - 1);
      forall v | v in Within(g, s, n)
        ensures v in dist && dist[v] <= n
      {
        if v !in Within(g, s, n - 1) {
          var w :| w in Within(g, s, n - 1) && v in Neighbours(g, w);
        }
      }
    }
  }

  /**
    The parent links a breadth-first search records: every labelled user
    other than the start was reached from a friend labelled one hop less.
   */
  ghost predicate ParentsValid(g: Adjacency, s: Vertex, dist: map<Vertex, nat>, parent: map<Vertex, Vertex>)
  {
    && parent.Keys == dist.Keys - {s}
    && forall v {:trigger parent[v]} :: v in parent ==>
         parent[v] in dist && dist[parent[v]] + 1 == dist[v] && v in Neighbours(g, parent[v])
  }

  /** Following parent links, a user labelled `n` is within `n` hops of the start. */
  lemma {:induction false} ParentChainWithin(g: Adjacency, s: Vertex, dist: map<Vertex, nat>, parent: map<Vertex, Vertex>, v: Vertex)
    requires s in dist && dist[s] == 0
    requires ParentsValid(g, s, dist, parent)
    requires v in dist
    ensures v in Within(g, s, dist[v])
    decreases dist[v]
  {
    if v != s {
      var p := parent[v];
      ParentChainWithin(g, s, dist, parent, p);
      assert v in Neighbours(g, p);
    }
  }

  // ---------------------------------------------------------------------
  // The state of a breadth-first search from `u`
  // ---------------------------------------------------------------------

  /** The search's record of visited users: hop counts and parent links from `u`. */
  ghost predicate Labelled(g: Adjacency, u: Vertex, visited: set<Vertex>, dist: map<Vertex, nat>, pred: map<Vertex, Vertex>)
  {
    && visited == dist.Keys
    && visited <= g.Keys
    && u in dist && dist[u] == 0
    && ParentsValid(g, u, dist, pred)
  }

  /** Every friend of an expanded user is visited, at most one hop further. */
  ghost predicate Expanded(g: Adjacency, done: set<Vertex>, dist: map<Vertex, nat>)
  {
    && done <= dist.Keys
    && forall x, y :: x in done && y in Neighbours(g, x) ==> y in dist && dist[y] <= dist[x] + 1
  }

  /** The start, and every user found below the bound, is expanded or waiting in the queue. */
  ghost predicate Scheduled(u: Vertex, maxDistance: int, dist: map<Vertex, nat>, done: set<Vertex>, queued: set<Vertex>)
  {
    forall v :: v in dist && (v == u || dist[v] < maxDistance) ==> v in done || v in queued
  }

  /** The suggestion set holds exactly the users found at 2 to `maxDistance` hops. */
  ghost predicate SuggestionsLabelled(suggestions: set<Vertex>, dist: map<Vertex, nat>, maxDistance: int)
  {
    forall v :: v in suggestions <==> v in dist && 2 <= dist[v] <= maxDistance
  }

  /** Visiting a new friend `y` of a visited `x` keeps the record consistent. */
  lemma LabelledVisit(g: Adjacency, u: Vertex, visited: set<Vertex>, dist: map<Vertex, nat>, pred: map<Vertex, Vertex>, x: Vertex, y: Vertex)
    requires Symmetric(g)
    requires Labelled(g, u, visited, dist, pred)
    requires x in dist && y in Neighbours(g, x) && y !in dist
    ensures Labelled(g, u, visited + {y}, dist[y := dist[x] + 1], pred[y := x])
  {
    var dist', pred' := dist[y := dist[x] + 1], pred[y := x];
    assert pred'.Keys == dist'.Keys - {u};
    forall v | v in pred'
      ensures pred'[v] in dist' && dist'[pred'[v]] + 1 == dist'[v] && v in Neighbours(g, pred'[v])
    {
      if v != y {
        assert pred'[v] == pred[v];
      }
    }
  }

  /** Labelling a new user leaves the expanded users' guarantees intact. */
  lemma ExpandedVisit(g: Adjacency, done: set<Vertex>, dist: map<Vertex, nat>, y: Vertex, d: nat)
    requires Expanded(g, done, dist)
    requires y !in dist
    ensures Expanded(g, done, dist[y := d])
  {
  }

  /** A new user is scheduled when it is queued or at the bound. */
  lemma ScheduledVisit(u: Vertex, maxDistance: int, dist: map<Vertex, nat>, done: set<Vertex>, queued: set<Vertex>,
                       queued': set<Vertex>, y: Vertex, d: nat)
    requires Scheduled(u, maxDistance, dist, done, queued)
    requires u in dist && y !in dist
    requires queued <= queued'
    requires d < maxDistance ==> y in queued'
    ensures Scheduled(u, maxDistance, dist[y := d], done, queued')
  {
  }

  /** A new user joins the suggestions exactly when its hop count is in range. */
  lemma SuggestionsVisit(suggestions: set<Vertex>, suggestions': set<Vertex>, dist: map<Vertex, nat>, maxDistance: int, y: Vertex, d: nat)
    requires SuggestionsLabelled(suggestions, dist, maxDistance)
    requires y !in dist
    requires suggestions' == if 2 <= d <= maxDistance then suggestions + {y} else suggestions
    ensures SuggestionsLabelled(suggestions', dist[y := d], maxDistance)
  {
  }

  /**
    When a bounded breadth-first search from `u` has run out of work (every
    found user below the bound, and `u`, expanded), the users it labelled
    with 2 to `maxDistance` hops are exactly the suggestions.
   */
  lemma SuggestionsFound(g: Adjacency, u: Vertex, maxDistance: int, visited: set<Vertex>, dist: map<Vertex, nat>,
                         parent: map<Vertex, Vertex>, done: set<Vertex>, found: set<Vertex>)
    requires u in g
    requires Labelled(g, u, visited, dist, parent)
    requires Expanded(g, done, dist)
    requires Scheduled(u, maxDistance, dist, done, {})
    requires SuggestionsLabelled(found, dist, maxDistance)
    ensures found == Suggestions(g, u, maxDistance)
  {
    if maxDistance < 2 {
      assert found == {};
    } else {
      assert u in done;
      FoundAreSuggestions(g, u, maxDistance, dist, parent, found);
      WithinCovered(g, u, dist, done, maxDistance, maxDistance);
      SuggestionsAreFound(g, u, maxDistance, dist, parent, found);
    }
  }

  lemma FoundAreSuggestions(g: Adjacency, u: Vertex, maxDistance: nat, dist: map<Vertex, nat>, parent: map<Vertex, Vertex>, found: set<Vertex>)
    requires u in g && maxDistance >= 2
    requires u in dist && dist[u] == 0
    requires ParentsValid(g, u, dist, parent)
    requires forall y :: y in Neighbours(g, u) ==> y in dist && dist[y] <= 1
    requires forall v :: v in found ==> v in dist && 2 <= dist[v] <= maxDistance
    ensures found <= Suggestions(g, u, maxDistance)
  {
    WithinOne(g, u);
    forall v | v in found
      ensures v in Within(g, u, maxDistance)
    {
      ParentChainWithin(g, u, dist, parent, v);
      WithinMonotone(g, u, dist[v], maxDistance);
    }
  }

  lemma SuggestionsAreFound(g: Adjacency, u: Vertex, maxDistance: nat, dist: map<Vertex, nat>, parent: map<Vertex, Vertex>, found: set<Vertex>)
    requires u in g && maxDistance >= 2
    requires u in dist && dist[u] == 0
    requires ParentsValid(g, u, dist, parent)
    requires forall v :: v in Within(g, u, maxDistance) ==> v in dist && dist[v] <= maxDistance
    requires forall v :: v in dist && 2 <= dist[v] <= maxDistance ==> v in found
    ensures Suggestions(g, u, maxDistance) <= found
  {
    forall v | v in Suggestions(g, u, maxDistance)
      ensures v in found
    {
      if dist[v] <= 1 {
        ParentChainWithin(g, u, dist, parent, v);
        WithinMonotone(g, u, dist[v], 1);
      }
    }
  }
}
