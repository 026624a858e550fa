/**
  The friendship graph of the social network: an undirected graph over user
  ids, kept as an adjacency map that the mutators update in place, and the
  queries over it, three of which are breadth-first searches driven by a
  `WorkQueues.Queue`.
 */
module Friendship {
  import opened Wrappers
  import opened GraphSpec
  import opened WorkQueues

  /** The result of `getStats`. */
  datatype GraphStats = GraphStats(totalUsers: nat, totalConnections: real, averageFriends: real)

  /** A queue entry of the suggestion search: a user and its hop count. */
  datatype Visit = Visit(id: Vertex, distance: nat)

  /** The ids of the entries of a suggestion-search queue. */
  function Ids(q: seq<Visit>): set<Vertex>
  {
    set e | e in q :: e.id
  }

  /** Queue entries carry their user's hop count, in nondecreasing order. */
  ghost predicate QueueLabelled(q: seq<Visit>, dist: map<Vertex, nat>)
  {
    && (forall e :: e in q ==> e.id in dist && e.distance == dist[e.id])
    && (forall i, j :: 0 <= i <= j < |q| ==> q[i].distance <= q[j].distance)
  }

  /** Queueing a newly labelled user at the highest hop count keeps the queue labelled and ordered. */
  lemma QueueVisit(q: seq<Visit>, dist: map<Vertex, nat>, y: Vertex, d: nat)
    requires QueueLabelled(q, dist)
    requires y !in dist
    requires forall e :: e in q ==> e.distance <= d
    ensures QueueLabelled(q + [Visit(y, d)], dist[y := d])
    ensures Ids(q + [Visit(y, d)]) == Ids(q) + {y}
  {
    var q' := q + [Visit(y, d)];
    forall i, j | 0 <= i <= j < |q'|
      ensures q'[i].distance <= q'[j].distance
    {
      if j == |q| && i < j {
        assert q'[i] in q;
      }
    }
  }

  /** Labelling a new user keeps every queued entry labelled as before. */
  lemma QueueLabelledExtend(q: seq<Visit>, dist: map<Vertex, nat>, y: Vertex, d: nat)
    requires QueueLabelled(q, dist)
    requires y !in dist
    ensures QueueLabelled(q, dist[y := d])
  {
  }

  /**
    The state of the suggestion search while the friends of `current` are
    being visited: every user found is labelled with its hop count and a
    discovering friend, the queue is labelled and lies at or beyond
    `current`, nobody is more than one hop beyond `current`, and the
    expanded users, the queue and the suggestions agree with the labels.
   */
  ghost predicate Frontier(g: Adjacency, u: Vertex, maxDistance: int, current: Visit, q: seq<Visit>,
                           visited: set<Vertex>, suggestions: set<Vertex>, dist: map<Vertex, nat>,
                           pred: map<Vertex, Vertex>, done: set<Vertex>)
  {
    && Labelled(g, u, visited, dist, pred)
    && current.id in dist && dist[current.id] == current.distance
    && QueueLabelled(q, dist)
    && (forall e :: e in q ==> current.distance <= e.distance)
    && (forall v :: v in dist ==> dist[v] <= current.distance + 1)
    && Expanded(g, done, dist)
    && Scheduled(u, maxDistance, dist, done + {current.id}, Ids(q))
    && SuggestionsLabelled(suggestions, dist, maxDistance)
  }

  /**
    Visiting a friend `y` of `current` not yet found: label it one hop
    beyond `current`, suggest it when that is 2 to `maxDistance` hops and
    queue it when that is below `maxDistance`. The search state is kept.
   */
  lemma VisitStep(g: Adjacency, u: Vertex, maxDistance: int, current: Visit, q: seq<Visit>,
                  visited: set<Vertex>, suggestions: set<Vertex>, dist: map<Vertex, nat>,
                  pred: map<Vertex, Vertex>, done: set<Vertex>, y: Vertex, d: nat,
                  q': seq<Visit>, suggestions': set<Vertex>)
    requires Symmetric(g)
    requires Frontier(g, u, maxDistance, current, q, visited, suggestions, dist, pred, done)
    requires y in Neighbours(g, current.id) && y !in visited
    requires d == current.distance + 1
    requires q' == if d < maxDistance then q + [Visit(y, d)] else q
    requires suggestions' == if 2 <= d <= maxDistance then suggestions + {y} else suggestions
    ensures Frontier(g, u, maxDistance, current, q', visited + {y}, suggestions', dist[y := d], pred[y := current.id], done)
  {
    LabelStep(g, u, maxDistance, current, visited, suggestions, dist, pred, done, y, d, dist[y := d], suggestions');
    QueueStep(u, maxDistance, current, q, dist, done + {current.id}, y, d, q');
  }

  /** The labelling side of `VisitStep`: `y` is labelled one hop beyond `current`. */
  lemma LabelStep(g: Adjacency, u: Vertex, maxDistance: int, current: Visit,
                  visited: set<Vertex>, suggestions: set<Vertex>, dist: map<Vertex, nat>,
                  pred: map<Vertex, Vertex>, done: set<Vertex>, y: Vertex, d: nat,
                  dist': map<Vertex, nat>, suggestions': set<Vertex>)
    requires Symmetric(g)
    requires Labelled(g, u, visited, dist, pred)
    requires current.id in dist && dist[current.id] == current.distance
    requires forall v :: v in dist ==> dist[v] <= current.distance + 1
    requires Expanded(g, done, dist)
    requires SuggestionsLabelled(suggestions, dist, maxDistance)
    requires y in Neighbours(g, current.id) && y !in dist
    requires d == current.distance + 1 && dist' == dist[y := d]
    requires suggestions' == if 2 <= d <= maxDistance then suggestions + {y} else suggestions
    ensures Labelled(g, u, visited + {y}, dist', pred[y := current.id])
    ensures current.id in dist' && dist'[current.id] == current.distance
    ensures forall v :: v in dist' ==> dist'[v] <= current.distance + 1
    ensures Expanded(g, done, dist')
    ensures SuggestionsLabelled(suggestions', dist', maxDistance)
  {
    LabelledVisit(g, u, visited, dist, pred, current.id, y);
    ExpandedVisit(g, done, dist, y, d);
    SuggestionsVisit(suggestions, suggestions', dist, maxDistance, y, d);
  }

  /** The queue side of `VisitStep`: queueing `y` below the bound keeps the queue labelled, ordered and scheduled. */
  lemma QueueStep(u: Vertex, maxDistance: int, current: Visit, q: seq<Visit>, dist: map<Vertex, nat>,
                  done: set<Vertex>, y: Vertex, d: nat, q': seq<Visit>)
    requires QueueLabelled(q, dist)
    requires forall e :: e in q ==> current.distance <= e.distance
    requires forall v :: v in dist ==> dist[v] <= current.distance + 1
    requires Scheduled(u, maxDistance, dist, done, Ids(q))
    requires u in dist && y !in dist
    requires d == current.distance + 1
    requires q' == if d < maxDistance then q + [Visit(y, d)] else q
    ensures QueueLabelled(q', dist[y := d])
    ensures forall e :: e in q' ==> current.distance <= e.distance
    ensures Scheduled(u, maxDistance, dist[y := d], done, Ids(q'))
  {
    if d < maxDistance {
      QueueVisit(q, dist, y, d);
    } else {
      QueueLabelledExtend(q, dist, y, d);
    }
    ScheduledVisit(u, maxDistance, dist, done, Ids(q), Ids(q'), y, d);
  }

  /**
    The state of the suggestion search between two dequeues: the labels are
    consistent, the queue is labelled and ordered, no user is more than one
    hop beyond the head of the queue, and the expanded users, the queue and
    the suggestions agree with the labels.
   */
  ghost predicate Searching(g: Adjacency, u: Vertex, maxDistance: int, q: seq<Visit>,
                            visited: set<Vertex>, suggestions: set<Vertex>, dist: map<Vertex, nat>,
                            pred: map<Vertex, Vertex>, done: set<Vertex>)
  {
    && Labelled(g, u, visited, dist, pred)
    && QueueLabelled(q, dist)
    && (q != [] ==> forall v :: v in dist ==> dist[v] <= q[0].distance + 1)
    && Expanded(g, done, dist)
    && Scheduled(u, maxDistance, dist, done, Ids(q))
    && SuggestionsLabelled(suggestions, dist, maxDistance)
  }

  /** Taking the head of the queue starts the visit of its friends. */
  lemma DequeueStep(g: Adjacency, u: Vertex, maxDistance: int, q: seq<Visit>,
                    visited: set<Vertex>, suggestions: set<Vertex>, dist: map<Vertex, nat>,
                    pred: map<Vertex, Vertex>, done: set<Vertex>)
    requires Searching(g, u, maxDistance, q, visited, suggestions, dist, pred, done)
    requires q != []
    ensures Frontier(g, u, maxDistance, q[0], q[1..], visited, suggestions, dist, pred, done)
  {
    assert q[0] in q;
    assert Ids(q) == {q[0].id} + Ids(q[1..]) by {
      assert q == [q[0]] + q[1..];
    }
    forall e | e in q[1..] ensures q[0].distance <= e.distance {
      var j :| 0 <= j < |q[1..]| && q[1..][j] == e;
      assert q[j + 1] == e;
    }
  }

  /** Once every friend of `current` is visited, `current` counts as expanded. */
  lemma ExpandStep(g: Adjacency, u: Vertex, maxDistance: int, current: Visit, q: seq<Visit>,
                   visited: set<Vertex>, suggestions: set<Vertex>, dist: map<Vertex, nat>,
                   pred: map<Vertex, Vertex>, done: set<Vertex>)
    requires Frontier(g, u, maxDistance, current, q, visited, suggestions, dist, pred, done)
    requires forall y :: y in Neighbours(g, current.id) ==> y in visited
    ensures Searching(g, u, maxDistance, q, visited, suggestions, dist, pred, done + {current.id})
  {
    if q != [] {
      assert q[0] in q;
    }
    assert Expanded(g, done + {current.id}, dist) by {
      forall x, y | x in done + {current.id} && y in Neighbours(g, x)
        ensures y in dist && dist[y] <= dist[x] + 1
      {
        if x != current.id {
          assert x in done;
        }
      }
    }
  }

  // ---------------------------------------------------------------------
  // The state of the shortest-path search
  // ---------------------------------------------------------------------

  /** Every queued user is labelled, and the queue is in order of hop count. */
  ghost predicate PathQueueLabelled(q: seq<Vertex>, dist: map<Vertex, nat>)
  {
    && (forall i :: 0 <= i < |q| ==> q[i] in dist)
    && (forall i, j :: 0 <= i <= j < |q| ==> dist[q[i]] <= dist[q[j]])
  }

  /**
    The state of the search for a path from `s` to `e` between two dequeues:
    labels and parent links are consistent, the queue is ordered with no
    user more than one hop beyond its head, every expanded user has all its
    friends labelled, every labelled user is expanded or queued, and `e` has
    not been expanded.
   */
  ghost predicate PathSearching(g: Adjacency, s: Vertex, e: Vertex, q: seq<Vertex>, visited: set<Vertex>,
                                dist: map<Vertex, nat>, parent: map<Vertex, Vertex>, done: set<Vertex>)
  {
    && Labelled(g, s, visited, dist, parent)
    && PathQueueLabelled(q, dist)
    && (q != [] ==> forall v :: v in dist ==> dist[v] <= dist[q[0]] + 1)
    && Expanded(g, done, dist)
    && (forall v :: v in dist ==> v in done || v in q)
    && e !in done
  }

  /** The same state while the friends of `current`, just dequeued, are being visited. */
  ghost predicate PathFrontier(g: Adjacency, s: Vertex, e: Vertex, current: Vertex, q: seq<Vertex>, visited: set<Vertex>,
                               dist: map<Vertex, nat>, parent: map<Vertex, Vertex>, done: set<Vertex>)
  {
    && Labelled(g, s, visited, dist, parent)
    && current in dist
    && PathQueueLabelled(q, dist)
    && (forall i :: 0 <= i < |q| ==> dist[current] <= dist[q[i]])
    && (forall v :: v in dist ==> dist[v] <= dist[current] + 1)
    && Expanded(g, done, dist)
    && (forall v :: v in dist ==> v in done || v == current || v in q)
    && e !in done && e != current
  }

  /** Taking the head of the queue, when it is not `e`, starts the visit of its friends. */
  lemma PathDequeueStep(g: Adjacency, s: Vertex, e: Vertex, q: seq<Vertex>, visited: set<Vertex>,
                        dist: map<Vertex, nat>, parent: map<Vertex, Vertex>, done: set<Vertex>)
    requires PathSearching(g, s, e, q, visited, dist, parent, done)
    requires q != [] && q[0] != e
    ensures PathFrontier(g, s, e, q[0], q[1..], visited, dist, parent, done)
  {
    assert q == [q[0]] + q[1..];
    forall i | 0 <= i < |q[1..]| ensures q[1..][i] in dist && dist[q[0]] <= dist[q[1..][i]] {
      assert q[1..][i] == q[i + 1];
    }
  }

  /** Labelling a new friend `y` of `current` and queueing it keeps the search state. */
  lemma PathVisitStep(g: Adjacency, s: Vertex, e: Vertex, current: Vertex, q: seq<Vertex>, visited: set<Vertex>,
                      dist: map<Vertex, nat>, parent: map<Vertex, Vertex>, done: set<Vertex>, y: Vertex)
    requires Symmetric(g)
    requires PathFrontier(g, s, e, current, q, visited, dist, parent, done)
    requires y in Neighbours(g, current) && y !in visited
    ensures PathFrontier(g, s, e, current, q + [y], visited + {y}, dist[y := dist[current] + 1], parent[y := current], done)
  {
    var d := dist[current] + 1;
    LabelledVisit(g, s, visited, dist, parent, current, y);
    ExpandedVisit(g, done, dist, y, d);
    PathQueueVisit(current, q, dist, y, d);
  }

  /** The queue side of `PathVisitStep`. */
  lemma PathQueueVisit(current: Vertex, q: seq<Vertex>, dist: map<Vertex, nat>, y: Vertex, d: nat)
    requires current in dist && d == dist[current] + 1 && y !in dist
    requires PathQueueLabelled(q, dist)
    requires forall i :: 0 <= i < |q| ==> dist[current] <= dist[q[i]]
    requires forall v :: v in dist ==> dist[v] <= dist[current] + 1
    ensures PathQueueLabelled(q + [y], dist[y := d])
    ensures forall i :: 0 <= i < |q + [y]| ==> dist[y := d][current] <= dist[y := d][(q + [y])[i]]
  {
    var q', dist' := q + [y], dist[y := d];
    forall i | 0 <= i < |q'| ensures q'[i] in dist' && (i < |q| ==> dist'[q'[i]] == dist[q[i]]) {
      if i < |q| {
        assert q'[i] == q[i];
      }
    }
  }

  /** Once every friend of `current` is labelled, `current` counts as expanded. */
  lemma PathExpandStep(g: Adjacency, s: Vertex, e: Vertex, current: Vertex, q: seq<Vertex>, visited: set<Vertex>,
                       dist: map<Vertex, nat>, parent: map<Vertex, Vertex>, done: set<Vertex>)
    requires PathFrontier(g, s, e, current, q, visited, dist, parent, done)
    requires forall y :: y in Neighbours(g, current) ==> y in visited
    ensures PathSearching(g, s, e, q, visited, dist, parent, done + {current})
  {
    if q != [] {
      assert dist[current] <= dist[q[0]];
    }
    assert Expanded(g, done + {current}, dist) by {
      forall x, y | x in done + {current} && y in Neighbours(g, x)
        ensures y in dist && dist[y] <= dist[x] + 1
      {
        if x != current {
          assert x in done;
        }
      }
    }
  }

  /**
    When `e` reaches the head of the queue, its label is its hop distance
    from `s`: it is within no smaller number of hops.
   */
  lemma PathFound(g: Adjacency, s: Vertex, e: Vertex, q: seq<Vertex>, visited: set<Vertex>,
                  dist: map<Vertex, nat>, parent: map<Vertex, Vertex>, done: set<Vertex>)
    requires PathSearching(g, s, e, q, visited, dist, parent, done)
    requires q != [] && q[0] == e
    ensures e in dist
    ensures forall n: nat :: n < dist[e] ==> e !in Within(g, s, n)
  {
    assert q[0] in dist;
    assert forall v :: v in dist && dist[v] < dist[e] ==> v in done;
    forall n: nat | n < dist[e] ensures e !in Within(g, s, n) {
      WithinCovered(g, s, dist, done, dist[e], n);
    }
  }

  /** When the queue runs dry before `e` is dequeued, `e` is within no number of hops of `s`. */
  lemma PathMissing(g: Adjacency, s: Vertex, e: Vertex, visited: set<Vertex>,
                    dist: map<Vertex, nat>, parent: map<Vertex, Vertex>, done: set<Vertex>)
    requires PathSearching(g, s, e, [], visited, dist, parent, done)
    ensures forall n: nat :: e !in Within(g, s, n)
  {
    forall n: nat ensures e !in Within(g, s, n) {
      WithinCovered(g, s, dist, done, n, n);
    }
  }

  /**
    `Array.from` of a set of ids: every member exactly once, in an order the
    model leaves open.
   */
  method ToSequence(s: set<Vertex>) returns (r: seq<Vertex>)
    ensures Distinct(r)
    ensures forall v :: v in r <==> v in s
    ensures |r| == |s|
  {
    r := [];
    var rest := s;
    while rest != {}
      invariant Distinct(r)
      invariant forall v :: v in s <==> v in r || v in rest
      invariant forall v :: v in r ==> v !in rest
      invariant |r| + |rest| == |s|
      decreases |rest|
    {
      var v :| v in rest;
      r := r + [v];
      rest := rest - {v};
    }
  }

  /**
    The closing arithmetic of `getStats`: the degree sum is halved into the
    number of connections, and the mean degree is that number doubled and
    divided by the number of users.
   */
  method Summarise(totalUsers: nat, degreeSum: nat) returns (stats: GraphStats)
    ensures stats.totalUsers == totalUsers
    ensures stats.totalConnections * 2.0 == degreeSum as real
    ensures degreeSum % 2 == 0 ==> stats.totalConnections == (degreeSum / 2) as real
    ensures totalUsers > 0 ==> stats.averageFriends == degreeSum as real / totalUsers as real
    ensures totalUsers == 0 ==> stats.averageFriends == 0.0
  {
    var totalConnections := degreeSum as real / 2.0;
    var averageFriends := if totalUsers > 0 then totalConnections * 2.0 / totalUsers as real else 0.0;
    stats := GraphStats(totalUsers, totalConnections, averageFriends);
  }

  class FriendshipGraph {
    /** `adjacencyList`: user id -> ids of that user's friends. */
    var adj: Adjacency

    /** The class invariant: every friendship is recorded on both sides. */
    ghost predicate Valid()
      reads this
    {
      Symmetric(adj)
    }

    constructor ()
      ensures Valid() && adj == map[]
    {
      adj := map[];
    }

    /** `addUser`: idempotent; a new user starts with no friends. */
    method AddUser(u: Vertex)
      requires Valid()
      modifies this
      ensures Valid()
      ensures adj == WithUser(old(adj), u)
    {
      if u !in adj {
        adj := adj[u := {}];
      }
      WithUserPreservesSymmetry(old(adj), u);
    }

    /** `addFriendship`: creates missing users, then records the friendship on both sides. */
    method AddFriendship(a: Vertex, b: Vertex)
      requires Valid()
      modifies this
      ensures Valid()
      ensures adj == WithEdge(old(adj), a, b)
      ensures b in adj[a] && a in adj[b]
      ensures forall v :: v in old(adj) && v != a && v != b ==> adj[v] == old(adj)[v]
    {
      AddUser(a);
      AddUser(b);
      adj := adj[a := adj[a] + {b}];
      adj := adj[b := adj[b] + {a}];
      WithEdgePreservesSymmetry(old(adj), a, b);
    }

    /** `removeFriendship`: each side that is a user forgets the other; never creates a user. */
    method RemoveFriendship(a: Vertex, b: Vertex)
      requires Valid()
      modifies this
      ensures Valid()
      ensures adj == WithoutEdge(old(adj), a, b)
      ensures adj.Keys == old(adj).Keys
      ensures b !in Neighbours(adj, a) && a !in Neighbours(adj, b)
    {
      if a in adj {
        adj := adj[a := adj[a] - {b}];
      }
      if b in adj {
        adj := adj[b := adj[b] - {a}];
      }
      WithoutEdgePreservesSymmetry(old(adj), a, b);
    }

    /** `getFriends`: the friend set as a sequence without repeats; empty for an unknown user. */
    method GetFriends(u: Vertex) returns (friends: seq<Vertex>)
      ensures Distinct(friends)
      ensures forall v :: v in friends <==> v in Neighbours(adj, u)
      ensures |friends| == |Neighbours(adj, u)|
      ensures u !in adj ==> friends == []
    {
      if u !in adj {
        return [];
      }
      friends := ToSequence(adj[u]);
    }

    /** `areFriends`: false for an unknown first user; by symmetry, the order of the pair is irrelevant. */
    method AreFriends(a: Vertex, b: Vertex) returns (r: bool)
      requires Valid()
      ensures r <==> b in Neighbours(adj, a)
      ensures r <==> a in Neighbours(adj, b)
    {
      if a !in adj {
        return false;
      }
      r := b in adj[a];
    }

    /**
      `getDegree`: the number of friends, 0 for an unknown user; by symmetry
      also the number of users that list `u` as a friend.
     */
    method GetDegree(u: Vertex) returns (d: nat)
      requires Valid()
      ensures d == |Neighbours(adj, u)|
      ensures d == |set v | v in adj && u in adj[v]|
    {
      if u !in adj {
        d := 0;
      } else {
        d := |adj[u]|;
      }
      assert (set v | v in adj && u in adj[v]) == Neighbours(adj, u);
    }

    /**
      `getMutualFriends`: the users that are friends of both, each once;
      empty when either user is unknown.
     */
    method GetMutualFriends(a: Vertex, b: Vertex) returns (mutual: seq<Vertex>)
      ensures Distinct(mutual)
      ensures forall v :: v in mutual <==> v in Neighbours(adj, a) && v in Neighbours(adj, b)
      ensures a !in adj || b !in adj ==> mutual == []
    {
      var list1 := GetFriends(a);
      var list2 := GetFriends(b);
      var friends2 := set v | v in list2;
      assert list2 == [] ==> friends2 == {};
      mutual := [];
      // `friends1.forEach` visits the members of `new Set(list1)` in the order of `list1`.
      var i := 0;
      while i < |list1|
        invariant 0 <= i <= |list1|
        invariant Distinct(mutual)
        invariant forall v :: v in mutual <==> v in list1[..i] && v in friends2
        invariant |mutual| <= i
        invariant friends2 == {} ==> mutual == []
      {
        if list1[i] in friends2 {
          mutual := mutual + [list1[i]];
        }
        i := i + 1;
      }
    }

    /**
      `getSuggestedFriends`: a breadth-first search from `u` that never
      expands a user other than `u` at `maxDistance` hops or more; every user it first
      reaches at 2 to `maxDistance` hops is suggested, each once. The result
      is exactly `Suggestions(adj, u, maxDistance)`: never `u`, never a friend
      of `u`, empty for an unknown `u`.
     */
    method GetSuggestedFriends(u: Vertex, maxDistance: int := 2) returns (suggested: seq<Vertex>)
      requires Valid()
      ensures Distinct(suggested)
      ensures forall v :: v in suggested <==> v in Suggestions(adj, u, maxDistance)
      ensures u !in suggested
      ensures forall v :: v in Neighbours(adj, u) ==> v !in suggested
      ensures u !in adj ==> suggested == []
    {
      if u !in adj {
        return [];
      }
      var visited: set<Vertex> := {u};
      var suggestions: set<Vertex> := {};
      var queue := new Queue<Visit>();
      // The hop count and the discovering friend of every visited user, and
      // the users already expanded: proof-only bookkeeping.
      ghost var dist: map<Vertex, nat> := map[u := 0];
      ghost var pred: map<Vertex, Vertex> := map[];
      ghost var done: set<Vertex> := {};
      queue.Enqueue(Visit(u, 0));
      var empty := queue.IsEmpty();
      while !empty
        invariant empty <==> queue.items == []
        invariant Searching(adj, u, maxDistance, queue.items, visited, suggestions, dist, pred, done)
        decreases |adj.Keys| - |visited|, |queue.items|
      {
        ghost var q := queue.items;
        var next := queue.Dequeue();
        var current := next.value;
        DequeueStep(adj, u, maxDistance, q, visited, suggestions, dist, pred, done);
        var friends := GetFriends(current.id);
        visited, suggestions, dist, pred := VisitFriends(adj, u, maxDistance, current, friends, queue, visited, suggestions, dist, pred, done);
        ExpandStep(adj, u, maxDistance, current, queue.items, visited, suggestions, dist, pred, done);
        done := done + {current.id};
        empty := queue.IsEmpty();
        SubsetSize(visited, adj.Keys);
      }
      assert Ids(queue.items) == {};
      suggested := ToSequence(suggestions);
      SuggestionsFound(adj, u, maxDistance, visited, dist, pred, done, suggestions);
      SuggestionsExcludeSelfAndFriends(adj, u, maxDistance);
    }

    /**
      `getShortestPath`: a breadth-first search from `s` recording for each
      newly found user the friend it was found from; when `e` is dequeued
      the parent links are followed back from `e`. The result is a walk from
      `s` to `e` no longer than any other, through distinct users, or empty
      exactly when either user is unknown or no walk joins them.
     */
    method GetShortestPath(s: Vertex, e: Vertex) returns (path: seq<Vertex>)
      requires Valid()
      ensures s !in adj || e !in adj ==> path == []
      ensures path != [] ==> Connects(adj, path, s, e) && Distinct(path)
      ensures path != [] ==> forall p :: Connects(adj, p, s, e) ==> |path| <= |p|
      ensures path == [] ==> s !in adj || e !in adj || forall p :: !Connects(adj, p, s, e)
      ensures s in adj && s == e ==> path == [s]
    {
      if s !in adj || e !in adj {
        return [];
      }
      var visited: set<Vertex> := {s};
      var parent: map<Vertex, Vertex> := map[];
      var queue := new Queue<Vertex>();
      // The hop count of every visited user and the users already expanded:
      // proof-only bookkeeping.
      ghost var dist: map<Vertex, nat> := map[s := 0];
      ghost var done: set<Vertex> := {};
      queue.Enqueue(s);
      var empty := queue.IsEmpty();
      while !empty
        invariant empty <==> queue.items == []
        invariant PathSearching(adj, s, e, queue.items, visited, dist, parent, done)
        decreases |adj.Keys| - |visited|, |queue.items|
      {
        ghost var q := queue.items;
        var next := queue.Dequeue();
        var current := next.value;
        if current == e {
          path := FoundPath(adj, s, e, parent, q, visited, dist, done);
          return;
        }
        PathDequeueStep(adj, s, e, q, visited, dist, parent, done);
        var friends := GetFriends(current);
        visited, parent, dist := ExploreFriends(adj, s, e, current, friends, queue, visited, parent, dist, done);
        PathExpandStep(adj, s, e, current, queue.items, visited, dist, parent, done);
        done := done + {current};
        empty := queue.IsEmpty();
        SubsetSize(visited, adj.Keys);
      }
      PathMissing(adj, s, e, visited, dist, parent, done);
      Unreachable(adj, s, e);
      return [];
    }

    /**
      `getStats`: the number of users, half the sum of the friend-set sizes
      as the number of connections, and the mean friend-set size. Without
      self-friendships that half is a whole number (`DegreeSumEven`).
     */
    method GetStats() returns (stats: GraphStats)
      ensures stats.totalUsers == |adj|
      ensures stats.totalConnections * 2.0 == DegreeSum(adj) as real
      ensures Valid() && Loopless(adj) ==> stats.totalConnections == (DegreeSum(adj) / 2) as real
      ensures stats.totalUsers > 0 ==> stats.averageFriends == DegreeSum(adj) as real / stats.totalUsers as real
      ensures stats.totalUsers == 0 ==> stats.averageFriends == 0.0
    {
      var totalConnections := 0;
      // `adjacencyList.forEach` visits the users in an order the model leaves open.
      var rest := adj;
      while rest != map[]
        invariant totalConnections + DegreeSum(rest) == DegreeSum(adj)
        decreases |rest.Keys|
      {
        var k :| k in rest;
        DegreeSumRemove(rest, k);
        totalConnections := totalConnections + |rest[k]|;
        assert (rest - {k}).Keys < rest.Keys;
        rest := rest - {k};
      }
      assert totalConnections == DegreeSum(adj);
      stats := Summarise(|adj|, totalConnections);
      if Valid() && Loopless(adj) {
        DegreeSumEven(adj);
      }
    }
  }

  /**
    The `for (const friendId of friends)` loop of `getShortestPath`: every
    friend of `current` not yet visited is marked, linked to `current` and
    queued.
   */
  method ExploreFriends(ghost g: Adjacency, ghost s: Vertex, ghost e: Vertex, current: Vertex, friends: seq<Vertex>,
                        queue: Queue<Vertex>, visited0: set<Vertex>, parent0: map<Vertex, Vertex>,
                        ghost dist0: map<Vertex, nat>, ghost done: set<Vertex>)
    returns (visited: set<Vertex>, parent: map<Vertex, Vertex>, ghost dist: map<Vertex, nat>)
    requires Symmetric(g)
    requires forall v :: v in friends <==> v in Neighbours(g, current)
    requires PathFrontier(g, s, e, current, queue.items, visited0, dist0, parent0, done)
    modifies queue
    ensures PathFrontier(g, s, e, current, queue.items, visited, dist, parent, done)
    ensures forall y :: y in Neighbours(g, current) ==> y in visited
    ensures |visited| >= |visited0| && (|visited| == |visited0| ==> queue.items == old(queue.items))
  {
    visited, parent, dist := visited0, parent0, dist0;
    var i := 0;
    while i < |friends|
      invariant 0 <= i <= |friends|
      invariant PathFrontier(g, s, e, current, queue.items, visited, dist, parent, done)
      invariant forall v :: v in friends[..i] ==> v in visited
      invariant |visited| >= |visited0| && (|visited| == |visited0| ==> queue.items == old(queue.items))
    {
      visited, parent, dist := ExploreFriend(g, s, e, current, friends, i, queue, visited, parent, dist, done);
      i := i + 1;
    }
    assert friends[..i] == friends;
  }

  /** One iteration of that loop, for the friend `friends[i]` of `current`. */
  method ExploreFriend(ghost g: Adjacency, ghost s: Vertex, ghost e: Vertex, current: Vertex, friends: seq<Vertex>, i: nat,
                       queue: Queue<Vertex>, visited0: set<Vertex>, parent0: map<Vertex, Vertex>,
                       ghost dist0: map<Vertex, nat>, ghost done: set<Vertex>)
    returns (visited: set<Vertex>, parent: map<Vertex, Vertex>, ghost dist: map<Vertex, nat>)
    requires Symmetric(g)
    requires i < |friends| && friends[i] in Neighbours(g, current)
    requires forall v :: v in friends[..i] ==> v in visited0
    requires PathFrontier(g, s, e, current, queue.items, visited0, dist0, parent0, done)
    modifies queue
    ensures PathFrontier(g, s, e, current, queue.items, visited, dist, parent, done)
    ensures forall v :: v in friends[..i + 1] ==> v in visited
    ensures |visited| >= |visited0| && (|visited| == |visited0| ==> queue.items == old(queue.items))
    ensures friends[i] in visited0 ==>
              visited == visited0 && parent == parent0 && dist == dist0 && queue.items == old(queue.items)
    ensures friends[i] !in visited0 ==>
              && visited == visited0 + {friends[i]}
              && parent == parent0[friends[i] := current]
              && dist == dist0[friends[i] := dist0[current] + 1]
              && queue.items == old(queue.items) + [friends[i]]
  {
    assert friends[..i + 1] == friends[..i] + [friends[i]];
    var friendId := friends[i];
    visited, parent, dist := visited0, parent0, dist0;
    if friendId !in visited {
      PathVisitStep(g, s, e, current, queue.items, visited, dist, parent, done, friendId);
      visited := visited + {friendId};
      parent := parent[friendId := current];
      dist := dist[friendId := dist[current] + 1];
      queue.Enqueue(friendId);
    }
  }

  /** The `current === endId` branch of `getShortestPath`: the path read off the parent links is a shortest one. */
  method FoundPath(ghost g: Adjacency, ghost s: Vertex, e: Vertex, parent: map<Vertex, Vertex>, ghost q: seq<Vertex>,
                   ghost visited: set<Vertex>, ghost dist: map<Vertex, nat>, ghost done: set<Vertex>)
    returns (path: seq<Vertex>)
    requires PathSearching(g, s, e, q, visited, dist, parent, done)
    requires q != [] && q[0] == e
    ensures path != [] && Connects(g, path, s, e) && Distinct(path)
    ensures forall p :: Connects(g, p, s, e) ==> |path| <= |p|
    ensures s == e ==> path == [s]
  {
    PathFound(g, s, e, q, visited, dist, parent, done);
    path := ReconstructPath(g, s, e, parent, dist);
    NoShorterWalk(g, s, e, dist[e]);
  }

  /**
    The path reconstruction of `getShortestPath`: starting from `e`, each
    user is put in front of the path and replaced by its parent, until a
    user without one (the start) has been put in front. The result walks
    from `s` to `e`, one hop count per position.
   */
  method ReconstructPath(ghost g: Adjacency, ghost s: Vertex, e: Vertex, parent: map<Vertex, Vertex>,
                         ghost dist: map<Vertex, nat>) returns (path: seq<Vertex>)
    requires s in dist && dist[s] == 0 && ParentsValid(g, s, dist, parent)
    requires e in dist
    ensures Connects(g, path, s, e)
    ensures |path| == dist[e] + 1
    ensures forall i :: 0 <= i < |path| ==> path[i] in dist && dist[path[i]] == i
    ensures Distinct(path)
  {
    path := [];
    var node: Option<Vertex> := Some(e);
    while node.Some?
      invariant node.Some? ==> node.value in dist && dist[node.value] + |path| == dist[e]
      invariant node.Some? && path == [] ==> node.value == e
      invariant node.Some? && path != [] ==> path[0] in parent && parent[path[0]] == node.value
      invariant node.None? ==> path != [] && path[0] !in parent
      invariant path != [] ==> path[|path| - 1] == e
      invariant forall i :: 0 <= i < |path| ==> path[i] in dist && dist[path[i]] == dist[e] + 1 - |path| + i
      invariant forall i :: 0 < i < |path| ==> path[i] in parent && parent[path[i]] == path[i - 1]
      decreases if node.Some? then dist[node.value] + 1 else 0
    {
      var v := node.value;
      path := [v] + path;
      node := if v in parent then Some(parent[v]) else None;
    }
    assert path[0] == s;
    forall i | 0 <= i < |path| - 1 ensures path[i + 1] in Neighbours(g, path[i]) {
      assert path[i + 1] in parent && parent[path[i + 1]] == path[i];
    }
    forall i, j | 0 <= i < j < |path| ensures path[i] != path[j] {
      assert dist[path[i]] != dist[path[j]];
    }
  }

  /**
    The `for (const friendId of friends)` loop of `getSuggestedFriends` over
    the friends of `current` in the graph `g`: marks each friend not yet
    visited one hop further than `current`, suggests it when that is 2 to
    `maxDistance` hops, and queues it when that is below `maxDistance`.
   */
  method VisitFriends(ghost g: Adjacency, u: Vertex, maxDistance: int, current: Visit, friends: seq<Vertex>,
                      queue: Queue<Visit>, visited0: set<Vertex>, suggestions0: set<Vertex>,
                      ghost dist0: map<Vertex, nat>, ghost pred0: map<Vertex, Vertex>, ghost done: set<Vertex>)
    returns (visited: set<Vertex>, suggestions: set<Vertex>, ghost dist: map<Vertex, nat>, ghost pred: map<Vertex, Vertex>)
    requires Symmetric(g)
    requires forall v :: v in friends <==> v in Neighbours(g, current.id)
    requires Frontier(g, u, maxDistance, current, queue.items, visited0, suggestions0, dist0, pred0, done)
    modifies queue
    ensures Frontier(g, u, maxDistance, current, queue.items, visited, suggestions, dist, pred, done)
    ensures forall y :: y in Neighbours(g, current.id) ==> y in visited
    ensures |visited| >= |visited0| && (|visited| == |visited0| ==> queue.items == old(queue.items))
  {
    visited, suggestions, dist, pred := visited0, suggestions0, dist0, pred0;
    var i := 0;
    while i < |friends|
      invariant 0 <= i <= |friends|
      invariant Frontier(g, u, maxDistance, current, queue.items, visited, suggestions, dist, pred, done)
      invariant forall v :: v in friends[..i] ==> v in visited
      invariant |visited| >= |visited0| && (|visited| == |visited0| ==> queue.items == old(queue.items))
    {
      visited, suggestions, dist, pred := VisitFriend(g, u, maxDistance, current, friends, i, queue, visited, suggestions, dist, pred, done);
      i := i + 1;
    }
    assert friends[..i] == friends;
  }

  /** One iteration of that loop, for the friend `friendId` of `current`. */
  method VisitFriend(ghost g: Adjacency, u: Vertex, maxDistance: int, current: Visit, friends: seq<Vertex>, i: nat,
                     queue: Queue<Visit>, visited0: set<Vertex>, suggestions0: set<Vertex>,
                     ghost dist0: map<Vertex, nat>, ghost pred0: map<Vertex, Vertex>, ghost done: set<Vertex>)
    returns (visited: set<Vertex>, suggestions: set<Vertex>, ghost dist: map<Vertex, nat>, ghost pred: map<Vertex, Vertex>)
    requires Symmetric(g)
    requires i < |friends| && friends[i] in Neighbours(g, current.id)
    requires forall v :: v in friends[..i] ==> v in visited0
    requires Frontier(g, u, maxDistance, current, queue.items, visited0, suggestions0, dist0, pred0, done)
    modifies queue
    ensures Frontier(g, u, maxDistance, current, queue.items, visited, suggestions, dist, pred, done)
    ensures forall v :: v in friends[..i + 1] ==> v in visited
    ensures |visited| >= |visited0| && (|visited| == |visited0| ==> queue.items == old(queue.items))
    ensures friends[i] in visited0 ==>
              && visited == visited0 && suggestions == suggestions0
              && dist == dist0 && pred == pred0 && queue.items == old(queue.items)
    ensures friends[i] !in visited0 ==>
              && visited == visited0 + {friends[i]}
              && dist == dist0[friends[i] := current.distance + 1]
              && pred == pred0[friends[i] := current.id]
              && suggestions == (if 2 <= current.distance + 1 <= maxDistance then suggestions0 + {friends[i]} else suggestions0)
              && queue.items == old(queue.items) + (if current.distance + 1 < maxDistance then [Visit(friends[i], current.distance + 1)] else [])
  {
    assert friends[..i + 1] == friends[..i] + [friends[i]];
    var friendId := friends[i];
    visited, suggestions, dist, pred := visited0, suggestions0, dist0, pred0;
    if friendId !in visited {
      var newDistance := current.distance + 1;
      ghost var q' := if newDistance < maxDistance then queue.items + [Visit(friendId, newDistance)] else queue.items;
      ghost var suggestions' := if 2 <= newDistance <= maxDistance then suggestions + {friendId} else suggestions;
      VisitStep(g, u, maxDistance, current, queue.items, visited, suggestions, dist, pred, done, friendId, newDistance, q', suggestions');
      visited := visited + {friendId};
      dist := dist[friendId := newDistance];
      pred := pred[friendId := current.id];
      if newDistance >= 2 && newDistance <= maxDistance {
        suggestions := suggestions + {friendId};
      }
      if newDistance < maxDistance {
        queue.Enqueue(Visit(friendId, newDistance));
      }
    }
  }
}
