/**
 * The random, degree-capped peer graph of the simulator's topology helper
 * (Transaction-Simulator/src/applications/helper/bitcoin-topology-helper.cc): every node draws
 * candidates from a shrinking pool until it has `maxConnections` peers or has tried
 * `10 * maxConnections` times; afterwards one link is created per undirected edge.
 * `rand()` is an input: `rng(d)` is the `d`-th value it returns.
 */
module Topology {
  import opened Common

  /** Adjacency lists: `adj[v]` lists the peers of node `v` in the order they were added. */
  type Adjacency = seq<seq<nat>>

  /** Every listed peer is a node, and no node lists itself. */
  predicate NoSelfLinks(adj: Adjacency) {
    forall v, k :: 0 <= v < |adj| && 0 <= k < |adj[v]| ==> adj[v][k] < |adj| && adj[v][k] != v
  }

  /** No node lists the same peer twice. */
  predicate NoDuplicateLinks(adj: Adjacency) {
    forall v :: 0 <= v < |adj| ==> Distinct(adj[v])
  }

  /** Every edge is recorded at both endpoints. */
  predicate Symmetric(adj: Adjacency) {
    forall v, w :: 0 <= v < |adj| && 0 <= w < |adj| ==> (w in adj[v] <==> v in adj[w])
  }

  predicate DegreesAtMost(adj: Adjacency, maxConnections: nat) {
    forall v :: 0 <= v < |adj| ==> |adj[v]| <= maxConnections
  }

  /** A well-formed undirected graph whose degrees are capped. */
  predicate WellFormed(adj: Adjacency, maxConnections: nat) {
    NoSelfLinks(adj) && NoDuplicateLinks(adj) && Symmetric(adj) && DegreesAtMost(adj, maxConnections)
  }

  /**
   * The candidate pool: distinct nodes, holding at least every node that can still take a
   * peer (a node leaves it only when it reached the cap as somebody's candidate).
   */
  predicate PoolCovers(adj: Adjacency, pool: seq<nat>, maxConnections: nat) {
    && Distinct(pool)
    && (forall k :: 0 <= k < |pool| ==> pool[k] < |adj|)
    && (forall v :: 0 <= v < |adj| && |adj[v]| < maxConnections ==> v in pool)
  }

  /** `s` without its `k`-th entry (`vector::erase`). */
  function RemoveAt(s: seq<nat>, k: nat): (r: seq<nat>)
    requires k < |s|
    ensures |r| == |s| - 1
    ensures forall x :: x in r ==> x in s
    ensures Distinct(s) ==> Distinct(r) && (forall x :: x in r <==> x in s && x != s[k])
  {
    var r := s[..k] + s[k + 1..];
    assert forall x :: x in r ==> x in s by {
      forall x | x in r ensures x in s {
        var j :| 0 <= j < |r| && r[j] == x;
        if j < k { assert s[j] == x; } else { assert s[j + 1] == x; }
      }
    }
    assert Distinct(s) ==> Distinct(r) && (forall x :: x in r <==> x in s && x != s[k]) by {
      if Distinct(s) {
        forall i, j | 0 <= i < j < |r| ensures r[i] != r[j] {
          var i' := if i < k then i else i + 1;
          var j' := if j < k then j else j + 1;
          assert r[i] == s[i'] && r[j] == s[j'];
        }
        forall x | x in s && x != s[k] ensures x in r {
          var j :| 0 <= j < |s| && s[j] == x;
          if j < k { assert r[j] == x; } else { assert r[j - 1] == x; }
        }
        forall x | x in r ensures x != s[k] {
          var j :| 0 <= j < |r| && r[j] == x;
          if j < k { assert s[j] == x; } else { assert s[j + 1] == x; }
        }
      }
    }
    r
  }

  /** Adds the undirected edge `{v, c}` to both adjacency lists. */
  function Connect(adj: Adjacency, v: nat, c: nat): (r: Adjacency)
    requires v < |adj| && c < |adj| && v != c
    ensures |r| == |adj|
    ensures r[v] == adj[v] + [c] && r[c] == adj[c] + [v]
    ensures forall u :: 0 <= u < |adj| && u != v && u != c ==> r[u] == adj[u]
  {
    adj[v := adj[v] + [c]][c := adj[c] + [v]]
  }

  /** Connecting two unconnected nodes below the cap keeps the graph well formed. */
  lemma ConnectWellFormed(adj: Adjacency, maxConnections: nat, v: nat, c: nat)
    requires WellFormed(adj, maxConnections)
    requires v < |adj| && c < |adj| && v != c && c !in adj[v]
    requires |adj[v]| < maxConnections && |adj[c]| < maxConnections
    ensures WellFormed(Connect(adj, v, c), maxConnections)
  {
    var r := Connect(adj, v, c);
    assert v !in adj[c];
    forall u, k | 0 <= u < |r| && 0 <= k < |r[u]| ensures r[u][k] < |r| && r[u][k] != u {
      if u == v || u == c {
        if k < |r[u]| - 1 { assert r[u][k] == adj[u][k]; }
      }
    }
    forall u | 0 <= u < |r| ensures Distinct(r[u]) {
      if u == v || u == c {
        forall i, j | 0 <= i < j < |r[u]| ensures r[u][i] != r[u][j] {
          assert r[u][i] == adj[u][i];
          if j < |adj[u]| { assert r[u][j] == adj[u][j]; }
        }
      }
    }
    forall a, b | 0 <= a < |r| && 0 <= b < |r| ensures b in r[a] <==> a in r[b] {
      assert b in r[a] <==> b in adj[a] || (a == v && b == c) || (a == c && b == v);
      assert a in r[b] <==> a in adj[b] || (b == v && a == c) || (b == c && a == v);
    }
  }

  /**
   * The adjacency-building loop: node `i` draws `rng(draws) % |pool|` while it has fewer than
   * `maxConnections` peers and fewer than `10 * maxConnections` attempts; a candidate that is
   * itself, already a peer, or full is skipped; otherwise the edge is added and the candidate
   * leaves the pool when it becomes full. `attempts[i]` counts the draws of node `i`.
   */
  method BuildTopology(totalNodes: nat, maxConnections: nat, rng: nat -> nat)
    returns (adj: Adjacency, pool: seq<nat>, attempts: seq<nat>)
    ensures |adj| == totalNodes && |attempts| == totalNodes
    ensures WellFormed(adj, maxConnections)
    ensures PoolCovers(adj, pool, maxConnections)
    ensures forall v :: 0 <= v < totalNodes && v !in pool ==> |adj[v]| == maxConnections
    ensures forall v :: 0 <= v < totalNodes ==> attempts[v] <= 10 * maxConnections
    ensures forall v :: 0 <= v < totalNodes && attempts[v] < 10 * maxConnections ==> |adj[v]| == maxConnections
  {
    adj := seq(totalNodes, _ => []);
    pool := seq(totalNodes, v => v);
    forall v | 0 <= v < totalNodes ensures v in pool {
      assert pool[v] == v;
    }
    attempts := [];
    var draws := 0;
    var i := 0;
    while i < totalNodes
      invariant 0 <= i <= totalNodes
      invariant |adj| == totalNodes && |attempts| == i
      invariant WellFormed(adj, maxConnections)
      invariant PoolCovers(adj, pool, maxConnections)
      invariant forall v :: 0 <= v < totalNodes && v !in pool ==> |adj[v]| == maxConnections
      invariant forall v :: 0 <= v < i ==> attempts[v] <= 10 * maxConnections
      invariant forall v :: 0 <= v < i && attempts[v] < 10 * maxConnections ==> |adj[v]| == maxConnections
    {
      var count := 0;
      while |adj[i]| < maxConnections && count < 10 * maxConnections
        invariant |adj| == totalNodes && count <= 10 * maxConnections
        invariant WellFormed(adj, maxConnections)
        invariant PoolCovers(adj, pool, maxConnections)
        invariant forall v :: 0 <= v < totalNodes && v !in pool ==> |adj[v]| == maxConnections
        invariant forall v :: 0 <= v < i && attempts[v] < 10 * maxConnections ==> |adj[v]| == maxConnections
        decreases 10 * maxConnections - count
      {
        // Node i is below the cap, so it is still in the pool: the draw is well defined.
        assert i in pool;
        var index := rng(draws) % |pool|;
        draws := draws + 1;
        var candidate := pool[index];
        if candidate == i {
        } else if candidate in adj[i] {
        } else if |adj[candidate]| >= maxConnections {
        } else {
          ConnectWellFormed(adj, maxConnections, i, candidate);
          var before := adj;
          adj := Connect(adj, i, candidate);
          if |adj[candidate]| == maxConnections {
            pool := RemoveAt(pool, index);
          }
          forall v | 0 <= v < totalNodes && |adj[v]| < maxConnections ensures v in pool {
            assert |before[v]| <= |adj[v]|;
          }
        }
        count := count + 1;
      }
      attempts := attempts + [count];
      i := i + 1;
    }
  }

  /**
   * The links created after the graph is built: for every node in increasing order, one link
   * to each listed peer with a larger id (`*it <= node.first` is skipped).
   */
  function Links(adj: Adjacency, v: nat): (links: seq<(nat, nat)>)
    requires v <= |adj|
    decreases |adj| - v
  {
    if v == |adj| then []
    else LinksOf(v, adj[v]) + Links(adj, v + 1)
  }

  function LinksOf(v: nat, peers: seq<nat>): (links: seq<(nat, nat)>)
    ensures forall a, b :: (a, b) in links <==> a == v && b in peers && b > v
  {
    if |peers| == 0 then []
    else (if peers[0] > v then [(v, peers[0])] else []) + LinksOf(v, peers[1..])
  }

  /** A link joins two connected nodes, smaller id first, and starts at a node from `v` on. */
  lemma {:induction false} LinksAreEdges(adj: Adjacency, v: nat, a: nat, b: nat)
    requires v <= |adj|
    ensures (a, b) in Links(adj, v) <==> v <= a < |adj| && b in adj[a] && a < b
    decreases |adj| - v
  {
    if v < |adj| {
      LinksAreEdges(adj, v + 1, a, b);
    }
  }

  /** In a symmetric graph each undirected edge `{a, b}` gives exactly the one link `(min, max)`. */
  lemma OneLinkPerEdge(adj: Adjacency, a: nat, b: nat)
    requires Symmetric(adj) && NoSelfLinks(adj) && a < |adj| && b < |adj|
    ensures b in adj[a] <==> (Min(a, b), Max(a, b)) in Links(adj, 0)
    ensures (Max(a, b), Min(a, b)) !in Links(adj, 0) || a == b
  {
    LinksAreEdges(adj, 0, Min(a, b), Max(a, b));
    LinksAreEdges(adj, 0, Max(a, b), Min(a, b));
    if b in adj[a] {
      assert a != b by {
        var k :| 0 <= k < |adj[a]| && adj[a][k] == b;
      }
    }
  }
}
