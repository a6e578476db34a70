/**
 * The A* search of pathfinding.py (`algorithm`) and the walk back along
 * the predecessor map (`reconstruct_path`).
 *
 * The score dictionaries map every cell to infinity at the start; here a
 * cell without a key has score infinity. The priority queue is a sequence
 * of (f, count, node) entries from which the lexicographically least
 * (f, count) is removed.
 */
module Search {
  import opened Nodes
  import opened Grid

  /** A queued tuple (f score, insertion count, node). */
  datatype Entry = Entry(f: nat, count: nat, node: Node)

  /** The order in which the queue compares its tuples: by f, then by count. */
  predicate EntryLe(a: Entry, b: Entry)
  {
    a.f < b.f || (a.f == b.f && a.count <= b.count)
  }

  /** Index of the entry `open_set.get()` removes. */
  function MinIndex(q: seq<Entry>): (i: nat)
    requires |q| > 0
    ensures i < |q|
    ensures forall j :: 0 <= j < |q| ==> EntryLe(q[i], q[j])
    decreases |q|
  {
    if |q| == 1 then 0
    else
      var k := MinIndex(q[1..]) + 1;
      assert forall j :: 1 <= j < |q| ==> q[j] == q[1..][j - 1];
      if EntryLe(q[0], q[k]) then 0 else k
  }

  predicate CountsDistinct(q: seq<Entry>)
  {
    forall i, j :: 0 <= i < j < |q| ==> q[i].count != q[j].count
  }

  predicate NodesDistinct(q: seq<Entry>)
  {
    forall i, j :: 0 <= i < j < |q| ==> q[i].node != q[j].node
  }

  /** With distinct counts there is exactly one least entry, so the pop order is determined. */
  lemma MinUnique(q: seq<Entry>, i: nat, j: nat)
    requires CountsDistinct(q) && i < |q| && j < |q|
    requires forall k :: 0 <= k < |q| ==> EntryLe(q[i], q[k])
    requires forall k :: 0 <= k < |q| ==> EntryLe(q[j], q[k])
    ensures i == j
  {
    assert EntryLe(q[i], q[j]) && EntryLe(q[j], q[i]);
  }

  /** The queue with entry i taken out. */
  function RemoveAt(q: seq<Entry>, i: nat): (r: seq<Entry>)
    requires i < |q|
    ensures |r| == |q| - 1
    ensures forall k :: 0 <= k < i ==> r[k] == q[k]
    ensures forall k :: i <= k < |r| ==> r[k] == q[k + 1]
    ensures multiset(r) + multiset{q[i]} == multiset(q)
  {
    assert q == q[..i] + [q[i]] + q[i + 1..];
    q[..i] + q[i + 1..]
  }

  /** The nodes that have an entry in the queue. */
  ghost function QueueNodes(q: seq<Entry>): set<Node>
  {
    set e | e in q :: e.node
  }

  lemma QueueNodesAppend(q: seq<Entry>, e: Entry)
    ensures QueueNodes(q + [e]) == QueueNodes(q) + {e.node}
  {
    forall n | n in QueueNodes(q) ensures n in QueueNodes(q + [e]) {
      var x :| x in q && x.node == n;
      assert x in q + [e];
    }
    assert e in q + [e];
  }

  lemma {:induction false} QueueNodesRemove(q: seq<Entry>, i: nat)
    requires i < |q| && NodesDistinct(q)
    ensures QueueNodes(RemoveAt(q, i)) == QueueNodes(q) - {q[i].node}
  {
    var r := RemoveAt(q, i);
    forall n | n in QueueNodes(r) ensures n in QueueNodes(q) - {q[i].node} {
      var x :| x in r && x.node == n;
      var k :| 0 <= k < |r| && r[k] == x;
      var k' := if k < i then k else k + 1;
      assert q[k'] == x && k' != i;
      assert x in q;
    }
    forall n | n in QueueNodes(q) - {q[i].node} ensures n in QueueNodes(r) {
      var x :| x in q && x.node == n;
      var k :| 0 <= k < |q| && q[k] == x;
      assert k != i;
      var k' := if k < i then k else k - 1;
      assert r[k'] == x;
    }
  }

  /** The sum of the values of a map. */
  ghost function SumValues(m: map<Node, nat>): nat
    decreases |m|
  {
    if |m| == 0 then 0
    else
      var k := Pick(m);
      assert (m - {k}).Keys == m.Keys - {k};
      m[k] + SumValues(m - {k})
  }

  /** Some key of a non-empty map. */
  ghost function Pick(m: map<Node, nat>): (k: Node)
    requires |m| > 0
    ensures k in m
  {
    assert m.Keys != {};
    var k :| k in m; k
  }

  lemma {:induction false} SumValuesRemove(m: map<Node, nat>, y: Node)
    requires y in m
    ensures SumValues(m) == m[y] + SumValues(m - {y})
    decreases |m|
  {
    var k := Pick(m);
    if k != y {
      assert (m - {k}).Keys == m.Keys - {k};
      assert (m - {y}).Keys == m.Keys - {y};
      SumValuesRemove(m - {k}, y);
      SumValuesRemove(m - {y}, k);
      assert m - {k} - {y} == m - {y} - {k};
    }
  }

  /** Lowering one value lowers the sum by the difference. */
  lemma SumValuesUpdate(m: map<Node, nat>, y: Node, v: nat)
    requires y in m
    ensures SumValues(m[y := v]) + m[y] == SumValues(m) + v
  {
    SumValuesRemove(m, y);
    SumValuesRemove(m[y := v], y);
    assert m[y := v] - {y} == m - {y};
  }

  lemma DiffShrinks(cells: set<Node>, keys: set<Node>, x: Node)
    requires x in cells && x !in keys
    ensures |cells - (keys + {x})| == |cells - keys| - 1
  {
    assert cells - (keys + {x}) == (cells - keys) - {x};
  }

  /** All variables of one run of `algorithm`. */
  datatype State = State(
    queue: seq<Entry>,
    openHash: set<Node>,
    cameFrom: map<Node, Node>,
    g: map<Node, nat>,
    f: map<Node, nat>,
    count: nat)

  /** Neighbour lists, fixed for the whole run. */
  type Graph = map<Node, seq<Node>>

  /** Every listed neighbour has a list of its own. */
  ghost predicate ClosedGraph(adj: Graph)
  {
    forall n, k :: n in adj && 0 <= k < |adj[n]| ==> adj[n][k] in adj
  }

  /** `open_set_hash` is the set of queued nodes; nodes and counts in the queue are distinct. */
  ghost predicate QueueInv(s: State)
  {
    s.openHash == QueueNodes(s.queue)
    && NodesDistinct(s.queue) && CountsDistinct(s.queue)
    && (forall i :: 0 <= i < |s.queue| ==> s.queue[i].count <= s.count)
  }

  /** Every predecessor has a strictly smaller g score. */
  ghost predicate ChainOK(cameFrom: map<Node, Node>, g: map<Node, nat>)
  {
    forall n :: n in cameFrom ==> n in g && cameFrom[n] in g && g[cameFrom[n]] < g[n]
  }

  /** `start` has score 0 and no predecessor; every other scored node has one. */
  ghost predicate Rooted(s: State, start: Node)
  {
    start in s.g && s.g[start] == 0 && start !in s.cameFrom
    && (forall n :: n in s.g ==> n in s.cameFrom || n == start)
    && (forall n :: n in s.cameFrom ==> n in s.g)
  }

  /** Every f score is the g score plus the Manhattan distance to `end`. */
  ghost predicate FScores(s: State, end: Node)
  {
    forall n :: n in s.g ==> n in s.f && s.f[n] == s.g[n] + H(n.GetPos(), end.GetPos())
  }

  /** What the scores and the predecessor map keep throughout a run. */
  ghost predicate ScoreInv(s: State, start: Node, end: Node)
  {
    Rooted(s, start) && ChainOK(s.cameFrom, s.g) && FScores(s, end)
    && (forall n :: n in s.openHash ==> n in s.g)
  }

  /** Once `end` has a score it stays queued until it is popped. */
  ghost predicate EndQueued(s: State, end: Node)
  {
    end in s.g ==> end in s.openHash
  }

  /** Scored nodes are nodes of the graph, and predecessor links follow its edges. */
  ghost predicate LinksInv(s: State, adj: Graph)
  {
    (forall n :: n in s.g ==> n in adj)
    && (forall n :: n in s.cameFrom ==> s.cameFrom[n] in adj && n in adj[s.cameFrom[n]])
  }

  /** Every scored node that has left the queue, other than those `pending`, has all its neighbours scored. */
  ghost predicate ExploredInv(s: State, adj: Graph, pending: set<Node>)
  {
    forall n, k :: n in s.g && n in adj && n !in s.openHash && n !in pending && 0 <= k < |adj[n]| ==>
      adj[n][k] in s.g
  }

  /** Everything the scores, the queue and the predecessor map keep at the head of the loop. */
  ghost predicate SearchInv(s: State, adj: Graph, start: Node, end: Node, pending: set<Node>)
  {
    QueueInv(s) && ScoreInv(s, start, end) && EndQueued(s, end)
    && LinksInv(s, adj) && ExploredInv(s, adj, pending)
  }

  /** The measure that the loop of `algorithm` lowers. */
  ghost predicate Progress(s: State, t: State, cells: set<Node>)
  {
    s.g.Keys <= t.g.Keys
    && (Unscored(t, cells) < Unscored(s, cells) || (t.g.Keys == s.g.Keys && Weight(t) <= Weight(s)))
  }

  lemma ProgressTrans(s: State, t: State, u: State, cells: set<Node>)
    requires Progress(s, t, cells) && Progress(t, u, cells) && t.g.Keys <= cells && u.g.Keys <= cells
    ensures Progress(s, u, cells)
  {
    if |cells - t.g.Keys| < |cells - s.g.Keys| || |cells - u.g.Keys| < |cells - t.g.Keys| {
      assert cells - u.g.Keys <= cells - t.g.Keys <= cells - s.g.Keys;
      SubsetCard(cells - u.g.Keys, cells - t.g.Keys);
      SubsetCard(cells - t.g.Keys, cells - s.g.Keys);
    }
  }

  /** The measure of the loop of `algorithm`: first the cells still unscored... */
  ghost function Unscored(s: State, cells: set<Node>): nat
  {
    |cells - s.g.Keys|
  }

  /** ... then the scores and the queue length together. */
  ghost function Weight(s: State): nat
  {
    SumValues(s.g) + |s.queue|
  }

  /** A pop followed by an expansion that makes progress lowers the loop's measure lexicographically. */
  lemma LoopDecreases(s: State, t: State, cells: set<Node>)
    requires |s.queue| > 0 && Progress(Pop(s), t, cells)
    ensures Unscored(t, cells) < Unscored(s, cells)
      || (Unscored(t, cells) == Unscored(s, cells) && Weight(t) < Weight(s))
  {
  }

  lemma SubsetCard(a: set<Node>, b: set<Node>)
    requires a <= b
    ensures |a| <= |b|
  {
    assert b == a + (b - a);
  }

  /** The three dictionary updates for a neighbour reached more cheaply through `current`. */
  function Improve(s: State, current: Node, neighbor: Node, tempG: nat, end: Node): State
  {
    s.(cameFrom := s.cameFrom[neighbor := current],
       g := s.g[neighbor := tempG],
       f := s.f[neighbor := tempG + H(neighbor.GetPos(), end.GetPos())])
  }

  /** `count += 1`, `open_set.put((f_score[neighbor], count, neighbor))`, `open_set_hash.add(neighbor)`. */
  function Push(s: State, neighbor: Node): State
    requires neighbor in s.f
  {
    var c := s.count + 1;
    s.(count := c, queue := s.queue + [Entry(s.f[neighbor], c, neighbor)], openHash := s.openHash + {neighbor})
  }

  /** The tentative score through `current` beats the neighbour's score (a missing score is infinity). */
  predicate Better(s: State, current: Node, neighbor: Node)
    requires current in s.g
  {
    neighbor !in s.g || s.g[current] + 1 < s.g[neighbor]
  }

  /** Queue `neighbor` unless `open_set_hash` already holds it. */
  function Enqueue(s: State, neighbor: Node): State
    requires neighbor in s.f
  {
    if neighbor in s.openHash then s else Push(s, neighbor)
  }

  /**
   * One pass of the inner loop of `algorithm`: a neighbour reached with a
   * smaller tentative score gets `current` as predecessor and its new
   * scores, and is queued with the next count unless it is queued already.
   */
  function Relax(s: State, current: Node, neighbor: Node, end: Node): (r: State)
    requires current in s.g
    ensures current in r.g && r.g[current] == s.g[current]
  {
    if Better(s, current, neighbor) then
      Enqueue(Improve(s, current, neighbor, s.g[current] + 1, end), neighbor)
    else s
  }

  /** The whole inner loop: relax the edge to each neighbour in list order. */
  function RelaxAll(s: State, current: Node, ns: seq<Node>, end: Node): (r: State)
    requires current in s.g
    ensures current in r.g && r.g[current] == s.g[current]
    decreases |ns|
  {
    if ns == [] then s
    else Relax(RelaxAll(s, current, ns[..|ns| - 1], end), current, ns[|ns| - 1], end)
  }

  /** Relaxing queues at most `neighbor`, and queues it exactly when it is unqueued and improved. */
  lemma RelaxQueued(s: State, current: Node, neighbor: Node, end: Node)
    requires current in s.g
    ensures var r := Relax(s, current, neighbor, end);
      s.openHash <= r.openHash <= s.openHash + {neighbor}
      && (neighbor in r.openHash - s.openHash <==>
          neighbor !in s.openHash && (neighbor !in s.g || s.g[current] + 1 < s.g[neighbor]))
  {
  }

  /** The inner loop only ever adds to the queue, and only nodes of the list. */
  lemma {:induction false} RelaxAllQueued(s: State, current: Node, ns: seq<Node>, end: Node)
    requires current in s.g
    ensures var r := RelaxAll(s, current, ns, end);
      s.openHash <= r.openHash && forall n :: n in r.openHash - s.openHash ==> n in ns
    decreases |ns|
  {
    if ns != [] {
      var init := ns[..|ns| - 1];
      RelaxAllQueued(s, current, init, end);
      var m := RelaxAll(s, current, init, end);
      RelaxQueued(m, current, ns[|ns| - 1], end);
      assert forall x :: x in init ==> x in ns;
    }
  }


  /** Pushing an unqueued node keeps the queue invariant. */
  lemma PushQueueInv(s: State, neighbor: Node)
    requires QueueInv(s) && neighbor in s.f && neighbor !in s.openHash
    ensures QueueInv(Push(s, neighbor))
  {
    var t := Push(s, neighbor);
    var e := Entry(s.f[neighbor], s.count + 1, neighbor);
    assert t.queue == s.queue + [e];
    QueueNodesAppend(s.queue, e);
    forall i | 0 <= i < |s.queue| ensures s.queue[i].node != neighbor {
      assert s.queue[i] in s.queue;
    }
  }

  lemma RelaxQueueInv(s: State, current: Node, neighbor: Node, end: Node)
    requires QueueInv(s) && current in s.g
    ensures QueueInv(Relax(s, current, neighbor, end))
  {
    if Better(s, current, neighbor) {
      var u := Improve(s, current, neighbor, s.g[current] + 1, end);
      if neighbor !in u.openHash {
        PushQueueInv(u, neighbor);
      }
    }
  }

  lemma RelaxScoreInv(s: State, current: Node, neighbor: Node, start: Node, end: Node)
    requires ScoreInv(s, start, end) && current in s.g
    ensures ScoreInv(Relax(s, current, neighbor, end), start, end)
  {
    RelaxScores(s, current, neighbor, end);
    RelaxChainOK(s, current, neighbor, end);
    RelaxFScores(s, current, neighbor, end);
  }

  /** The f score of a relaxed node is recomputed from its new g score. */
  lemma RelaxFScores(s: State, current: Node, neighbor: Node, end: Node)
    requires FScores(s, end) && current in s.g
    ensures FScores(Relax(s, current, neighbor, end), end)
  {
    var r := Relax(s, current, neighbor, end);
    if Better(s, current, neighbor) {
      forall n | n in r.g ensures n in r.f && r.f[n] == r.g[n] + H(n.GetPos(), end.GetPos()) {
        if n != neighbor {
          assert r.g[n] == s.g[n] && r.f[n] == s.f[n];
        }
      }
    }
  }

  /** A new predecessor link goes from `current` to a node whose score it has just made larger than its own. */
  lemma RelaxChainOK(s: State, current: Node, neighbor: Node, end: Node)
    requires ChainOK(s.cameFrom, s.g) && current in s.g
    ensures var r := Relax(s, current, neighbor, end); ChainOK(r.cameFrom, r.g)
  {
    var r := Relax(s, current, neighbor, end);
    RelaxScores(s, current, neighbor, end);
    if Better(s, current, neighbor) {
      forall n | n in r.cameFrom ensures n in r.g && r.cameFrom[n] in r.g && r.g[r.cameFrom[n]] < r.g[n] {
        if n != neighbor {
          assert r.cameFrom[n] == s.cameFrom[n];
        }
      }
    }
  }

  /** A link set by relaxing goes from `neighbor` to `current`, and then the score of `neighbor` is one more than that of `current`. */
  lemma RelaxNewLink(s: State, current: Node, neighbor: Node, end: Node)
    requires current in s.g
    ensures var r := Relax(s, current, neighbor, end);
      forall n :: n in r.cameFrom && (n !in s.cameFrom || r.cameFrom[n] != s.cameFrom[n]) ==>
        n == neighbor && r.cameFrom[n] == current && n in r.g && r.g[n] == r.g[current] + 1
  {
  }

  /** Relaxing scores `neighbor`, scores nothing else, and only ever lowers the score of `neighbor`. */
  lemma RelaxScores(s: State, current: Node, neighbor: Node, end: Node)
    requires current in s.g
    ensures var r := Relax(s, current, neighbor, end);
      neighbor in r.g && (forall n :: n in r.g ==> n in s.g || n == neighbor)
      && (forall n :: n in s.g ==> n in r.g && r.g[n] <= s.g[n])
      && (forall n :: n in s.g && n != neighbor ==> r.g[n] == s.g[n])
  {
  }

  lemma RelaxLinksInv(s: State, current: Node, neighbor: Node, adj: Graph, end: Node)
    requires LinksInv(s, adj) && current in s.g && current in adj && neighbor in adj[current] && neighbor in adj
    ensures LinksInv(Relax(s, current, neighbor, end), adj)
  {
  }

  lemma RelaxExploredInv(s: State, current: Node, neighbor: Node, adj: Graph, end: Node)
    requires ExploredInv(s, adj, {current}) && EndQueued(s, end) && current in s.g
    requires forall n :: n in s.openHash ==> n in s.g
    ensures ExploredInv(Relax(s, current, neighbor, end), adj, {current})
    ensures EndQueued(Relax(s, current, neighbor, end), end)
  {
    RelaxScores(s, current, neighbor, end);
  }

  lemma RelaxProgress(s: State, current: Node, neighbor: Node, adj: Graph, end: Node)
    requires current in s.g && neighbor in adj && forall n :: n in s.g ==> n in adj
    ensures Progress(s, Relax(s, current, neighbor, end), adj.Keys)
  {
    var tempG := s.g[current] + 1;
    var r := Relax(s, current, neighbor, end);
    if Better(s, current, neighbor) {
      assert r.g == s.g[neighbor := tempG];
      if neighbor !in s.g {
        assert r.g.Keys == s.g.Keys + {neighbor};
        DiffShrinks(adj.Keys, s.g.Keys, neighbor);
      } else {
        assert r.g.Keys == s.g.Keys;
        SumValuesUpdate(s.g, neighbor, tempG);
      }
    }
  }

  /** Relaxing one edge out of `current` keeps every invariant. */
  lemma RelaxPreserves(s: State, current: Node, neighbor: Node, adj: Graph, start: Node, end: Node)
    requires SearchInv(s, adj, start, end, {current}) && ClosedGraph(adj)
    requires current in s.g && current in adj && neighbor in adj[current]
    ensures SearchInv(Relax(s, current, neighbor, end), adj, start, end, {current})
  {
    var k :| 0 <= k < |adj[current]| && adj[current][k] == neighbor;
    assert neighbor in adj;
    RelaxQueueInv(s, current, neighbor, end);
    RelaxScoreInv(s, current, neighbor, start, end);
    RelaxLinksInv(s, current, neighbor, adj, end);
    RelaxExploredInv(s, current, neighbor, adj, end);
  }

  /** Relaxing every edge of a list keeps every invariant. */
  lemma {:induction false} RelaxAllPreserves(s: State, current: Node, ns: seq<Node>, adj: Graph, start: Node, end: Node)
    requires SearchInv(s, adj, start, end, {current}) && ClosedGraph(adj)
    requires current in s.g && current in adj
    requires forall x :: x in ns ==> x in adj[current]
    ensures SearchInv(RelaxAll(s, current, ns, end), adj, start, end, {current})
    decreases |ns|
  {
    if ns != [] {
      var init := ns[..|ns| - 1];
      assert forall x :: x in init ==> x in ns;
      RelaxAllPreserves(s, current, init, adj, start, end);
      RelaxPreserves(RelaxAll(s, current, init, end), current, ns[|ns| - 1], adj, start, end);
    }
  }

  /**
   * Relaxing a list never raises a score, scores every listed node, and
   * never queues again a node whose score cannot be beaten: `current`
   * itself, or `start` with score 0.
   */
  lemma {:induction false} RelaxAllScored(s: State, current: Node, ns: seq<Node>, start: Node, end: Node)
    requires current in s.g
    ensures var r := RelaxAll(s, current, ns, end);
      (forall n :: n in s.g ==> n in r.g && r.g[n] <= s.g[n])
      && (forall x :: x in ns ==> x in r.g)
      && (current !in s.openHash ==> current !in r.openHash)
      && (start in s.g && s.g[start] == 0 ==> start !in r.openHash - s.openHash)
    decreases |ns|
  {
    if ns != [] {
      var init := ns[..|ns| - 1];
      var last := ns[|ns| - 1];
      RelaxAllScored(s, current, init, start, end);
      var m := RelaxAll(s, current, init, end);
      RelaxScores(m, current, last, end);
      RelaxQueued(m, current, last, end);
      var r := RelaxAll(s, current, ns, end);
      forall x | x in ns ensures x in r.g {
        if x != last {
          assert x in init;
        }
      }
    }
  }

  /** Relaxing a list does not raise the termination measure and scores only graph nodes. */
  lemma {:induction false} RelaxAllProgress(s: State, current: Node, ns: seq<Node>, adj: Graph, end: Node)
    requires current in s.g && (forall n :: n in s.g ==> n in adj) && forall x :: x in ns ==> x in adj
    ensures var r := RelaxAll(s, current, ns, end);
      Progress(s, r, adj.Keys) && forall n :: n in r.g ==> n in adj
    decreases |ns|
  {
    if ns != [] {
      var init := ns[..|ns| - 1];
      var last := ns[|ns| - 1];
      assert forall x :: x in init ==> x in ns;
      RelaxAllProgress(s, current, init, adj, end);
      var m := RelaxAll(s, current, init, end);
      RelaxProgress(m, current, last, adj, end);
      RelaxScores(m, current, last, end);
      ProgressTrans(s, m, RelaxAll(s, current, ns, end), adj.Keys);
    }
  }

  /** Every node the inner loop scores for the first time ends up queued. */
  lemma {:induction false} RelaxAllNewQueued(s: State, current: Node, ns: seq<Node>, end: Node)
    requires current in s.g
    ensures var r := RelaxAll(s, current, ns, end);
      forall n :: n in r.g && n !in s.g ==> n in r.openHash
    decreases |ns|
  {
    if ns != [] {
      var init := ns[..|ns| - 1];
      var m := RelaxAll(s, current, init, end);
      RelaxAllNewQueued(s, current, init, end);
      RelaxQueued(m, current, ns[|ns| - 1], end);
      RelaxScores(m, current, ns[|ns| - 1], end);
    }
  }

  /** Once all of `current`'s neighbours are scored it no longer needs to be pending. */
  lemma ExploredRelease(s: State, adj: Graph, current: Node)
    requires ExploredInv(s, adj, {current}) && current in adj
    requires forall x :: x in adj[current] ==> x in s.g
    ensures ExploredInv(s, adj, {})
  {
    forall n, k | n in s.g && n in adj && n !in s.openHash && 0 <= k < |adj[n]|
      ensures adj[n][k] in s.g
    {
      if n == current {
        assert adj[n][k] in adj[current];
      }
    }
  }

  /** Relaxing every neighbour of the popped node restores the invariant with nothing pending. */
  lemma ExpandPreserves(s: State, current: Node, adj: Graph, start: Node, end: Node)
    requires SearchInv(s, adj, start, end, {current}) && ClosedGraph(adj)
    requires current in s.g && current !in s.openHash && current in adj
    ensures var r := RelaxAll(s, current, adj[current], end);
      SearchInv(r, adj, start, end, {}) && current !in r.openHash
      && Progress(s, r, adj.Keys) && start !in r.openHash - s.openHash
  {
    RelaxAllPreserves(s, current, adj[current], adj, start, end);
    RelaxAllScored(s, current, adj[current], start, end);
    RelaxAllProgress(s, current, adj[current], adj, end);
    ExploredRelease(RelaxAll(s, current, adj[current], end), adj, current);
  }

  /** The node `open_set.get()` hands out: the one in the least entry. */
  function Top(s: State): Node
    requires |s.queue| > 0
  {
    s.queue[MinIndex(s.queue)].node
  }

  /** `open_set.get()` and `open_set_hash.remove(current)`. */
  function Pop(s: State): (r: State)
    requires |s.queue| > 0
    ensures |r.queue| == |s.queue| - 1 && r.g == s.g && r.cameFrom == s.cameFrom
  {
    var i := MinIndex(s.queue);
    s.(queue := RemoveAt(s.queue, i), openHash := s.openHash - {s.queue[i].node})
  }

  /** Popping the least entry keeps every invariant, with the popped node pending. */
  lemma PopPreserves(s: State, adj: Graph, start: Node, end: Node)
    requires SearchInv(s, adj, start, end, {}) && |s.queue| > 0
    ensures QueueInv(Pop(s)) && ScoreInv(Pop(s), start, end) && LinksInv(Pop(s), adj)
    ensures ExploredInv(Pop(s), adj, {Top(s)}) && (Top(s) != end ==> EndQueued(Pop(s), end))
    ensures Top(s) in Pop(s).g && Top(s) !in Pop(s).openHash && Top(s) in adj
  {
    var i := MinIndex(s.queue);
    var current := s.queue[i].node;
    var r := Pop(s);
    QueueNodesRemove(s.queue, i);
    assert s.queue[i] in s.queue;
    assert current in s.openHash;
    forall a, b | 0 <= a < b < |r.queue| ensures r.queue[a].node != r.queue[b].node && r.queue[a].count != r.queue[b].count {
      var a' := if a < i then a else a + 1;
      var b' := if b < i then b else b + 1;
      assert r.queue[a] == s.queue[a'] && r.queue[b] == s.queue[b'];
    }
    forall a | 0 <= a < |r.queue| ensures r.queue[a].count <= r.count {
      var a' := if a < i then a else a + 1;
      assert r.queue[a] == s.queue[a'];
    }
  }

  /**
   * The inner loop of `algorithm` on the real cells: relax the edge to
   * every neighbour of `current` in list order, colouring each newly
   * queued neighbour Open.
   */
  method ExpandNeighbors(s: State, current: Node, ns: seq<Node>, end: Node, ghost cells: set<Node>) returns (t: State)
    requires current in s.g
    requires forall x :: x in ns ==> x in cells
    modifies cells`color
    ensures t == RelaxAll(s, current, ns, end)
    ensures forall n :: n in t.openHash - s.openHash ==> n.color == Open
    ensures forall n :: n in cells && n !in t.openHash - s.openHash ==> n.color == old(n.color)
  {
    t := s;
    for i := 0 to |ns|
      invariant t == RelaxAll(s, current, ns[..i], end)
      invariant s.openHash <= t.openHash
      invariant forall n :: n in t.openHash - s.openHash ==> n.color == Open
      invariant forall n :: n in cells && n !in t.openHash - s.openHash ==> n.color == old(n.color)
    {
      assert ns[..i + 1][..i] == ns[..i];
      RelaxQueued(t, current, ns[i], end);
      t := RelaxNeighbor(t, current, ns[i], end);
    }
    assert ns[..|ns|] == ns;
  }

  /** One pass of the inner loop: the dictionary updates of `Relax`, and `make_open` for a newly queued neighbour. */
  method RelaxNeighbor(t: State, current: Node, neighbor: Node, end: Node) returns (u: State)
    requires current in t.g
    modifies neighbor`color
    ensures u == Relax(t, current, neighbor, end)
    ensures neighbor.color == if neighbor in u.openHash - t.openHash then Open else old(neighbor.color)
  {
    u := t;
    var tempG := u.g[current] + 1;
    if neighbor !in u.g || tempG < u.g[neighbor] {
      u := Improve(u, current, neighbor, tempG, end);
      if neighbor !in u.openHash {
        u := Push(u, neighbor);
        neighbor.MakeOpen();
      }
    }
  }

  /** The nodes met walking the predecessor map from `n`, excluding `n`. */
  ghost function Chain(cameFrom: map<Node, Node>, g: map<Node, nat>, n: Node): (r: seq<Node>)
    requires ChainOK(cameFrom, g) && n in g
    ensures r == [] <==> n !in cameFrom
    decreases g[n]
  {
    if n in cameFrom then [cameFrom[n]] + Chain(cameFrom, g, cameFrom[n]) else []
  }

  /** The walk is at most g[n] long, visits strictly cheaper nodes in strictly decreasing order, and stops where the map stops. */
  lemma {:induction false} ChainFacts(cameFrom: map<Node, Node>, g: map<Node, nat>, n: Node)
    requires ChainOK(cameFrom, g) && n in g
    ensures var c := Chain(cameFrom, g, n);
      |c| <= g[n]
      && (forall i :: 0 <= i < |c| ==> c[i] in g && g[c[i]] < g[n])
      && (forall i, j :: 0 <= i < j < |c| ==> g[c[j]] < g[c[i]])
      && (c != [] ==> c[0] == cameFrom[n] && c[|c| - 1] !in cameFrom)
      && (forall i :: 0 <= i < |c| ==> c[i] in cameFrom.Values)
      && (forall i :: 0 <= i < |c| - 1 ==> c[i] in cameFrom && cameFrom[c[i]] == c[i + 1])
    decreases g[n]
  {
    if n in cameFrom {
      var m := cameFrom[n];
      ChainFacts(cameFrom, g, m);
      var c := Chain(cameFrom, g, n);
      var rest := Chain(cameFrom, g, m);
      assert c == [m] + rest;
      forall i | 0 <= i < |c| ensures c[i] in g && g[c[i]] < g[n] && c[i] in cameFrom.Values {
        if i > 0 { assert c[i] == rest[i - 1]; }
      }
      forall i | 0 <= i < |c| - 1 ensures c[i] in cameFrom && cameFrom[c[i]] == c[i + 1] {
        assert c[i + 1] == rest[i];
        if i > 0 { assert c[i] == rest[i - 1]; }
      }
      forall i, j | 0 <= i < j < |c| ensures g[c[j]] < g[c[i]] {
        assert c[j] == rest[j - 1];
        if i > 0 { assert c[i] == rest[i - 1]; }
      }
      if rest != [] {
        assert c[|c| - 1] == rest[|rest| - 1];
      }
    }
  }

  /** When every scored node but `start` has a predecessor, the walk stops at `start`. */
  lemma {:induction false} ChainEndsAtStart(cameFrom: map<Node, Node>, g: map<Node, nat>, start: Node, n: Node)
    requires ChainOK(cameFrom, g) && n in g && start !in cameFrom
    requires forall m :: m in g ==> m in cameFrom || m == start
    ensures n == start ==> Chain(cameFrom, g, n) == []
    ensures n != start ==> EndsAt(Chain(cameFrom, g, n), start)
    decreases g[n]
  {
    if n != start {
      var m := cameFrom[n];
      ChainEndsAtStart(cameFrom, g, start, m);
      var c := Chain(cameFrom, g, n);
      assert c == [m] + Chain(cameFrom, g, m);
    }
  }

  /** The sequence is non-empty and its last node is `n`. */
  predicate EndsAt(c: seq<Node>, n: Node)
  {
    |c| > 0 && c[|c| - 1] == n
  }

  /** Each node of the sequence is in the neighbour list of the next one. */
  ghost predicate BackLinked(p: seq<Node>)
    reads p`neighbors
  {
    forall i :: 0 <= i < |p| - 1 ==> p[i] in p[i + 1].neighbors
  }

  /** A walk along neighbour lists: `BackLinked` read in the other direction (`BackLinkedReversed`). */
  ghost predicate IsWalk(p: seq<Node>)
    reads p`neighbors
  {
    forall i :: 0 <= i < |p| - 1 ==> p[i + 1] in p[i].neighbors
  }

  /** The sequence in reverse order. */
  function Reverse(p: seq<Node>): (r: seq<Node>)
    ensures |r| == |p| && forall i :: 0 <= i < |p| ==> r[i] == p[|p| - 1 - i]
    decreases |p|
  {
    if p == [] then [] else Reverse(p[1..]) + [p[0]]
  }

  /** Reversing keeps the members. */
  lemma ReverseMembers(p: seq<Node>)
    ensures forall n :: n in Reverse(p) <==> n in p
  {
    var r := Reverse(p);
    forall n ensures n in r <==> n in p {
      if n in r {
        var i :| 0 <= i < |r| && r[i] == n;
        assert p[|p| - 1 - i] == n;
      }
      if n in p {
        var j :| 0 <= j < |p| && p[j] == n;
        assert r[|p| - 1 - j] == n;
      }
    }
  }

  /** A sequence is back-linked exactly when its reverse is a walk. */
  lemma BackLinkedReversed(p: seq<Node>)
    ensures BackLinked(p) <==> IsWalk(Reverse(p))
  {
    var r := Reverse(p);
    var n := |p|;
    if BackLinked(p) {
      forall i | 0 <= i < n - 1 ensures r[i + 1] in r[i].neighbors {
        assert r[i] == p[n - 1 - i] && r[i + 1] == p[n - 2 - i];
      }
    }
    if IsWalk(r) {
      forall j | 0 <= j < n - 1 ensures p[j] in p[j + 1].neighbors {
        assert r[n - 2 - j] == p[j + 1] && r[n - 1 - j] == p[j];
      }
    }
  }

  /**
   * A back-linked sequence that ends in a set of cells with unit-step lists
   * lies in that set, and read backwards it is a walk of unit steps.
   */
  lemma ReversedWalk(cells: set<Node>, q: seq<Node>)
    requires UnitSteps(cells) && BackLinked(q) && |q| > 0 && q[|q| - 1] in cells
    ensures var p := Reverse(q);
      IsWalk(p) && (forall i :: 0 <= i < |p| ==> p[i] in cells)
      && forall i :: 0 <= i < |p| - 1 ==> H((p[i].row, p[i].col), (p[i + 1].row, p[i + 1].col)) == 1
  {
    var i := |q| - 1;
    while i > 0
      invariant 0 <= i <= |q| - 1
      invariant forall j :: i <= j < |q| ==> q[j] in cells
    {
      var k :| 0 <= k < |q[i].neighbors| && q[i].neighbors[k] == q[i - 1];
      i := i - 1;
    }
    BackLinkedReversed(q);
    var p := Reverse(q);
    var n := |q|;
    forall i | 0 <= i < n - 1 ensures H((p[i].row, p[i].col), (p[i + 1].row, p[i + 1].col)) == 1 {
      assert p[i] == q[n - 1 - i] && p[i + 1] == q[n - 2 - i];
      var k :| 0 <= k < |q[n - 1 - i].neighbors| && q[n - 1 - i].neighbors[k] == q[n - 2 - i];
    }
  }

  /** Following predecessors goes against neighbour links, one link per step. */
  lemma {:induction false} ChainLinked(cameFrom: map<Node, Node>, g: map<Node, nat>, n: Node)
    requires ChainOK(cameFrom, g) && n in g
    requires forall m :: m in cameFrom ==> m in cameFrom[m].neighbors
    ensures BackLinked([n] + Chain(cameFrom, g, n))
    decreases g[n]
  {
    if n in cameFrom {
      var m := cameFrom[n];
      ChainLinked(cameFrom, g, m);
      var p := [n] + Chain(cameFrom, g, n);
      var rest := [m] + Chain(cameFrom, g, m);
      assert p == [n] + rest;
      forall i | 0 <= i < |p| - 1 ensures p[i] in p[i + 1].neighbors {
        if i > 0 {
          assert p[i] == rest[i - 1] && p[i + 1] == rest[i];
        }
      }
    }
  }

  /** A walk that starts in a set closed under neighbour lists never leaves it. */
  lemma {:induction false} WalkStaysInside(cells: set<Node>, p: seq<Node>)
    requires |p| > 0 && p[0] in cells && IsWalk(p)
    requires forall n, k :: n in cells && 0 <= k < |n.neighbors| ==> n.neighbors[k] in cells
    ensures forall i :: 0 <= i < |p| ==> p[i] in cells
  {
    var i := 0;
    while i < |p| - 1
      invariant 0 <= i <= |p| - 1
      invariant forall j :: 0 <= j <= i ==> p[j] in cells
    {
      var k :| 0 <= k < |p[i].neighbors| && p[i].neighbors[k] == p[i + 1];
      i := i + 1;
    }
  }

  /**
   * `reconstruct_path`: walk the predecessor map from `current`, colouring
   * every predecessor met Path; `current` itself is not recoloured.
   */
  method ReconstructPath(cameFrom: map<Node, Node>, current: Node, ghost g: map<Node, nat>)
    requires ChainOK(cameFrom, g) && current in g
    modifies cameFrom.Values`color
    ensures forall n :: n in Chain(cameFrom, g, current) ==> n.color == Path
    ensures forall n :: n in cameFrom.Values && n !in Chain(cameFrom, g, current) ==> n.color == old(n.color)
  {
    ghost var c := Chain(cameFrom, g, current);
    ChainFacts(cameFrom, g, current);
    var cur := current;
    ghost var k := 0;
    while cur in cameFrom
      invariant 0 <= k <= |c| && cur == if k == 0 then current else c[k - 1]
      invariant cur in cameFrom <==> k < |c|
      invariant forall j :: 0 <= j < k ==> c[j].color == Path
      invariant forall n :: n in cameFrom.Values && (forall j :: 0 <= j < k ==> c[j] != n) ==> n.color == old(n.color)
      decreases |c| - k
    {
      cur := cameFrom[cur];
      cur.MakePath();
      k := k + 1;
    }
    assert k == |c|;
  }

  /** The neighbour lists of the grid's cells, taken as a graph at the start of a run. */
  lemma Snapshot(cells: set<Node>) returns (adj: Graph)
    requires NeighborsInside(cells)
    ensures ListsOf(adj, cells) && ClosedGraph(adj)
  {
    adj := map n | n in cells :: n.neighbors;
  }

  /** `adj` holds exactly the current neighbour lists of `cells`. */
  ghost predicate ListsOf(adj: Graph, cells: set<Node>)
    reads cells`neighbors
  {
    adj.Keys == cells && forall n :: n in cells ==> adj[n] == n.neighbors
  }

  /** `start` keeps its colour and every other queued node is coloured Open. */
  ghost predicate ColorInv(s: State, start: Node, startColor: Color, cells: set<Node>)
    reads cells`color
  {
    start in cells && start.color == startColor
    && (forall n :: n in s.openHash && n in cells && n != start ==> n.color == Open)
  }

  /** Every cell still has its colour from `orig`, or has been coloured Open or Closed. */
  ghost predicate Recolored(cells: set<Node>, orig: map<Node, Color>)
    reads cells`color
  {
    forall n :: n in cells ==> n in orig && (n.color == orig[n] || n.color == Open || n.color == Closed)
  }

  /**
   * Every cell other than `start` that is off the queue and not `pending`
   * is Closed if it has a score and still has its colour from `orig` if not.
   */
  ghost predicate ClosedInv(s: State, start: Node, cells: set<Node>, orig: map<Node, Color>, pending: set<Node>)
    reads cells`color
  {
    forall n :: n in cells && n !in s.openHash && n !in pending && n != start ==>
      n in orig && n.color == if n in s.g then Closed else orig[n]
  }

  /** Before the loop only `start` is scored, and every cell has its colour from `orig`. */
  lemma InitialClosed(start: Node, end: Node, cells: set<Node>, orig: map<Node, Color>)
    requires forall n :: n in cells ==> n in orig && n.color == orig[n]
    ensures ClosedInv(InitialState(start, end), start, cells, orig, {})
  {
  }

  /** Taking the least entry off the queue leaves that node pending and every other node as it was. */
  lemma PopClosed(s: State, start: Node, cells: set<Node>, orig: map<Node, Color>)
    requires ClosedInv(s, start, cells, orig, {}) && |s.queue| > 0
    ensures ClosedInv(Pop(s), start, cells, orig, {Top(s)})
  {
  }

  /**
   * One expansion keeps `ClosedInv`: `current` is Closed unless it is
   * `start`, newly scored nodes are queued, and every other cell keeps the
   * colour recorded in `before`.
   */
  lemma ClosedStep(s: State, t: State, current: Node, start: Node, cells: set<Node>,
                   orig: map<Node, Color>, before: map<Node, Color>)
    requires forall n :: n in cells && n !in s.openHash && n != current && n != start ==>
      n in orig && n in before && before[n] == if n in s.g then Closed else orig[n]
    requires s.openHash <= t.openHash && s.g.Keys <= t.g.Keys && current in t.g
    requires forall n :: n in t.g && n !in s.g ==> n in t.openHash
    requires current in orig && (current != start ==> current.color == Closed)
    requires forall n :: n in cells && n !in t.openHash - s.openHash && (n == current ==> n == start) ==>
      n in before && n.color == before[n]
    ensures ClosedInv(t, start, cells, orig, {})
  {
  }

  /** The variables of `algorithm` before its loop: `start` queued with count 0 and g score 0. */
  function InitialState(start: Node, end: Node): State
  {
    State([Entry(0, 0, start)], {start}, map[], map[start := 0], map[start := H(start.GetPos(), end.GetPos())], 0)
  }

  /** The loop invariant holds before the first iteration. */
  lemma InitialInv(start: Node, end: Node, adj: Graph)
    requires start in adj
    ensures SearchInv(InitialState(start, end), adj, start, end, {})
  {
    QueueNodesAppend([], Entry(0, 0, start));
    assert [] + [Entry(0, 0, start)] == InitialState(start, end).queue;
  }

  /**
   * When the queue runs empty every node reachable from `start` is scored
   * and `end` is not, so no walk from `start` reaches `end`.
   */
  lemma Exhausted(s: State, adj: Graph, cells: set<Node>, start: Node, end: Node)
    requires SearchInv(s, adj, start, end, {}) && s.queue == [] && ListsOf(adj, cells)
    ensures end !in s.g
    ensures forall p :: IsWalk(p) && |p| > 0 && p[0] == start ==> end !in p
    ensures forall p, i :: IsWalk(p) && |p| > 0 && p[0] == start && 0 <= i < |p| ==> p[i] in s.g
  {
    assert s.openHash == {};
    forall n, k | n in s.g.Keys && 0 <= k < |n.neighbors| ensures n.neighbors[k] in s.g.Keys {
      assert adj[n] == n.neighbors;
    }
    forall p | IsWalk(p) && |p| > 0 && p[0] == start ensures end !in p && forall i :: 0 <= i < |p| ==> p[i] in s.g {
      WalkStaysInside(s.g.Keys, p);
    }
  }


  /** When the queue runs empty every scored cell other than `start` is Closed and every unscored one keeps its colour. */
  lemma ExhaustedClosed(s: State, start: Node, cells: set<Node>, orig: map<Node, Color>)
    requires ClosedInv(s, start, cells, orig, {}) && QueueInv(s) && s.queue == []
    ensures forall n :: n in cells && n != start ==> n in orig && n.color == if n in s.g then Closed else orig[n]
  {
    assert s.openHash == {};
  }

  /**
   * When `end` is popped, every cell other than `start` and `end` that has
   * no score still has its colour from `orig`, and the chain from `end`
   * holds only scored nodes.
   */
  lemma FoundUnscored(s: State, start: Node, end: Node, cells: set<Node>, orig: map<Node, Color>)
    requires ClosedInv(s, start, cells, orig, {end}) && ScoreInv(s, start, end) && end in s.g
    ensures forall n :: n in Chain(s.cameFrom, s.g, end) ==> n in s.g
    ensures forall n :: n in cells && n != start && n != end && n !in s.g ==> n in orig && n.color == orig[n]
  {
    ChainFacts(s.cameFrom, s.g, end);
  }

  /** Every scored node other than `start` was reached from its predecessor along that cell's neighbour list. */
  lemma ScoredLinked(s: State, adj: Graph, cells: set<Node>, start: Node)
    requires Rooted(s, start) && LinksInv(s, adj) && ListsOf(adj, cells)
    ensures forall n :: n in s.g && n != start ==> n in s.cameFrom && s.cameFrom[n] in cells && n in s.cameFrom[n].neighbors
  {
  }

  /**
   * The found branch of `algorithm`: `reconstruct_path` from `end`, then
   * `end.make_end()`. The chain goes back along neighbour links to `start`.
   */
  method FinishPath(s: State, ghost adj: Graph, ghost cells: set<Node>, start: Node, end: Node)
    requires ScoreInv(s, start, end) && LinksInv(s, adj) && ListsOf(adj, cells) && end in s.g
    modifies cells`color
    ensures end.color == End
    ensures forall n :: n in Chain(s.cameFrom, s.g, end) ==> n.color == Path
    ensures start != end ==> EndsAt(Chain(s.cameFrom, s.g, end), start)
    ensures BackLinked([end] + Chain(s.cameFrom, s.g, end)) && |Chain(s.cameFrom, s.g, end)| <= s.g[end]
    ensures forall n :: n in cells && n != end && n !in Chain(s.cameFrom, s.g, end) ==> n.color == old(n.color)
  {
    PredecessorsLinked(s, adj, cells);
    ChainShort(s.cameFrom, s.g, end);
    ChainEndsAtStart(s.cameFrom, s.g, start, end);
    ColorChain(s.cameFrom, s.g, end, cells);
    PredecessorsLinked(s, adj, cells);
    ChainLinked(s.cameFrom, s.g, end);
  }

  /** The colour changes on success: the chain from `end` is coloured Path, then `end` is coloured End. */
  method ColorChain(cameFrom: map<Node, Node>, ghost g: map<Node, nat>, end: Node, ghost cells: set<Node>)
    requires ChainOK(cameFrom, g) && end in g && end in cells && cameFrom.Values <= cells
    requires end !in Chain(cameFrom, g, end)
    requires forall m :: m in Chain(cameFrom, g, end) ==> m in cameFrom.Values
    modifies cells`color
    ensures end.color == End
    ensures forall n :: n in Chain(cameFrom, g, end) ==> n.color == Path
    ensures forall n :: n in cells && n != end && n !in Chain(cameFrom, g, end) ==> n.color == old(n.color)
  {
    ReconstructPath(cameFrom, end, g);
    end.MakeEnd();
  }

  /** With the neighbour lists of the cells, every predecessor link is an edge of a cell. */
  lemma PredecessorsLinked(s: State, adj: Graph, cells: set<Node>)
    requires LinksInv(s, adj) && ListsOf(adj, cells)
    ensures s.cameFrom.Values <= cells
    ensures forall m :: m in s.cameFrom ==> m in s.cameFrom[m].neighbors
  {
    forall v | v in s.cameFrom.Values ensures v in cells {
      var k :| k in s.cameFrom && s.cameFrom[k] == v;
    }
  }

  /** The walk from `n` is at most g[n] long, consists of predecessors and does not come back to `n`. */
  lemma ChainShort(cameFrom: map<Node, Node>, g: map<Node, nat>, n: Node)
    requires ChainOK(cameFrom, g) && n in g
    ensures |Chain(cameFrom, g, n)| <= g[n] && n !in Chain(cameFrom, g, n)
    ensures forall m :: m in Chain(cameFrom, g, n) ==> m in cameFrom.Values
  {
    ChainFacts(cameFrom, g, n);
  }

  /**
   * The rest of one iteration of `algorithm` after the pop: relax every
   * neighbour of `current`, then `current.make_closed()` unless it is
   * `start`. The invariants hold again and the measure has not grown.
   */
  method ExpandAndClose(s: State, current: Node, ghost adj: Graph, ghost cells: set<Node>, start: Node, end: Node,
                        ghost startColor: Color, ghost orig: map<Node, Color>) returns (t: State)
    requires SearchInv(s, adj, start, end, {current}) && ClosedGraph(adj) && ListsOf(adj, cells)
    requires current in s.g && current !in s.openHash
    requires ColorInv(s, start, startColor, cells) && Recolored(cells, orig)
    requires ClosedInv(s, start, cells, orig, {current})
    modifies cells`color
    ensures SearchInv(t, adj, start, end, {})
    ensures ColorInv(t, start, startColor, cells) && Recolored(cells, orig)
    ensures ClosedInv(t, start, cells, orig, {})
    ensures Progress(s, t, cells)
    ensures t == RelaxAll(s, current, adj[current], end)
    ensures current != start ==> current.color == Closed
    ensures forall n :: n in t.openHash - s.openHash ==> n.color == Open
    ensures forall n :: n in cells && n !in t.openHash - s.openHash && (n == current ==> n == start) ==>
      n.color == old(n.color)
  {
    ghost var before := ColorsOf(cells);
    var ns := current.neighbors;
    assert current in adj && adj[current] == ns;
    ExpandPreserves(s, current, adj, start, end);
    RelaxAllQueued(s, current, ns, end);
    RelaxAllScored(s, current, ns, start, end);
    RelaxAllNewQueued(s, current, ns, end);
    t := RelaxAndClose(s, current, ns, start, end, cells, startColor, orig);
    ClosedStep(s, t, current, start, cells, orig, before);
  }

  /**
   * The colour changes of one expansion: each newly queued neighbour is
   * coloured Open, then `current` is coloured Closed unless it is `start`.
   */
  method RelaxAndClose(s: State, current: Node, ns: seq<Node>, start: Node, end: Node, ghost cells: set<Node>,
                       ghost startColor: Color, ghost orig: map<Node, Color>) returns (t: State)
    requires current in s.g && current in cells && forall x :: x in ns ==> x in cells
    requires current !in RelaxAll(s, current, ns, end).openHash
    requires start !in RelaxAll(s, current, ns, end).openHash - s.openHash
    requires ColorInv(s, start, startColor, cells) && Recolored(cells, orig)
    modifies cells`color
    ensures t == RelaxAll(s, current, ns, end)
    ensures ColorInv(t, start, startColor, cells) && Recolored(cells, orig)
    ensures current != start ==> current.color == Closed
    ensures forall n :: n in t.openHash - s.openHash ==> n.color == Open
    ensures forall n :: n in cells && n !in t.openHash - s.openHash && (n == current ==> n == start) ==>
      n.color == old(n.color)
  {
    t := ExpandNeighbors(s, current, ns, end, cells);
    if current != start {
      current.MakeClosed();
    }
  }

  /** Taking a node off the queue keeps every still-queued node coloured Open. */
  lemma PopColors(s: State, start: Node, startColor: Color, cells: set<Node>)
    requires ColorInv(s, start, startColor, cells) && |s.queue| > 0
    ensures ColorInv(Pop(s), start, startColor, cells)
  {
  }

  /**
   * `algorithm`: A* from `start` to `end` over the neighbour lists. On
   * success the predecessor chain from `end` is coloured Path and `end` is
   * coloured End; on failure `end` cannot be reached from `start`.
   */
  method Algorithm(grid: seq<seq<Node>>, start: Node, end: Node)
    returns (found: bool, ghost cameFrom: map<Node, Node>, ghost g: map<Node, nat>)
    requires start in Cells(grid) && end in Cells(grid)
    requires NeighborsInside(Cells(grid))
    modifies Cells(grid)`color
    ensures start in g && g[start] == 0 && start !in cameFrom && ChainOK(cameFrom, g)
    ensures found ==> end in g && end.color == End
    ensures found ==> forall n :: n in Chain(cameFrom, g, end) ==> n.color == Path
    ensures found && start != end ==> EndsAt(Chain(cameFrom, g, end), start)
    ensures found ==> BackLinked([end] + Chain(cameFrom, g, end)) && |Chain(cameFrom, g, end)| <= g[end]
    ensures !found ==> end !in g && start.color == old(start.color)
    ensures !found ==> forall p :: IsWalk(p) && |p| > 0 && p[0] == start ==> end !in p
    ensures !found ==> forall n :: n in Cells(grid) && n != start ==>
      n.color == if n in g then Closed else old(n.color)
    ensures !found ==> forall p: seq<Node>, i :: IsWalk(p) && |p| > 0 && p[0] == start && 0 <= i < |p| && p[i] != start ==>
      p[i].color == Closed
    ensures found ==> forall n :: n in Cells(grid) && n != end && n !in Chain(cameFrom, g, end) ==>
      n.color == old(n.color) || n.color == Open || n.color == Closed
    ensures found ==> forall n :: n in Cells(grid) && n != start && n != end && n !in g ==> n.color == old(n.color)
    ensures forall n :: n in g && n != start ==> n in cameFrom && cameFrom[n] in Cells(grid) && n in cameFrom[n].neighbors
  {
    ghost var cells := Cells(grid);
    ghost var adj := Snapshot(cells);
    ghost var startColor := start.color;
    ghost var orig := ColorsOf(cells);
    var s := InitialState(start, end);
    InitialInv(start, end, adj);
    InitialClosed(start, end, cells, orig);
    while |s.queue| > 0
      invariant ListsOf(adj, cells)
      invariant SearchInv(s, adj, start, end, {})
      invariant ColorInv(s, start, startColor, cells) && Recolored(cells, orig)
      invariant ClosedInv(s, start, cells, orig, {})
      decreases Unscored(s, cells), Weight(s)
    {
      PopPreserves(s, adj, start, end);
      PopColors(s, start, startColor, cells);
      PopClosed(s, start, cells, orig);
      ghost var before := s;
      var current := Top(s);
      s := Pop(s);
      if current == end {
        FoundUnscored(s, start, end, cells, orig);
        FinishPath(s, adj, cells, start, end);
        ScoredLinked(s, adj, cells, start);
        return true, s.cameFrom, s.g;
      }
      s := ExpandAndClose(s, current, adj, cells, start, end, startColor, orig);
      LoopDecreases(before, s, cells);
    }
    Exhausted(s, adj, cells, start, end);
    ExhaustedClosed(s, start, cells, orig);
    ScoredLinked(s, adj, cells, start);
    return false, s.cameFrom, s.g;
  }

  /**
   * The walk recorded when `algorithm` finds `end`, read forwards from
   * `start`: unit steps along neighbour lists, coloured Path up to `end`,
   * which is coloured End.
   */
  lemma FoundWalk(cells: set<Node>, colors: map<Node, Color>, cameFrom: map<Node, Node>, g: map<Node, nat>,
                  start: Node, end: Node) returns (path: seq<Node>)
    requires UnitSteps(cells) && ListsAvoid(cells, colors) && start in cells && end in cells
    requires ChainOK(cameFrom, g) && end in g && start !in cameFrom
    requires start != end ==> EndsAt(Chain(cameFrom, g, end), start)
    requires BackLinked([end] + Chain(cameFrom, g, end))
    requires forall n :: n in Chain(cameFrom, g, end) ==> n.color == Path
    ensures |path| > 0 && path[0] == start && path[|path| - 1] == end && IsWalk(path)
    ensures forall i :: 0 <= i < |path| ==> path[i] in cells
    ensures forall i :: 0 <= i < |path| - 1 ==> H((path[i].row, path[i].col), (path[i + 1].row, path[i + 1].col)) == 1
    ensures forall i :: 0 <= i < |path| - 1 ==> path[i].color == Path
    ensures forall i :: 0 < i < |path| ==> path[i] in colors && colors[path[i]] != Barrier
    ensures forall n :: n in path <==> n == end || n in Chain(cameFrom, g, end)
  {
    var c := Chain(cameFrom, g, end);
    var q := [end] + c;
    assert q[|q| - 1] in cells by {
      if start != end {
        assert q[|q| - 1] == start;
      }
    }
    forall j | 1 <= j < |q| ensures q[j].color == Path {
      assert q[j] == c[j - 1];
    }
    ReversedWalk(cells, q);
    path := Reverse(q);
    ReversedColors(q);
    ReverseMembers(q);
    WalkAvoids(cells, colors, path);
  }

  /** Read backwards, a sequence coloured Path after its first node is coloured Path before its last. */
  lemma ReversedColors(q: seq<Node>)
    requires |q| > 0 && forall j :: 1 <= j < |q| ==> q[j].color == Path
    ensures forall i :: 0 <= i < |q| - 1 ==> Reverse(q)[i].color == Path
  {
    var p := Reverse(q);
    forall i | 0 <= i < |q| - 1 ensures p[i].color == Path {
      assert p[i] == q[|q| - 1 - i];
    }
  }

  /** A walk along lists that avoid the Barriers of `colors` meets such a Barrier at most in its first node. */
  lemma WalkAvoids(cells: set<Node>, colors: map<Node, Color>, p: seq<Node>)
    requires ListsAvoid(cells, colors) && IsWalk(p) && forall i :: 0 <= i < |p| ==> p[i] in cells
    ensures forall i :: 0 < i < |p| ==> p[i] in colors && colors[p[i]] != Barrier
  {
    forall i | 0 < i < |p| ensures p[i] in colors && colors[p[i]] != Barrier {
      assert p[i - 1 + 1] in p[i - 1].neighbors;
      var k :| 0 <= k < |p[i - 1].neighbors| && p[i - 1].neighbors[k] == p[i];
    }
  }

  /** Along lists that avoid the Barriers of `colors`, no node other than `start` that the search scores was such a Barrier. */
  lemma ScoredNotBarrier(cells: set<Node>, colors: map<Node, Color>, cameFrom: map<Node, Node>, g: map<Node, nat>, start: Node)
    requires ListsAvoid(cells, colors)
    requires forall n :: n in g && n != start ==> n in cameFrom && cameFrom[n] in cells && n in cameFrom[n].neighbors
    ensures forall n :: n in g && n != start ==> n in colors && colors[n] != Barrier
  {
    forall n | n in g && n != start ensures n in colors && colors[n] != Barrier {
      var k :| 0 <= k < |cameFrom[n].neighbors| && cameFrom[n].neighbors[k] == n;
    }
  }

  /**
   * The refresh loop as the search sees it: afterwards every cell's list is
   * the one `update_neighbors` computes from `colors`, the colours the
   * cells have, so every listed neighbour is a grid cell one unit step away
   * that is not a Barrier under `colors`.
   */
  method RefreshForSearch(grid: seq<seq<Node>>, ghost colors: map<Node, Color>)
    requires ValidGrid(grid) && ColorsAre(grid, colors)
    modifies Cells(grid)`neighbors
    ensures forall r, c {:trigger grid[r][c].neighbors} :: 0 <= r < |grid| && 0 <= c < |grid| ==>
      grid[r][c].neighbors == NeighborsIn(grid, colors, r, c)
    ensures UnitSteps(Cells(grid)) && NeighborsInside(Cells(grid)) && ListsAvoid(Cells(grid), colors)
  {
    UpdateAllNeighbors(grid, map[]);
    AgreeEverywhere(grid, colors);
    ComputedUnitSteps(grid);
    ListsAvoidComputed(grid, colors);
  }

  /**
   * The call of `algorithm` after a refresh, with the walk it records read
   * forwards. `colors` are the colours the cells have at the call, and the
   * lists skip its Barriers.
   */
  method RunSearch(grid: seq<seq<Node>>, start: Node, end: Node, ghost colors: map<Node, Color>)
    returns (found: bool, ghost path: seq<Node>)
    requires start in Cells(grid) && end in Cells(grid) && colors == ColorsOf(Cells(grid))
    requires UnitSteps(Cells(grid)) && NeighborsInside(Cells(grid)) && ListsAvoid(Cells(grid), colors)
    modifies Cells(grid)`color
    ensures found ==> |path| > 0 && path[0] == start && path[|path| - 1] == end && IsWalk(path)
    ensures found ==> forall i :: 0 <= i < |path| ==> path[i] in Cells(grid)
    ensures found ==> forall i :: 0 <= i < |path| - 1 ==>
      H((path[i].row, path[i].col), (path[i + 1].row, path[i + 1].col)) == 1
    ensures found ==> end.color == End && forall i :: 0 <= i < |path| - 1 ==> path[i].color == Path
    ensures found ==> forall i :: 0 < i < |path| ==> old(path[i].color) != Barrier
    ensures found ==> forall n :: n in Cells(grid) && n !in path ==>
      n.color == old(n.color) || n.color == Open || n.color == Closed
    ensures !found ==> forall p :: IsWalk(p) && |p| > 0 && p[0] == start ==> end !in p
    ensures !found ==> forall p: seq<Node>, i :: IsWalk(p) && |p| > 0 && p[0] == start && 0 <= i < |p| && p[i] != start ==>
      p[i].color == Closed
    ensures !found ==> forall n :: n in Cells(grid) && n != start ==> n.color == Closed || n.color == old(n.color)
    ensures forall n :: n in Cells(grid) && n != start && old(n.color) == Barrier ==> n.color == Barrier
  {
    ghost var cameFrom, g;
    found, cameFrom, g := Algorithm(grid, start, end);
    ScoredNotBarrier(Cells(grid), colors, cameFrom, g, start);
    path := [];
    if found {
      path := FoundWalk(Cells(grid), colors, cameFrom, g, start, end);
    }
  }

  /**
   * Pressing Space: refresh every cell's neighbour list from the colours
   * the cells have, then run `algorithm`. On success `path` is the walk
   * from `start` to `end` that the predecessor map records, read
   * forwards: it moves one unit step at a time, every node on it before
   * `end` is coloured Path and `end` is coloured End. On failure no walk
   * leads from `start` to `end`. Walls stay walls either way.
   */
  method SearchFromScratch(grid: seq<seq<Node>>, start: Node, end: Node) returns (found: bool, ghost path: seq<Node>)
    requires ValidGrid(grid) && start in Cells(grid) && end in Cells(grid)
    modifies Cells(grid)`neighbors, Cells(grid)`color
    ensures forall r, c {:trigger grid[r][c].neighbors} :: 0 <= r < |grid| && 0 <= c < |grid| ==>
      grid[r][c].neighbors == NeighborsIn(grid, old(ColorsOf(Cells(grid))), r, c)
    ensures found ==> |path| > 0 && path[0] == start && path[|path| - 1] == end && IsWalk(path)
    ensures found ==> forall i :: 0 <= i < |path| ==> path[i] in Cells(grid)
    ensures found ==> forall i :: 0 <= i < |path| - 1 ==>
      H((path[i].row, path[i].col), (path[i + 1].row, path[i + 1].col)) == 1
    ensures found ==> end.color == End && forall i :: 0 <= i < |path| - 1 ==> path[i].color == Path
    ensures found ==> forall i :: 0 < i < |path| ==> old(path[i].color) != Barrier
    ensures found ==> forall n :: n in Cells(grid) && n !in path ==>
      n.color == old(n.color) || n.color == Open || n.color == Closed
    ensures !found ==> forall p :: IsWalk(p) && |p| > 0 && p[0] == start ==> end !in p
    ensures !found ==> forall p: seq<Node>, i :: IsWalk(p) && |p| > 0 && p[0] == start && 0 <= i < |p| && p[i] != start ==>
      p[i].color == Closed
    ensures !found ==> forall n :: n in Cells(grid) && n != start ==> n.color == Closed || n.color == old(n.color)
    ensures forall n :: n in Cells(grid) && n != start && old(n.color) == Barrier ==> n.color == Barrier
  {
    ghost var colors := ColorsOf(Cells(grid));
    RefreshForSearch(grid, colors);
    found, path := RunSearch(grid, start, end, colors);
  }
}
