/** The label arrays of the search and what they mean: the tree of visited cities and the
    frontier of the cut between visited and unvisited ones. */
module SearchLabels {
  import opened Ranges
  import opened Timetable

  /** The vectors of the search.  `spend[u][v]` is the arrival at `v` by the leg last taken from
      `u`, `route[u][v]` the index of that leg among the routes of `u`. */
  datatype Labels = Labels(
    visit: seq<bool>, risks: seq<int>, prev: seq<int>,
    spend: seq<seq<int>>, route: seq<seq<int>>)

  ghost predicate Shape(n: nat, l: Labels) {
    && |l.visit| == n && |l.risks| == n && |l.prev| == n && |l.spend| == n && |l.route| == n
    && (forall a :: 0 <= a < n ==> |l.spend[a]| == n && |l.route[a]| == n)
    && (forall a :: 0 <= a < n ==> -1 <= l.prev[a] < n)
  }

  /** The arrival time fixed for city `u`. */
  function Label(q: Query, l: Labels, u: int): int
    requires Shape(|l.prev|, l) && 0 <= u < |l.prev|
  {
    if l.prev[u] == -1 then q.startT else l.spend[l.prev[u]][u]
  }

  /** Leg `i` out of `u`, taken at the label of `u`. */
  function LabelWeight(net: Network, q: Query, l: Labels, u: int, i: int): int
    requires net.Valid() && net.HasRoute(u, i) && Shape(net.Size(), l)
  {
    WeightAt(net, q, u, i, Label(q, l, u))
  }

  predicate LabelInTime(net: Network, q: Query, l: Labels, u: int, i: int)
    requires net.Valid() && net.HasRoute(u, i) && Shape(net.Size(), l)
  {
    InTime(net, q, u, i, Label(q, l, u))
  }

  /** The entries kept for `v` describe one real leg into `v` from a visited city, with its
      arrival, and `risks[v]` is the risk of that leg. */
  ghost predicate Witnessed(net: Network, q: Query, l: Labels, v: int)
    requires net.Valid() && Shape(net.Size(), l) && 0 <= v < net.Size()
  {
    var u := l.prev[v];
    && u != -1 && l.visit[u]
    && var i := l.route[u][v];
    && net.HasRoute(u, i) && net.Target(u, i) == v
    && LabelInTime(net, q, l, u, i)
    && l.spend[u][v] == ArriveAt(net, u, i, Label(q, l, u))
    && l.risks[v] == LabelWeight(net, q, l, u, i)
  }

  ghost predicate Distinct(s: seq<int>) {
    forall a, b :: 0 <= a < b < |s| ==> s[a] != s[b]
  }

  /** No leg that crosses from the first `k` visited cities to the rest beats the `k`-th choice. */
  ghost predicate CutMinimal(net: Network, q: Query, l: Labels, order: seq<int>, k: nat)
    requires net.Valid() && Shape(net.Size(), l) && k < |order| && 0 <= order[k] < net.Size()
  {
    forall u, i ::
      u in order[..k] && net.HasRoute(u, i) && net.Target(u, i) !in order[..k] && LabelInTime(net, q, l, u, i)
      ==> l.risks[order[k]] <= LabelWeight(net, q, l, u, i)
  }

  ghost predicate Cities(n: nat, order: seq<int>) {
    forall k :: 0 <= k < |order| ==> 0 <= order[k] < n
  }

  /** What holds of every visited city, `order` being the order of the visits. */
  ghost predicate Tree(net: Network, q: Query, l: Labels, order: seq<int>)
    requires ValidQuery(net, q)
  {
    && Shape(net.Size(), l)
    && Cities(net.Size(), order) && Distinct(order)
    && |order| > 0 && order[0] == q.start && l.prev[q.start] == -1
    && (forall v :: 0 <= v < net.Size() ==> (l.visit[v] <==> v in order))
    && (forall k :: 1 <= k < |order| ==> TreeNode(net, q, l, order, k))
  }

  ghost predicate TreeNode(net: Network, q: Query, l: Labels, order: seq<int>, k: nat)
    requires net.Valid() && Shape(net.Size(), l) && Cities(net.Size(), order) && k < |order|
  {
    && Witnessed(net, q, l, order[k])
    && l.prev[order[k]] in order[..k]
    && l.risks[order[k]] < INF
    && CutMinimal(net, q, l, order, k)
  }

  /** Every leg out of a visited city has been looked at, those of `cur` only up to index `m`. */
  predicate Scanned(l: Labels, cur: int, m: int, u: int, i: int) {
    0 <= u < |l.visit| && l.visit[u] && (u == cur ==> i < m)
  }

  /** `risks` of an unvisited city is the least risk over the scanned legs into it that are in
      time, or INF, and the other arrays name a leg that attains it. */
  ghost predicate Frontier(net: Network, q: Query, l: Labels, cur: int, m: int)
    requires net.Valid() && Shape(net.Size(), l)
  {
    && (forall v :: 0 <= v < net.Size() ==> BestKnown(net, q, l, v))
    && (forall u, i :: net.HasRoute(u, i) && Scanned(l, cur, m, u, i) ==> Covered(net, q, l, u, i))
  }

  ghost predicate BestKnown(net: Network, q: Query, l: Labels, v: int)
    requires net.Valid() && Shape(net.Size(), l) && 0 <= v < net.Size()
  {
    !l.visit[v] ==> l.risks[v] <= INF && (l.risks[v] < INF ==> Witnessed(net, q, l, v))
  }

  ghost predicate Covered(net: Network, q: Query, l: Labels, u: int, i: int)
    requires net.Valid() && Shape(net.Size(), l) && net.HasRoute(u, i)
  {
    !l.visit[net.Target(u, i)] && LabelInTime(net, q, l, u, i)
    ==> l.risks[net.Target(u, i)] <= LabelWeight(net, q, l, u, i)
  }

  /** Recording leg `i` out of `u` as the best one into its target. */
  function Record(l: Labels, u: int, v: int, i: int, risk: int, arrival: int): Labels
    requires Shape(|l.prev|, l) && 0 <= u < |l.prev| && 0 <= v < |l.prev|
  {
    l.(risks := l.risks[v := risk],
       route := l.route[u := l.route[u][v := i]],
       spend := l.spend[u := l.spend[u][v := arrival]],
       prev := l.prev[v := u])
  }

  /** The effect of looking at one leg out of `u`. */
  function Relaxed(net: Network, q: Query, l: Labels, u: int, i: int): Labels
    requires net.Valid() && net.HasRoute(u, i) && Shape(net.Size(), l)
  {
    var v := net.Target(u, i);
    var risk := LabelWeight(net, q, l, u, i);
    if l.visit[v] || !LabelInTime(net, q, l, u, i) || risk >= l.risks[v] then l
    else Record(l, u, v, i, risk, ArriveAt(net, u, i, Label(q, l, u)))
  }

  /** The effect of looking at the first `m` legs out of `u`, in order. */
  function RelaxedUpTo(net: Network, q: Query, l: Labels, u: int, m: nat): (r: Labels)
    requires net.Valid() && Shape(net.Size(), l)
    requires 0 <= u < net.Size() && m <= |net.routes[u]|
    ensures Shape(net.Size(), r) && r.visit == l.visit
  {
    if m == 0 then l else Relaxed(net, q, RelaxedUpTo(net, q, l, u, m - 1), u, m - 1)
  }

  /** Labels, and with them weights and prunings, of visited cities survive a relaxation. */
  lemma {:induction false} RelaxedKeepsLabels(net: Network, q: Query, l: Labels, u: int, i: int)
    requires net.Valid() && net.HasRoute(u, i) && Shape(net.Size(), l) && l.visit[u]
    ensures Shape(net.Size(), Relaxed(net, q, l, u, i))
    ensures Relaxed(net, q, l, u, i).visit == l.visit
    ensures forall w :: 0 <= w < net.Size() && l.visit[w] ==>
              Label(q, Relaxed(net, q, l, u, i), w) == Label(q, l, w)
  {
  }

  lemma {:induction false} RelaxedKeepsWitness(net: Network, q: Query, l: Labels, u: int, i: int, v: int)
    requires net.Valid() && net.HasRoute(u, i) && Shape(net.Size(), l) && l.visit[u]
    requires 0 <= v < net.Size() && Witnessed(net, q, l, v)
    ensures Shape(net.Size(), Relaxed(net, q, l, u, i))
    ensures Witnessed(net, q, Relaxed(net, q, l, u, i), v)
  {
    RelaxedKeepsLabels(net, q, l, u, i);
  }

  lemma {:induction false} RelaxedKeepsTree(net: Network, q: Query, l: Labels, order: seq<int>, u: int, i: int)
    requires ValidQuery(net, q) && Tree(net, q, l, order) && net.HasRoute(u, i) && l.visit[u]
    ensures Tree(net, q, Relaxed(net, q, l, u, i), order)
  {
    var l' := Relaxed(net, q, l, u, i);
    RelaxedKeepsLabels(net, q, l, u, i);
    assert l.visit[q.start];
    forall k | 1 <= k < |order| ensures TreeNode(net, q, l', order, k) {
      assert TreeNode(net, q, l, order, k);
      RelaxedKeepsWitness(net, q, l, u, i, order[k]);
      assert l.visit[order[k]];
      assert l'.risks[order[k]] == l.risks[order[k]] && l'.prev[order[k]] == l.prev[order[k]];
      forall a, j | a in order[..k] && net.HasRoute(a, j) && net.Target(a, j) !in order[..k]
          && LabelInTime(net, q, l', a, j)
        ensures l'.risks[order[k]] <= LabelWeight(net, q, l', a, j)
      {
        assert l.visit[a];
      }
    }
  }

  lemma {:induction false} RelaxedKeepsFrontier(net: Network, q: Query, l: Labels, u: int, i: int)
    requires net.Valid() && net.HasRoute(u, i) && Shape(net.Size(), l) && l.visit[u]
    requires Frontier(net, q, l, u, i)
    ensures Shape(net.Size(), Relaxed(net, q, l, u, i))
    ensures Frontier(net, q, Relaxed(net, q, l, u, i), u, i + 1)
  {
    var l' := Relaxed(net, q, l, u, i);
    RelaxedKeepsLabels(net, q, l, u, i);
    forall v | 0 <= v < net.Size() ensures BestKnown(net, q, l', v) {
      assert BestKnown(net, q, l, v);
      if !l.visit[v] && l.risks[v] < INF { RelaxedKeepsWitness(net, q, l, u, i, v); }
    }
    forall a, j | net.HasRoute(a, j) && Scanned(l', u, i + 1, a, j) ensures Covered(net, q, l', a, j) {
      if a != u || j < i {
        assert Scanned(l, u, i, a, j);
        assert Covered(net, q, l, a, j);
      }
    }
  }

  lemma {:induction false} RelaxedUpToKeepsTree(net: Network, q: Query, l: Labels, order: seq<int>, u: int, m: nat)
    requires ValidQuery(net, q) && Tree(net, q, l, order)
    requires 0 <= u < net.Size() && l.visit[u] && m <= |net.routes[u]|
    ensures Tree(net, q, RelaxedUpTo(net, q, l, u, m), order)
  {
    if m > 0 {
      RelaxedUpToKeepsTree(net, q, l, order, u, m - 1);
      RelaxedKeepsTree(net, q, RelaxedUpTo(net, q, l, u, m - 1), order, u, m - 1);
    }
  }

  lemma {:induction false} RelaxedUpToKeepsFrontier(net: Network, q: Query, l: Labels, u: int, m: nat)
    requires net.Valid() && Shape(net.Size(), l) && Frontier(net, q, l, u, 0)
    requires 0 <= u < net.Size() && l.visit[u] && m <= |net.routes[u]|
    ensures Frontier(net, q, RelaxedUpTo(net, q, l, u, m), u, m)
  {
    if m > 0 {
      var r := RelaxedUpTo(net, q, l, u, m - 1);
      RelaxedUpToKeepsFrontier(net, q, l, u, m - 1);
      RelaxedKeepsFrontier(net, q, r, u, m - 1);
      assert RelaxedUpTo(net, q, l, u, m) == Relaxed(net, q, r, u, m - 1);
    }
  }

  function Visited(l: Labels, v: int): Labels
    requires 0 <= v < |l.visit|
  {
    l.(visit := l.visit[v := true])
  }

  lemma {:induction false} VisitKeepsNode(net: Network, q: Query, l: Labels, order: seq<int>, v: int, k: nat)
    requires net.Valid() && Shape(net.Size(), l) && Cities(net.Size(), order) && k < |order|
    requires TreeNode(net, q, l, order, k)
    requires 0 <= v < net.Size()
    ensures TreeNode(net, q, Visited(l, v), order + [v], k)
  {
    assert (order + [v])[..k] == order[..k];
    assert CutMinimal(net, q, Visited(l, v), order + [v], k);
  }

  /** A city whose label beats the whole frontier may be visited. */
  lemma {:induction false} VisitKeepsTree(net: Network, q: Query, l: Labels, order: seq<int>, cur: int, v: int)
    requires ValidQuery(net, q) && Tree(net, q, l, order) && cur in order
    requires Frontier(net, q, l, cur, |net.routes[cur]|)
    requires 0 <= v < net.Size() && !l.visit[v] && l.risks[v] < INF
    requires forall w :: 0 <= w < net.Size() && !l.visit[w] ==> l.risks[v] <= l.risks[w]
    ensures Tree(net, q, Visited(l, v), order + [v])
  {
    var l' := Visited(l, v);
    var order' := order + [v];
    var n := |order|;
    assert v !in order;
    forall k | 1 <= k < n ensures TreeNode(net, q, l', order', k) {
      assert TreeNode(net, q, l, order, k);
      VisitKeepsNode(net, q, l, order, v, k);
    }
    assert order'[..n] == order;
    forall u, i | u in order'[..n] && net.HasRoute(u, i) && net.Target(u, i) !in order'[..n]
        && LabelInTime(net, q, l', u, i)
      ensures l'.risks[v] <= LabelWeight(net, q, l', u, i)
    {
      assert Scanned(l, cur, |net.routes[cur]|, u, i) && Covered(net, q, l, u, i);
    }
    assert BestKnown(net, q, l, v);
    assert TreeNode(net, q, l', order', n);
    assert forall k | 1 <= k < |order'| :: TreeNode(net, q, l', order', k);
  }

  lemma {:induction false} VisitKeepsFrontier(net: Network, q: Query, l: Labels, cur: int, v: int)
    requires net.Valid() && Shape(net.Size(), l) && 0 <= cur < net.Size()
    requires Frontier(net, q, l, cur, |net.routes[cur]|)
    requires 0 <= v < net.Size() && !l.visit[v]
    ensures Frontier(net, q, Visited(l, v), v, 0)
  {
    var l' := Visited(l, v);
    forall w | 0 <= w < net.Size() ensures BestKnown(net, q, l', w) {
      assert BestKnown(net, q, l, w);
    }
    forall u, i | net.HasRoute(u, i) && Scanned(l', v, 0, u, i) ensures Covered(net, q, l', u, i) {
      assert Scanned(l, cur, |net.routes[cur]|, u, i) && Covered(net, q, l, u, i);
    }
  }

  function Members(s: seq<int>): (r: set<int>)
    ensures forall x :: x in r <==> x in s
    ensures Distinct(s) ==> |r| == |s|
  {
    if s == [] then {} else Members(s[..|s| - 1]) + {s[|s| - 1]}
  }

  lemma {:induction false} SubsetSize(a: set<int>, b: set<int>)
    requires a <= b
    ensures |a| <= |b| && (|a| == |b| ==> a == b)
  {
    assert b == a + (b - a);
  }

  /** At most `n` cities can be visited, and fewer while one is unvisited. */
  lemma {:induction false} OrderIsBounded(n: nat, order: seq<int>)
    requires Cities(n, order) && Distinct(order)
    ensures |order| <= n
    ensures |order| == n ==> forall v :: 0 <= v < n ==> v in order
  {
    var members := Members(order);
    assert forall x :: x in members ==> x in UpTo(n);
    SubsetSize(members, UpTo(n));
  }
}
