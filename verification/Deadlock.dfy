/** Deadlock detection: a depth-first search of the wait-for graph that finds a cycle exactly when there is one. */
module Deadlock {
  import opened LockModel

  type Graph = map<TxnId, set<TxnId>>

  datatype Color = White | Gray | Black

  function Waits(g: Graph, t: TxnId): set<TxnId> {
    if t in g then g[t] else {}
  }

  predicate Path(g: Graph, p: seq<TxnId>) {
    forall i :: 0 <= i < |p| - 1 ==> p[i + 1] in Waits(g, p[i])
  }

  /** Each transaction waits for the next, and the last for the first. */
  predicate Cycle(g: Graph, c: seq<TxnId>) {
    |c| > 0 && Path(g, c) && c[0] in Waits(g, c[|c| - 1])
  }

  /** Every transaction of the graph, waiting or waited for. */
  function Nodes(g: Graph): set<TxnId> {
    g.Keys + set t, u | t in g && u in g[t] :: u
  }

  function ColorOf(color: map<TxnId, Color>, t: TxnId): Color {
    if t in color then color[t] else White
  }

  /** A finished node's successors finished before it. */
  ghost predicate FinishedRight(g: Graph, color: map<TxnId, Color>, rank: map<TxnId, nat>, t: TxnId) {
    ColorOf(color, t) == Black ==>
      t in rank && forall u :: u in Waits(g, t) ==> ColorOf(color, u) == Black && u in rank && rank[u] < rank[t]
  }

  ghost predicate FinishOrder(g: Graph, color: map<TxnId, Color>, rank: map<TxnId, nat>, clock: nat) {
    && (forall t :: FinishedRight(g, color, rank, t))
    && (forall t :: t in rank ==> rank[t] < clock && ColorOf(color, t) == Black)
  }

  /** The stack is a path of the gray nodes. */
  ghost predicate StackRight(g: Graph, color: map<TxnId, Color>, stack: seq<TxnId>) {
    && Path(g, stack)
    && (forall i, j :: 0 <= i < j < |stack| ==> stack[i] != stack[j])
    && (forall t :: ColorOf(color, t) == Gray <==> t in stack)
    && color.Keys <= Nodes(g) && (forall t :: t in color ==> color[t] != White)
  }

  /** Ranks fall along the edges, so they fall along a path. */
  lemma {:induction false} RanksFall(g: Graph, rank: map<TxnId, nat>, c: seq<TxnId>, i: nat)
    requires Path(g, c) && i < |c|
    requires forall t :: t in c ==> t in rank && forall u :: u in Waits(g, t) ==> u in rank && rank[u] < rank[t]
    ensures c[0] in rank && c[i] in rank && rank[c[i]] <= rank[c[0]]
  {
    if i > 0 {
      RanksFall(g, rank, c, i - 1);
      assert c[i] in Waits(g, c[i - 1]);
    }
  }

  /** When every waiting transaction has finished there is no cycle. */
  lemma {:induction false} NoCycle(g: Graph, color: map<TxnId, Color>, rank: map<TxnId, nat>, clock: nat, c: seq<TxnId>)
    requires FinishOrder(g, color, rank, clock) && forall t :: t in g ==> ColorOf(color, t) == Black
    ensures !Cycle(g, c)
  {
    if Cycle(g, c) {
      var n := |c| - 1;
      forall i | 0 <= i < |c| ensures c[i] in g && FinishedRight(g, color, rank, c[i]) {
        if i < n {
          assert c[i + 1] in Waits(g, c[i]);
        }
      }
      RanksFall(g, rank, c, n);
    }
  }

  lemma {:induction false} SuffixIsPath(g: Graph, p: seq<TxnId>, i: nat)
    requires Path(g, p) && i <= |p|
    ensures Path(g, p[i..])
  {
    forall j | 0 <= j < |p[i..]| - 1 ensures p[i..][j + 1] in Waits(g, p[i..][j]) {
      assert p[i + j + 1] in Waits(g, p[i + j]);
    }
  }

  lemma {:induction false} Pushed(g: Graph, color: map<TxnId, Color>, stack: seq<TxnId>, t: TxnId)
    requires StackRight(g, color, stack) && ColorOf(color, t) == White && t in Nodes(g)
    requires |stack| > 0 ==> t in Waits(g, stack[|stack| - 1])
    ensures StackRight(g, color[t := Gray], stack + [t])
  {
    var s, c := stack + [t], color[t := Gray];
    assert t !in stack;
    forall i | 0 <= i < |s| - 1 ensures s[i + 1] in Waits(g, s[i]) {
      if i < |stack| - 1 {
        assert stack[i + 1] in Waits(g, stack[i]);
      }
    }
    forall u ensures ColorOf(c, u) == Gray <==> u in s {
      assert ColorOf(color, u) == Gray <==> u in stack;
    }
  }

  lemma {:induction false} Popped(g: Graph, color: map<TxnId, Color>, stack: seq<TxnId>, t: TxnId)
    requires StackRight(g, color, stack + [t])
    ensures StackRight(g, color[t := Black], stack)
  {
    var s, c := stack + [t], color[t := Black];
    assert s[|stack|] in s;
    forall i | 0 <= i < |stack| - 1 ensures stack[i + 1] in Waits(g, stack[i]) {
      assert s[i + 1] in Waits(g, s[i]);
    }
    forall i | 0 <= i < |stack| ensures stack[i] != t {
      assert s[i] != s[|stack|];
    }
    forall i, j | 0 <= i < j < |stack| ensures stack[i] != stack[j] {
      assert s[i] != s[j];
    }
    forall u ensures ColorOf(c, u) == Gray <==> u in stack {
      assert ColorOf(color, u) == Gray <==> u in s;
    }
  }

  lemma {:induction false} Finished(g: Graph, color: map<TxnId, Color>, rank: map<TxnId, nat>, clock: nat, t: TxnId)
    requires FinishOrder(g, color, rank, clock) && ColorOf(color, t) == Gray
    requires forall u :: u in Waits(g, t) ==> ColorOf(color, u) == Black
    ensures FinishOrder(g, color[t := Black], rank[t := clock], clock + 1)
  {
    var c, r := color[t := Black], rank[t := clock];
    assert t !in rank;
    forall u ensures FinishedRight(g, c, r, u) {
      assert FinishedRight(g, color, rank, u);
      if u == t {
        forall v | v in Waits(g, t) ensures ColorOf(c, v) == Black && v in r && r[v] < r[t] {
          assert FinishedRight(g, color, rank, v);
        }
      }
    }
  }

  /** The search state: colours, the path being explored, and the cycle found. */
  class DeadlockSearch {
    const graph: Graph
    var color: map<TxnId, Color>
    var stack: seq<TxnId>
    var cycle: seq<TxnId>
    ghost var rank: map<TxnId, nat>
    ghost var clock: nat

    constructor (g: Graph)
      ensures graph == g && Valid() && stack == []
    {
      graph, color, stack, cycle, rank, clock := g, map[], [], [], map[], 0;
    }

    ghost predicate Valid()
      reads this
    {
      StackRight(graph, color, stack) && FinishOrder(graph, color, rank, clock)
    }

    /** Explores a node. Without a cycle the node is finished, and finished nodes stay finished. */
    method Visit(node: TxnId) returns (found: bool)
      requires Valid() && ColorOf(color, node) == White && node in Nodes(graph)
      requires |stack| > 0 ==> node in Waits(graph, stack[|stack| - 1])
      modifies this
      ensures found ==> Cycle(graph, cycle)
      ensures !found ==> Valid() && stack == old(stack) && ColorOf(color, node) == Black
      ensures !found ==> Grown(old(color), color)
      decreases Nodes(graph) - color.Keys, 0
    {
      Enter(node);
      assert node in Nodes(graph) - old(color).Keys && node !in Nodes(graph) - color.Keys;
      found := false;
      var rest := Waits(graph, node);
      while rest != {}
        invariant Valid() && stack == old(stack) + [node] && rest <= Waits(graph, node)
        invariant Grown(old(color)[node := Gray], color) && Grown(old(color), color)
        invariant Nodes(graph) - color.Keys < Nodes(graph) - old(color).Keys
        invariant forall u :: u in Waits(graph, node) && u !in rest ==> ColorOf(color, u) == Black
        decreases |rest|
      {
        var neighbor :| neighbor in rest;
        rest := rest - {neighbor};
        found := Follow(neighbor);
        if found {
          return;
        }
      }
      Leave(node);
      assert stack == old(stack);
    }

    method Enter(node: TxnId)
      requires Valid() && ColorOf(color, node) == White && node in Nodes(graph)
      requires |stack| > 0 ==> node in Waits(graph, stack[|stack| - 1])
      modifies this`color, this`stack
      ensures Valid() && stack == old(stack) + [node] && color == old(color)[node := Gray]
    {
      Pushed(graph, color, stack, node);
      StillFinished(graph, color, rank, clock, node);
      color := color[node := Gray];
      stack := stack + [node];
    }

    method Leave(node: TxnId)
      requires Valid() && |stack| > 0 && stack[|stack| - 1] == node
      requires forall u :: u in Waits(graph, node) ==> ColorOf(color, u) == Black
      modifies this`color, this`stack, this`rank, this`clock
      ensures Valid() && stack == old(stack)[..|old(stack)| - 1] && color == old(color)[node := Black]
    {
      var below := stack[..|stack| - 1];
      assert stack == below + [node] && node in stack;
      Popped(graph, color, below, node);
      Finished(graph, color, rank, clock, node);
      stack := below;
      color := color[node := Black];
      rank := rank[node := clock];
      clock := clock + 1;
    }

    /** Follows one edge from the end of the path: to a node on the path, to a new node, or to a finished one. */
    method Follow(neighbor: TxnId) returns (found: bool)
      requires Valid() && |stack| > 0 && neighbor in Waits(graph, stack[|stack| - 1])
      modifies this
      ensures found ==> Cycle(graph, cycle)
      ensures !found ==> Valid() && stack == old(stack) && ColorOf(color, neighbor) == Black
      ensures !found ==> Grown(old(color), color)
      decreases Nodes(graph) - color.Keys, 1
    {
      var c := ColorOf(color, neighbor);
      found := false;
      if c == Gray {
        var start := Find(stack, neighbor);
        SuffixIsPath(graph, stack, start);
        cycle := stack[start..];
        found := true;
      } else if c == White {
        found := Visit(neighbor);
      }
    }

    /** Explores every node that waits for another. */
    method Search() returns (found: bool)
      requires Valid() && stack == []
      modifies this
      ensures if found then Cycle(graph, cycle) else forall c :: !Cycle(graph, c)
    {
      found := false;
      var rest := graph.Keys;
      while rest != {}
        invariant Valid() && stack == [] && rest <= graph.Keys
        invariant forall t :: t in graph && t !in rest ==> ColorOf(color, t) == Black
        decreases |rest|
      {
        var node :| node in rest;
        rest := rest - {node};
        if ColorOf(color, node) == White {
          found := Visit(node);
          if found {
            return;
          }
        } else {
          assert ColorOf(color, node) == Gray <==> node in stack;
        }
      }
      forall c ensures !Cycle(graph, c) {
        NoCycle(graph, color, rank, clock, c);
      }
    }
  }

  /** Nodes are never forgotten, and finished nodes stay finished. */
  ghost predicate Grown(a: map<TxnId, Color>, b: map<TxnId, Color>) {
    a.Keys <= b.Keys && forall t :: ColorOf(a, t) == Black ==> ColorOf(b, t) == Black
  }

  lemma {:induction false} StillFinished(g: Graph, color: map<TxnId, Color>, rank: map<TxnId, nat>, clock: nat, t: TxnId)
    requires FinishOrder(g, color, rank, clock) && ColorOf(color, t) == White
    ensures FinishOrder(g, color[t := Gray], rank, clock)
  {
    var c := color[t := Gray];
    forall u ensures FinishedRight(g, c, rank, u) {
      assert FinishedRight(g, color, rank, u);
    }
  }

  method Find(s: seq<TxnId>, t: TxnId) returns (i: nat)
    requires t in s
    ensures i < |s| && s[i] == t && t !in s[..i]
  {
    i := 0;
    assert s[..|s|] == s;
    while i < |s| && s[i] != t
      invariant i <= |s| && t !in s[..i]
    {
      i := i + 1;
    }
  }

  /** True exactly when the graph has a cycle; the list returned is then a cycle of the graph. */
  method DetectDeadlock(g: Graph) returns (found: bool, cycle: seq<TxnId>)
    ensures found <==> exists c :: Cycle(g, c)
    ensures found ==> Cycle(g, cycle)
  {
    var search := new DeadlockSearch(g);
    found := search.Search();
    cycle := search.cycle;
  }
}
