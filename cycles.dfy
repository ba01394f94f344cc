/** `find_cycles`: a depth-first search over the combined graph that shares
    one `visited` set across all roots and keeps the current path in
    `rec_stack`. An edge back into the path reports the path from that node
    on, closed by the node again. */
module Cycles {
  import opened Tables

  /** Every name the graph mentions, as a key or inside a list. */
  ghost function Nodes(g: Table): set<string> {
    g.m.Keys + set k, d | k in g.m && d in g.m[k] :: d
  }

  lemma SuccInNodes(g: Table, n: string, d: string)
    requires n in g.m && d in g.m[n]
    ensures d in Nodes(g)
  {
  }

  /** Each element of the path is followed by one of its successors. */
  ghost predicate IsPath(g: Table, p: seq<string>) {
    forall i :: 0 <= i < |p| - 1 ==> p[i + 1] in Get(g, p[i])
  }

  /** A reported cycle: a path of at least one edge that returns to its first
      node and passes through no node twice before that. */
  ghost predicate IsCycleReport(g: Table, c: seq<string>) {
    |c| >= 2 && c[0] == c[|c| - 1] && IsPath(g, c) && Distinct(c[..|c| - 1])
  }

  /** `rec_stack.index(node)` */
  function Position(s: seq<string>, x: string): (r: nat)
    requires x in s
    ensures r < |s| && s[r] == x && x !in s[..r]
  {
    if s[0] == x then 0
    else
      var r := 1 + Position(s[1..], x);
      assert s[1..][..r - 1] == s[1..r];
      r
  }

  /** The last element of a stack without repeats is found at its top. */
  lemma TopPosition(s: seq<string>)
    requires s != [] && Distinct(s)
    ensures Position(s, s[|s| - 1]) == |s| - 1
    ensures s[Position(s, s[|s| - 1])..] == [s[|s| - 1]]
  {
  }

  /** An edge from the top of the stack to itself is reported as `[node, node]`. */
  lemma SelfReport(before: seq<seq<string>>, s: seq<string>, x: string, cycles: seq<seq<string>>)
    requires s != [] && Distinct(s) && s[|s| - 1] == x
    requires cycles == before + [s[Position(s, x)..] + [x]]
    ensures [x, x] in cycles
  {
    TopPosition(s);
    assert cycles[|before|] == [x, x];
  }

  lemma PrefixKeepsMembers(a: seq<seq<string>>, b: seq<seq<string>>)
    requires a <= b
    ensures forall c <- a :: c in b
  {
    assert forall i :: 0 <= i < |a| ==> a[i] == b[i];
  }

  /** A ranking under which every edge goes down: the graph has no cycle. */
  ghost predicate Ranked(g: Table, rank: map<string, nat>) {
    forall a :: a in g.m ==> a in rank && forall b :: b in g.m[a] ==> b in rank && rank[b] < rank[a]
  }

  /** Along a path in a ranked graph the rank drops at every step. */
  lemma {:induction false} RankDrops(g: Table, rank: map<string, nat>, p: seq<string>, i: nat)
    requires Ranked(g, rank) && IsPath(g, p)
    requires 0 < i < |p|
    ensures p[0] in rank && p[i] in rank && rank[p[i]] + i <= rank[p[0]]
  {
    assert p[1] in Get(g, p[0]);
    if i > 1 {
      RankDrops(g, rank, p, i - 1);
      assert p[i] in Get(g, p[i - 1]);
    }
  }

  /** A graph with a ranking has no cycle to report. */
  lemma RankedNoCycle(g: Table, rank: map<string, nat>, c: seq<string>)
    requires Ranked(g, rank)
    ensures !IsCycleReport(g, c)
  {
    if IsCycleReport(g, c) {
      RankDrops(g, rank, c, |c| - 1);
    }
  }

  /** The search state: the stack is a path of distinct visited nodes, every
      report is a cycle, and a node whose search has finished has all its
      successors visited and, if it has an edge to itself, has reported
      `[node, node]`. */
  ghost predicate Inv(g: Table, visited: set<string>, stack: seq<string>, cycles: seq<seq<string>>) {
    g.Valid()
    && Distinct(stack) && IsPath(g, stack)
    && (forall n <- stack :: n in visited)
    && (forall c <- cycles :: IsCycleReport(g, c))
    && (forall n <- visited :: n !in stack ==> SuccsVisited(g, visited, n))
    && (forall n <- visited :: n !in stack && n in Get(g, n) ==> [n, n] in cycles)
  }

  ghost predicate SuccsVisited(g: Table, visited: set<string>, n: string) {
    forall d <- Get(g, n) :: d in visited
  }

  /** Finish times of the nodes whose search is over: they are exactly the
      visited nodes off the stack, all finished before `clock`; and while
      nothing has been reported, every edge from a finished node leads to a
      node that finished earlier. */
  ghost predicate Finished(g: Table, visited: set<string>, stack: seq<string>, cycles: seq<seq<string>>,
                           finish: map<string, nat>, clock: nat)
  {
    (forall n <- finish.Keys :: n in visited && n !in stack && finish[n] < clock)
    && (forall n <- visited :: n !in stack ==> n in finish)
    && (cycles == [] ==>
          forall n {:trigger Get(g, n), finish[n]} :: n in finish ==> forall d <- Get(g, n) :: d in finish && finish[d] < finish[n])
  }

  lemma PushKeepsFinished(g: Table, visited: set<string>, stack: seq<string>, cycles: seq<seq<string>>,
                          finish: map<string, nat>, clock: nat, node: string)
    requires Finished(g, visited, stack, cycles, finish, clock) && node !in visited
    ensures Finished(g, visited + {node}, stack + [node], cycles, finish, clock)
  {
    forall n <- visited + {node} | n !in stack + [node]
      ensures n in finish
    {
      assert n in stack ==> n in stack + [node];
    }
    forall n <- finish.Keys
      ensures n !in stack + [node]
    {
      assert n in visited && n !in stack;
    }
  }

  /** Finishing the top node: with no report so far, none of its successors
      is on the stack, so all of them finished earlier. */
  lemma PopKeepsFinished(g: Table, visited: set<string>, stack: seq<string>, cycles: seq<seq<string>>,
                         finish: map<string, nat>, clock: nat, node: string)
    requires Inv(g, visited, stack + [node], cycles)
    requires Finished(g, visited, stack + [node], cycles, finish, clock)
    requires forall d <- Get(g, node) :: d in visited
    requires cycles == [] ==> forall d <- Get(g, node) :: d !in stack + [node]
    ensures Finished(g, visited, stack, cycles, finish[node := clock], clock + 1)
  {
    var s := stack + [node];
    assert node in s && node !in finish;
    assert forall i :: 0 <= i < |stack| ==> s[i] == stack[i] && s[i] != s[|s| - 1];
    assert forall n <- stack :: n in s;
  }

  /** Once the stack is empty with every key visited and nothing reported,
      the finish times rank the graph. */
  lemma FinishRanks(g: Table, visited: set<string>, finish: map<string, nat>, clock: nat)
    requires g.Valid() && Finished(g, visited, [], [], finish, clock)
    requires forall n <- g.keys :: n in visited
    ensures Ranked(g, finish)
  {
    forall a | a in g.m
      ensures a in finish && forall b :: b in g.m[a] ==> b in finish && finish[b] < finish[a]
    {
      assert a in g.keys && a in visited;
      assert Get(g, a) == g.m[a];
    }
  }

  /** Entering a new node along an edge from the top of the stack. */
  lemma PushKeepsInv(g: Table, visited: set<string>, stack: seq<string>, cycles: seq<seq<string>>, node: string)
    requires Inv(g, visited, stack, cycles) && node !in visited
    requires stack != [] ==> node in Get(g, stack[|stack| - 1])
    ensures Inv(g, visited + {node}, stack + [node], cycles)
  {
    var s := stack + [node];
    forall i | 0 <= i < |s| - 1
      ensures s[i + 1] in Get(g, s[i])
    {
      if i < |s| - 2 {
        assert s[i] == stack[i] && s[i + 1] == stack[i + 1];
      }
    }
  }

  /** Leaving a node once all its successors are visited. */
  lemma PopKeepsInv(g: Table, visited: set<string>, stack: seq<string>, cycles: seq<seq<string>>, node: string)
    requires Inv(g, visited, stack + [node], cycles)
    requires forall d <- Get(g, node) :: d in visited
    requires node in Get(g, node) ==> [node, node] in cycles
    ensures Inv(g, visited, stack, cycles)
  {
    var s := stack + [node];
    assert forall i :: 0 <= i < |stack| ==> stack[i] == s[i];
    assert forall n <- stack :: n in s;
  }

  /** Recording a report for an edge from the top of the stack back into it. */
  lemma ReportKeepsInv(g: Table, visited: set<string>, stack: seq<string>, cycles: seq<seq<string>>, start: nat)
    requires Inv(g, visited, stack, cycles) && start < |stack|
    requires stack[start] in Get(g, stack[|stack| - 1])
    ensures Inv(g, visited, stack, cycles + [stack[start..] + [stack[start]]])
  {
    var c := stack[start..] + [stack[start]];
    assert c[..|c| - 1] == stack[start..];
    forall i | 0 <= i < |c| - 1
      ensures c[i + 1] in Get(g, c[i])
    {
      if i < |c| - 2 {
        assert c[i] == stack[start + i] && c[i + 1] == stack[start + i + 1];
      }
    }
    assert IsCycleReport(g, c);
  }

  /** The first `k` successors of `node` have been searched: they are
      visited, a self-edge among them has been reported, and while nothing
      is reported none of them is on the stack. */
  ghost predicate EdgesDone(deps: seq<string>, k: nat, node: string, visited: set<string>,
                            stack: seq<string>, cycles: seq<seq<string>>)
    requires k <= |deps|
  {
    (forall j :: 0 <= j < k ==> deps[j] in visited)
    && (forall j :: 0 <= j < k && deps[j] == node ==> [node, node] in cycles)
    && (cycles == [] ==> forall j :: 0 <= j < k ==> deps[j] !in stack)
  }

  lemma EdgeDone(deps: seq<string>, k: nat, node: string, visited0: set<string>, visited: set<string>,
                 stack: seq<string>, cycles0: seq<seq<string>>, cycles: seq<seq<string>>)
    requires k < |deps| && EdgesDone(deps, k, node, visited0, stack, cycles0)
    requires visited0 <= visited && forall c <- cycles0 :: c in cycles
    requires deps[k] in visited && (deps[k] == node ==> [node, node] in cycles)
    requires cycles == [] ==> cycles0 == [] && deps[k] !in stack
    ensures EdgesDone(deps, k + 1, node, visited, stack, cycles)
  {
  }

  class CycleSearch {
    const graph: Table
    var visited: set<string>
    var recStack: seq<string>
    var cycles: seq<seq<string>>
    ghost var finish: map<string, nat>
    ghost var clock: nat

    ghost predicate Valid()
      reads this
    {
      Inv(graph, visited, recStack, cycles) && Finished(graph, visited, recStack, cycles, finish, clock)
    }

    constructor(graph: Table)
      requires graph.Valid()
      ensures Valid() && this.graph == graph
      ensures visited == {} && recStack == [] && cycles == []
    {
      this.graph := graph;
      visited := {};
      recStack := [];
      cycles := [];
      finish := map[];
      clock := 0;
    }

    /** `dfs(node, path)`, entered from the top of the stack along an edge. */
    method Dfs(node: string)
      requires Valid() && node in Nodes(graph)
      requires recStack != [] ==> node in Get(graph, recStack[|recStack| - 1])
      modifies this
      ensures Valid()
      ensures recStack == old(recStack)
      ensures old(visited) <= visited && node in visited
      ensures old(cycles) <= cycles
      ensures node in old(recStack) ==>
        cycles == old(cycles) + [old(recStack)[Position(old(recStack), node)..] + [node]]
        && visited == old(visited)
      ensures node in old(visited) && node !in old(recStack) ==>
        visited == old(visited) && cycles == old(cycles)
      decreases Nodes(graph) - visited, 1
    {
      if node in recStack {
        var start := Position(recStack, node);
        ReportKeepsInv(graph, visited, recStack, cycles, start);
        cycles := cycles + [recStack[start..] + [node]];
        return;
      }
      if node in visited {
        return;
      }
      Visit(node);
    }

    /** The part of `dfs` for a node seen for the first time: push it, explore
        its successors, pop it; any cycle found on the way is reported. */
    method Visit(node: string)
      requires Valid() && node in Nodes(graph) && node !in visited && node !in recStack
      requires recStack != [] ==> node in Get(graph, recStack[|recStack| - 1])
      modifies this
      ensures Valid()
      ensures recStack == old(recStack)
      ensures old(visited) <= visited && node in visited
      ensures old(cycles) <= cycles
      decreases Nodes(graph) - visited, 0
    {
      Push(node);
      Explore(node);
      assert recStack == old(recStack) + [node];
      Pop(old(recStack), node);
    }

    /** `visited.add(node)` and `rec_stack.append(node)`. */
    method Push(node: string)
      requires Valid() && node !in visited
      requires recStack != [] ==> node in Get(graph, recStack[|recStack| - 1])
      modifies this
      ensures Valid()
      ensures visited == old(visited) + {node} && recStack == old(recStack) + [node]
      ensures cycles == old(cycles)
    {
      PushKeepsInv(graph, visited, recStack, cycles, node);
      PushKeepsFinished(graph, visited, recStack, cycles, finish, clock, node);
      visited := visited + {node};
      recStack := recStack + [node];
    }

    /** `rec_stack.pop()`, once every successor of `node` is visited; the
        ghost clock records that `node` is finished. */
    method Pop(ghost stack: seq<string>, node: string)
      requires Valid() && recStack == stack + [node]
      requires SuccsVisited(graph, visited, node)
      requires node in Get(graph, node) ==> [node, node] in cycles
      requires cycles == [] ==> forall d <- Get(graph, node) :: d !in recStack
      modifies this
      ensures Valid()
      ensures recStack == stack && visited == old(visited) && cycles == old(cycles)
    {
      PopKeepsInv(graph, visited, stack, cycles, node);
      PopKeepsFinished(graph, visited, stack, cycles, finish, clock, node);
      assert recStack[..|recStack| - 1] == stack;
      recStack := recStack[..|recStack| - 1];
      finish := finish[node := clock];
      clock := clock + 1;
    }

    /** The `for dep in graph.get(node, [])` loop of `dfs`, run with `node` on
        top of the stack: afterwards every successor is visited, and an edge
        from `node` to itself has been reported. */
    method Explore(node: string)
      requires Valid() && node in visited
      requires recStack != [] && recStack[|recStack| - 1] == node
      modifies this
      ensures Valid()
      ensures recStack == old(recStack)
      ensures old(visited) <= visited && old(cycles) <= cycles
      ensures SuccsVisited(graph, visited, node)
      ensures node in Get(graph, node) ==> [node, node] in cycles
      ensures cycles == [] ==> forall d <- Get(graph, node) :: d !in recStack
      decreases Nodes(graph) - visited, 3
    {
      var deps := Get(graph, node);
      for k := 0 to |deps|
        invariant Valid()
        invariant recStack == old(recStack)
        invariant old(visited) <= visited
        invariant old(cycles) <= cycles
        invariant EdgesDone(deps, k, node, visited, recStack, cycles)
      {
        ghost var visited0, cycles0 := visited, cycles;
        ExploreEdge(node, deps[k]);
        PrefixKeepsMembers(cycles0, cycles);
        EdgeDone(deps, k, node, visited0, visited, recStack, cycles0, cycles);
      }
    }

    /** One turn of that loop: `dfs(dep, path + [dep])` for a successor
        `dep` of the top node `node`. */
    method ExploreEdge(node: string, dep: string)
      requires Valid() && node in visited && dep in Get(graph, node)
      requires recStack != [] && recStack[|recStack| - 1] == node
      modifies this
      ensures Valid()
      ensures recStack == old(recStack)
      ensures old(visited) <= visited && old(cycles) <= cycles
      ensures dep in visited
      ensures dep == node ==> [node, node] in cycles
      ensures cycles == [] ==> old(cycles) == [] && dep !in recStack
      decreases Nodes(graph) - visited, 2
    {
      SuccInNodes(graph, node, dep);
      Dfs(dep);
      if dep == node {
        SelfReport(old(cycles), recStack, node, cycles);
      }
    }

    /** `for node in graph: if node not in visited: dfs(node, [node])` */
    method Search()
      requires Valid() && recStack == []
      modifies this
      ensures Valid() && recStack == []
      ensures forall n <- graph.keys :: n in visited
      ensures old(cycles) <= cycles
    {
      for k := 0 to |graph.keys|
        invariant Valid() && recStack == []
        invariant forall j :: 0 <= j < k ==> graph.keys[j] in visited
        invariant old(cycles) <= cycles
      {
        var node := graph.keys[k];
        if node !in visited {
          Dfs(node);
        }
      }
    }
  }

  /** `find_cycles(graph)`: every report is a cycle of the graph, an edge
      from a key to itself is reported as `[key, key]`, a graph that can be
      ranked so that every edge goes down yields no report, and the report
      list is empty exactly when the graph has no cycle. */
  method FindCycles(graph: Table) returns (cycles: seq<seq<string>>)
    requires graph.Valid()
    ensures forall c <- cycles :: IsCycleReport(graph, c)
    ensures forall n <- graph.keys :: n in graph.m[n] ==> [n, n] in cycles
    ensures forall rank :: Ranked(graph, rank) ==> cycles == []
    ensures cycles == [] <==> forall c :: !IsCycleReport(graph, c)
  {
    var search := new CycleSearch(graph);
    search.Search();
    cycles := search.cycles;
    if cycles == [] {
      FinishRanks(graph, search.visited, search.finish, search.clock);
      forall c {
        RankedNoCycle(graph, search.finish, c);
      }
    } else {
      assert cycles[0] in cycles;
    }
    forall rank | Ranked(graph, rank)
      ensures cycles == []
    {
      if cycles != [] {
        assert cycles[0] in cycles;
        RankedNoCycle(graph, rank, cycles[0]);
      }
    }
  }
}
