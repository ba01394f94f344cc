/** The part of `main` between parsing and printing: the optional
    `--phony-only` and `--no-src` filters, the merge of the dependency and
    recursive-make maps into one graph, and the cycle search on that graph. */
module Analysis {
  import opened Strings
  import opened Tables
  import Database
  import Cycles

  /** `[d for d in s if d in keep]` */
  function Within(s: seq<string>, keep: set<string>): (r: seq<string>)
    ensures |r| <= |s|
  {
    if s == [] then []
    else (if s[0] in keep then [s[0]] else []) + Within(s[1..], keep)
  }

  /** The filter keeps exactly the elements in `keep`. */
  lemma {:induction false} WithinMembers(s: seq<string>, keep: set<string>)
    ensures forall x :: x in Within(s, keep) <==> x in s && x in keep
  {
    if s != [] {
      WithinMembers(s[1..], keep);
      assert forall x :: x in s <==> x == s[0] || x in s[1..];
    }
  }

  /** `[k for k in s if k not in drop]` */
  function Without(s: seq<string>, drop: set<string>): (r: seq<string>)
    ensures |r| <= |s|
  {
    if s == [] then []
    else (if s[0] in drop then [] else [s[0]]) + Without(s[1..], drop)
  }

  /** The filter drops exactly the elements in `drop`. */
  lemma {:induction false} WithoutMembers(s: seq<string>, drop: set<string>)
    ensures forall x :: x in Without(s, drop) <==> x in s && x !in drop
  {
    if s != [] {
      WithoutMembers(s[1..], drop);
      assert forall x :: x in s <==> x == s[0] || x in s[1..];
    }
  }

  /** Filtering reads the list left to right: it keeps the relative order. */
  lemma {:induction false} WithinAppend(a: seq<string>, b: seq<string>, keep: set<string>)
    ensures Within(a + b, keep) == Within(a, keep) + Within(b, keep)
  {
    if a == [] {
      assert a + b == b;
    } else {
      var h := if a[0] in keep then [a[0]] else [];
      assert (a + b)[0] == a[0] && (a + b)[1..] == a[1..] + b;
      assert Within(a + b, keep) == h + Within(a[1..] + b, keep);
      WithinAppend(a[1..], b, keep);
      AppendAssoc(h, Within(a[1..], keep), Within(b, keep));
    }
  }

  lemma {:induction false} WithoutAppend(a: seq<string>, b: seq<string>, drop: set<string>)
    ensures Without(a + b, drop) == Without(a, drop) + Without(b, drop)
  {
    if a == [] {
      assert a + b == b;
    } else {
      var h := if a[0] in drop then [] else [a[0]];
      assert (a + b)[0] == a[0] && (a + b)[1..] == a[1..] + b;
      assert Without(a + b, drop) == h + Without(a[1..] + b, drop);
      WithoutAppend(a[1..], b, drop);
      AppendAssoc(h, Without(a[1..], drop), Without(b, drop));
    }
  }

  /** A filtered list without repeats has no repeats. */
  lemma {:induction false} WithinDistinct(s: seq<string>, keep: set<string>)
    requires Distinct(s)
    ensures Distinct(Within(s, keep))
  {
    if s != [] {
      assert forall x <- s[1..] :: x in s && x != s[0] by {
        forall x | x in s[1..] ensures x in s && x != s[0] {
          var j :| 0 <= j < |s[1..]| && s[1..][j] == x;
          assert s[j + 1] == x;
        }
      }
      WithinDistinct(s[1..], keep);
      WithinMembers(s[1..], keep);
    }
  }

  lemma {:induction false} WithoutDistinct(s: seq<string>, drop: set<string>)
    requires Distinct(s)
    ensures Distinct(Without(s, drop))
  {
    if s != [] {
      assert forall x <- s[1..] :: x in s && x != s[0] by {
        forall x | x in s[1..] ensures x in s && x != s[0] {
          var j :| 0 <= j < |s[1..]| && s[1..][j] == x;
          assert s[j + 1] == x;
        }
      }
      WithoutDistinct(s[1..], drop);
      WithoutMembers(s[1..], drop);
    }
  }

  /** Filtering twice by the same set is filtering once. */
  lemma {:induction false} WithinIdempotent(s: seq<string>, keep: set<string>)
    ensures Within(Within(s, keep), keep) == Within(s, keep)
  {
    if s != [] {
      WithinIdempotent(s[1..], keep);
      WithinAppend(if s[0] in keep then [s[0]] else [], Within(s[1..], keep), keep);
      if s[0] in keep {
        assert Within([s[0]], keep) == [s[0]] + Within([], keep);
      } else {
        assert Within([], keep) == [];
      }
    }
  }

  /** `{k: v for k, v in t.items() if k in keep}` */
  function RestrictKeys(t: Table, keep: set<string>): (r: Table)
    requires t.Valid()
    ensures r.Valid() && r.keys == Within(t.keys, keep)
    ensures forall k :: k in r.m <==> k in t.m && k in keep
    ensures forall k <- r.m :: r.m[k] == t.m[k]
  {
    WithinDistinct(t.keys, keep);
    WithinMembers(t.keys, keep);
    Table(Within(t.keys, keep), map k | k in t.m && k in keep :: t.m[k])
  }

  /** `--phony-only`: only the phony targets stay, each with only its phony
      dependencies; the make calls keep only the phony targets' entries, with
      their lists untouched. */
  method PhonyOnly(targets: Table, calls: Table, phony: set<string>) returns (kept: Table, keptCalls: Table)
    requires targets.Valid() && calls.Valid()
    ensures kept.Valid() && kept.keys == Within(targets.keys, phony)
    ensures forall t :: t in kept.m <==> t in targets.m && t in phony
    ensures forall t <- kept.m :: kept.m[t] == Within(targets.m[t], phony)
    ensures forall t <- kept.m :: forall d <- kept.m[t] :: d in phony
    ensures keptCalls == RestrictKeys(calls, phony)
  {
    kept := RestrictKeys(targets, phony);
    ghost var src := kept;
    ghost var f := (s: seq<string>) => Within(s, phony);
    for k := 0 to |kept.keys|
      invariant ReplacedUpTo(kept, src, f, k)
    {
      ReplaceNext(kept, src, f, k);
      var t := kept.keys[k];
      kept := kept.(m := kept.m[t := Within(kept.m[t], phony)]);
    }
    ReplacedAll(kept, src, f);
    forall t | t in kept.m
      ensures forall d <- kept.m[t] :: d in phony
    {
      WithinMembers(targets.m[t], phony);
    }
    keptCalls := RestrictKeys(calls, phony);
  }

  /** `re.match(r'src.*$', d)`: `d` starts with `src`, and the rest of it
      holds no line feed, except possibly as its very last character (`.`
      stops at a line feed and `$` also matches just before a final one). */
  predicate SrcMatch(d: string) {
    StartsWith(d, "src") && forall k :: 3 <= k < |d| - 1 ==> d[k] != '\n'
  }

  /** On a single-line name the pattern is exactly a `src` prefix. */
  lemma SrcMatchSingleLine(d: string)
    requires '\n' !in d
    ensures SrcMatch(d) <==> StartsWith(d, "src")
  {
  }

  /** The pattern is anchored at the start only, and a final line feed is
      allowed but an inner one is not. */
  lemma SrcMatchExamples()
    ensures SrcMatch("src") && SrcMatch("src/main.c") && SrcMatch("src\n")
    ensures !SrcMatch("lib/src/a.c") && !SrcMatch("sr") && !SrcMatch("src\nx")
  {
    assert "lib/src/a.c"[0] != "src"[0];
    assert "src\nx"[3] == '\n';
  }

  /** `[d for d in s if not re.match(r'src.*$', d)]` */
  function WithoutSrc(s: seq<string>): (r: seq<string>)
    ensures |r| <= |s|
  {
    if s == [] then []
    else (if SrcMatch(s[0]) then [] else [s[0]]) + WithoutSrc(s[1..])
  }

  /** `--no-src` removes exactly the names the pattern matches. */
  lemma {:induction false} WithoutSrcMembers(s: seq<string>)
    ensures forall x :: x in WithoutSrc(s) <==> x in s && !SrcMatch(x)
  {
    if s != [] {
      WithoutSrcMembers(s[1..]);
      assert forall x :: x in s <==> x == s[0] || x in s[1..];
    }
  }

  /** `--no-src`: every target keeps its place, and its list loses exactly the
      dependencies the pattern matches. */
  method NoSrc(targets: Table) returns (r: Table)
    requires targets.Valid()
    ensures r.Valid() && r.keys == targets.keys
    ensures forall t :: t in r.m <==> t in targets.m
    ensures forall t <- r.m :: r.m[t] == WithoutSrc(targets.m[t])
  {
    r := targets;
    ghost var f := (s: seq<string>) => WithoutSrc(s);
    for k := 0 to |r.keys|
      invariant ReplacedUpTo(r, targets, f, k)
    {
      ReplaceNext(r, targets, f, k);
      var t := r.keys[k];
      r := r.(m := r.m[t := WithoutSrc(r.m[t])]);
    }
    ReplacedAll(r, targets, f);
  }

  /** The graph for cycle detection: the targets in their order, then the
      callers that are not targets in theirs; each node's successors are its
      dependencies followed by the targets its recipes hand to `$(MAKE)`. */
  method MergeGraph(targets: Table, calls: Table) returns (graph: Table)
    requires targets.Valid() && calls.Valid()
    ensures graph.Valid()
    ensures graph.keys == targets.keys + Without(calls.keys, targets.m.Keys)
    ensures forall t :: t in graph.m <==> t in targets.m || t in calls.m
    ensures forall t :: Get(graph, t) == Get(targets, t) + Get(calls, t)
  {
    graph := CopyTargets(targets);
    graph := MergeCalls(graph, targets, calls);
    MergedAll(graph, targets, calls);
  }

  /** `for target, called in make_calls.items(): ...`, the second loop,
      started on a copy of the targets. */
  method MergeCalls(graph0: Table, targets: Table, calls: Table) returns (graph: Table)
    requires graph0 == targets && targets.Valid() && calls.Valid()
    ensures MergedWith(graph, targets, calls, calls.keys)
  {
    graph := graph0;
    for k := 0 to |calls.keys|
      invariant MergedWith(graph, targets, calls, calls.keys[..k])
    {
      NextOfPrefix(calls.keys, k);
      graph := MergeEntry(graph, targets, calls, calls.keys[..k], calls.keys[k]);
    }
    assert calls.keys[..|calls.keys|] == calls.keys;
  }

  /** `for target, deps in targets.items(): graph[target] = deps.copy()`,
      starting from an empty graph: the result equals the targets map. */
  method CopyTargets(targets: Table) returns (graph: Table)
    requires targets.Valid()
    ensures graph == targets
  {
    graph := Empty;
    for k := 0 to |targets.keys|
      invariant CopiedUpTo(graph, targets, k)
    {
      CopyNext(graph, targets, k);
      var t := targets.keys[k];
      graph := Put(graph, t, targets.m[t]);
    }
    CopiedAll(graph, targets);
  }

  /** One pass of the second loop, for the caller `t`:
      `if t not in graph: graph[t] = []`, then `graph[t].extend(calls[t])`. */
  method MergeEntry(graph0: Table, targets: Table, calls: Table, ghost done: seq<string>, t: string) returns (graph: Table)
    requires MergedWith(graph0, targets, calls, done) && t in calls.m && t !in done
    ensures MergedWith(graph, targets, calls, done + [t])
  {
    graph := graph0;
    if t !in graph.m {
      graph := Put(graph, t, []);
    }
    MergeNext(graph0, graph, targets, calls, done, t);
    graph := Extend(graph, t, calls.m[t]);
  }

  /** The first loop has copied the first `k` targets, in order. */
  ghost predicate CopiedUpTo(graph: Table, targets: Table, k: nat) {
    targets.Valid() && graph.Valid() && k <= |targets.keys| && graph.keys == targets.keys[..k]
    && forall t <- graph.m :: t in targets.m && graph.m[t] == targets.m[t]
  }

  lemma CopyNext(graph: Table, targets: Table, k: nat)
    requires CopiedUpTo(graph, targets, k) && k < |targets.keys|
    ensures CopiedUpTo(Put(graph, targets.keys[k], targets.m[targets.keys[k]]), targets, k + 1)
  {
    var t := targets.keys[k];
    assert targets.keys[..k + 1] == targets.keys[..k] + [t];
    assert t !in graph.m by {
      forall j | 0 <= j < k ensures targets.keys[..k][j] != t {
        assert targets.keys[..k][j] == targets.keys[j];
      }
    }
  }

  /** The next key of a list without repeats is new, and extends the prefix. */
  lemma NextOfPrefix(s: seq<string>, k: nat)
    requires Distinct(s) && k < |s|
    ensures s[k] !in s[..k] && s[..k + 1] == s[..k] + [s[k]]
  {
    forall j | 0 <= j < k ensures s[..k][j] != s[k] {
      assert s[..k][j] == s[j];
    }
  }

  /** After the first loop the graph is a copy of the targets. */
  lemma CopiedAll(graph: Table, targets: Table)
    requires CopiedUpTo(graph, targets, |targets.keys|)
    ensures graph == targets
  {
    assert targets.keys[..|targets.keys|] == targets.keys;
    assert graph.m.Keys == targets.m.Keys;
  }

  /** The second loop has merged the entries of the make calls for `done`. */
  ghost predicate MergedWith(graph: Table, targets: Table, calls: Table, done: seq<string>) {
    targets.Valid() && calls.Valid() && graph.Valid() && (forall u <- done :: u in calls.m)
    && graph.keys == targets.keys + Without(done, targets.m.Keys)
    && (forall u :: u in graph.m <==> u in targets.m || u in done)
    && (forall u :: Get(graph, u) == Get(targets, u) + (if u in done then calls.m[u] else []))
  }

  /** `if target not in graph: graph[target] = []`, then
      `graph[target].extend(calls)`, moves the second loop one step on. */
  lemma MergeNext(before: Table, graph: Table, targets: Table, calls: Table, done: seq<string>, t: string)
    requires MergedWith(before, targets, calls, done) && t in calls.m && t !in done
    requires graph == if t in before.m then before else Put(before, t, [])
    ensures MergedWith(Extend(graph, t, calls.m[t]), targets, calls, done + [t])
  {
    MergeNextKeys(before, graph, targets, calls, done, t);
    MergeNextValues(before, graph, targets, calls, done, t);
    assert forall u <- done + [t] :: u in done || u == t;
  }

  lemma MergeNextKeys(before: Table, graph: Table, targets: Table, calls: Table, done: seq<string>, t: string)
    requires MergedWith(before, targets, calls, done) && t in calls.m && t !in done
    requires graph == if t in before.m then before else Put(before, t, [])
    ensures var after := Extend(graph, t, calls.m[t]);
      after.Valid()
      && after.keys == targets.keys + Without(done + [t], targets.m.Keys)
      && (forall u :: u in after.m <==> u in targets.m || u in done + [t])
  {
    MergeStep(targets.keys, done, targets.m.Keys, t);
  }

  lemma MergeNextValues(before: Table, graph: Table, targets: Table, calls: Table, done: seq<string>, t: string)
    requires MergedWith(before, targets, calls, done) && t in calls.m && t !in done
    requires graph == if t in before.m then before else Put(before, t, [])
    ensures var after := Extend(graph, t, calls.m[t]);
      forall u :: Get(after, u) == Get(targets, u) + (if u in done + [t] then calls.m[u] else [])
  {
    forall u
      ensures Get(Extend(graph, t, calls.m[t]), u) == Get(targets, u) + (if u in done + [t] then calls.m[u] else [])
    {
      MergeValueAt(before, graph, t, calls.m[t], u, Get(targets, t), Get(targets, u) + (if u in done then calls.m[u] else []));
    }
  }

  /** One successor list after the step: only `t`'s list grows. */
  lemma MergeValueAt(before: Table, graph: Table, t: string, xs: seq<string>, u: string, atT: seq<string>, atU: seq<string>)
    requires before.Valid() && graph == if t in before.m then before else Put(before, t, [])
    requires Get(before, t) == atT && Get(before, u) == atU
    ensures Get(Extend(graph, t, xs), u) == if u == t then atT + xs else atU
  {
  }

  lemma MergeStep(keys: seq<string>, done: seq<string>, drop: set<string>, t: string)
    ensures keys + Without(done + [t], drop) == keys + Without(done, drop) + (if t in drop then [] else [t])
  {
    WithoutAppend(done, [t], drop);
    assert Without([t], drop) == (if t in drop then [] else [t]) + Without([], drop);
    AppendAssoc(keys, Without(done, drop), Without([t], drop));
  }

  lemma MergedAll(graph: Table, targets: Table, calls: Table)
    requires MergedWith(graph, targets, calls, calls.keys)
    ensures graph.keys == targets.keys + Without(calls.keys, targets.m.Keys)
    ensures forall t :: t in graph.m <==> t in targets.m || t in calls.m
    ensures forall t :: Get(graph, t) == Get(targets, t) + Get(calls, t)
  {
  }

  /** The dependency list a target is shown with after the chosen filters. */
  function Shown(deps: seq<string>, phony: set<string>, phonyOnly: bool, noSrc: bool): seq<string> {
    var kept := if phonyOnly then Within(deps, phony) else deps;
    if noSrc then WithoutSrc(kept) else kept
  }

  /** The two optional filters of `main`, in their order. Since every caller
      in the make calls is a target, this stays true after filtering. */
  method ApplyFilters(targets: Table, calls: Table, phony: set<string>, phonyOnly: bool, noSrc: bool)
    returns (shownTargets: Table, shownCalls: Table)
    requires targets.Valid() && calls.Valid() && calls.m.Keys <= targets.m.Keys
    ensures shownTargets.Valid() && shownCalls.Valid() && shownCalls.m.Keys <= shownTargets.m.Keys
    ensures shownTargets.keys == if phonyOnly then Within(targets.keys, phony) else targets.keys
    ensures forall t <- shownTargets.m ::
      t in targets.m && shownTargets.m[t] == Shown(targets.m[t], phony, phonyOnly, noSrc)
      && Get(shownCalls, t) == Get(calls, t)
  {
    shownTargets, shownCalls := targets, calls;
    if phonyOnly {
      shownTargets, shownCalls := PhonyOnly(targets, calls, phony);
    }
    if noSrc {
      shownTargets := NoSrc(shownTargets);
    }
  }

  /** `main` from the parse to the cycle report. Because every caller in the
      make calls is also a target, the graph has exactly the (filtered)
      targets as its nodes, in their order; every report is a cycle of that
      graph, every self-dependency is reported, and there is no report
      exactly when the graph has no cycle. */
  method Analyze(makeOutput: string, phonyOnly: bool, noSrc: bool) returns (graph: Table, cycles: seq<seq<string>>)
    ensures var p := Database.Parse(makeOutput);
      graph.Valid()
      && graph.keys == (if phonyOnly then Within(p.targets.keys, p.phony) else p.targets.keys)
      && forall t <- graph.m :: graph.m[t] == Shown(Get(p.targets, t), p.phony, phonyOnly, noSrc) + Get(p.calls, t)
    ensures forall c <- cycles :: Cycles.IsCycleReport(graph, c)
    ensures forall n <- graph.keys :: n in graph.m[n] ==> [n, n] in cycles
    ensures forall rank :: Cycles.Ranked(graph, rank) ==> cycles == []
    ensures cycles == [] <==> forall c :: !Cycles.IsCycleReport(graph, c)
  {
    var targets, calls, phony := Database.ParseMakeDatabase(makeOutput);
    Database.ParseKeys(makeOutput);
    var shownTargets, shownCalls := ApplyFilters(targets, calls, phony, phonyOnly, noSrc);
    graph := MergeGraph(shownTargets, shownCalls);
    NothingNew(shownCalls.keys, shownTargets.m.Keys);
    assert shownTargets.keys + [] == shownTargets.keys;
    cycles := Cycles.FindCycles(graph);
  }

  lemma NothingNew(s: seq<string>, drop: set<string>)
    requires forall x <- s :: x in drop
    ensures Without(s, drop) == []
  {
    WithoutMembers(s, drop);
  }
}
