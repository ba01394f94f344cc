/** Insertion-ordered Python dicts from a name to a list of names (the shape of
    `targets`, `make_calls` and the cycle-detection `graph`), and
    `list(dict.fromkeys(xs))`, the order-keeping de-duplication. */
module Tables {

  predicate Distinct(s: seq<string>) {
    forall i, j :: 0 <= i < j < |s| ==> s[i] != s[j]
  }

  /** A dict: `keys` is its iteration (insertion) order, `m` its contents. */
  datatype Table = Table(keys: seq<string>, m: map<string, seq<string>>) {
    ghost predicate Valid() {
      (forall k :: k in m <==> k in keys) && Distinct(keys)
    }
  }

  const Empty: Table := Table([], map[])

  /** `t.get(k, [])` */
  function Get(t: Table, k: string): seq<string> {
    if k in t.m then t.m[k] else []
  }

  /** `t.setdefault(k, []).extend(xs)`: a missing key is added at the end of
      the iteration order, and `xs` is appended to the key's list. */
  function Extend(t: Table, k: string, xs: seq<string>): (r: Table)
    requires t.Valid()
    ensures r.Valid()
    ensures r.keys == if k in t.m then t.keys else t.keys + [k]
    ensures k in r.m && r.m[k] == Get(t, k) + xs
    ensures forall j :: j != k ==> (j in r.m <==> j in t.m) && Get(r, j) == Get(t, j)
  {
    Grow(t, k, xs)
  }

  /** What `Extend` computes, for any pair of fields. */
  function Grow(t: Table, k: string, xs: seq<string>): Table {
    Table(if k in t.m then t.keys else t.keys + [k], t.m[k := Get(t, k) + xs])
  }

  /** `Grow` appends to the one list it names. */
  lemma GrowGet(t: Table, k: string, xs: seq<string>, j: string)
    ensures Get(Grow(t, k, xs), j) == Get(t, j) + (if j == k then xs else [])
  {
    if j != k {
      assert Get(t, j) + [] == Get(t, j);
    }
  }

  lemma AppendAssoc<T>(a: seq<T>, b: seq<T>, c: seq<T>)
    ensures a + b + c == a + (b + c)
  {
  }

  /** The key set after `Extend`: the key is added if it was missing. */
  lemma ExtendKeySet(t: Table, k: string, xs: seq<string>)
    requires t.Valid()
    ensures Extend(t, k, xs).m.Keys == t.m.Keys + {k}
  {
  }

  /** Extending a key twice is extending it once with both lists. */
  lemma ExtendTwice(t: Table, k: string, a: seq<string>, b: seq<string>)
    requires t.Valid()
    ensures Extend(Extend(t, k, a), k, b) == Extend(t, k, a + b)
  {
    AppendAssoc(Get(t, k), a, b);
  }

  /** `t[k] = v` */
  function Put(t: Table, k: string, v: seq<string>): (r: Table)
    requires t.Valid()
    ensures r.Valid()
    ensures r.keys == if k in t.m then t.keys else t.keys + [k]
    ensures k in r.m && r.m[k] == v
    ensures forall j :: j != k ==> (j in r.m <==> j in t.m) && Get(r, j) == Get(t, j)
  {
    if k in t.m then Table(t.keys, t.m[k := v]) else Table(t.keys + [k], t.m[k := v])
  }

  /** The state of a loop that replaces each value of `src` by `f` of it, in
      key order: the first `k` values are replaced, the rest untouched. */
  ghost predicate ReplacedUpTo(r: Table, src: Table, f: seq<string> -> seq<string>, k: nat) {
    src.Valid() && r.Valid() && r.keys == src.keys && k <= |src.keys|
    && (forall j :: 0 <= j < k ==> r.m[src.keys[j]] == f(src.m[src.keys[j]]))
    && (forall j :: k <= j < |src.keys| ==> r.m[src.keys[j]] == src.m[src.keys[j]])
  }

  /** `r[key] = f(r[key])` for the next key moves the loop one step on. */
  lemma ReplaceNext(r: Table, src: Table, f: seq<string> -> seq<string>, k: nat)
    requires ReplacedUpTo(r, src, f, k) && k < |src.keys|
    ensures ReplacedUpTo(r.(m := r.m[src.keys[k] := f(r.m[src.keys[k]])]), src, f, k + 1)
  {
    var t := src.keys[k];
    var r1 := r.(m := r.m[t := f(r.m[t])]);
    assert r1.m.Keys == r.m.Keys;
    forall j | 0 <= j < |src.keys| && j != k
      ensures r1.m[src.keys[j]] == r.m[src.keys[j]]
    {
      assert src.keys[j] != t;
    }
  }

  /** Once every key is done, every value is replaced. */
  lemma ReplacedAll(r: Table, src: Table, f: seq<string> -> seq<string>)
    requires ReplacedUpTo(r, src, f, |src.keys|)
    ensures forall t :: t in r.m <==> t in src.m
    ensures forall t <- r.m :: r.m[t] == f(src.m[t])
  {
    forall t | t in r.m
      ensures r.m[t] == f(src.m[t])
    {
      var j :| 0 <= j < |src.keys| && src.keys[j] == t;
    }
  }

  /** The elements of `s` not in `seen`, each once, in order of first appearance. */
  function DedupFrom(s: seq<string>, seen: set<string>): (r: seq<string>)
    ensures Distinct(r)
    ensures forall x :: x in r <==> x in s && x !in seen
  {
    if s == [] then []
    else if s[0] in seen then DedupFrom(s[1..], seen)
    else [s[0]] + DedupFrom(s[1..], seen + {s[0]})
  }

  /** `list(dict.fromkeys(s))` */
  function Dedup(s: seq<string>): seq<string> {
    DedupFrom(s, {})
  }

  /** De-duplication reads `s` left to right: a new element is appended, a
      repeated one is ignored. This pins down the first-seen order. */
  lemma {:induction false} DedupFromSnoc(s: seq<string>, seen: set<string>, x: string)
    ensures DedupFrom(s + [x], seen) == DedupFrom(s, seen) + (if x in s || x in seen then [] else [x])
  {
    if s == [] {
      assert [] + [x] == [x];
    } else {
      var rest := s[1..];
      assert (s + [x])[0] == s[0] && (s + [x])[1..] == rest + [x];
      assert x in s <==> x == s[0] || x in rest;
      if s[0] in seen {
        assert DedupFrom(s + [x], seen) == DedupFrom(rest + [x], seen);
        DedupFromSnoc(rest, seen, x);
      } else {
        var seen1 := seen + {s[0]};
        assert DedupFrom(s + [x], seen) == [s[0]] + DedupFrom(rest + [x], seen1);
        DedupFromSnoc(rest, seen1, x);
        var tail := if x in rest || x in seen1 then [] else [x];
        AppendAssoc([s[0]], DedupFrom(rest, seen1), tail);
      }
    }
  }

  lemma DedupSnoc(s: seq<string>, x: string)
    ensures Dedup(s + [x]) == Dedup(s) + (if x in s then [] else [x])
  {
    DedupFromSnoc(s, {}, x);
  }

  /** A list without repeats is left as it is. */
  lemma {:induction false} DedupFromDistinct(s: seq<string>, seen: set<string>)
    requires Distinct(s)
    requires forall x <- s :: x !in seen
    ensures DedupFrom(s, seen) == s
  {
    if s != [] {
      var t := s[1..];
      assert s[0] in s;
      forall x | x in t
        ensures x !in seen + {s[0]}
      {
        var j :| 0 <= j < |t| && t[j] == x;
        assert s[j + 1] == x && s[j + 1] in s;
      }
      DedupFromDistinct(t, seen + {s[0]});
    }
  }

  /** De-duplicating twice is de-duplicating once. */
  lemma DedupIdempotent(s: seq<string>)
    ensures Dedup(Dedup(s)) == Dedup(s)
  {
    DedupFromDistinct(Dedup(s), {});
  }
}
