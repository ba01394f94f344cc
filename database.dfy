/** `parse_make_database`: the scan of the text printed by `make -pn` into the
    targets map, the recursive-call map and the set of phony names.

    The specification reads the lines one step at a time (`Step`), each step
    yielding at most one `Event`; `Events` lists them for the whole text, and
    folding them into the three structures (`ApplyAll`) followed by the final
    de-duplication (`Finish`) gives `Parse`. The method `ParseMakeDatabase` is
    the loop of the source, proved to compute `Parse`. */
module Database {
  import opened Strings
  import opened Tables
  import opened Patterns

  /** What one step of the scan contributes: the names of a `.PHONY` line, or
      an accepted target line (`line`) with its recipe, which ends before
      `end`. */
  datatype Event =
    | PhonyDecl(names: seq<string>)
    | Rule(line: nat, end: nat, target: string, deps: seq<string>, calls: seq<string>)

  /** A line the look-ahead takes as recipe text: `#`-prefixed or blank. */
  predicate IsRecipeLine(l: string) {
    StartsWith(l, "#") || IsBlank(l)
  }

  /** Where the look-ahead from `j` stops: the first line that is not recipe text. */
  function RecipeEnd(lines: seq<string>, j: nat): (r: nat)
    requires j <= |lines|
    ensures j <= r <= |lines|
    ensures forall k :: j <= k < r ==> IsRecipeLine(lines[k])
    ensures r == |lines| || !IsRecipeLine(lines[r])
    decreases |lines| - j
  {
    if j < |lines| && IsRecipeLine(lines[j]) then RecipeEnd(lines, j + 1) else j
  }

  /** What a `#` recipe line contributes: `next_line[1:].strip()`. */
  function CommentText(line: string): string
    requires line != []
  {
    Strip(line[1..])
  }

  /** `CommentText` of each `#` line of `lines[a..b]`; blank lines add nothing. */
  function RecipeText(lines: seq<string>, a: nat, b: nat): (r: seq<string>)
    requires a <= b <= |lines|
    ensures |r| <= b - a
    decreases b
  {
    if a == b then []
    else RecipeText(lines, a, b - 1)
         + (if StartsWith(lines[b - 1], "#") then [CommentText(lines[b - 1])] else [])
  }

  /** The positions of the `#` lines among `lines[a..b]`; what they are is
      stated by `CommentLinesAre` and `CommentLinesAll`. */
  function CommentLines(lines: seq<string>, a: nat, b: nat): (r: seq<nat>)
    requires a <= b <= |lines|
    ensures |r| <= b - a
    decreases b
  {
    if a == b then []
    else CommentLines(lines, a, b - 1) + (if StartsWith(lines[b - 1], "#") then [b - 1] else [])
  }

  /** Every listed position lies in `[a, b)` and holds a `#` line, and the
      positions increase. */
  lemma {:induction false} CommentLinesAre(lines: seq<string>, a: nat, b: nat)
    requires a <= b <= |lines|
    ensures forall k :: 0 <= k < |CommentLines(lines, a, b)| ==>
      a <= CommentLines(lines, a, b)[k] < b && StartsWith(lines[CommentLines(lines, a, b)[k]], "#")
    ensures forall k, m :: 0 <= k < m < |CommentLines(lines, a, b)| ==>
      CommentLines(lines, a, b)[k] < CommentLines(lines, a, b)[m]
    decreases b
  {
    if a < b {
      CommentLinesAre(lines, a, b - 1);
      var ix0, ix := CommentLines(lines, a, b - 1), CommentLines(lines, a, b);
      if StartsWith(lines[b - 1], "#") {
        assert ix == ix0 + [b - 1];
        forall k | 0 <= k < |ix|
          ensures a <= ix[k] < b && StartsWith(lines[ix[k]], "#")
        {
          if k < |ix0| {
            assert ix[k] == ix0[k];
          }
        }
        forall k, m | 0 <= k < m < |ix|
          ensures ix[k] < ix[m]
        {
          if m < |ix0| {
            assert ix[k] == ix0[k] && ix[m] == ix0[m];
          } else {
            assert ix[k] == ix0[k];
          }
        }
      } else {
        assert ix == ix0;
      }
    }
  }

  /** Every `#` line of `lines[a..b]` is listed. */
  lemma {:induction false} CommentLinesAll(lines: seq<string>, a: nat, b: nat, j: nat)
    requires a <= j < b <= |lines| && StartsWith(lines[j], "#")
    ensures j in CommentLines(lines, a, b)
    decreases b
  {
    if j < b - 1 {
      CommentLinesAll(lines, a, b - 1, j);
    }
  }

  /** The recipe text holds one entry per `#` line, in order: that line's
      comment text. */
  lemma RecipeTextLines(lines: seq<string>, a: nat, b: nat)
    requires a <= b <= |lines|
    ensures var ix := CommentLines(lines, a, b); var r := RecipeText(lines, a, b);
      |r| == |ix| && forall k :: 0 <= k < |ix| ==> ix[k] < |lines| && lines[ix[k]] != [] && r[k] == CommentText(lines[ix[k]])
  {
    RecipeTextLength(lines, a, b);
    forall k | 0 <= k < |CommentLines(lines, a, b)|
      ensures CommentLines(lines, a, b)[k] < |lines| && lines[CommentLines(lines, a, b)[k]] != []
      ensures RecipeText(lines, a, b)[k] == CommentText(lines[CommentLines(lines, a, b)[k]])
    {
      RecipeTextAt(lines, a, b, k);
    }
  }

  lemma {:induction false} RecipeTextLength(lines: seq<string>, a: nat, b: nat)
    requires a <= b <= |lines|
    ensures |RecipeText(lines, a, b)| == |CommentLines(lines, a, b)|
    decreases b
  {
    if a < b {
      RecipeTextLength(lines, a, b - 1);
    }
  }

  lemma {:induction false} RecipeTextAt(lines: seq<string>, a: nat, b: nat, k: nat)
    requires a <= b <= |lines| && k < |CommentLines(lines, a, b)|
    ensures CommentLines(lines, a, b)[k] < |lines| && lines[CommentLines(lines, a, b)[k]] != []
    ensures k < |RecipeText(lines, a, b)|
    ensures RecipeText(lines, a, b)[k] == CommentText(lines[CommentLines(lines, a, b)[k]])
    decreases b
  {
    RecipeTextLength(lines, a, b);
    RecipeTextLength(lines, a, b - 1);
    if k < |CommentLines(lines, a, b - 1)| {
      RecipeTextAt(lines, a, b - 1, k);
    }
  }

  /** The recursive-call destinations found in recipe lines, one per line with a match. */
  function CallsOf(recipe: seq<string>): (r: seq<string>)
    ensures |r| <= |recipe|
    ensures forall e <- r :: e != [] && NoSpace(e)
  {
    if recipe == [] then []
    else
      var last := recipe[|recipe| - 1];
      CallsOf(recipe[..|recipe| - 1]) + match MakeCall(last) case Some(e) => [e] case None => []
  }

  /** The outcome of one step: its events, the next line and the section flag. */
  datatype Scan = Scan(events: seq<Event>, next: nat, inDb: bool)

  /** One iteration of the scan loop at line `i`. */
  function Step(lines: seq<string>, i: nat, inDb: bool): (s: Scan)
    requires i < |lines|
    ensures i < s.next <= |lines| && |s.events| <= 1
  {
    var line := lines[i];
    if StartsWith(line, "# Files") then Scan([], i + 1, true)
    else if !inDb then
      Scan(if IsPhonyLine(line) then [PhonyDecl(PhonyWords(line))] else [], i + 1, false)
    else if IsRecipeLine(line) then Scan([], i + 1, true)
    else if IsPhonyLine(line) then Scan([PhonyDecl(PhonyWords(line))], i + 1, true)
    else RuleStep(lines, i)
  }

  /** A line of the database section that is neither a comment, blank nor a
      `.PHONY` line: a rule when it matches the target pattern and passes the
      filters, in which case the look-ahead consumes its recipe. */
  function RuleStep(lines: seq<string>, i: nat): (s: Scan)
    requires i < |lines|
    ensures i < s.next <= |lines| && |s.events| <= 1 && s.inDb
  {
    var line := lines[i];
    match TargetLine(line)
    case None => Scan([], i + 1, true)
    case Some(tm) =>
      if EqBeforeColon(line) || Rejected(tm.target) then Scan([], i + 1, true)
      else
        var j := RecipeEnd(lines, i + 1);
        Scan([Rule(i, j, tm.target, DepsOf(tm.depsText), CallsOf(RecipeText(lines, i + 1, j)))], j, true)
  }

  /** The events of the scan from line `i` on. */
  function Events(lines: seq<string>, i: nat, inDb: bool): seq<Event>
    requires i <= |lines|
    decreases |lines| - i
  {
    if i == |lines| then []
    else
      var s := Step(lines, i, inDb);
      s.events + Events(lines, s.next, s.inDb)
  }

  /** The three results of the parse. */
  datatype Db = Db(targets: Table, calls: Table, phony: set<string>)

  const Start: Db := Db(Empty, Empty, {})

  ghost predicate Consistent(db: Db) {
    db.targets.Valid() && db.calls.Valid() && db.calls.m.Keys <= db.targets.m.Keys
  }

  /** Appending calls to a `defaultdict(list)`: the key appears with its first call. */
  function AddCalls(t: Table, k: string, xs: seq<string>): (r: Table)
    requires t.Valid()
    ensures r.Valid()
  {
    if xs == [] then t else Extend(t, k, xs)
  }

  /** `phony_targets.update(names)` */
  function AddPhony(phony: set<string>, names: seq<string>): set<string> {
    phony + NameSet(names)
  }

  function NameSet(names: seq<string>): set<string> {
    set n | n in names
  }

  function Apply(db: Db, e: Event): (r: Db)
    requires db.targets.Valid() && db.calls.Valid()
    ensures r.targets.Valid() && r.calls.Valid()
  {
    match e
    case PhonyDecl(names) => db.(phony := AddPhony(db.phony, names))
    case Rule(_, _, t, deps, calls) => Db(Extend(db.targets, t, deps), AddCalls(db.calls, t, calls), db.phony)
  }

  function ApplyAll(db: Db, evs: seq<Event>): (r: Db)
    requires db.targets.Valid() && db.calls.Valid()
    ensures r.targets.Valid() && r.calls.Valid()
    decreases |evs|
  {
    if evs == [] then db else ApplyAll(Apply(db, evs[0]), evs[1..])
  }

  /** The final loop: every dependency list is de-duplicated in place. */
  function DedupValues(t: Table): Table {
    Table(t.keys, map k | k in t.m :: Dedup(t.m[k]))
  }

  function Finish(db: Db): Db {
    db.(targets := DedupValues(db.targets))
  }

  /** The result of `parse_make_database(make_output, _)`. */
  function Parse(makeOutput: string): Db {
    Finish(ApplyAll(Start, Events(SplitLines(makeOutput), 0, false)))
  }

  // ---------------------------------------------------------------------
  // The imperative scan

  method ParseMakeDatabase(makeOutput: string) returns (targets: Table, calls: Table, phony: set<string>)
    ensures Db(targets, calls, phony) == Parse(makeOutput)
  {
    var lines := SplitLines(makeOutput);
    targets, calls, phony := Empty, Empty, {};
    var i := 0;
    var inDb := false;
    while i < |lines|
      invariant i <= |lines|
      invariant targets.Valid() && calls.Valid()
      invariant ApplyAll(Db(targets, calls, phony), Events(lines, i, inDb))
             == ApplyAll(Start, Events(lines, 0, false))
      decreases |lines| - i
    {
      ghost var before := Db(targets, calls, phony);
      ghost var step := Step(lines, i, inDb);
      targets, calls, phony, i, inDb := ScanLine(lines, i, inDb, targets, calls, phony);
      ApplyAllAppend(before, step.events, Events(lines, i, inDb));
    }
    RawKeys(lines);
    targets := DedupEach(targets);
  }

  /** One iteration of the scan loop, at line `i0`: it updates the three
      results as the step's event says and returns where the scan goes on. */
  method ScanLine(lines: seq<string>, i0: nat, inDb0: bool, targets0: Table, calls0: Table, phony0: set<string>)
    returns (targets: Table, calls: Table, phony: set<string>, i: nat, inDb: bool)
    requires i0 < |lines| && targets0.Valid() && calls0.Valid()
    ensures Db(targets, calls, phony) == ApplyAll(Db(targets0, calls0, phony0), Step(lines, i0, inDb0).events)
    ensures i == Step(lines, i0, inDb0).next && inDb == Step(lines, i0, inDb0).inDb
  {
    targets, calls, phony, i, inDb := targets0, calls0, phony0, i0, inDb0;
    var line := lines[i];
    ghost var before := Db(targets, calls, phony);
    ghost var evs: seq<Event> := [];
    if StartsWith(line, "# Files") {
      inDb := true;
      i := i + 1;
    } else if !inDb {
      if IsPhonyLine(line) {
        PhonyUpdate(phony, line);
        var group := PhonyGroup(line);
        if group.Some? {
          phony := AddPhony(phony, Words(Strip(group.value)));
        }
        evs := [PhonyDecl(PhonyWords(line))];
      }
      i := i + 1;
    } else if StartsWith(line, "#") || IsBlank(line) {
      i := i + 1;
    } else if IsPhonyLine(line) {
      PhonyUpdate(phony, line);
      var group := PhonyGroup(line);
      if group.Some? {
        phony := AddPhony(phony, Words(Strip(group.value)));
      }
      evs := [PhonyDecl(PhonyWords(line))];
      i := i + 1;
    } else {
      var tm := TargetLine(line);
      if tm.None? {
        assert RuleStep(lines, i) == Scan([], i + 1, true);
        i := i + 1;
      } else if EqBeforeColon(line) || Rejected(tm.value.target) {
        assert RuleStep(lines, i) == Scan([], i + 1, true);
        i := i + 1;
      } else {
        var target := tm.value.target;
        targets := Extend(targets, target, DepsOf(tm.value.depsText));
        var recipe, j := ReadRecipe(lines, i + 1);
        calls := RecordCalls(calls, target, recipe);
        evs := [Rule(i, j, target, DepsOf(tm.value.depsText), CallsOf(recipe))];
        assert RuleStep(lines, i) == Scan(evs, j, true);
        i := j;
      }
    }
    assert Step(lines, i0, inDb0) == Scan(evs, i, inDb);
    StepApplied(before, evs, Db(targets, calls, phony));
  }

  /** The look-ahead of the source: the `#`-prefixed and blank lines from
      `start` on, with the text of the `#` lines collected. */
  method ReadRecipe(lines: seq<string>, start: nat) returns (recipe: seq<string>, j: nat)
    requires start <= |lines|
    ensures j == RecipeEnd(lines, start)
    ensures recipe == RecipeText(lines, start, j)
  {
    recipe := [];
    j := start;
    while j < |lines| && IsRecipeLine(lines[j])
      invariant start <= j <= |lines|
      invariant RecipeEnd(lines, j) == RecipeEnd(lines, start)
      invariant recipe == RecipeText(lines, start, j)
      decreases |lines| - j
    {
      RecipeNext(lines, start, j);
      recipe := TakeRecipeLine(recipe, lines[j]);
      j := j + 1;
    }
    RecipeStop(lines, j);
  }

  /** The body of the look-ahead for one recipe line: a `#` line adds its
      text after the `#`, stripped; a blank line adds nothing. */
  method TakeRecipeLine(recipe: seq<string>, line: string) returns (r: seq<string>)
    ensures r == recipe + (if StartsWith(line, "#") then [CommentText(line)] else [])
  {
    r := recipe;
    if StartsWith(line, "#") {
      r := r + [Strip(line[1..])];
    }
  }

  lemma RecipeStop(lines: seq<string>, j: nat)
    requires j <= |lines| && (j == |lines| || !IsRecipeLine(lines[j]))
    ensures RecipeEnd(lines, j) == j
  {
  }

  /** One more recipe line: the look-ahead's end is unchanged and the text
      grows by that line's contribution. */
  lemma RecipeNext(lines: seq<string>, start: nat, j: nat)
    requires start <= j < |lines| && IsRecipeLine(lines[j])
    ensures RecipeEnd(lines, j) == RecipeEnd(lines, j + 1)
    ensures RecipeText(lines, start, j + 1)
         == RecipeText(lines, start, j) + (if StartsWith(lines[j], "#") then [CommentText(lines[j])] else [])
  {
  }

  /** Appends to `target`'s call list the first `$(MAKE)` match of each recipe line. */
  method RecordCalls(calls: Table, target: string, recipe: seq<string>) returns (r: Table)
    requires calls.Valid()
    ensures r == AddCalls(calls, target, CallsOf(recipe))
  {
    r := calls;
    for k := 0 to |recipe|
      invariant r == AddCalls(calls, target, CallsOf(recipe[..k]))
    {
      assert recipe[..k + 1][..k] == recipe[..k];
      match MakeCall(recipe[k]) {
        case Some(call) =>
          assert CallsOf(recipe[..k + 1]) == CallsOf(recipe[..k]) + [call];
          AddCallsSnoc(calls, target, CallsOf(recipe[..k]), call);
          r := Extend(r, target, [call]);
        case None =>
          assert CallsOf(recipe[..k + 1]) == CallsOf(recipe[..k]);
      }
    }
    assert recipe[..|recipe|] == recipe;
  }

  /** The final loop of the source: each dependency list is replaced by its
      de-duplicated copy, key by key. */
  method DedupEach(raw: Table) returns (targets: Table)
    requires raw.Valid()
    ensures targets == DedupValues(raw)
  {
    targets := raw;
    for k := 0 to |raw.keys|
      invariant ReplacedUpTo(targets, raw, Dedup, k)
    {
      ReplaceNext(targets, raw, Dedup, k);
      var t := targets.keys[k];
      targets := targets.(m := targets.m[t := Dedup(targets.m[t])]);
    }
    ReplacedAll(targets, raw, Dedup);
    assert targets.m == DedupValues(raw).m;
  }

  /** The loop's guarded update for a `.PHONY` line is `AddPhony` with its words. */
  lemma PhonyUpdate(phony: set<string>, line: string)
    ensures AddPhony(phony, PhonyWords(line))
         == match PhonyGroup(line) case Some(g) => AddPhony(phony, Words(Strip(g))) case None => phony
  {
    if PhonyGroup(line).None? {
      assert AddPhony(phony, []) == phony;
    }
  }

  lemma RawKeys(lines: seq<string>)
    ensures ApplyAll(Start, Events(lines, 0, false)).targets.Valid()
  {
  }

  /** What the branch of the loop body did, stated for the step's event list. */
  lemma StepApplied(before: Db, evs: seq<Event>, after: Db)
    requires before.targets.Valid() && before.calls.Valid()
    requires |evs| <= 1
    requires evs == [] ==> after == before
    requires evs != [] ==> after == Apply(before, evs[0])
    ensures ApplyAll(before, evs) == after
  {
    if evs != [] {
      assert evs[1..] == [];
    }
  }

  lemma AddCallsSnoc(t: Table, k: string, xs: seq<string>, x: string)
    requires t.Valid()
    ensures AddCalls(t, k, xs + [x]) == Extend(AddCalls(t, k, xs), k, [x])
  {
    if xs == [] {
      assert xs + [x] == [x];
    } else {
      ExtendTwice(t, k, xs, [x]);
    }
  }

  /** Folding a concatenation is folding one list after the other. */
  lemma {:induction false} ApplyAllAppend(db: Db, a: seq<Event>, b: seq<Event>)
    decreases |a|
    requires db.targets.Valid() && db.calls.Valid()
    ensures ApplyAll(db, a + b) == ApplyAll(ApplyAll(db, a), b)
  {
    if a == [] {
      assert a + b == b;
    } else {
      assert (a + b)[0] == a[0];
      assert (a + b)[1..] == a[1..] + b;
      ApplyAllAppend(Apply(db, a[0]), a[1..], b);
    }
  }

  // ---------------------------------------------------------------------
  // What the scan guarantees

  /** The names a line declares phony: the words after its first `.PHONY:`. */
  function DeclaredPhony(line: string): set<string> {
    match Find(line, PhonyMarker)
    case None => {}
    case Some(p) => NameSet(Words(line[p + |PhonyMarker|..]))
  }

  /** The names declared phony by `lines[i..k]`. */
  function PhonyNamesIn(lines: seq<string>, i: nat, k: nat): set<string>
    requires i <= k <= |lines|
  {
    LinesUnion(DeclaredPhony, lines, i, k)
  }

  /** The union of `f(lines[j])` for `i <= j < k`. */
  function LinesUnion(f: string -> set<string>, lines: seq<string>, i: nat, k: nat): set<string>
    requires i <= k <= |lines|
    decreases k - i
  {
    if i == k then {} else f(lines[i]) + LinesUnion(f, lines, i + 1, k)
  }

  /** The concatenation of `f(lines[j])` for `i <= j < k`. */
  function LinesConcat(f: string -> seq<Event>, lines: seq<string>, i: nat, k: nat): seq<Event>
    requires i <= k <= |lines|
    decreases k - i
  {
    if i == k then [] else f(lines[i]) + LinesConcat(f, lines, i + 1, k)
  }

  /** Before the first `# Files` line the scan only collects phony names: the
      targets and calls are left as they are. */
  lemma PreambleOnlyPhony(lines: seq<string>, i: nat, k: nat, db: Db)
    requires i <= k <= |lines|
    requires forall j :: i <= j < k ==> !StartsWith(lines[j], "# Files")
    requires db.targets.Valid() && db.calls.Valid()
    ensures ApplyAll(db, Events(lines, i, false))
         == ApplyAll(db.(phony := db.phony + PhonyNamesIn(lines, i, k)), Events(lines, k, false))
  {
    PreambleScan(lines, i, k);
    ApplyAllAppend(db, PreambleEvents(lines, i, k), Events(lines, k, false));
    ApplyPreamble(lines, i, k, db);
  }

  /** The event of a line outside the database section. */
  function PreambleEvent(line: string): seq<Event> {
    if IsPhonyLine(line) then [PhonyDecl(PhonyWords(line))] else []
  }

  /** The events of the preamble lines `lines[i..k]`. */
  function PreambleEvents(lines: seq<string>, i: nat, k: nat): seq<Event>
    requires i <= k <= |lines|
  {
    LinesConcat(PreambleEvent, lines, i, k)
  }

  /** Outside the database section every line gives at most a `.PHONY`
      declaration, and the scan stays outside. */
  lemma {:induction false} PreambleScan(lines: seq<string>, i: nat, k: nat)
    requires i <= k <= |lines|
    requires forall j :: i <= j < k ==> !StartsWith(lines[j], "# Files")
    ensures Events(lines, i, false) == PreambleEvents(lines, i, k) + Events(lines, k, false)
    decreases k - i
  {
    if i == k {
      assert [] + Events(lines, k, false) == Events(lines, k, false);
    } else {
      PreambleScan(lines, i + 1, k);
      PreambleScanStep(lines, i);
      assert PreambleEvents(lines, i, k) == PreambleEvent(lines[i]) + PreambleEvents(lines, i + 1, k);
      AppendAssoc(PreambleEvent(lines[i]), PreambleEvents(lines, i + 1, k), Events(lines, k, false));
    }
  }

  lemma PreambleScanStep(lines: seq<string>, i: nat)
    requires i < |lines| && !StartsWith(lines[i], "# Files")
    ensures Events(lines, i, false) == PreambleEvent(lines[i]) + Events(lines, i + 1, false)
  {
    assert Step(lines, i, false) == Scan(PreambleEvent(lines[i]), i + 1, false);
  }

  /** Folding the preamble's declarations adds the names they declare. */
  lemma ApplyPreamble(lines: seq<string>, i: nat, k: nat, db: Db)
    requires i <= k <= |lines|
    requires db.targets.Valid() && db.calls.Valid()
    ensures ApplyAll(db, PreambleEvents(lines, i, k)) == db.(phony := db.phony + PhonyNamesIn(lines, i, k))
  {
    forall line: string
      ensures |PreambleEvent(line)| <= 1 && AllDecls(PreambleEvent(line))
      ensures DeclNames(PreambleEvent(line)) == DeclaredPhony(line)
    {
      PreambleEventDecl(line);
    }
    FoldDecls(PreambleEvent, DeclaredPhony, lines, i, k);
    ApplyDecls(db, PreambleEvents(lines, i, k));
  }

  /** Every event is a `.PHONY` declaration. */
  predicate AllDecls(evs: seq<Event>) {
    evs == [] || (evs[0].PhonyDecl? && AllDecls(evs[1..]))
  }

  /** The names the `.PHONY` declarations among `evs` declare. */
  function DeclNames(evs: seq<Event>): set<string> {
    if evs == [] then {}
    else (if evs[0].PhonyDecl? then NameSet(evs[0].names) else {}) + DeclNames(evs[1..])
  }

  /** Applying `.PHONY` declarations only adds their names to the phony set. */
  lemma {:induction false} ApplyDecls(db: Db, evs: seq<Event>)
    requires db.targets.Valid() && db.calls.Valid()
    requires AllDecls(evs)
    ensures ApplyAll(db, evs) == db.(phony := db.phony + DeclNames(evs))
    decreases |evs|
  {
    if evs == [] {
      assert db.phony + {} == db.phony;
    } else {
      var db1 := db.(phony := db.phony + NameSet(evs[0].names));
      assert Apply(db, evs[0]) == db1;
      ApplyDecls(db1, evs[1..]);
      assert db.phony + NameSet(evs[0].names) + DeclNames(evs[1..]) == db.phony + DeclNames(evs);
    }
  }

  /** Lines that each give at most one declaration, of the names `g` gives
      them, together declare the union of those names. */
  lemma {:induction false} FoldDecls(f: string -> seq<Event>, g: string -> set<string>, lines: seq<string>, i: nat, k: nat)
    requires i <= k <= |lines|
    requires forall line :: |f(line)| <= 1 && AllDecls(f(line)) && DeclNames(f(line)) == g(line)
    ensures AllDecls(LinesConcat(f, lines, i, k))
    ensures DeclNames(LinesConcat(f, lines, i, k)) == LinesUnion(g, lines, i, k)
    decreases k - i
  {
    if i < k {
      FoldDecls(f, g, lines, i + 1, k);
      DeclsCons(f(lines[i]), LinesConcat(f, lines, i + 1, k));
    }
  }

  /** Prepending at most one declaration. */
  lemma DeclsCons(first: seq<Event>, later: seq<Event>)
    requires |first| <= 1 && AllDecls(first) && AllDecls(later)
    ensures AllDecls(first + later)
    ensures DeclNames(first + later) == DeclNames(first) + DeclNames(later)
  {
    var evs := first + later;
    if first == [] {
      assert evs == later;
    } else {
      assert evs[0] == first[0] && evs[1..] == later;
    }
  }

  /** One preamble line declares `DeclaredPhony(line)` and nothing else. */
  lemma PreambleEventDecl(line: string)
    ensures |PreambleEvent(line)| <= 1
    ensures AllDecls(PreambleEvent(line))
    ensures DeclNames(PreambleEvent(line)) == DeclaredPhony(line)
  {
    PhonyWordsAfterMarker(line);
    if IsPhonyLine(line) {
      assert NameSet(PhonyWords(line)) == DeclaredPhony(line);
    } else {
      assert Find(line, PhonyMarker).None?;
    }
  }

  /** Output without a `# Files` line gives no targets and no calls, only the
      names its `.PHONY:` lines declare. */
  lemma NoDatabaseSection(makeOutput: string)
    requires forall l <- SplitLines(makeOutput) :: !StartsWith(l, "# Files")
    ensures var lines := SplitLines(makeOutput);
      Parse(makeOutput) == Db(Empty, Empty, PhonyNamesIn(lines, 0, |lines|))
  {
    var lines := SplitLines(makeOutput);
    assert forall j :: 0 <= j < |lines| ==> lines[j] in lines;
    PreambleOnlyPhony(lines, 0, |lines|, Start);
    assert Events(lines, |lines|, false) == [];
    assert DedupValues(Empty) == Empty;
  }

  /** The index of the first `# Files` line at or after `i`, or `|lines|`. */
  function FirstFilesLine(lines: seq<string>, i: nat): (r: nat)
    requires i <= |lines|
    ensures i <= r <= |lines|
    ensures forall j :: i <= j < r ==> !StartsWith(lines[j], "# Files")
    ensures r < |lines| ==> StartsWith(lines[r], "# Files")
    decreases |lines| - i
  {
    if i == |lines| || StartsWith(lines[i], "# Files") then i else FirstFilesLine(lines, i + 1)
  }

  /** The names a line of the database section declares phony: a `#` line
      is skipped there, so it declares none. */
  function DbDeclaredPhony(line: string): set<string> {
    if StartsWith(line, "#") then {} else DeclaredPhony(line)
  }

  /** The names the database section declares phony when it opens at line
      `f`; none when there is no `# Files` line (`f` is then `|lines|`). */
  function DbPhonyNames(lines: seq<string>, f: nat): set<string>
    requires f <= |lines|
  {
    if f < |lines| then LinesUnion(DbDeclaredPhony, lines, f + 1, |lines|) else {}
  }

  /** The phony set of the parse: the names declared before the first
      `# Files` line, and those declared by the lines after it that do not
      start with `#`. */
  lemma ParsePhony(makeOutput: string)
    ensures var lines := SplitLines(makeOutput); var f := FirstFilesLine(lines, 0);
      Parse(makeOutput).phony
        == PhonyNamesIn(lines, 0, f) + DbPhonyNames(lines, f)
  {
    ScanPhony(SplitLines(makeOutput));
  }

  lemma ScanPhony(lines: seq<string>)
    ensures var f := FirstFilesLine(lines, 0);
      ApplyAll(Start, Events(lines, 0, false)).phony
        == PhonyNamesIn(lines, 0, f) + DbPhonyNames(lines, f)
  {
    var f := FirstFilesLine(lines, 0);
    PreambleThenDb(lines, f);
    DbSectionPhony(lines, f);
  }

  /** The preamble's names, then those the scan declares from `f` on. */
  lemma PreambleThenDb(lines: seq<string>, f: nat)
    requires f <= |lines| && forall j :: 0 <= j < f ==> !StartsWith(lines[j], "# Files")
    ensures ApplyAll(Start, Events(lines, 0, false)).phony
         == PhonyNamesIn(lines, 0, f) + DeclNames(Events(lines, f, false))
  {
    PreambleOnlyPhony(lines, 0, f, Start);
    var db := Start.(phony := Start.phony + PhonyNamesIn(lines, 0, f));
    PhonyOfApplyAll(db, Events(lines, f, false));
  }

  /** From the first `# Files` line on, the scan declares the names of the
      later lines that do not start with `#`. */
  lemma DbSectionPhony(lines: seq<string>, f: nat)
    requires f <= |lines| && (f < |lines| ==> StartsWith(lines[f], "# Files"))
    ensures DeclNames(Events(lines, f, false))
         == DbPhonyNames(lines, f)
  {
    if f < |lines| {
      FilesSectionPhony(lines, f);
    } else {
      assert Events(lines, f, false) == [];
    }
  }

  lemma FilesSectionPhony(lines: seq<string>, f: nat)
    requires f < |lines| && StartsWith(lines[f], "# Files")
    ensures DeclNames(Events(lines, f, false)) == LinesUnion(DbDeclaredPhony, lines, f + 1, |lines|)
  {
    FilesLineStep(lines, f);
    DbEventsPhony(lines, f + 1);
  }

  /** The `# Files` line opens the database section and yields nothing. */
  lemma FilesLineStep(lines: seq<string>, f: nat)
    requires f < |lines| && StartsWith(lines[f], "# Files")
    ensures Events(lines, f, false) == Events(lines, f + 1, true)
  {
    assert Step(lines, f, false) == Scan([], f + 1, true);
  }

  /** Folding events adds the names of their `.PHONY` declarations; rules
      leave the phony set alone. */
  lemma {:induction false} PhonyOfApplyAll(db: Db, evs: seq<Event>)
    requires db.targets.Valid() && db.calls.Valid()
    ensures ApplyAll(db, evs).phony == db.phony + DeclNames(evs)
    decreases |evs|
  {
    if evs != [] {
      PhonyOfApplyAll(Apply(db, evs[0]), evs[1..]);
    }
  }

  lemma {:induction false} DeclNamesAppend(a: seq<Event>, b: seq<Event>)
    ensures DeclNames(a + b) == DeclNames(a) + DeclNames(b)
    decreases |a|
  {
    if a == [] {
      assert a + b == b;
    } else {
      assert (a + b)[0] == a[0] && (a + b)[1..] == a[1..] + b;
      DeclNamesAppend(a[1..], b);
      var h := if a[0].PhonyDecl? then NameSet(a[0].names) else {};
      assert DeclNames(a + b) == h + DeclNames(a[1..] + b);
      assert DeclNames(a) == h + DeclNames(a[1..]);
    }
  }

  lemma {:induction false} LinesUnionSplit(f: string -> set<string>, lines: seq<string>, i: nat, j: nat, k: nat)
    requires i <= j <= k <= |lines|
    ensures LinesUnion(f, lines, i, k) == LinesUnion(f, lines, i, j) + LinesUnion(f, lines, j, k)
    decreases j - i
  {
    if i < j {
      LinesUnionSplit(f, lines, i + 1, j, k);
    }
  }

  /** A blank line holds no `.PHONY:`. */
  lemma BlankDeclaresNothing(line: string)
    requires IsBlank(line)
    ensures DeclaredPhony(line) == {}
  {
  }

  /** Recipe text declares nothing in the database section. */
  lemma {:induction false} RecipeLinesDeclareNothing(lines: seq<string>, a: nat, b: nat)
    requires a <= b <= |lines| && forall k :: a <= k < b ==> IsRecipeLine(lines[k])
    ensures LinesUnion(DbDeclaredPhony, lines, a, b) == {}
    decreases b - a
  {
    if a < b {
      if !StartsWith(lines[a], "#") {
        BlankDeclaresNothing(lines[a]);
      }
      RecipeLinesDeclareNothing(lines, a + 1, b);
    }
  }

  /** One step inside the database section declares the names of the lines
      it reads, and stays inside. */
  lemma DbStepPhony(lines: seq<string>, i: nat)
    requires i < |lines|
    ensures Step(lines, i, true).inDb
    ensures DeclNames(Step(lines, i, true).events) == LinesUnion(DbDeclaredPhony, lines, i, Step(lines, i, true).next)
  {
    var line := lines[i];
    if StartsWith(line, "# Files") {
      assert Step(lines, i, true) == Scan([], i + 1, true);
      assert line[..1] == line[..7][..1] == "#";
    } else if IsRecipeLine(line) {
      assert Step(lines, i, true) == Scan([], i + 1, true);
      if !StartsWith(line, "#") {
        BlankDeclaresNothing(line);
      }
    } else if IsPhonyLine(line) {
      assert Step(lines, i, true) == Scan(PreambleEvent(line), i + 1, true);
      PreambleEventDecl(line);
    } else {
      assert Step(lines, i, true) == RuleStep(lines, i);
      PreambleEventDecl(line);
      RuleStepPhony(lines, i);
    }
  }

  /** A target line and the recipe it consumes declare nothing. */
  lemma RuleStepPhony(lines: seq<string>, i: nat)
    requires i < |lines| && DeclaredPhony(lines[i]) == {}
    ensures DeclNames(RuleStep(lines, i).events) == {}
    ensures LinesUnion(DbDeclaredPhony, lines, i, RuleStep(lines, i).next) == {}
  {
    RuleStepShape(lines, i);
    var st := RuleStep(lines, i);
    NoRulePhony(lines, i, st.events, st.next);
  }

  /** Nothing, or one rule with its recipe, declares no phony name. */
  lemma NoRulePhony(lines: seq<string>, i: nat, evs: seq<Event>, next: nat)
    requires i < |lines| && DeclaredPhony(lines[i]) == {}
    requires evs == [] ==> next == i + 1
    requires evs != [] ==> |evs| == 1 && evs[0].Rule? && next == RecipeEnd(lines, i + 1)
    ensures DeclNames(evs) == {}
    ensures LinesUnion(DbDeclaredPhony, lines, i, next) == {}
  {
    var j := RecipeEnd(lines, i + 1);
    RecipeLinesDeclareNothing(lines, i + 1, j);
    assert DbDeclaredPhony(lines[i]) == {};
    assert LinesUnion(DbDeclaredPhony, lines, i + 1, i + 1) == {};
    if evs != [] {
      assert evs[1..] == [];
    }
  }

  /** A step at a line that is not recipe text: nothing, or one rule whose
      recipe runs to `RecipeEnd`. */
  lemma RuleStepShape(lines: seq<string>, i: nat)
    requires i < |lines|
    ensures RuleStep(lines, i).events == [] ==> RuleStep(lines, i).next == i + 1
    ensures RuleStep(lines, i).events != [] ==>
      |RuleStep(lines, i).events| == 1 && RuleStep(lines, i).events[0].Rule?
      && RuleStep(lines, i).next == RecipeEnd(lines, i + 1)
  {
    var line := lines[i];
    match TargetLine(line)
    case None =>
      assert RuleStep(lines, i) == Scan([], i + 1, true);
    case Some(tm) =>
      if !EqBeforeColon(line) && !Rejected(tm.target) {
        var j := RecipeEnd(lines, i + 1);
        var e := Rule(i, j, tm.target, DepsOf(tm.depsText), CallsOf(RecipeText(lines, i + 1, j)));
        assert RuleStep(lines, i) == Scan([e], j, true);
      } else {
        assert RuleStep(lines, i) == Scan([], i + 1, true);
      }
  }

  /** The scan of the database section from line `i` on declares the names
      of its lines that do not start with `#`. */
  lemma {:induction false} DbEventsPhony(lines: seq<string>, i: nat)
    requires i <= |lines|
    ensures DeclNames(Events(lines, i, true)) == LinesUnion(DbDeclaredPhony, lines, i, |lines|)
    decreases |lines| - i
  {
    if i < |lines| {
      var s := Step(lines, i, true);
      DbStepPhony(lines, i);
      DbEventsPhony(lines, s.next);
      DeclNamesAppend(s.events, Events(lines, s.next, true));
      LinesUnionSplit(DbDeclaredPhony, lines, i, s.next, |lines|);
    }
  }

  /** What a rule event says about the text: its line is not an assignment,
      names an accepted target and is followed by the recipe lines the
      look-ahead consumed, up to the first line that is not recipe text
      (`RuleLines`); its target and dependencies are those the target
      pattern reads from its line (`RuleTarget`), and its calls those of the
      recipe text of the consumed lines (`RuleCalls`). */
  ghost predicate RuleFacts(lines: seq<string>, e: Event)
    requires e.Rule?
  {
    RuleLines(lines, e) && RuleTarget(lines, e) && RuleCalls(lines, e)
  }

  ghost predicate RuleLines(lines: seq<string>, e: Event)
    requires e.Rule?
  {
    e.line < e.end <= |lines|
    && !IsRecipeLine(lines[e.line]) && !EqBeforeColon(lines[e.line])
    && StartsWith(lines[e.line], e.target) && AcceptedName(e.target)
    && (forall k :: e.line < k < e.end ==> IsRecipeLine(lines[k]))
    && (e.end == |lines| || !IsRecipeLine(lines[e.end]))
  }

  ghost predicate RuleTarget(lines: seq<string>, e: Event)
    requires e.Rule?
  {
    e.line < |lines|
    && TargetLine(lines[e.line]).Some? && TargetLine(lines[e.line]).value.target == e.target
    && e.deps == DepsOf(TargetLine(lines[e.line]).value.depsText)
  }

  ghost predicate RuleCalls(lines: seq<string>, e: Event)
    requires e.Rule?
  {
    e.line < e.end <= |lines| && e.calls == CallsOf(RecipeText(lines, e.line + 1, e.end))
  }

  /** The rule built from line `i` and the look-ahead's end `j` records the
      calls of the recipe text between them. */
  lemma RuleCallsOf(lines: seq<string>, i: nat, j: nat, target: string, deps: seq<string>)
    requires i < j <= |lines|
    ensures RuleCalls(lines, Rule(i, j, target, deps, CallsOf(RecipeText(lines, i + 1, j))))
  {
  }

  /** Each rule's recipe ends before the next rule's line. */
  ghost predicate RulesInOrder(evs: seq<Event>) {
    forall a, b :: 0 <= a < b < |evs| && evs[a].Rule? && evs[b].Rule? ==> evs[a].end <= evs[b].line
  }

  /** A target that passes the filters is an accepted name. The `.PHONY`
      exception to the dot filter cannot arise, because such a line is read
      as a phony declaration before the target pattern is tried. */
  lemma AcceptedTarget(line: string, t: string)
    requires t != [] && ':' !in t && StartsWith(line, t)
    requires !Rejected(t) && !IsPhonyLine(line)
    ensures AcceptedName(t)
  {
    assert t == ".PHONY" ==> StartsWith(line, ".PHONY");
  }

  lemma StepRule(lines: seq<string>, i: nat, inDb: bool)
    requires i < |lines|
    ensures StepFacts(lines, i, Step(lines, i, inDb))
  {
    var line := lines[i];
    if inDb && !StartsWith(line, "# Files") && !IsRecipeLine(line) && !IsPhonyLine(line) {
      assert Step(lines, i, inDb) == RuleStep(lines, i);
      RuleStepRule(lines, i);
    } else {
      assert forall e <- Step(lines, i, inDb).events :: e.PhonyDecl?;
    }
  }

  /** Every rule a step at line `i` produces is that line, ends where the
      scan resumes, and meets `RuleFacts`. */
  ghost predicate StepFacts(lines: seq<string>, i: nat, s: Scan) {
    forall e <- s.events :: e.Rule? ==> e.line == i && e.end == s.next && RuleFacts(lines, e)
  }

  lemma OneRuleFacts(lines: seq<string>, i: nat, e: Event, j: nat)
    requires e.Rule? && e.line == i && e.end == j && RuleFacts(lines, e)
    ensures StepFacts(lines, i, Scan([e], j, true))
  {
  }

  /** One step yields at most one rule, so its events are in order. */
  lemma StepInOrder(lines: seq<string>, i: nat, inDb: bool)
    requires i < |lines|
    ensures RulesInOrder(Step(lines, i, inDb).events)
  {
    var line := lines[i];
    if inDb && !StartsWith(line, "# Files") && !IsRecipeLine(line) && !IsPhonyLine(line) {
      assert Step(lines, i, inDb) == RuleStep(lines, i);
      var evs := RuleStep(lines, i).events;
      assert evs == [] || evs == [evs[0]];
    } else {
      assert forall e <- Step(lines, i, inDb).events :: e.PhonyDecl?;
    }
  }

  lemma RuleStepRule(lines: seq<string>, i: nat)
    requires i < |lines|
    requires !IsRecipeLine(lines[i]) && !IsPhonyLine(lines[i])
    ensures StepFacts(lines, i, RuleStep(lines, i))
  {
    var line := lines[i];
    match TargetLine(line)
    case None =>
      assert RuleStep(lines, i).events == [];
    case Some(tm) =>
      if !EqBeforeColon(line) && !Rejected(tm.target) {
        AcceptedTarget(line, tm.target);
        var j := RecipeEnd(lines, i + 1);
        var e := Rule(i, j, tm.target, DepsOf(tm.depsText), CallsOf(RecipeText(lines, i + 1, j)));
        assert RuleStep(lines, i) == Scan([e], j, true);
        assert RuleLines(lines, e);
        assert RuleTarget(lines, e);
        RuleCallsOf(lines, i, j, tm.target, DepsOf(tm.depsText));
        OneRuleFacts(lines, i, e, j);
      } else {
        assert RuleStep(lines, i).events == [];
      }
  }

  /** Every rule the scan produces from line `i` on satisfies `RuleFacts`,
      and the rules come in text order with disjoint recipes. */
  lemma {:induction false} EventsRules(lines: seq<string>, i: nat, inDb: bool)
    requires i <= |lines|
    ensures forall e <- Events(lines, i, inDb) :: e.Rule? ==> i <= e.line && RuleFacts(lines, e)
    ensures RulesInOrder(Events(lines, i, inDb))
    decreases |lines| - i
  {
    if i < |lines| {
      var s := Step(lines, i, inDb);
      var rest := Events(lines, s.next, s.inDb);
      var evs := Events(lines, i, inDb);
      assert evs == s.events + rest;
      StepRule(lines, i, inDb);
      StepInOrder(lines, i, inDb);
      EventsRules(lines, s.next, s.inDb);
      InOrderAppend(s.events, rest, s.next);
    }
  }

  /** Rules that end by `next`, followed by rules that start at or after it,
      stay in order. */
  lemma InOrderAppend(xs: seq<Event>, ys: seq<Event>, next: nat)
    requires RulesInOrder(xs) && RulesInOrder(ys)
    requires forall e <- xs :: e.Rule? ==> e.end <= next
    requires forall e <- ys :: e.Rule? ==> next <= e.line
    ensures RulesInOrder(xs + ys)
  {
    var evs := xs + ys;
    forall a, b | 0 <= a < b < |evs| && evs[a].Rule? && evs[b].Rule?
      ensures evs[a].end <= evs[b].line
    {
      if b < |xs| {
        assert evs[a] == xs[a] && evs[b] == xs[b];
      } else if a < |xs| {
        assert evs[a] == xs[a] && evs[a] in xs;
        assert evs[b] == ys[b - |xs|] && evs[b] in ys;
      } else {
        assert evs[a] == ys[a - |xs|] && evs[b] == ys[b - |xs|];
      }
    }
  }

  /** A line the look-ahead consumed as recipe text is never the line of a rule. */
  lemma RecipeLinesNotRules(makeOutput: string)
    ensures var evs := Events(SplitLines(makeOutput), 0, false);
      forall a, b :: 0 <= a < |evs| && 0 <= b < |evs| && evs[a].Rule? && evs[b].Rule? ==>
        !(evs[a].line < evs[b].line < evs[a].end)
  {
    var lines := SplitLines(makeOutput);
    var evs := Events(lines, 0, false);
    EventsRules(lines, 0, false);
    forall a, b | 0 <= a < |evs| && 0 <= b < |evs| && evs[a].Rule? && evs[b].Rule?
      ensures !(evs[a].line < evs[b].line < evs[a].end)
    {
      RuleLinesBefore(lines, evs, b);
    }
  }

  lemma RuleLinesBefore(lines: seq<string>, evs: seq<Event>, b: nat)
    requires forall e <- evs :: e.Rule? ==> 0 <= e.line && RuleFacts(lines, e)
    requires b < |evs| && evs[b].Rule?
    ensures evs[b].line < evs[b].end
  {
    assert evs[b] in evs;
  }

  /** Recorded calls depend on each recipe line alone: one call for each line
      with a match, in line order. */
  lemma {:induction false} CallsOfAppend(a: seq<string>, b: seq<string>)
    ensures CallsOf(a + b) == CallsOf(a) + CallsOf(b)
    decreases |b|
  {
    if b == [] {
      assert a + b == a;
    } else {
      var b0 := b[..|b| - 1];
      assert (a + b)[..|a + b| - 1] == a + b0;
      assert (a + b)[|a + b| - 1] == b[|b| - 1];
      CallsOfAppend(a, b0);
    }
  }

  lemma CallsOfLine(line: string)
    ensures CallsOf([line]) == match MakeCall(line) case Some(e) => [e] case None => []
  {
    assert [line][..0] == [];
  }

  /** The targets in the order the rules name them. */
  function RuleTargets(evs: seq<Event>): seq<string> {
    if evs == [] then []
    else (if evs[0].Rule? then [evs[0].target] else []) + RuleTargets(evs[1..])
  }

  /** The dependencies the rules for `t` list, in order. */
  function DepsFor(evs: seq<Event>, t: string): seq<string> {
    if evs == [] then []
    else (if evs[0].Rule? && evs[0].target == t then evs[0].deps else []) + DepsFor(evs[1..], t)
  }

  /** The calls the recipes of the rules for `t` make, in order. */
  function CallsFor(evs: seq<Event>, t: string): seq<string> {
    if evs == [] then []
    else (if evs[0].Rule? && evs[0].target == t then evs[0].calls else []) + CallsFor(evs[1..], t)
  }

  /** Folding the events adds each rule's target once, at its first rule. */
  lemma {:induction false} ApplyAllKeys(db: Db, evs: seq<Event>)
    requires db.targets.Valid() && db.calls.Valid()
    ensures ApplyAll(db, evs).targets.keys == db.targets.keys + DedupFrom(RuleTargets(evs), db.targets.m.Keys)
    decreases |evs|
  {
    if evs != [] {
      var db1 := Apply(db, evs[0]);
      ApplyAllKeys(db1, evs[1..]);
      if evs[0].Rule? {
        assert RuleTargets(evs) == [evs[0].target] + RuleTargets(evs[1..]);
        ExtendKeys(db.targets, evs[0].target, evs[0].deps, RuleTargets(evs[1..]));
      } else {
        assert RuleTargets(evs) == RuleTargets(evs[1..]);
      }
    }
  }

  /** Storing a target keeps the keys in order of first appearance. */
  lemma ExtendKeys(t: Table, k: string, deps: seq<string>, rest: seq<string>)
    requires t.Valid()
    ensures var t1 := Extend(t, k, deps);
      t1.keys + DedupFrom(rest, t1.m.Keys) == t.keys + DedupFrom([k] + rest, t.m.Keys)
  {
    if k in t.m {
      ExtendKeysPresent(t, k, deps, rest);
    } else {
      ExtendKeysMissing(t, k, deps, rest);
    }
  }

  lemma ExtendKeysPresent(t: Table, k: string, deps: seq<string>, rest: seq<string>)
    requires t.Valid() && k in t.m
    ensures var t1 := Extend(t, k, deps);
      t1.keys + DedupFrom(rest, t1.m.Keys) == t.keys + DedupFrom([k] + rest, t.m.Keys)
  {
    DedupFromCons(k, rest, t.m.Keys);
    ExtendKeySet(t, k, deps);
    assert t.m.Keys + {k} == t.m.Keys;
  }

  lemma ExtendKeysMissing(t: Table, k: string, deps: seq<string>, rest: seq<string>)
    requires t.Valid() && k !in t.m
    ensures var t1 := Extend(t, k, deps);
      t1.keys + DedupFrom(rest, t1.m.Keys) == t.keys + DedupFrom([k] + rest, t.m.Keys)
  {
    DedupFromCons(k, rest, t.m.Keys);
    ExtendKeySet(t, k, deps);
    AppendAssoc(t.keys, [k], DedupFrom(rest, t.m.Keys + {k}));
  }

  lemma DedupFromCons(t: string, rest: seq<string>, seen: set<string>)
    ensures DedupFrom([t] + rest, seen)
         == if t in seen then DedupFrom(rest, seen) else [t] + DedupFrom(rest, seen + {t})
  {
    assert ([t] + rest)[0] == t && ([t] + rest)[1..] == rest;
  }

  /** Folding the events appends each rule's dependencies to its target's list. */
  lemma ApplyAllDeps(db: Db, evs: seq<Event>, t: string)
    requires db.targets.Valid() && db.calls.Valid()
    ensures Get(ApplyAll(db, evs).targets, t) == Get(db.targets, t) + DepsFor(evs, t)
  {
    ApplyAllTargets(db, evs);
    TargetsAfterDeps(db.targets, evs, t);
  }

  /** Folding the events appends each recipe's calls to its target's list. */
  lemma ApplyAllCalls(db: Db, evs: seq<Event>, t: string)
    requires db.targets.Valid() && db.calls.Valid()
    ensures Get(ApplyAll(db, evs).calls, t) == Get(db.calls, t) + CallsFor(evs, t)
  {
    ApplyAllCallsTable(db, evs);
    CallsAfterCalls(db.calls, evs, t);
  }

  /** The targets map after the events, folded on its own. */
  function TargetsAfter(t: Table, evs: seq<Event>): Table
    decreases |evs|
  {
    if evs == [] then t
    else TargetsAfter(if evs[0].Rule? then Grow(t, evs[0].target, evs[0].deps) else t, evs[1..])
  }

  /** The make calls map after the events, folded on its own. */
  function CallsAfter(t: Table, evs: seq<Event>): Table
    decreases |evs|
  {
    if evs == [] then t
    else CallsAfter(if evs[0].Rule? && evs[0].calls != [] then Grow(t, evs[0].target, evs[0].calls) else t, evs[1..])
  }

  lemma {:induction false} ApplyAllTargets(db: Db, evs: seq<Event>)
    requires db.targets.Valid() && db.calls.Valid()
    ensures ApplyAll(db, evs).targets == TargetsAfter(db.targets, evs)
    decreases |evs|
  {
    if evs != [] {
      ApplyAllTargets(Apply(db, evs[0]), evs[1..]);
    }
  }

  lemma {:induction false} ApplyAllCallsTable(db: Db, evs: seq<Event>)
    requires db.targets.Valid() && db.calls.Valid()
    ensures ApplyAll(db, evs).calls == CallsAfter(db.calls, evs)
    decreases |evs|
  {
    if evs != [] {
      ApplyAllCallsTable(Apply(db, evs[0]), evs[1..]);
    }
  }

  lemma {:induction false} TargetsAfterDeps(t: Table, evs: seq<Event>, k: string)
    ensures Get(TargetsAfter(t, evs), k) == Get(t, k) + DepsFor(evs, k)
    decreases |evs|
  {
    if evs == [] {
      assert Get(t, k) + [] == Get(t, k);
    } else {
      var e := evs[0];
      var t1 := if e.Rule? then Grow(t, e.target, e.deps) else t;
      var here := if e.Rule? && e.target == k then e.deps else [];
      assert TargetsAfter(t, evs) == TargetsAfter(t1, evs[1..]);
      assert DepsFor(evs, k) == here + DepsFor(evs[1..], k);
      if e.Rule? {
        GrowGet(t, e.target, e.deps, k);
      } else {
        assert Get(t, k) + here == Get(t, k);
      }
      TargetsAfterDeps(t1, evs[1..], k);
      AppendAssoc(Get(t, k), here, DepsFor(evs[1..], k));
    }
  }

  lemma {:induction false} CallsAfterCalls(t: Table, evs: seq<Event>, k: string)
    ensures Get(CallsAfter(t, evs), k) == Get(t, k) + CallsFor(evs, k)
    decreases |evs|
  {
    if evs == [] {
      assert Get(t, k) + [] == Get(t, k);
    } else {
      var e := evs[0];
      var t1 := if e.Rule? && e.calls != [] then Grow(t, e.target, e.calls) else t;
      var here := if e.Rule? && e.target == k then e.calls else [];
      assert CallsAfter(t, evs) == CallsAfter(t1, evs[1..]);
      assert CallsFor(evs, k) == here + CallsFor(evs[1..], k);
      if e.Rule? && e.calls != [] {
        GrowGet(t, e.target, e.calls, k);
      } else {
        assert here == [];
        assert Get(t, k) + here == Get(t, k);
      }
      CallsAfterCalls(t1, evs[1..], k);
      AppendAssoc(Get(t, k), here, CallsFor(evs[1..], k));
    }
  }

  /** Calls are only recorded for a target that was just stored. */
  lemma {:induction false} ApplyAllConsistent(db: Db, evs: seq<Event>)
    requires Consistent(db)
    ensures Consistent(ApplyAll(db, evs))
    decreases |evs|
  {
    if evs != [] {
      ApplyAllConsistent(Apply(db, evs[0]), evs[1..]);
    }
  }

  lemma {:induction false} RuleTargetsAccepted(lines: seq<string>, evs: seq<Event>)
    requires forall e <- evs :: e.Rule? ==> RuleFacts(lines, e)
    ensures forall t <- RuleTargets(evs) :: AcceptedName(t)
  {
    if evs != [] {
      assert evs[0] in evs;
      assert forall e <- evs[1..] :: e in evs;
      RuleTargetsAccepted(lines, evs[1..]);
    }
  }

  /** The targets map: its keys are the accepted targets in order of first
      appearance, and each list is the de-duplicated concatenation of the
      dependencies of that target's rules. */
  lemma ParseTargets(makeOutput: string)
    ensures var evs := Events(SplitLines(makeOutput), 0, false);
      var r := Parse(makeOutput).targets;
      r.keys == Dedup(RuleTargets(evs))
      && (forall t :: t in r.m <==> t in RuleTargets(evs))
      && (forall t :: t in r.m ==> r.m[t] == Dedup(DepsFor(evs, t)) && Distinct(r.m[t]))
  {
    var evs := Events(SplitLines(makeOutput), 0, false);
    var raw := ApplyAll(Start, evs).targets;
    ApplyAllKeys(Start, evs);
    assert Start.targets.m.Keys == {} && [] + DedupFrom(RuleTargets(evs), {}) == Dedup(RuleTargets(evs));
    forall t | t in raw.m
      ensures raw.m[t] == DepsFor(evs, t)
    {
      ApplyAllDeps(Start, evs, t);
    }
  }

  /** Every key of the targets map is an accepted name, and every key of the
      calls map is a key of the targets map. */
  lemma ParseKeys(makeOutput: string)
    ensures var r := Parse(makeOutput);
      (forall t <- r.targets.keys :: AcceptedName(t)) && r.calls.m.Keys <= r.targets.m.Keys
  {
    var lines := SplitLines(makeOutput);
    var evs := Events(lines, 0, false);
    EventsRules(lines, 0, false);
    RuleTargetsAccepted(lines, evs);
    ParseTargets(makeOutput);
    ApplyAllConsistent(Start, evs);
  }

  /** A target of the parse comes from a rule line that is neither recipe
      text nor an assignment: no `=` stands before that line's first `:`. */
  lemma ParseNoAssignmentTargets(makeOutput: string)
    ensures var lines := SplitLines(makeOutput);
      forall t <- Parse(makeOutput).targets.m ::
        exists k :: 0 <= k < |lines| && TargetLine(lines[k]).Some? && TargetLine(lines[k]).value.target == t
          && !EqBeforeColon(lines[k]) && !IsRecipeLine(lines[k])
  {
    var lines := SplitLines(makeOutput);
    var evs := Events(lines, 0, false);
    EventsRules(lines, 0, false);
    ParseTargets(makeOutput);
    forall t <- Parse(makeOutput).targets.m
      ensures exists k :: 0 <= k < |lines| && TargetLine(lines[k]).Some? && TargetLine(lines[k]).value.target == t
                            && !EqBeforeColon(lines[k]) && !IsRecipeLine(lines[k])
    {
      var e := RuleOf(evs, t);
      assert RuleFacts(lines, e);
    }
  }

  /** The rule a name in `RuleTargets` comes from. */
  lemma {:induction false} RuleOf(evs: seq<Event>, t: string) returns (e: Event)
    requires t in RuleTargets(evs)
    ensures e in evs && e.Rule? && e.target == t
  {
    if evs[0].Rule? && evs[0].target == t {
      e := evs[0];
    } else {
      e := RuleOf(evs[1..], t);
    }
  }

  /** The calls map: each target's list is the concatenation of the calls its
      rules' recipes make. */
  lemma ParseCalls(makeOutput: string, t: string)
    ensures Get(Parse(makeOutput).calls, t) == CallsFor(Events(SplitLines(makeOutput), 0, false), t)
  {
    ApplyAllCalls(Start, Events(SplitLines(makeOutput), 0, false), t);
  }

  // ---------------------------------------------------------------------
  // The rules, read from the text alone

  /** A line the database section takes as a rule: neither recipe text nor a
      `.PHONY` line, matching the target pattern, with no `=` before its
      first `:` and a target that passes the filters. */
  predicate IsRuleLine(line: string) {
    !IsRecipeLine(line) && !IsPhonyLine(line) && TargetLine(line).Some?
    && !EqBeforeColon(line) && !Rejected(TargetLine(line).value.target)
  }

  /** The positions from `i` on whose line satisfies `p`, in increasing order. */
  function Where(p: string -> bool, lines: seq<string>, i: nat): (r: seq<nat>)
    requires i <= |lines|
    ensures forall j :: 0 <= j < |r| ==> i <= r[j] < |lines| && p(lines[r[j]])
    ensures forall j, m :: 0 <= j < m < |r| ==> r[j] < r[m]
    decreases |lines| - i
  {
    if i == |lines| then []
    else (if p(lines[i]) then [i] else []) + Where(p, lines, i + 1)
  }

  /** Every position from `i` on whose line satisfies `p` is listed. */
  lemma {:induction false} WhereAll(p: string -> bool, lines: seq<string>, i: nat, k: nat)
    requires i <= k < |lines| && p(lines[k])
    ensures k in Where(p, lines, i)
    decreases k - i
  {
    if k > i {
      WhereAll(p, lines, i + 1, k);
    }
  }

  /** The positions listed are exactly those from `i` on whose line
      satisfies `p`. */
  lemma WhereAre(p: string -> bool, lines: seq<string>, i: nat)
    requires i <= |lines|
    ensures forall k :: k in Where(p, lines, i) <==> i <= k < |lines| && p(lines[k])
  {
    forall k | i <= k < |lines| && p(lines[k])
      ensures k in Where(p, lines, i)
    {
      WhereAll(p, lines, i, k);
    }
  }

  /** Lines none of which satisfies `p` add no position. */
  lemma {:induction false} WhereSkip(p: string -> bool, lines: seq<string>, a: nat, b: nat)
    requires a <= b <= |lines| && forall k :: a <= k < b ==> !p(lines[k])
    ensures Where(p, lines, a) == Where(p, lines, b)
    decreases b - a
  {
    if a < b {
      assert Where(p, lines, a) == [] + Where(p, lines, a + 1);
      WhereSkip(p, lines, a + 1, b);
    }
  }

  /** The positions of the rule lines after a `# Files` line at `f`, and
      none when `f` is past the text. */
  function DbRuleLines(lines: seq<string>, f: nat): seq<nat>
    requires f <= |lines|
  {
    if f < |lines| then Where(IsRuleLine, lines, f + 1) else []
  }

  /** The positions of the rule lines of the whole text: those after its
      first `# Files` line, and none when there is no such line. */
  function RuleLinePositions(lines: seq<string>): seq<nat> {
    DbRuleLines(lines, FirstFilesLine(lines, 0))
  }

  /** The positions listed are exactly those of the rule lines after the
      first `# Files` line, in increasing order. */
  lemma RuleLinePositionsAre(lines: seq<string>)
    ensures var f := FirstFilesLine(lines, 0); var ks := RuleLinePositions(lines);
      (forall k :: k in ks <==> f < k < |lines| && IsRuleLine(lines[k]))
      && (forall j, m :: 0 <= j < m < |ks| ==> ks[j] < ks[m])
  {
    var f := FirstFilesLine(lines, 0);
    if f < |lines| {
      WhereAre(IsRuleLine, lines, f + 1);
    }
  }

  /** The lines of the rule events among `evs`, in order. */
  function RuleLinesOf(evs: seq<Event>): seq<nat> {
    if evs == [] then []
    else (if evs[0].Rule? then [evs[0].line] else []) + RuleLinesOf(evs[1..])
  }

  lemma {:induction false} RuleLinesOfAppend(a: seq<Event>, b: seq<Event>)
    ensures RuleLinesOf(a + b) == RuleLinesOf(a) + RuleLinesOf(b)
    decreases |a|
  {
    if a == [] {
      assert a + b == b;
    } else {
      assert (a + b)[0] == a[0] && (a + b)[1..] == a[1..] + b;
      RuleLinesOfAppend(a[1..], b);
    }
  }

  /** The scan yields a rule for exactly the rule lines after the first
      `# Files` line, in text order. */
  lemma ParseRuleLines(makeOutput: string)
    ensures var lines := SplitLines(makeOutput);
      RuleLinesOf(Events(lines, 0, false)) == RuleLinePositions(lines)
  {
    var lines := SplitLines(makeOutput);
    var f := FirstFilesLine(lines, 0);
    PreambleThenDbLines(lines, f);
    DbSectionLines(lines, f);
    assert RuleLinePositions(lines) == DbRuleLines(lines, f);
  }

  lemma PreambleThenDbLines(lines: seq<string>, f: nat)
    requires f <= |lines| && forall j :: 0 <= j < f ==> !StartsWith(lines[j], "# Files")
    ensures RuleLinesOf(Events(lines, 0, false)) == RuleLinesOf(Events(lines, f, false))
  {
    PreambleScan(lines, 0, f);
    RuleLinesOfAppend(PreambleEvents(lines, 0, f), Events(lines, f, false));
    PreambleNoRules(lines, 0, f);
  }

  /** The preamble gives no rule. */
  lemma PreambleNoRules(lines: seq<string>, i: nat, k: nat)
    requires i <= k <= |lines|
    ensures RuleLinesOf(PreambleEvents(lines, i, k)) == []
  {
    forall line: string
      ensures |PreambleEvent(line)| <= 1 && AllDecls(PreambleEvent(line))
      ensures DeclNames(PreambleEvent(line)) == DeclaredPhony(line)
    {
      PreambleEventDecl(line);
    }
    FoldDecls(PreambleEvent, DeclaredPhony, lines, i, k);
    DeclsNoRules(PreambleEvents(lines, i, k));
  }

  lemma {:induction false} DeclsNoRules(evs: seq<Event>)
    requires AllDecls(evs)
    ensures RuleLinesOf(evs) == []
    decreases |evs|
  {
    if evs != [] {
      DeclsNoRules(evs[1..]);
    }
  }

  lemma DbSectionLines(lines: seq<string>, f: nat)
    requires f <= |lines| && (f < |lines| ==> StartsWith(lines[f], "# Files"))
    ensures RuleLinesOf(Events(lines, f, false)) == DbRuleLines(lines, f)
  {
    if f < |lines| {
      FilesSectionLines(lines, f);
    } else {
      assert Events(lines, f, false) == [];
    }
  }

  lemma FilesSectionLines(lines: seq<string>, f: nat)
    requires f < |lines| && StartsWith(lines[f], "# Files")
    ensures RuleLinesOf(Events(lines, f, false)) == Where(IsRuleLine, lines, f + 1)
  {
    FilesLineStep(lines, f);
    DbEventsLines(lines, f + 1);
  }

  /** Inside the database section the scan yields a rule for exactly the
      rule lines: the look-ahead only consumes recipe lines, so every other
      line gets a step of its own. */
  lemma {:induction false} DbEventsLines(lines: seq<string>, i: nat)
    requires i <= |lines|
    ensures RuleLinesOf(Events(lines, i, true)) == Where(IsRuleLine, lines, i)
    decreases |lines| - i
  {
    if i < |lines| {
      var s := Step(lines, i, true);
      DbStepLines(lines, i);
      assert Events(lines, i, true) == s.events + Events(lines, s.next, true);
      DbEventsLines(lines, s.next);
      RuleLinesOfAppend(s.events, Events(lines, s.next, true));
    }
  }

  /** One step inside the database section yields the rule lines among the
      lines it reads, and stays inside. */
  lemma DbStepLines(lines: seq<string>, i: nat)
    requires i < |lines|
    ensures Step(lines, i, true).inDb
    ensures RuleLinesOf(Step(lines, i, true).events) + Where(IsRuleLine, lines, Step(lines, i, true).next)
         == Where(IsRuleLine, lines, i)
  {
    var line := lines[i];
    if StartsWith(line, "# Files") || IsRecipeLine(line) || IsPhonyLine(line) {
      SkipStepLines(lines, i);
    } else {
      assert Step(lines, i, true) == RuleStep(lines, i);
      RuleStepAt(lines, i);
    }
  }

  /** A `# Files` line, a recipe line or a `.PHONY` line is no rule line,
      and its step yields no rule. */
  lemma SkipStepLines(lines: seq<string>, i: nat)
    requires i < |lines|
    requires StartsWith(lines[i], "# Files") || IsRecipeLine(lines[i]) || IsPhonyLine(lines[i])
    ensures Step(lines, i, true).inDb
    ensures RuleLinesOf(Step(lines, i, true).events) + Where(IsRuleLine, lines, Step(lines, i, true).next)
         == Where(IsRuleLine, lines, i)
  {
    var line := lines[i];
    assert Where(IsRuleLine, lines, i) == [] + Where(IsRuleLine, lines, i + 1) by {
      if StartsWith(line, "# Files") {
        assert line[..1] == line[..7][..1] == "#";
      }
    }
    if StartsWith(line, "# Files") || IsRecipeLine(line) {
      assert Step(lines, i, true) == Scan([], i + 1, true);
    } else {
      var e := PhonyDecl(PhonyWords(line));
      assert Step(lines, i, true) == Scan([e], i + 1, true);
      assert RuleLinesOf([e]) == [];
    }
  }

  lemma RuleStepAt(lines: seq<string>, i: nat)
    requires i < |lines| && !IsRecipeLine(lines[i]) && !IsPhonyLine(lines[i])
    ensures RuleStep(lines, i).inDb
    ensures RuleLinesOf(RuleStep(lines, i).events) + Where(IsRuleLine, lines, RuleStep(lines, i).next)
         == Where(IsRuleLine, lines, i)
  {
    RuleStepLines(lines, i);
    var st := RuleStep(lines, i);
    if IsRuleLine(lines[i]) {
      RecipeLinesNoRules(lines, i + 1, st.next);
    }
    StepPositions(IsRuleLine, lines, i, st.events, st.next);
  }

  /** At a line that is neither recipe text nor a `.PHONY` line, the step
      yields a rule at that line, up to where its look-ahead stops, exactly
      when the line is a rule line, and nothing otherwise. */
  lemma RuleStepLines(lines: seq<string>, i: nat)
    requires i < |lines| && !IsRecipeLine(lines[i]) && !IsPhonyLine(lines[i])
    ensures var st := RuleStep(lines, i);
      (IsRuleLine(lines[i]) ==> |st.events| == 1 && st.events[0].Rule? && st.events[0].line == i
                                && st.next == RecipeEnd(lines, i + 1))
      && (!IsRuleLine(lines[i]) ==> st.events == [] && st.next == i + 1)
  {
    var line := lines[i];
    match TargetLine(line)
    case None =>
      assert RuleStep(lines, i) == Scan([], i + 1, true);
    case Some(tm) =>
      if !EqBeforeColon(line) && !Rejected(tm.target) {
        var j := RecipeEnd(lines, i + 1);
        var e := Rule(i, j, tm.target, DepsOf(tm.depsText), CallsOf(RecipeText(lines, i + 1, j)));
        assert RuleStep(lines, i) == Scan([e], j, true);
      } else {
        assert RuleStep(lines, i) == Scan([], i + 1, true);
      }
  }

  /** A step that yields one rule at a line satisfying `p` and skips lines
      that do not, or yields nothing at a line that does not satisfy `p`,
      accounts for the positions from that line on. */
  lemma StepPositions(p: string -> bool, lines: seq<string>, i: nat, evs: seq<Event>, next: nat)
    requires i < next <= |lines|
    requires p(lines[i]) ==> |evs| == 1 && evs[0].Rule? && evs[0].line == i
                             && forall k :: i < k < next ==> !p(lines[k])
    requires !p(lines[i]) ==> evs == [] && next == i + 1
    ensures RuleLinesOf(evs) + Where(p, lines, next) == Where(p, lines, i)
  {
    if p(lines[i]) {
      assert evs == [evs[0]] && RuleLinesOf(evs) == [i];
      assert Where(p, lines, i) == [i] + Where(p, lines, i + 1);
      WhereSkip(p, lines, i + 1, next);
    } else {
      assert Where(p, lines, i) == [] + Where(p, lines, i + 1);
    }
  }

  /** Recipe lines are not rule lines. */
  lemma RecipeLinesNoRules(lines: seq<string>, a: nat, b: nat)
    requires a <= b <= |lines| && forall k :: a <= k < b ==> IsRecipeLine(lines[k])
    ensures forall k :: a <= k < b ==> !IsRuleLine(lines[k])
  {
  }

  // What each rule line gives, read from the line and its recipe.

  /** The target a target line names. */
  function LineTarget(line: string): string {
    match TargetLine(line)
    case Some(tm) => tm.target
    case None => []
  }

  /** The dependencies a target line lists. */
  function LineDeps(line: string): seq<string> {
    match TargetLine(line)
    case Some(tm) => DepsOf(tm.depsText)
    case None => []
  }

  /** The calls the recipe read after line `k` makes. */
  function LineCalls(lines: seq<string>, k: nat): seq<string>
    requires k < |lines|
  {
    CallsOf(RecipeText(lines, k + 1, RecipeEnd(lines, k + 1)))
  }

  /** Each line's target, position by position. */
  function TargetColumn(lines: seq<string>): seq<string> {
    seq(|lines|, k requires 0 <= k < |lines| => LineTarget(lines[k]))
  }

  /** Each line's dependencies, position by position. */
  function DepsColumn(lines: seq<string>): seq<seq<string>> {
    seq(|lines|, k requires 0 <= k < |lines| => LineDeps(lines[k]))
  }

  /** The calls of the recipe after each line, position by position. */
  function CallsColumn(lines: seq<string>): seq<seq<string>> {
    seq(|lines|, k requires 0 <= k < |lines| => LineCalls(lines, k))
  }

  /** The entries of `vs` at positions `ks`, in order. */
  function Pick(vs: seq<string>, ks: seq<nat>): seq<string>
    requires forall j :: 0 <= j < |ks| ==> ks[j] < |vs|
  {
    if ks == [] then [] else [vs[ks[0]]] + Pick(vs, ks[1..])
  }

  /** The concatenated entries of `vals` at those positions `ks` whose entry
      in `tgs` is `t`, in order. */
  function Gather(tgs: seq<string>, vals: seq<seq<string>>, ks: seq<nat>, t: string): seq<string>
    requires |vals| == |tgs| && forall j :: 0 <= j < |ks| ==> ks[j] < |tgs|
  {
    if ks == [] then []
    else (if tgs[ks[0]] == t then vals[ks[0]] else []) + Gather(tgs, vals, ks[1..], t)
  }

  /** Where a recipe ends is fixed by the recipe lines before it and the
      line that stops it. */
  lemma {:induction false} RecipeEndIs(lines: seq<string>, a: nat, b: nat)
    requires a <= b <= |lines| && forall k :: a <= k < b ==> IsRecipeLine(lines[k])
    requires b == |lines| || !IsRecipeLine(lines[b])
    ensures RecipeEnd(lines, a) == b
    decreases b - a
  {
    if a < b {
      RecipeEndIs(lines, a + 1, b);
    }
  }

  /** A rule event tied to its line by `RuleFacts` carries that line's
      target, dependencies and calls. */
  lemma RuleOfLine(lines: seq<string>, e: Event)
    requires e.Rule? && RuleFacts(lines, e)
    ensures e.line < |lines|
    ensures e.target == LineTarget(lines[e.line])
    ensures e.deps == LineDeps(lines[e.line])
    ensures e.calls == LineCalls(lines, e.line)
  {
    RecipeEndIs(lines, e.line + 1, e.end);
  }

  /** Every rule event tied to its line carries what the columns hold at
      that line. */
  lemma RulesOnColumns(lines: seq<string>, evs: seq<Event>)
    requires forall e <- evs :: e.Rule? ==> RuleFacts(lines, e)
    ensures forall e <- evs :: e.Rule? ==>
      e.line < |lines| && e.target == TargetColumn(lines)[e.line]
      && e.deps == DepsColumn(lines)[e.line] && e.calls == CallsColumn(lines)[e.line]
  {
    forall e <- evs | e.Rule?
      ensures e.line < |lines| && e.target == TargetColumn(lines)[e.line]
      ensures e.deps == DepsColumn(lines)[e.line] && e.calls == CallsColumn(lines)[e.line]
    {
      RuleOfLine(lines, e);
    }
  }

  /** Rules that carry the target a column holds at their line name, in
      order, the targets the column holds at those lines. */
  lemma {:induction false} RuleTargetsPick(tgs: seq<string>, evs: seq<Event>)
    requires forall e <- evs :: e.Rule? ==> e.line < |tgs| && e.target == tgs[e.line]
    ensures forall j :: 0 <= j < |RuleLinesOf(evs)| ==> RuleLinesOf(evs)[j] < |tgs|
    ensures RuleTargets(evs) == Pick(tgs, RuleLinesOf(evs))
    decreases |evs|
  {
    if evs != [] {
      assert forall e <- evs[1..] :: e in evs;
      RuleTargetsPick(tgs, evs[1..]);
      var ks := RuleLinesOf(evs[1..]);
      if evs[0].Rule? {
        assert evs[0] in evs;
        var c := [evs[0].line] + ks;
        assert RuleLinesOf(evs) == c && c[0] == evs[0].line && c[1..] == ks;
      } else {
        assert RuleLinesOf(evs) == ks;
      }
    }
  }

  /** Rules that carry what two columns hold at their line list, for `t`
      and in order, the entries of the second column at the lines whose
      entry in the first is `t`. */
  lemma {:induction false} RuleListsGather(tgs: seq<string>, vals: seq<seq<string>>, evs: seq<Event>, t: string)
    requires |vals| == |tgs|
    requires forall e <- evs :: e.Rule? ==> e.line < |tgs| && e.target == tgs[e.line]
    ensures forall j :: 0 <= j < |RuleLinesOf(evs)| ==> RuleLinesOf(evs)[j] < |tgs|
    ensures (forall e <- evs :: e.Rule? ==> e.deps == vals[e.line])
         ==> DepsFor(evs, t) == Gather(tgs, vals, RuleLinesOf(evs), t)
    ensures (forall e <- evs :: e.Rule? ==> e.calls == vals[e.line])
         ==> CallsFor(evs, t) == Gather(tgs, vals, RuleLinesOf(evs), t)
    decreases |evs|
  {
    if evs != [] {
      assert forall e <- evs[1..] :: e in evs;
      RuleListsGather(tgs, vals, evs[1..], t);
      var ks := RuleLinesOf(evs[1..]);
      if evs[0].Rule? {
        assert evs[0] in evs;
        var c := [evs[0].line] + ks;
        assert RuleLinesOf(evs) == c && c[0] == evs[0].line && c[1..] == ks;
      } else {
        assert RuleLinesOf(evs) == ks;
      }
    }
  }

  /** A name is among the picked entries exactly when some picked position
      holds it. */
  lemma {:induction false} PickMembers(vs: seq<string>, ks: seq<nat>, t: string)
    requires forall j :: 0 <= j < |ks| ==> ks[j] < |vs|
    ensures t in Pick(vs, ks) <==> exists k :: k in ks && k < |vs| && vs[k] == t
    decreases |ks|
  {
    if ks != [] {
      PickMembers(vs, ks[1..], t);
      assert forall k :: k in ks <==> k == ks[0] || k in ks[1..];
    }
  }

  /** The targets map in text terms: its keys are the targets of the rule
      lines after the first `# Files` line, in order of first appearance,
      and each list is the de-duplicated concatenation of the dependencies
      those lines list for that target, in text order. */
  lemma ParseTargetsText(makeOutput: string)
    ensures var lines := SplitLines(makeOutput); var ks := RuleLinePositions(lines);
      var r := Parse(makeOutput).targets;
      (forall j :: 0 <= j < |ks| ==> ks[j] < |lines|)
      && r.keys == Dedup(Pick(TargetColumn(lines), ks))
      && (forall t :: t in r.m ==> r.m[t] == Dedup(Gather(TargetColumn(lines), DepsColumn(lines), ks, t)))
  {
    var lines := SplitLines(makeOutput);
    var evs := Events(lines, 0, false);
    EventsRules(lines, 0, false);
    ParseRuleLines(makeOutput);
    ParseTargets(makeOutput);
    RulesOnColumns(lines, evs);
    RuleTargetsPick(TargetColumn(lines), evs);
    forall t | t in Parse(makeOutput).targets.m
      ensures Parse(makeOutput).targets.m[t]
           == Dedup(Gather(TargetColumn(lines), DepsColumn(lines), RuleLinePositions(lines), t))
    {
      RuleListsGather(TargetColumn(lines), DepsColumn(lines), evs, t);
    }
  }

  /** A name is a key of the targets map exactly when a rule line after the
      first `# Files` line has it as its target. */
  lemma ParseKeyLines(makeOutput: string, t: string)
    ensures var lines := SplitLines(makeOutput); var f := FirstFilesLine(lines, 0);
      (t in Parse(makeOutput).targets.m)
        <==> exists k :: f < k < |lines| && IsRuleLine(lines[k]) && LineTarget(lines[k]) == t
  {
    var lines := SplitLines(makeOutput);
    var ks := RuleLinePositions(lines);
    KeysPicked(makeOutput, t);
    RuleLinePositionsAre(lines);
    PickMembers(TargetColumn(lines), ks, t);
  }

  lemma KeysPicked(makeOutput: string, t: string)
    ensures var lines := SplitLines(makeOutput); var ks := RuleLinePositions(lines);
      (forall j :: 0 <= j < |ks| ==> ks[j] < |lines|)
      && ((t in Parse(makeOutput).targets.m) <==> t in Pick(TargetColumn(lines), ks))
  {
    var lines := SplitLines(makeOutput);
    var evs := Events(lines, 0, false);
    EventsRules(lines, 0, false);
    ParseRuleLines(makeOutput);
    ParseTargets(makeOutput);
    RulesOnColumns(lines, evs);
    RuleTargetsPick(TargetColumn(lines), evs);
  }

  /** The calls map in text terms: each target's list is the concatenation of
      the calls the recipes of its rule lines make, in text order. */
  lemma ParseCallsText(makeOutput: string, t: string)
    ensures var lines := SplitLines(makeOutput); var ks := RuleLinePositions(lines);
      (forall j :: 0 <= j < |ks| ==> ks[j] < |lines|)
      && Get(Parse(makeOutput).calls, t) == Gather(TargetColumn(lines), CallsColumn(lines), ks, t)
  {
    var lines := SplitLines(makeOutput);
    var evs := Events(lines, 0, false);
    EventsRules(lines, 0, false);
    ParseRuleLines(makeOutput);
    ParseCalls(makeOutput, t);
    RulesOnColumns(lines, evs);
    RuleListsGather(TargetColumn(lines), CallsColumn(lines), evs, t);
  }
}
