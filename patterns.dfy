/** The line-level tests of `parse_make_database`: the three regular
    expressions it uses, written as character-level functions for exactly
    these patterns, and the named filters that reject a would-be target. */
module Patterns {
  import opened Strings

  // ---------------------------------------------------------------------
  // Names that are never call-graph targets

  /** Special targets of make, and the makefile names themselves. */
  predicate IsSkipTarget(t: string) {
    t in {
    ".DEFAULT", ".SUFFIXES", ".INTERMEDIATE", ".SECONDARY",
    ".PRECIOUS", ".IGNORE", ".SILENT", ".EXPORT_ALL_VARIABLES",
    ".NOTPARALLEL", ".ONESHELL", ".POSIX", "Makefile",
    "GNUmakefile", "makefile"
    }
  }

  /** Variables make itself defines, which the database prints like rules. */
  predicate IsSkipVar(t: string) {
    t in {
    "MAKEFILES", "MAKEFILE_LIST", "CURDIR", "SHELL", "MAKE",
    "MAKELEVEL", "MAKEFLAGS", "MFLAGS", "MAKE_VERSION",
    "MAKE_COMMAND", ".DEFAULT_GOAL", ".VARIABLES", ".FEATURES",
    "VPATH", ".INCLUDE_DIRS", ".RECIPEPREFIX", "MAKECMDGOALS"
    }
  }

  /** Python's `str.isupper` on ASCII: some upper-case letter and no lower-case one. */
  predicate IsUpper(s: string) {
    (exists c <- s :: 'A' <= c <= 'Z') && (forall c <- s :: !('a' <= c <= 'z'))
  }

  /** An upper-case name without a space, such as `BLUE`: taken for a variable. */
  predicate LooksLikeVariable(t: string) {
    IsUpper(t) && ' ' !in t
  }

  predicate IsAbsolutePath(t: string) {
    StartsWith(t, "/")
  }

  predicate IsPatternRule(t: string) {
    '%' in t
  }

  /** A name starting with `.`, other than `.PHONY`. */
  predicate IsInternalDotName(t: string) {
    StartsWith(t, ".") && t != ".PHONY"
  }

  /** The chain of rejection filters applied to the name of a target line. */
  predicate Rejected(t: string) {
    IsSkipTarget(t) || IsSkipVar(t) || LooksLikeVariable(t)
    || IsAbsolutePath(t) || IsPatternRule(t) || IsInternalDotName(t)
  }

  /** What a key of the parsed targets map satisfies. */
  predicate AcceptedName(t: string) {
    t != [] && ':' !in t
    && !IsSkipTarget(t) && !IsSkipVar(t) && !LooksLikeVariable(t)
    && !StartsWith(t, "/") && !StartsWith(t, ".") && '%' !in t
  }

  // ---------------------------------------------------------------------
  // `^([^#:\s][^:]*?):\s*(.*)$`

  datatype TargetMatch = TargetMatch(target: string, depsText: string)

  /** The target-line pattern: the text before the first `:` (stripped) is the
      target, the text after it (stripped) the dependency text. */
  function TargetLine(line: string): (r: Option<TargetMatch>)
    ensures r.Some? <==> line != [] && line[0] != '#' && line[0] != ':' && !IsSpace(line[0]) && ':' in line
    ensures r.Some? ==> r.value.target != [] && ':' !in r.value.target && StartsWith(line, r.value.target)
    ensures r.Some? ==> !IsSpace(r.value.target[|r.value.target| - 1])
    ensures r.Some? ==> var after := LStrip(line[|r.value.target|..]);
                        after != [] && after[0] == ':' && r.value.depsText == Strip(after[1..])
  {
    if line == [] || line[0] == '#' || line[0] == ':' || IsSpace(line[0]) then None
    else match IndexOf(line, ':')
      case None => None
      case Some(c) =>
        TargetBeforeColon(line, c);
        TailOfSuffix(line, c);
        Some(TargetMatch(Strip(line[..c]), Strip(LStrip(line[c + 1..]))))
  }

  /** The stripped text before the first `:` of a target line. */
  lemma TargetBeforeColon(line: string, c: nat)
    requires c < |line| && line[c] == ':' && ':' !in line[..c]
    requires line[0] != ':' && !IsSpace(line[0])
    ensures var t := Strip(line[..c]);
      t != [] && ':' !in t && StartsWith(line, t)
      && LStrip(line[|t|..]) == line[c..]
  {
    var pre := line[..c];
    assert pre[0] == line[0];
    assert LStrip(pre) == pre;
    var t := RStrip(pre);
    assert t == pre[..|t|];
    assert t[0] == pre[0];
    assert line[..|t|] == t;
    assert forall x <- t :: x in pre;
    assert forall k :: |t| <= k < c ==> IsSpace(line[k]) by {
      forall k | |t| <= k < c ensures IsSpace(line[k]) {
        assert line[k] == pre[k];
      }
    }
    SpaceThenColon(line, c, |t|);
  }

  lemma TailOfSuffix(s: string, c: nat)
    requires c < |s|
    ensures s[c..][0] == s[c] && s[c..][1..] == s[c + 1..]
  {
  }

  /** Leading whitespace up to a non-space character is what `lstrip` drops. */
  lemma {:induction false} SpaceThenColon(line: string, c: nat, n: nat)
    requires n <= c < |line| && !IsSpace(line[c])
    requires forall k :: n <= k < c ==> IsSpace(line[k])
    ensures LStrip(line[n..]) == line[c..]
    decreases c - n
  {
    if n < c {
      assert line[n..][1..] == line[n + 1..];
      SpaceThenColon(line, c, n + 1);
    }
  }

  /** The variable-assignment test: an `=` occurs before the first `:`. */
  predicate EqBeforeColon(line: string) {
    match (IndexOf(line, '='), IndexOf(line, ':'))
    case (Some(e), Some(c)) => e < c
    case _ => false
  }

  // ---------------------------------------------------------------------
  // `.PHONY` lines and `\.PHONY:\s*(.+)`

  const PhonyMarker := ".PHONY:"

  /** The guard of both `.PHONY` branches. */
  predicate IsPhonyLine(line: string) {
    Contains(line, PhonyMarker) || StartsWith(line, ".PHONY")
  }

  /** Group 1 of a search for `\.PHONY:\s*(.+)`. The match is at the first
      `.PHONY:`; `\s*` takes the leading whitespace, except that `(.+)` needs
      one character, so an all-whitespace remainder leaves its last one. */
  function PhonyGroup(line: string): Option<string> {
    match Find(line, PhonyMarker)
    case None => None
    case Some(p) =>
      var rest := line[p + |PhonyMarker|..];
      if rest == [] then None
      else
        var g := LStrip(rest);
        Some(if g == [] then rest[|rest| - 1..] else g)
  }

  /** `phony_match.group(1).strip().split()`, or nothing without a match. */
  function PhonyWords(line: string): seq<string> {
    match PhonyGroup(line)
    case None => []
    case Some(g) => Words(Strip(g))
  }

  /** The names a `.PHONY` line declares are the words after its first `.PHONY:`. */
  lemma PhonyWordsAfterMarker(line: string)
    ensures PhonyWords(line) == match Find(line, PhonyMarker)
                                case None => []
                                case Some(p) => Words(line[p + |PhonyMarker|..])
  {
    match Find(line, PhonyMarker)
    case None =>
      assert PhonyGroup(line) == None;
    case Some(p) =>
      var rest := line[p + |PhonyMarker|..];
      if rest != [] {
        var g := LStrip(rest);
        assert PhonyGroup(line) == Some(if g == [] then rest[|rest| - 1..] else g);
        GroupWords(rest);
      } else {
        assert PhonyGroup(line) == None;
        assert Words(rest) == [];
      }
  }

  /** Splitting the captured group gives the words of the whole remainder. */
  lemma GroupWords(rest: string)
    requires rest != []
    ensures var g := LStrip(rest);
      Words(Strip(if g == [] then rest[|rest| - 1..] else g)) == Words(rest)
  {
    var g := LStrip(rest);
    if g == [] {
      var last := rest[|rest| - 1..];
      assert IsSpace(last[0]);
      WordsStrip(last);
      WordsAllSpace(last);
      WordsAllSpace(rest);
    } else {
      WordsStrip(g);
      WordsLStrip(rest);
    }
  }

  // ---------------------------------------------------------------------
  // Dependency text

  /** `re.sub(r'#.*$', '', s)`: everything from the first `#` on is dropped. */
  function CutComment(s: string): (r: string)
    ensures '#' !in r && StartsWith(s, r)
    ensures r == s || (|r| < |s| && s[|r|] == '#')
  {
    match IndexOf(s, '#')
    case None => s
    case Some(k) => s[..k]
  }

  /** The dependency list of one accepted target line. */
  function DepsOf(depsText: string): (r: seq<string>)
    ensures r == Words(CutComment(depsText))
    ensures forall d <- r :: d != [] && NoSpace(d) && '#' !in d
  {
    if depsText == [] then
      assert Words([]) == [];
      []
    else
      var t := CutComment(depsText);
      WordsChars(Strip(t));
      WordsStrip(t);
      assert forall c <- Strip(t) :: c in t;
      Words(Strip(t))
  }

  /** Every character of a word comes from the split text. */
  lemma {:induction false} WordsChars(s: string)
    ensures forall w <- Words(s), c <- w :: c in s
    decreases |s|
  {
    if s != [] {
      if IsSpace(s[0]) {
        WordsChars(s[1..]);
      } else {
        var n := TokenLen(s);
        WordsChars(s[n..]);
        assert Words(s) == [s[..n]] + Words(s[n..]);
        assert forall c <- s[n..] :: c in s;
        assert forall c <- s[..n] :: c in s;
      }
    }
  }

  // ---------------------------------------------------------------------
  // `\$[\({]MAKE[\)}](?:\s+-C\s+([^\s]+))?\s+([a-zA-Z0-9_/-]+)`

  /** The sub-target class `[a-zA-Z0-9_/-]`. */
  predicate IsTargetChar(c: char) {
    'a' <= c <= 'z' || 'A' <= c <= 'Z' || '0' <= c <= '9' || c == '_' || c == '/' || c == '-'
  }

  /** `s[i..j]` is all whitespace. */
  predicate AllSpace(s: string, i: nat, j: nat)
    requires i <= j <= |s|
  {
    forall k :: i <= k < j ==> IsSpace(s[k])
  }

  /** `s[i..j]` has no whitespace. */
  predicate NoSpaceIn(s: string, i: nat, j: nat)
    requires i <= j <= |s|
  {
    forall k :: i <= k < j ==> !IsSpace(s[k])
  }

  /** `s[i..j]` is all target characters. */
  predicate AllTargetChars(s: string, i: nat, j: nat)
    requires i <= j <= |s|
  {
    forall k :: i <= k < j ==> IsTargetChar(s[k])
  }

  /** The length of the whitespace run `\s+` or `\s*` takes at `i`; what
      holds of its characters is in `SpaceRunAll` and `SpaceRunEnd`. */
  function SpaceRun(s: string, i: nat): (n: nat)
    requires i <= |s|
    ensures i + n <= |s|
    decreases |s| - i
  {
    if i < |s| && IsSpace(s[i]) then 1 + SpaceRun(s, i + 1) else 0
  }

  /** The length of the run `[^\s]+` takes at `i`. */
  function NonSpaceRun(s: string, i: nat): (n: nat)
    requires i <= |s|
    ensures i + n <= |s|
    decreases |s| - i
  {
    if i < |s| && !IsSpace(s[i]) then 1 + NonSpaceRun(s, i + 1) else 0
  }

  /** The length of the run `[a-zA-Z0-9_/-]+` takes at `i`. */
  function TargetCharRun(s: string, i: nat): (n: nat)
    requires i <= |s|
    ensures i + n <= |s|
    decreases |s| - i
  {
    if i < |s| && IsTargetChar(s[i]) then 1 + TargetCharRun(s, i + 1) else 0
  }

  /** The whitespace run is all whitespace... */
  lemma {:induction false} SpaceRunAll(s: string, i: nat)
    requires i <= |s|
    ensures AllSpace(s, i, i + SpaceRun(s, i))
    decreases |s| - i
  {
    if i < |s| && IsSpace(s[i]) {
      SpaceRunAll(s, i + 1);
    }
  }

  /** ...and stops at the first other character. */
  lemma {:induction false} SpaceRunEnd(s: string, i: nat)
    requires i <= |s|
    ensures i + SpaceRun(s, i) == |s| || !IsSpace(s[i + SpaceRun(s, i)])
    decreases |s| - i
  {
    if i < |s| && IsSpace(s[i]) {
      SpaceRunEnd(s, i + 1);
    }
  }

  lemma {:induction false} NonSpaceRunAll(s: string, i: nat)
    requires i <= |s|
    ensures NoSpaceIn(s, i, i + NonSpaceRun(s, i))
    decreases |s| - i
  {
    if i < |s| && !IsSpace(s[i]) {
      NonSpaceRunAll(s, i + 1);
    }
  }

  lemma {:induction false} TargetCharRunAll(s: string, i: nat)
    requires i <= |s|
    ensures AllTargetChars(s, i, i + TargetCharRun(s, i))
    decreases |s| - i
  {
    if i < |s| && IsTargetChar(s[i]) {
      TargetCharRunAll(s, i + 1);
    }
  }

  lemma {:induction false} TargetCharRunEnd(s: string, i: nat)
    requires i <= |s|
    ensures i + TargetCharRun(s, i) == |s| || !IsTargetChar(s[i + TargetCharRun(s, i)])
    decreases |s| - i
  {
    if i < |s| && IsTargetChar(s[i]) {
      TargetCharRunEnd(s, i + 1);
    }
  }

  /** `$(MAKE)`, `${MAKE}` (or a mixed pair of brackets) at position `p`. */
  predicate MakeRefAt(s: string, p: nat) {
    p + 7 <= |s| && s[p] == '$' && (s[p + 1] == '(' || s[p + 1] == '{')
    && s[p + 2] == 'M' && s[p + 3] == 'A' && s[p + 4] == 'K' && s[p + 5] == 'E'
    && (s[p + 6] == ')' || s[p + 6] == '}')
  }

  /** Where the `-C subdir` group followed by `\s+` and the sub-target lies
      from position `a` on: the directory is `s[b..c]` and the sub-target
      `s[e..f]`. Each quantifier takes its longest run: the three inner runs
      border characters of another class, and the sub-target is greedy. */
  function DirectorySpan(s: string, a: nat): (r: Option<(nat, nat, nat, nat)>)
    requires a <= |s|
    ensures r.Some? ==> a + 2 < r.value.0 < r.value.1 < r.value.2 < r.value.3 <= |s|
  {
    if a + 2 <= |s| && s[a] == '-' && s[a + 1] == 'C' then
      var b := a + 2 + SpaceRun(s, a + 2);
      var c := b + NonSpaceRun(s, b);
      var e := c + SpaceRun(s, c);
      var f := e + TargetCharRun(s, e);
      if b > a + 2 && c > b && e > c && f > e then Some((b, c, e, f)) else None
    else None
  }

  /** The value of the `-C` group, when it takes part: `subdir/subtarget`. */
  function WithDirectory(s: string, a: nat): (r: Option<string>)
    requires a <= |s|
    ensures r.Some? ==> a < |s| && s[a] == '-' && r.value != [] && NoSpace(r.value)
  {
    match DirectorySpan(s, a)
    case None => None
    case Some((b, c, e, f)) =>
      SpanLayout(s, a, b, c, e, f);
      TargetCharsNoSpace(s, e, f - e);
      JoinedNoSpace(s[b..c], s[e..f]);
      Some(s[b..c] + "/" + s[e..f])
  }

  lemma TargetCharsNoSpace(s: string, e: nat, n: nat)
    requires e + n <= |s| && AllTargetChars(s, e, e + n)
    ensures NoSpace(s[e..e + n])
  {
  }

  lemma JoinedNoSpace(x: string, y: string)
    requires NoSpace(x) && NoSpace(y)
    ensures NoSpace(x + "/" + y)
  {
    assert forall k :: 0 <= k < |x + "/" + y| ==> (x + "/" + y)[k] == if k < |x| then x[k] else if k == |x| then '/' else y[k - |x| - 1];
  }

  /** `([a-zA-Z0-9_/-]+)` at position `a`, taken greedily. */
  function SubTarget(s: string, a: nat): (r: Option<string>)
    requires a <= |s|
    ensures r.Some? <==> TargetCharRun(s, a) > 0
    ensures r.Some? ==> r.value == s[a..a + TargetCharRun(s, a)]
    ensures r.Some? ==> r.value != [] && NoSpace(r.value)
  {
    var n := TargetCharRun(s, a);
    if n > 0 then
      TargetCharRunAll(s, a);
      TargetCharsNoSpace(s, a, n);
      Some(s[a..a + n])
    else None
  }

  /** The call the pattern yields when matched at position `p`. When the
      `-C` group cannot take part, the match falls back to `\s+` and the
      sub-target right after the reference, which is why `-j4`, or a `-C`
      with nothing after its directory, is taken for the sub-target. */
  function MatchAt(s: string, p: nat): (r: Option<string>)
    requires p <= |s|
    ensures r.Some? <==> Matches(s, p)
    ensures r.Some? ==> r.value != [] && NoSpace(r.value)
  {
    if !MakeRefAt(s, p) || SpaceRun(s, p + 7) == 0 then None
    else MatchAfter(s, p + 7 + SpaceRun(s, p + 7))
  }

  /** The part of the pattern after `$(MAKE)\s+`, from position `a` on: the
      `-C` group when it can take part, else the bare sub-target. */
  function MatchAfter(s: string, a: nat): (r: Option<string>)
    requires a <= |s|
    ensures r.Some? <==> TargetCharRun(s, a) > 0
    ensures r.Some? ==> r.value != [] && NoSpace(r.value)
  {
    var dir := WithDirectory(s, a);
    if dir.Some? then dir else SubTarget(s, a)
  }

  /** The pattern matches at `p`: `$(MAKE)` or `${MAKE}`, at least one
      whitespace character, then at least one target character. */
  predicate Matches(s: string, p: nat)
    requires p <= |s|
  {
    MakeRefAt(s, p) && SpaceRun(s, p + 7) > 0 && TargetCharRun(s, p + 7 + SpaceRun(s, p + 7)) > 0
  }

  /** Where the leftmost match at or after position `p` starts. */
  function FirstMatchFrom(s: string, p: nat): (r: Option<nat>)
    requires p <= |s|
    ensures r.Some? ==> p <= r.value <= |s| && Matches(s, r.value)
    ensures r.Some? ==> forall q :: p <= q < r.value ==> !Matches(s, q)
    ensures r.None? ==> forall q :: p <= q <= |s| ==> !Matches(s, q)
    decreases |s| - p
  {
    if Matches(s, p) then Some(p)
    else if p == |s| then None
    else FirstMatchFrom(s, p + 1)
  }

  /** `re.search` of the sub-make pattern in one recipe line: the call it
      records, if any. */
  function MakeCall(recipeLine: string): Option<string> {
    match FirstMatchFrom(recipeLine, 0)
    case None => None
    case Some(q) => MatchAt(recipeLine, q)
  }

  // ---------------------------------------------------------------------
  // What the pattern records, for any text

  /** A run of `n` whitespace characters at `i` that stops before a
      non-whitespace character is the run `\s+` takes. */
  lemma {:induction false} SpaceRunIs(s: string, i: nat, n: nat)
    requires i + n <= |s| && AllSpace(s, i, i + n)
    requires i + n == |s| || !IsSpace(s[i + n])
    ensures SpaceRun(s, i) == n
    decreases n
  {
    if n > 0 {
      SpaceRunIs(s, i + 1, n - 1);
    }
  }

  lemma {:induction false} NonSpaceRunIs(s: string, i: nat, n: nat)
    requires i + n <= |s| && NoSpaceIn(s, i, i + n)
    requires i + n == |s| || IsSpace(s[i + n])
    ensures NonSpaceRun(s, i) == n
    decreases n
  {
    if n > 0 {
      NonSpaceRunIs(s, i + 1, n - 1);
    }
  }

  /** A run of at least `n` target characters at `i` is taken whole, and
      exactly when it stops before a non-target character. */
  lemma {:induction false} TargetCharRunAtLeast(s: string, i: nat, n: nat)
    requires i + n <= |s| && AllTargetChars(s, i, i + n)
    ensures TargetCharRun(s, i) >= n
    ensures i + n == |s| || !IsTargetChar(s[i + n]) ==> TargetCharRun(s, i) == n
    decreases n
  {
    if n > 0 {
      TargetCharRunAtLeast(s, i + 1, n - 1);
    }
  }

  /** The `-C` group laid out from position `a`: `-C`, whitespace up to `b`,
      the directory up to `c`, whitespace up to `e`, then `n` sub-target
      characters. */
  ghost predicate DirectoryAt(s: string, a: nat, b: nat, c: nat, e: nat, n: nat) {
    a + 2 < b < c < e && e + n <= |s| && n > 0 && s[a] == '-' && s[a + 1] == 'C'
    && AllSpace(s, a + 2, b) && NoSpaceIn(s, b, c) && AllSpace(s, c, e)
    && AllTargetChars(s, e, e + n)
  }

  /** A span the group finds has that layout. */
  lemma SpanLayout(s: string, a: nat, b: nat, c: nat, e: nat, f: nat)
    requires a <= |s| && DirectorySpan(s, a) == Some((b, c, e, f))
    ensures DirectoryAt(s, a, b, c, e, f - e)
  {
    SpanRuns(s, a, b, c, e, f);
    SpaceRunAll(s, a + 2);
    NonSpaceRunAll(s, b);
    SpaceRunAll(s, c);
    TargetCharRunAll(s, e);
  }

  /** The four runs of a span the group finds. */
  lemma SpanRuns(s: string, a: nat, b: nat, c: nat, e: nat, f: nat)
    requires a <= |s| && DirectorySpan(s, a) == Some((b, c, e, f))
    ensures s[a] == '-' && s[a + 1] == 'C'
    ensures b == a + 2 + SpaceRun(s, a + 2) && c == b + NonSpaceRun(s, b)
    ensures e == c + SpaceRun(s, c) && f == e + TargetCharRun(s, e)
  {
  }

  /** The span the group finds, once the lengths of its runs are known. */
  lemma SpanOfRuns(s: string, a: nat, b: nat, c: nat, e: nat, f: nat)
    requires a + 2 < b < c < e < f <= |s| && s[a] == '-' && s[a + 1] == 'C'
    requires b == a + 2 + SpaceRun(s, a + 2) && c == b + NonSpaceRun(s, b)
    requires e == c + SpaceRun(s, c) && f == e + TargetCharRun(s, e)
    ensures DirectorySpan(s, a) == Some((b, c, e, f))
  {
  }

  /** With that layout the group finds exactly that span, the sub-target
      being the whole run of target characters after the directory. */
  lemma LayoutSpan(s: string, a: nat, b: nat, c: nat, e: nat, n: nat)
    requires DirectoryAt(s, a, b, c, e, n)
    ensures DirectorySpan(s, a) == Some((b, c, e, e + TargetCharRun(s, e)))
  {
    LayoutRuns(s, a, b, c, e, n);
    SpanOfRuns(s, a, b, c, e, e + TargetCharRun(s, e));
  }

  /** The runs of that layout are the ones the quantifiers take. */
  lemma LayoutRuns(s: string, a: nat, b: nat, c: nat, e: nat, n: nat)
    requires DirectoryAt(s, a, b, c, e, n)
    ensures SpaceRun(s, a + 2) == b - a - 2 && NonSpaceRun(s, b) == c - b
    ensures SpaceRun(s, c) == e - c && TargetCharRun(s, e) >= n
  {
    assert !IsSpace(s[b]);
    SpaceRunIs(s, a + 2, b - a - 2);
    assert IsSpace(s[c]);
    NonSpaceRunIs(s, b, c - b);
    assert IsTargetChar(s[e]);
    SpaceRunIs(s, c, e - c);
    TargetCharRunAtLeast(s, e, n);
  }

  /** The `-C` group takes part exactly when the text from `a` on has its
      layout. */
  lemma WithDirectoryIff(s: string, a: nat)
    requires a <= |s|
    ensures WithDirectory(s, a).Some? <==> exists b, c, e, n :: DirectoryAt(s, a, b, c, e, n)
  {
    if DirectorySpan(s, a).Some? {
      var (b, c, e, f) := DirectorySpan(s, a).value;
      SpanLayout(s, a, b, c, e, f);
    }
    if b, c, e, n :| DirectoryAt(s, a, b, c, e, n) {
      LayoutSpan(s, a, b, c, e, n);
    }
  }

  /** With that layout the group yields `dir/target`. */
  lemma LayoutValue(s: string, a: nat, b: nat, c: nat, e: nat, n: nat)
    requires DirectoryAt(s, a, b, c, e, n)
    ensures WithDirectory(s, a) == Some(s[b..c] + "/" + s[e..e + TargetCharRun(s, e)])
  {
    LayoutSpan(s, a, b, c, e, n);
  }

  /** No position of `pre` starts a match. */
  predicate NoMatchIn(pre: string) {
    forall q :: 0 <= q <= |pre| ==> !Matches(pre, q)
  }

  /** A text that records no call has no match. */
  lemma NoCallNoMatch(pre: string)
    requires MakeCall(pre) == None
    ensures NoMatchIn(pre)
  {
    match FirstMatchFrom(pre, 0)
    case None =>
    case Some(q) =>
  }

  /** Appending text that starts with a non-whitespace character leaves a
      whitespace run inside `x` as it was. */
  lemma SpaceRunAppend(x: string, y: string, i: nat)
    requires i <= |x| && y != [] && !IsSpace(y[0])
    ensures SpaceRun(x + y, i) == SpaceRun(x, i)
  {
    var m := SpaceRun(x, i);
    SpaceRunAll(x, i);
    SpaceRunEnd(x, i);
    assert forall k :: i <= k < i + m ==> (x + y)[k] == x[k];
    SpaceRunIs(x + y, i, m);
  }

  lemma TargetCharRunAppend(x: string, y: string, i: nat)
    requires i <= |x| && y != [] && !IsTargetChar(y[0])
    ensures TargetCharRun(x + y, i) == TargetCharRun(x, i)
  {
    var m := TargetCharRun(x, i);
    TargetCharRunAll(x, i);
    TargetCharRunEnd(x, i);
    assert forall k :: i <= k < i + m ==> (x + y)[k] == x[k];
    TargetCharRunAtLeast(x + y, i, m);
  }

  /** A match starting in `x`, before text that starts with `$`, is already
      a match of `x`: a `$` can neither continue `$(MAKE)`, nor the
      whitespace, nor the sub-target. */
  lemma MatchInPrefix(x: string, y: string, q: nat)
    requires q < |x| && y != [] && y[0] == '$' && Matches(x + y, q)
    ensures Matches(x, q)
  {
    var s := x + y;
    assert s[|x|] == '$';
    assert x[q + 2..q + 6] == s[q + 2..q + 6];
    assert MakeRefAt(x, q);
    SpaceRunAppend(x, y, q + 7);
    TargetCharRunAppend(x, y, q + 7 + SpaceRun(x, q + 7));
  }

  /** `re.search` finds the first match. */
  lemma {:induction false} FirstMatchIs(s: string, i: nat, p: nat)
    requires i <= p <= |s| && Matches(s, p)
    requires forall q :: i <= q < p ==> !Matches(s, q)
    ensures FirstMatchFrom(s, i) == Some(p)
    decreases p - i
  {
    if i < p {
      FirstMatchIs(s, i + 1, p);
    }
  }

  /** With `pre` recording no call of its own, the call `$(MAKE) ...` placed
      after it is the one found. */
  lemma CallAfter(pre: string, rest: string)
    requires MakeCall(pre) == None
    requires |rest| >= 7 && rest[..7] == "$(MAKE)"
    requires Matches(pre + rest, |pre|)
    ensures MakeCall(pre + rest) == MatchAt(pre + rest, |pre|)
  {
    NoCallNoMatch(pre);
    forall q | 0 <= q < |pre|
      ensures !Matches(pre + rest, q)
    {
      if Matches(pre + rest, q) {
        assert rest[0] == rest[..7][0];
        MatchInPrefix(pre, rest, q);
      }
    }
    FirstMatchIs(pre + rest, 0, |pre|);
  }

  /** The runs only look at the text from where they start on. */
  lemma {:induction false} SpaceRunShift(x: string, y: string, i: nat, j: nat)
    requires i <= |y| && j == |x| + i
    ensures SpaceRun(x + y, j) == SpaceRun(y, i)
    decreases |y| - i
  {
    if i < |y| {
      assert (x + y)[j] == y[i];
      SpaceRunShift(x, y, i + 1, j + 1);
    }
  }

  lemma {:induction false} NonSpaceRunShift(x: string, y: string, i: nat, j: nat)
    requires i <= |y| && j == |x| + i
    ensures NonSpaceRun(x + y, j) == NonSpaceRun(y, i)
    decreases |y| - i
  {
    if i < |y| {
      assert (x + y)[j] == y[i];
      NonSpaceRunShift(x, y, i + 1, j + 1);
    }
  }

  lemma {:induction false} TargetCharRunShift(x: string, y: string, i: nat, j: nat)
    requires i <= |y| && j == |x| + i
    ensures TargetCharRun(x + y, j) == TargetCharRun(y, i)
    decreases |y| - i
  {
    if i < |y| {
      assert (x + y)[j] == y[i];
      TargetCharRunShift(x, y, i + 1, j + 1);
    }
  }

  /** The span the `-C` group finds after `a + 2`, given the lengths of its
      four runs. */
  function SpanOf(a: nat, r1: nat, r2: nat, r3: nat, r4: nat): Option<(nat, nat, nat, nat)> {
    if r1 > 0 && r2 > 0 && r3 > 0 && r4 > 0 then
      Some((a + 2 + r1, a + 2 + r1 + r2, a + 2 + r1 + r2 + r3, a + 2 + r1 + r2 + r3 + r4))
    else None
  }

  /** The span the group finds at `a`, given the lengths of the runs it reads. */
  lemma DirectorySpanRuns(s: string, a: nat, r1: nat, r2: nat, r3: nat, r4: nat)
    requires a + 2 <= |s| && s[a] == '-' && s[a + 1] == 'C'
    requires r1 == SpaceRun(s, a + 2) && r2 == NonSpaceRun(s, a + 2 + r1)
    requires r3 == SpaceRun(s, a + 2 + r1 + r2) && r4 == TargetCharRun(s, a + 2 + r1 + r2 + r3)
    ensures DirectorySpan(s, a) == SpanOf(a, r1, r2, r3, r4)
  {
  }

  /** So does the span of the `-C` group, moved by `|x|`. */
  lemma DirectorySpanShift(x: string, y: string, a: nat)
    requires a <= |y|
    ensures DirectorySpan(x + y, |x| + a).Some? <==> DirectorySpan(y, a).Some?
    ensures DirectorySpan(y, a).Some? ==>
      var (b, c, e, f) := DirectorySpan(y, a).value; var d := |x|;
      DirectorySpan(x + y, d + a) == Some((d + b, d + c, d + e, d + f))
  {
    var s, d := x + y, |x|;
    if a + 2 <= |y| {
      assert s[d + a] == y[a] && s[d + a + 1] == y[a + 1];
      if y[a] == '-' && y[a + 1] == 'C' {
        var r1 := SpaceRun(y, a + 2);
        var r2 := NonSpaceRun(y, a + 2 + r1);
        var r3 := SpaceRun(y, a + 2 + r1 + r2);
        var r4 := TargetCharRun(y, a + 2 + r1 + r2 + r3);
        DirectorySpanRuns(y, a, r1, r2, r3, r4);
        SpanOfShift(x, y, a, r1, r2, r3, r4);
      }
    }
  }

  /** The runs the group reads in `x + y` are those it reads in `y`. */
  lemma SpanOfShift(x: string, y: string, a: nat, r1: nat, r2: nat, r3: nat, r4: nat)
    requires a + 2 <= |y| && y[a] == '-' && y[a + 1] == 'C'
    requires r1 == SpaceRun(y, a + 2) && r2 == NonSpaceRun(y, a + 2 + r1)
    requires r3 == SpaceRun(y, a + 2 + r1 + r2) && r4 == TargetCharRun(y, a + 2 + r1 + r2 + r3)
    ensures DirectorySpan(x + y, |x| + a) == SpanOf(|x| + a, r1, r2, r3, r4)
  {
    RunsShift(x, y, a, r1, r2);
    RunsShiftTail(x, y, a + 2 + r1 + r2, r3, r4);
    assert |x| + (a + 2 + r1 + r2) == |x| + a + 2 + r1 + r2;
    DirectorySpanRuns(x + y, |x| + a, r1, r2, r3, r4);
  }

  /** The runs the group reads in `x + y`, read in `y`: the lead and the
      first two runs... */
  lemma RunsShift(x: string, y: string, a: nat, r1: nat, r2: nat)
    requires a + 2 <= |y| && y[a] == '-' && y[a + 1] == 'C'
    requires r1 == SpaceRun(y, a + 2) && r2 == NonSpaceRun(y, a + 2 + r1)
    ensures |x| + a + 2 <= |x + y| && (x + y)[|x| + a] == '-' && (x + y)[|x| + a + 1] == 'C'
    ensures r1 == SpaceRun(x + y, |x| + a + 2) && r2 == NonSpaceRun(x + y, |x| + a + 2 + r1)
  {
    assert (x + y)[|x| + a] == y[a] && (x + y)[|x| + a + 1] == y[a + 1];
    SpaceRunShift(x, y, a + 2, |x| + a + 2);
    NonSpaceRunShift(x, y, a + 2 + r1, |x| + a + 2 + r1);
  }

  /** ... and the last two. */
  lemma RunsShiftTail(x: string, y: string, b: nat, r3: nat, r4: nat)
    requires b <= |y| && r3 == SpaceRun(y, b) && r4 == TargetCharRun(y, b + r3)
    ensures r3 == SpaceRun(x + y, |x| + b) && r4 == TargetCharRun(x + y, |x| + b + r3)
  {
    SpaceRunShift(x, y, b, |x| + b);
    TargetCharRunShift(x, y, b + r3, |x| + b + r3);
  }

  lemma SliceShift(x: string, y: string, i: nat, j: nat)
    requires i <= j <= |y|
    ensures (x + y)[|x| + i..|x| + j] == y[i..j]
  {
  }

  lemma WithDirectoryShift(x: string, y: string, a: nat)
    requires a <= |y|
    ensures WithDirectory(x + y, |x| + a) == WithDirectory(y, a)
  {
    DirectorySpanShift(x, y, a);
    if DirectorySpan(y, a).Some? {
      var (b, c, e, f) := DirectorySpan(y, a).value;
      SliceShift(x, y, b, c);
      SliceShift(x, y, e, f);
    }
  }

  lemma SubTargetShift(x: string, y: string, a: nat)
    requires a <= |y|
    ensures SubTarget(x + y, |x| + a) == SubTarget(y, a)
  {
    TargetCharRunShift(x, y, a, |x| + a);
    SliceShift(x, y, a, a + TargetCharRun(y, a));
  }

  /** And so does a match. */
  lemma MatchAtShift(x: string, y: string, p: nat)
    requires p <= |y|
    ensures Matches(x + y, |x| + p) <==> Matches(y, p)
    ensures MatchAt(x + y, |x| + p) == MatchAt(y, p)
  {
    if p + 7 <= |y| {
      assert forall k :: p <= k < p + 7 ==> (x + y)[|x| + k] == y[k];
      SpaceRunShift(x, y, p + 7, |x| + p + 7);
      MatchAfterShift(x, y, p + 7 + SpaceRun(y, p + 7));
    }
  }

  lemma MatchAfterShift(x: string, y: string, a: nat)
    requires a <= |y|
    ensures TargetCharRun(x + y, |x| + a) == TargetCharRun(y, a)
    ensures MatchAfter(x + y, |x| + a) == MatchAfter(y, a)
  {
    TargetCharRunShift(x, y, a, |x| + a);
    WithDirectoryShift(x, y, a);
    SubTargetShift(x, y, a);
  }

  /** The call a match at the start of `rest` yields is the one recorded for
      `pre + rest`, when `pre` records none. */
  lemma CallAt(pre: string, rest: string, v: string)
    requires MakeCall(pre) == None
    requires |rest| >= 7 && rest[..7] == "$(MAKE)"
    requires Matches(rest, 0) && MatchAt(rest, 0) == Some(v)
    ensures MakeCall(pre + rest) == Some(v)
  {
    MatchAtShift(pre, rest, 0);
    CallAfter(pre, rest);
  }

  /** `$(MAKE) -C dir target` records `dir/target` for every directory
      without whitespace and every sub-target, whatever comes before it
      (as long as that records nothing) and whatever follows the
      sub-target. */
  lemma MakeCallDirectory(pre: string, dir: string, tgt: string, post: string)
    requires MakeCall(pre) == None
    requires dir != [] && NoSpace(dir)
    requires tgt != [] && forall k :: 0 <= k < |tgt| ==> IsTargetChar(tgt[k])
    requires post == [] || !IsTargetChar(post[0])
    ensures MakeCall(pre + "$(MAKE) -C " + dir + " " + tgt + post) == Some(dir + "/" + tgt)
  {
    var rest := "$(MAKE) -C " + dir + " " + tgt + post;
    assert pre + rest == pre + "$(MAKE) -C " + dir + " " + tgt + post;
    DirectoryCall(rest, dir, tgt, post);
    CallAt(pre, rest, dir + "/" + tgt);
  }

  /** The match at the start of `$(MAKE) -C dir target...`. */
  lemma DirectoryCall(rest: string, dir: string, tgt: string, post: string)
    requires rest == "$(MAKE) -C " + dir + " " + tgt + post
    requires dir != [] && NoSpace(dir)
    requires tgt != [] && forall k :: 0 <= k < |tgt| ==> IsTargetChar(tgt[k])
    requires post == [] || !IsTargetChar(post[0])
    ensures rest[..7] == "$(MAKE)" && Matches(rest, 0) && MatchAt(rest, 0) == Some(dir + "/" + tgt)
  {
    DirectoryValue(rest, dir, tgt, post);
    DirectoryMatchAt(rest, dir + "/" + tgt);
  }

  /** The `-C` group of `$(MAKE) -C dir target...` yields `dir/target`. */
  lemma DirectoryValue(rest: string, dir: string, tgt: string, post: string)
    requires rest == "$(MAKE) -C " + dir + " " + tgt + post
    requires dir != [] && NoSpace(dir)
    requires tgt != [] && forall k :: 0 <= k < |tgt| ==> IsTargetChar(tgt[k])
    requires post == [] || !IsTargetChar(post[0])
    ensures rest[..7] == "$(MAKE)" && MakeRefAt(rest, 0) && rest[7] == ' ' && rest[8] == '-'
    ensures WithDirectory(rest, 8) == Some(dir + "/" + tgt)
  {
    DirectoryLayout(rest, dir, tgt, post);
    var c := 11 + |dir|;
    LayoutValue(rest, 8, 11, c, c + 1, |tgt|);
    TargetCharRunAtLeast(rest, c + 1, |tgt|);
  }

  /** A reference, one space, and a `-C` group that takes part: the match
      there yields the group's value. */
  lemma DirectoryMatchAt(s: string, v: string)
    requires 9 <= |s| && MakeRefAt(s, 0) && s[7] == ' ' && s[8] == '-'
    requires WithDirectory(s, 8) == Some(v)
    ensures Matches(s, 0) && MatchAt(s, 0) == Some(v)
  {
    SpaceRunIs(s, 7, 1);
  }

  /** Where the pieces of `$(MAKE) -C dir target...` lie. */
  lemma DirectoryLayout(rest: string, dir: string, tgt: string, post: string)
    requires rest == "$(MAKE) -C " + dir + " " + tgt + post
    requires dir != [] && NoSpace(dir)
    requires tgt != [] && forall k :: 0 <= k < |tgt| ==> IsTargetChar(tgt[k])
    requires post == [] || !IsTargetChar(post[0])
    ensures rest[..7] == "$(MAKE)"
    ensures var c := 11 + |dir|;
      MakeRefAt(rest, 0) && rest[7] == ' ' && DirectoryAt(rest, 8, 11, c, c + 1, |tgt|)
      && rest[11..c] == dir && rest[c + 1..c + 1 + |tgt|] == tgt
      && (c + 1 + |tgt| == |rest| || !IsTargetChar(rest[c + 1 + |tgt|]))
  {
    var c := 11 + |dir|;
    assert rest[..11] == "$(MAKE) -C ";
    HeadChars(rest);
    assert rest[11..c] == dir;
    assert forall k :: 11 <= k < c ==> rest[k] == dir[k - 11];
    assert rest[c + 1..c + 1 + |tgt|] == tgt;
    assert forall k :: c + 1 <= k < c + 1 + |tgt| ==> rest[k] == tgt[k - c - 1];
    if c + 1 + |tgt| < |rest| {
      assert rest[c + 1 + |tgt|] == post[0];
    }
  }

  /** The characters of the head `$(MAKE) -C `. */
  lemma HeadChars(rest: string)
    requires |rest| >= 11 && rest[..11] == "$(MAKE) -C "
    ensures rest[..7] == "$(MAKE)" && MakeRefAt(rest, 0)
    ensures rest[7] == ' ' && rest[8] == '-' && rest[9] == 'C' && rest[10] == ' '
  {
    assert forall k :: 0 <= k < 11 ==> rest[k] == rest[..11][k];
  }

  /** `$(MAKE) target` records the sub-target itself when it does not start
      with `-`, whatever comes before (recording nothing) and after. */
  lemma MakeCallBare(pre: string, tgt: string, post: string)
    requires MakeCall(pre) == None
    requires tgt != [] && tgt[0] != '-' && forall k :: 0 <= k < |tgt| ==> IsTargetChar(tgt[k])
    requires post == [] || !IsTargetChar(post[0])
    ensures MakeCall(pre + "$(MAKE) " + tgt + post) == Some(tgt)
  {
    var rest := "$(MAKE) " + tgt + post;
    assert pre + rest == pre + "$(MAKE) " + tgt + post;
    BareCall(rest, tgt, post);
    CallAt(pre, rest, tgt);
  }

  /** The match at the start of `$(MAKE) target...`. */
  lemma BareCall(rest: string, tgt: string, post: string)
    requires rest == "$(MAKE) " + tgt + post
    requires tgt != [] && tgt[0] != '-' && forall k :: 0 <= k < |tgt| ==> IsTargetChar(tgt[k])
    requires post == [] || !IsTargetChar(post[0])
    ensures rest[..7] == "$(MAKE)" && Matches(rest, 0) && MatchAt(rest, 0) == Some(tgt)
  {
    BareLayout(rest, tgt, post);
    TargetCharRunAtLeast(rest, 8, |tgt|);
    SpaceRunIs(rest, 7, 1);
  }

  /** Where the pieces of `$(MAKE) target...` lie. */
  lemma BareLayout(rest: string, tgt: string, post: string)
    requires rest == "$(MAKE) " + tgt + post
    requires tgt != [] && tgt[0] != '-' && forall k :: 0 <= k < |tgt| ==> IsTargetChar(tgt[k])
    requires post == [] || !IsTargetChar(post[0])
    ensures rest[..7] == "$(MAKE)" && MakeRefAt(rest, 0) && rest[7] == ' ' && rest[8] != '-'
    ensures 8 + |tgt| <= |rest| && rest[8..8 + |tgt|] == tgt && AllTargetChars(rest, 8, 8 + |tgt|)
    ensures 8 + |tgt| == |rest| || !IsTargetChar(rest[8 + |tgt|])
  {
    assert rest[..8] == "$(MAKE) ";
    assert forall k :: 0 <= k < 8 ==> rest[k] == rest[..8][k];
    assert rest[8] == tgt[0];
    assert forall k :: 8 <= k < 8 + |tgt| ==> rest[k] == tgt[k - 8];
    if 8 + |tgt| < |rest| {
      assert rest[8 + |tgt|] == post[0];
    }
    assert rest[8..8 + |tgt|] == tgt;
  }

  /** With `-C dir` and a sub-target, the call goes to `dir/target`. */
  lemma MakeCallWithDirectory()
    ensures MakeCall("$(MAKE) -C sub all") == Some("sub/all")
  {
    var s := "$(MAKE) -C sub all";
    DirectoryMatch(s);
    assert FirstMatchFrom(s, 0) == Some(0);
  }

  lemma DirectoryMatch(s: string)
    requires s == "$(MAKE) -C sub all"
    ensures MatchAt(s, 0) == Some("sub/all")
  {
    DirectoryRef(s);
    DirectoryGroup(s);
  }

  lemma DirectoryRef(s: string)
    requires s == "$(MAKE) -C sub all"
    ensures MakeRefAt(s, 0) && SpaceRun(s, 7) == 1
  {
    assert s[2..6] == "MAKE";
    assert SpaceRun(s, 8) == 0;
  }

  lemma DirectoryGroup(s: string)
    requires s == "$(MAKE) -C sub all"
    ensures WithDirectory(s, 8) == Some("sub/all")
  {
    assert s[8..10] == "-C";
    assert SpaceRun(s, 10) == 1;
    assert SpaceRun(s, 14) == 1;
    assert NonSpaceRun(s, 14) == 0;
    assert NonSpaceRun(s, 13) == 1;
    assert NonSpaceRun(s, 12) == 2;
    assert NonSpaceRun(s, 11) == 3;
    assert TargetCharRun(s, 18) == 0;
    assert TargetCharRun(s, 17) == 1;
    assert TargetCharRun(s, 16) == 2;
    assert TargetCharRun(s, 15) == 3;
    assert s[11..14] == "sub" && s[15..18] == "all";
    assert s[11..14] + "/" + s[15..18] == "sub/all";
  }

  /** `${MAKE}` and no directory: the bare sub-target. */
  lemma MakeCallBraces()
    ensures MakeCall("${MAKE} install") == Some("install")
  {
    var s := "${MAKE} install";
    assert s[2..6] == "MAKE";
    assert MakeRefAt(s, 0);
    assert SpaceRun(s, 7) == 1;
    BareTarget(s);
    assert MatchAt(s, 0) == Some("install");
    assert FirstMatchFrom(s, 0) == Some(0);
  }

  lemma BareTarget(s: string)
    requires s == "${MAKE} install"
    ensures WithDirectory(s, 8) == None && SubTarget(s, 8) == Some("install")
  {
    assert s[8..10][1] != 'C';
    TargetCharRunAtLeast(s, 8, 7);
    assert s[8..15] == "install";
  }

  /** As written, an option such as `-j4` is taken for the sub-target. */
  lemma MakeCallTakesOption()
    ensures MakeCall("$(MAKE) -j4 all") == Some("-j4")
  {
    var s := "$(MAKE) -j4 all";
    assert s[2..6] == "MAKE";
    assert MakeRefAt(s, 0);
    assert SpaceRun(s, 7) == 1;
    OptionTarget(s);
    assert MatchAt(s, 0) == Some("-j4");
    assert FirstMatchFrom(s, 0) == Some(0);
  }

  lemma OptionTarget(s: string)
    requires s == "$(MAKE) -j4 all"
    ensures WithDirectory(s, 8) == None && SubTarget(s, 8) == Some("-j4")
  {
    assert s[8..10][1] != 'C';
    TargetCharRunAtLeast(s, 8, 3);
    assert s[8..11] == "-j4";
  }

  /** As written, `-C dir` with nothing after it yields `-C` itself. */
  lemma MakeCallDirectoryOnly()
    ensures MakeCall("$(MAKE) -C sub") == Some("-C")
  {
    var s := "$(MAKE) -C sub";
    assert s[2..6] == "MAKE";
    assert MakeRefAt(s, 0);
    assert SpaceRun(s, 7) == 1;
    DanglingDirectory(s);
    DirectoryFlagTarget(s);
    assert MatchAt(s, 0) == Some("-C");
    assert FirstMatchFrom(s, 0) == Some(0);
  }

  lemma DanglingDirectory(s: string)
    requires s == "$(MAKE) -C sub"
    ensures WithDirectory(s, 8) == None
  {
    assert s[8..10] == "-C";
    assert SpaceRun(s, 11) == 0;
    assert SpaceRun(s, 10) == 1;
    NonSpaceRunIs(s, 11, 3);
    assert SpaceRun(s, 14) == 0;
  }

  lemma DirectoryFlagTarget(s: string)
    requires s == "$(MAKE) -C sub"
    ensures SubTarget(s, 8) == Some("-C")
  {
    assert s[8..10] == "-C";
    assert TargetCharRun(s, 10) == 0;
    assert TargetCharRun(s, 8) == 2;
  }
}
