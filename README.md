# Makefile call graph: a Dafny model of the parser and the cycle search

`parse_makefile.py` draws the call graph of a Makefile. It runs `make -pn` on
the file and reads the database that make prints. From it, it builds three
results:

- a map from each target to its dependencies;
- a map from each target to the sub-make targets its recipes call through
  `$(MAKE)` or `${MAKE}`;
- the set of names declared `.PHONY`.

Then it may filter those maps (`--phony-only`, `--no-src`), merges them into
one graph, and searches that graph for cycles by depth-first search.

This project models that core in Dafny and proves properties of it.

- `strings.dfy` (module `Strings`): the Python string built-ins the parser
  uses, written at the character level. These are `split('\n')`, `split()`,
  `strip()`, `lstrip()`, `rstrip()`, `in`, `index` and `startswith`. Each
  comes with its partner (`JoinLines`, `JoinWords`) or with the facts the
  parser relies on.
- `tables.dfy` (module `Tables`): an insertion-ordered Python dict from a
  name to a list of names. It is a key sequence plus a map. The module also
  holds `setdefault(k, []).extend(xs)`, `t[k] = v` and
  `list(dict.fromkeys(xs))`.
- `patterns.dfy` (module `Patterns`): the three regular expressions the scan
  uses, written out for exactly these patterns. These are the target line,
  `.PHONY:` and the `$(MAKE)` call. The module also holds the `SKIP_TARGETS`
  and `SKIP_VARS` sets and the chain of rejection filters.
- `database.dfy` (module `Database`): `parse_make_database`. The scan is
  specified as a list of events (`Events`), a fold of those events into the
  three results (`ApplyAll`), and the final de-duplication (`Finish`); `Parse`
  is all three together. The method `ParseMakeDatabase` is the source's loop
  with its look-ahead over recipe lines, proved to compute `Parse`. The
  results are also tied to the text directly: the rules come from exactly
  the rule lines (`IsRuleLine`) after the first `# Files` line, and the
  maps are stated over those lines' targets, dependencies and recipe calls.
- `cycles.dfy` (module `Cycles`): `find_cycles`. The class `CycleSearch`
  holds the state the nested `dfs` shares: `visited`, `rec_stack` and
  `cycles`. `Dfs` and `Explore` are the recursion and its loop.
- `analysis.dfy` (module `Analysis`): the part of `main` between parsing and
  printing. This is the `--phony-only` and `--no-src` filters, the merge of
  the two maps into the cycle-detection graph, and the call to `find_cycles`.

The model follows the source in two behaviours of the `$(MAKE)` pattern that
may surprise a reader:

- The sub-target character class contains `-`, so `$(MAKE) -j4 all` records
  the call `-j4`.
- When nothing follows the directory, backtracking drops the optional `-C`
  group, so `$(MAKE) -C sub` records the call `-C`.

A self-edge `A -> A` is reported as the two-element cycle `[A, A]`, because
the source appends the stack slice `[A]` followed by `A` again.

## Model

| member | source | states |
|---|---|---|
| Strings.FindFrom | create-makefile-callgraph/scripts/parse_makefile.py:98 | the position found is an occurrence of the pattern, and no earlier position at or after the start is one; `None` means no occurrence at all |
| Strings.IndexOf | create-makefile-callgraph/scripts/parse_makefile.py:130-131 | `s.index(c)` is the first position holding `c`; `None` exactly when `c` is not in `s` |
| Strings.LStrip | create-makefile-callgraph/scripts/parse_makefile.py:124-125 | the result is a suffix of `s`; everything dropped is whitespace, and the result does not start with whitespace |
| Strings.RStrip | create-makefile-callgraph/scripts/parse_makefile.py:124-125 | the result is a prefix of `s`; everything dropped is whitespace, and the result does not end with whitespace |
| Strings.TokenLen | create-makefile-callgraph/scripts/parse_makefile.py:173 | the leading run of non-whitespace ends at the end of the text or at a whitespace character |
| Strings.Words | create-makefile-callgraph/scripts/parse_makefile.py:101 | `split()` yields only non-empty words with no whitespace in them |
| Strings.WordsJoinWords | create-makefile-callgraph/scripts/parse_makefile.py:173 | splitting words joined by single spaces gives the same words back (the partner of `split()`) |
| Strings.WordsOfToken | create-makefile-callgraph/scripts/parse_makefile.py:173 | a leading word followed by whitespace or by nothing is split off whole |
| Strings.WordsLStrip | create-makefile-callgraph/scripts/parse_makefile.py:101 | leading whitespace does not change `split()` |
| Strings.WordsRStrip | create-makefile-callgraph/scripts/parse_makefile.py:101 | trailing whitespace does not change `split()` |
| Strings.WordsStrip | create-makefile-callgraph/scripts/parse_makefile.py:101 | `strip().split()` equals `split()` |
| Strings.WordsAllSpace | create-makefile-callgraph/scripts/parse_makefile.py:101 | an all-whitespace text splits into no words |
| Strings.SplitLines | create-makefile-callgraph/scripts/parse_makefile.py:80 | `split('\n')` yields at least one piece, and no piece holds a line feed |
| Strings.SplitLinesRoundTrip | create-makefile-callgraph/scripts/parse_makefile.py:80 | joining the pieces with line feeds gives the original text back |
| Tables.Extend | create-makefile-callgraph/scripts/parse_makefile.py:176-178 | a missing key is added at the end of the key order; the key's list gains `xs` at its end; every other key and list is unchanged |
| Tables.ExtendKeySet | create-makefile-callgraph/scripts/parse_makefile.py:176-177 | the key set after storing a target is the old one plus that target |
| Tables.ExtendTwice | create-makefile-callgraph/scripts/parse_makefile.py:178 | extending a key's list twice is extending it once with both lists concatenated |
| Tables.Put | create-makefile-callgraph/scripts/parse_makefile.py:359 | `t[k] = v` sets that one value, adds a new key at the end of the order, and leaves every other entry as it was |
| Tables.DedupFrom | create-makefile-callgraph/scripts/parse_makefile.py:215 | the result has no repeats and holds exactly the elements of the input that are not already seen |
| Tables.DedupSnoc | create-makefile-callgraph/scripts/parse_makefile.py:215 | `dict.fromkeys` keeps first-seen order: a new element is appended at the end and a repeated one is ignored |
| Tables.DedupIdempotent | create-makefile-callgraph/scripts/parse_makefile.py:215 | de-duplicating twice gives the same list as de-duplicating once |
| Patterns.TargetLine | create-makefile-callgraph/scripts/parse_makefile.py:121-125 | the target pattern matches exactly when the line's first character is not `#`, `:` or whitespace and the line has a `:`. The target is the stripped text before the first `:`: it begins the line and does not end with whitespace. The dependency text is the stripped text after that `:` |
| Patterns.TargetBeforeColon | create-makefile-callgraph/scripts/parse_makefile.py:121-124 | the stripped text before the first colon is non-empty, has no colon, starts the line, and only whitespace separates it from the colon |
| Patterns.PhonyWordsAfterMarker | create-makefile-callgraph/scripts/parse_makefile.py:99-102 | the names a `.PHONY` line adds are the whitespace-separated words after its first `.PHONY:`, and none when that marker is absent |
| Patterns.GroupWords | create-makefile-callgraph/scripts/parse_makefile.py:99-101 | the group `(.+)` after `\s*` yields the words of the whole remainder, including when the remainder is all whitespace |
| Patterns.CutComment | create-makefile-callgraph/scripts/parse_makefile.py:171 | the text is cut just before its first `#`: the result is a prefix with no `#`, and it is either the whole text or followed in it by a `#` |
| Patterns.DepsOf | create-makefile-callgraph/scripts/parse_makefile.py:168-173 | the dependencies are the whitespace-separated words of the text before its first `#`; each is non-empty and holds no whitespace and no `#` |
| Patterns.SpaceRunAll | create-makefile-callgraph/scripts/parse_makefile.py:200 | the run `\s+` takes is all whitespace |
| Patterns.SpaceRunEnd | create-makefile-callgraph/scripts/parse_makefile.py:200 | `\s+` is greedy: the run stops before a non-whitespace character or at the end |
| Patterns.SpaceRunIs | create-makefile-callgraph/scripts/parse_makefile.py:200 | a whitespace run that stops before a non-whitespace character or at the end is exactly the run `\s+` takes |
| Patterns.NonSpaceRunAll | create-makefile-callgraph/scripts/parse_makefile.py:200 | the run `[^\s]+` takes has no whitespace |
| Patterns.NonSpaceRunIs | create-makefile-callgraph/scripts/parse_makefile.py:200 | a run without whitespace that stops at whitespace or at the end is exactly the run `[^\s]+` takes |
| Patterns.TargetCharRunAll | create-makefile-callgraph/scripts/parse_makefile.py:200 | the run `[a-zA-Z0-9_/-]+` takes is all target characters |
| Patterns.TargetCharRunEnd | create-makefile-callgraph/scripts/parse_makefile.py:200 | `[a-zA-Z0-9_/-]+` is greedy: the run stops before another character or at the end |
| Patterns.TargetCharRunAtLeast | create-makefile-callgraph/scripts/parse_makefile.py:200 | a run of target characters is taken whole, and is exactly the run taken when a non-target character or the end follows it |
| Patterns.WithDirectory | create-makefile-callgraph/scripts/parse_makefile.py:200-205 | the `-C dir` group, when it takes part, starts with `-` and yields a non-empty `dir/target` with no whitespace |
| Patterns.WithDirectoryIff | create-makefile-callgraph/scripts/parse_makefile.py:200-205 | the `-C` group takes part exactly when the text has the layout `-C`, whitespace, a directory without whitespace, whitespace, and at least one target character |
| Patterns.LayoutValue | create-makefile-callgraph/scripts/parse_makefile.py:200-205 | with that layout the group yields the directory, a `/`, and the whole run of target characters after it |
| Patterns.SubTarget | create-makefile-callgraph/scripts/parse_makefile.py:200-207 | the bare sub-target exists exactly when a target character follows; it is the whole run of target characters there, and it holds no whitespace |
| Patterns.MatchAt | create-makefile-callgraph/scripts/parse_makefile.py:200-207 | the pattern yields a call at a position exactly when `$(MAKE)` or `${MAKE}`, whitespace and a target character are found there, and the call holds no whitespace |
| Patterns.MatchAfter | create-makefile-callgraph/scripts/parse_makefile.py:200-207 | after `$(MAKE)\s+`, a call is found exactly when a target character follows |
| Patterns.FirstMatchFrom | create-makefile-callgraph/scripts/parse_makefile.py:200 | `re.search` takes the leftmost position where the pattern matches: a match, with none before it; `None` means no match anywhere |
| Patterns.MakeCallDirectory | create-makefile-callgraph/scripts/parse_makefile.py:200-207 | for any recipe line with no earlier match, `$(MAKE) -C dir tgt` followed by a non-target character or the end records `dir/tgt` |
| Patterns.MakeCallBare | create-makefile-callgraph/scripts/parse_makefile.py:200-207 | for any recipe line with no earlier match, `$(MAKE) tgt` followed by a non-target character or the end records `tgt` |
| Patterns.MakeCallWithDirectory | create-makefile-callgraph/scripts/parse_makefile.py:200-205 | `$(MAKE) -C sub all` records `sub/all` |
| Patterns.MakeCallBraces | create-makefile-callgraph/scripts/parse_makefile.py:200-207 | `${MAKE} install` records `install` |
| Patterns.MakeCallTakesOption | create-makefile-callgraph/scripts/parse_makefile.py:200-207 | `$(MAKE) -j4 all` records `-j4`, because `-` is a sub-target character |
| Patterns.MakeCallDirectoryOnly | create-makefile-callgraph/scripts/parse_makefile.py:200-207 | `$(MAKE) -C sub` records `-C`, because the `-C` group needs a sub-target after the directory |
| Database.RecipeEnd | create-makefile-callgraph/scripts/parse_makefile.py:184-195 | the look-ahead passes only `#`-prefixed and blank lines, and stops at the end or at the first other line |
| Database.CommentLinesAre | create-makefile-callgraph/scripts/parse_makefile.py:185-191 | the positions listed are `#` lines of the range, in increasing order |
| Database.CommentLinesAll | create-makefile-callgraph/scripts/parse_makefile.py:185-191 | every `#` line of the range is listed |
| Database.RecipeTextLines | create-makefile-callgraph/scripts/parse_makefile.py:184-195 | the recipe holds one entry per `#` line, in line order: that line after its `#`, stripped; blank lines add nothing |
| Database.CallsOf | create-makefile-callgraph/scripts/parse_makefile.py:198-207 | at most one call per recipe line, and each call is non-empty with no whitespace |
| Database.Step | create-makefile-callgraph/scripts/parse_makefile.py:86-211 | each pass of the scan loop moves forward and produces at most one event |
| Database.RuleStep | create-makefile-callgraph/scripts/parse_makefile.py:120-211 | a database line that is not a comment, blank or `.PHONY` line moves the scan forward, stays in the database section, and produces at most one rule |
| Database.Apply | create-makefile-callgraph/scripts/parse_makefile.py:102-209 | recording one event keeps both maps well-formed: keys without repeats, matching the stored entries |
| Database.ParseMakeDatabase | create-makefile-callgraph/scripts/parse_makefile.py:56-217 | the loop, its look-ahead and the final de-duplication compute `Parse` of the text |
| Database.ScanLine | create-makefile-callgraph/scripts/parse_makefile.py:87-211 | one pass of the loop body updates the three results as the step's events say, and moves to the line and section the step gives |
| Database.ReadRecipe | create-makefile-callgraph/scripts/parse_makefile.py:183-195 | the look-ahead stops where `RecipeEnd` says and collects `RecipeText` of the lines it passed |
| Database.TakeRecipeLine | create-makefile-callgraph/scripts/parse_makefile.py:188-193 | a `#` line adds its stripped text after the `#`; a blank line adds nothing |
| Database.RecordCalls | create-makefile-callgraph/scripts/parse_makefile.py:198-207 | the recipe's calls are appended to the current target's list, and the key is created only when there is a call |
| Database.DedupEach | create-makefile-callgraph/scripts/parse_makefile.py:213-215 | every dependency list is replaced by its de-duplicated form, and the key order is kept |
| Database.PhonyUpdate | create-makefile-callgraph/scripts/parse_makefile.py:99-102 | the phony set gains the words of the `.PHONY:` group, and is unchanged when there is no match |
| Database.ApplyAllAppend | create-makefile-callgraph/scripts/parse_makefile.py:86-211 | recording a list of events in two parts is recording it whole |
| Database.PreambleOnlyPhony | create-makefile-callgraph/scripts/parse_makefile.py:89-104 | lines before the first `# Files` line only add the names their `.PHONY:` lines declare; targets and calls are untouched |
| Database.PreambleScan | create-makefile-callgraph/scripts/parse_makefile.py:96-104 | outside the database section the scan takes the lines one at a time, each giving at most a `.PHONY` declaration |
| Database.ApplyPreamble | create-makefile-callgraph/scripts/parse_makefile.py:96-104 | recording the preamble's events adds exactly the names it declares to the phony set |
| Database.ApplyDecls | create-makefile-callgraph/scripts/parse_makefile.py:102 | `.PHONY` declarations change only the phony set, adding their names |
| Database.NoDatabaseSection | create-makefile-callgraph/scripts/parse_makefile.py:86-104 | output with no `# Files` line gives empty targets and calls, and the phony names its `.PHONY:` lines declare |
| Database.AcceptedTarget | create-makefile-callgraph/scripts/parse_makefile.py:136-165 | a target that passes the filters is not in either skip set, is not upper case without a space, does not start with `/` or `.`, and has no `%` |
| Database.StepRule | create-makefile-callgraph/scripts/parse_makefile.py:120-209 | a rule produced at line `i` is that line, ends where the scan resumes, and meets `RuleFacts`: its target and dependencies are what the target pattern reads from its line, and its calls are those of the recipe text it consumed |
| Database.RuleStepRule | create-makefile-callgraph/scripts/parse_makefile.py:121-209 | a rule comes from a line that is not an assignment (`=` before the first `:`), names an accepted target, and is followed by exactly the recipe lines the look-ahead consumed. The rule's target and dependencies are those the pattern reads from the line, and its calls those of the consumed recipe text |
| Database.EventsRules | create-makefile-callgraph/scripts/parse_makefile.py:86-211 | every rule the scan produces meets `RuleFacts` (its line, target, dependencies and calls as read from the text), and each rule's recipe ends before the next rule's line |
| Database.RecipeLinesNotRules | create-makefile-callgraph/scripts/parse_makefile.py:183-209 | a line consumed as recipe text is never read as a target line |
| Database.CallsOfAppend | create-makefile-callgraph/scripts/parse_makefile.py:198-207 | the calls of a recipe are the calls of its lines in order |
| Database.CallsOfLine | create-makefile-callgraph/scripts/parse_makefile.py:199-207 | a single recipe line gives its first `$(MAKE)` match, or nothing |
| Database.ApplyAllKeys | create-makefile-callgraph/scripts/parse_makefile.py:176-177 | targets enter the map in the order of their first rule, each once |
| Database.ExtendKeys | create-makefile-callgraph/scripts/parse_makefile.py:176-177 | storing one target keeps the keys in order of first appearance |
| Database.ApplyAllDeps | create-makefile-callgraph/scripts/parse_makefile.py:176-178 | each target's raw list is the concatenation, in input order, of the dependencies of its rules |
| Database.ApplyAllCalls | create-makefile-callgraph/scripts/parse_makefile.py:204-207 | each target's call list is the concatenation, in input order, of the calls of its rules' recipes |
| Database.ApplyAllConsistent | create-makefile-callgraph/scripts/parse_makefile.py:176-207 | calls are recorded only for a target that has just been stored, so every caller is a target |
| Database.RuleTargetsAccepted | create-makefile-callgraph/scripts/parse_makefile.py:136-165 | every target named by a rule is an accepted name |
| Database.ParseTargets | create-makefile-callgraph/scripts/parse_makefile.py:167-178 | the targets' keys are the accepted targets in order of first rule. Each list is the de-duplicated concatenation of its rules' dependencies and has no repeats. The de-duplication is at lines 213-215 |
| Database.ParseKeys | create-makefile-callgraph/scripts/parse_makefile.py:136-165 | every key of the targets map is an accepted name, and every key of the calls map is a key of the targets map |
| Database.ParsePhony | create-makefile-callgraph/scripts/parse_makefile.py:86-118 | the phony set of the parse is exactly the names declared on `.PHONY:` lines before the first `# Files` line, plus those declared on the lines after it that do not start with `#` |
| Database.FirstFilesLine | create-makefile-callgraph/scripts/parse_makefile.py:89-92 | the index of the first line that starts with `# Files`, or the number of lines when there is none |
| Database.DbEventsPhony | create-makefile-callgraph/scripts/parse_makefile.py:105-118 | inside the database section, the declared names are exactly those of the `.PHONY:` lines that do not start with `#`. The lines a rule's look-ahead consumes are `#` or blank lines, and these declare none |
| Database.ParseNoAssignmentTargets | create-makefile-callgraph/scripts/parse_makefile.py:120-134 | every target of the parse comes from a target line that is not recipe text and has no `=` before its first `:` |
| Database.ParseCalls | create-makefile-callgraph/scripts/parse_makefile.py:198-209 | each target's call list is, in order, the first `$(MAKE)` match of every recipe line of its rules |
| Database.RuleLinePositionsAre | create-makefile-callgraph/scripts/parse_makefile.py:86-165 | the rule-line positions of a text are, in increasing order, exactly the lines after the first `# Files` line that are neither recipe text nor `.PHONY` lines, match the target pattern, have no `=` before their first `:` and name a target no filter rejects |
| Database.ParseRuleLines | create-makefile-callgraph/scripts/parse_makefile.py:86-211 | the scan yields one rule per rule-line position and no other rule, in text order |
| Database.DbEventsLines | create-makefile-callgraph/scripts/parse_makefile.py:106-211 | inside the database section the rules yielded from a line on sit exactly at the rule lines from there on: the look-ahead consumes only `#` and blank lines, and those are never rule lines |
| Database.RuleStepLines | create-makefile-callgraph/scripts/parse_makefile.py:120-211 | at a line that is neither recipe text nor `.PHONY`, the step yields one rule at that line and resumes where the look-ahead stops exactly when the line is a rule line; otherwise it yields nothing and moves to the next line |
| Database.RecipeEndIs | create-makefile-callgraph/scripts/parse_makefile.py:184-194 | the look-ahead stops at the first line from its start that is neither `#` text nor blank, or at the end of the text |
| Database.ParseTargetsText | create-makefile-callgraph/scripts/parse_makefile.py:167-178 | the targets' keys are the targets of the rule lines, in order of first appearance. Each target's list is the de-duplicated concatenation of the dependencies those lines list for it, in text order. The de-duplication is at lines 213-215 |
| Database.ParseKeyLines | create-makefile-callgraph/scripts/parse_makefile.py:120-178 | a name is a key of the targets exactly when some line after the first `# Files` line is a rule line whose target is that name |
| Database.ParseCallsText | create-makefile-callgraph/scripts/parse_makefile.py:184-209 | each target's call list is the concatenation, in text order, of the calls found in the recipes that follow its rule lines |
| Cycles.Position | create-makefile-callgraph/scripts/parse_makefile.py:236 | `rec_stack.index(node)` is the first position holding the node |
| Cycles.TopPosition | create-makefile-callgraph/scripts/parse_makefile.py:236-237 | on a stack without repeats, the top node is found at the top, so the slice from it is just that node |
| Cycles.SelfReport | create-makefile-callgraph/scripts/parse_makefile.py:234-238 | an edge from the top of the stack to itself is reported as `[node, node]` |
| Cycles.RankDrops | create-makefile-callgraph/scripts/parse_makefile.py:248-249 | along a path in a graph whose edges all go down a ranking, the rank drops by at least one per step |
| Cycles.RankedNoCycle | create-makefile-callgraph/scripts/parse_makefile.py:227-257 | a graph whose edges all go down some ranking has no cycle to report |
| Cycles.PushKeepsInv | create-makefile-callgraph/scripts/parse_makefile.py:244-245 | pushing an unvisited successor of the top keeps the stack a path of distinct visited nodes |
| Cycles.PopKeepsInv | create-makefile-callgraph/scripts/parse_makefile.py:251 | popping a node whose successors are all visited keeps the search state |
| Cycles.ReportKeepsInv | create-makefile-callgraph/scripts/parse_makefile.py:234-238 | the report for a back edge is a cycle: it returns to its first node, follows edges, and repeats no node before its end |
| Cycles.PushKeepsFinished | create-makefile-callgraph/scripts/parse_makefile.py:244-245 | entering an unvisited node keeps the finish times: they are still exactly those of the visited nodes off the stack |
| Cycles.PopKeepsFinished | create-makefile-callgraph/scripts/parse_makefile.py:251 | finishing a node none of whose successors is on the stack gives it the latest finish time, after all of its successors |
| Cycles.FinishRanks | create-makefile-callgraph/scripts/parse_makefile.py:227-257 | when the search ends with nothing reported, the finish times rank the graph so that every edge goes down |
| Cycles.CycleSearch.constructor | create-makefile-callgraph/scripts/parse_makefile.py:229-231 | the search starts with no visited node, an empty stack and no report |
| Cycles.CycleSearch.Dfs | create-makefile-callgraph/scripts/parse_makefile.py:233-251 | a node on the stack adds exactly the report `rec_stack[index:] + [node]`. A node on the stack leaves `visited` unchanged, and a node already visited and off the stack changes nothing. Otherwise the node ends up visited and the stack is restored. Visited nodes and reports only grow, and every report is a cycle |
| Cycles.CycleSearch.Visit | create-makefile-callgraph/scripts/parse_makefile.py:244-251 | a node seen for the first time ends up visited, the stack is as it was before, and visited nodes and reports only grow, with every report a cycle |
| Cycles.CycleSearch.Push | create-makefile-callgraph/scripts/parse_makefile.py:244-245 | the node is added to `visited` and pushed on the stack, the reports are unchanged, and the stack stays a path of the graph |
| Cycles.CycleSearch.Pop | create-makefile-callgraph/scripts/parse_makefile.py:251 | once every successor is visited, popping the node restores the stack below it and changes neither `visited` nor the reports; the node gets the next finish time, which keeps every edge from a finished node leading to an earlier-finished node while nothing is reported |
| Cycles.CycleSearch.Explore | create-makefile-callgraph/scripts/parse_makefile.py:247-249 | after the loop over a node's successors, all of them are visited, and a self-edge has been reported as `[node, node]`. If nothing has been reported, none of them is on the stack |
| Cycles.CycleSearch.ExploreEdge | create-makefile-callgraph/scripts/parse_makefile.py:247-249 | one turn of the loop leaves its successor visited, reports a self-edge, and, if nothing has been reported, shows the successor was not on the stack |
| Cycles.CycleSearch.Search | create-makefile-callgraph/scripts/parse_makefile.py:253-255 | every key of the graph ends up visited, with the stack empty again |
| Cycles.FindCycles | create-makefile-callgraph/scripts/parse_makefile.py:227-257 | every report is a cycle of the graph; a key with an edge to itself is reported as `[key, key]`; a graph with a ranking that every edge goes down gives no report; the report list is empty exactly when the graph has no cycle |
| Analysis.WithinMembers | create-makefile-callgraph/scripts/parse_makefile.py:345 | the phony filter keeps exactly the dependencies that are phony |
| Analysis.WithoutMembers | create-makefile-callgraph/scripts/parse_makefile.py:360-362 | the callers added to the graph are exactly those that are not already in it |
| Analysis.WithinAppend | create-makefile-callgraph/scripts/parse_makefile.py:345 | the filter keeps relative order: filtering a concatenation is concatenating the filtered parts |
| Analysis.WithoutAppend | create-makefile-callgraph/scripts/parse_makefile.py:360-362 | the same holds for dropping a set of names |
| Analysis.WithinDistinct | create-makefile-callgraph/scripts/parse_makefile.py:342-345 | filtering a list without repeats gives a list without repeats |
| Analysis.WithoutDistinct | create-makefile-callgraph/scripts/parse_makefile.py:360-362 | dropping names from a list without repeats gives a list without repeats |
| Analysis.WithinIdempotent | create-makefile-callgraph/scripts/parse_makefile.py:345 | filtering twice by the phony set is filtering once |
| Analysis.RestrictKeys | create-makefile-callgraph/scripts/parse_makefile.py:342 | the dict comprehension keeps exactly the phony keys, in their order, with their values unchanged |
| Analysis.PhonyOnly | create-makefile-callgraph/scripts/parse_makefile.py:341-349 | only the phony targets remain, in their order, each with exactly its phony dependencies; the make calls keep only the phony callers' entries, unchanged |
| Analysis.SrcMatchSingleLine | create-makefile-callgraph/scripts/parse_makefile.py:354 | on a name without a line feed, `re.match(r'src.*$', d)` holds exactly when the name starts with `src` |
| Analysis.SrcMatchExamples | create-makefile-callgraph/scripts/parse_makefile.py:354 | the pattern is anchored at the start; it accepts a final line feed and rejects an inner one |
| Analysis.WithoutSrcMembers | create-makefile-callgraph/scripts/parse_makefile.py:354 | the no-src filter removes exactly the dependencies the pattern matches |
| Analysis.NoSrc | create-makefile-callgraph/scripts/parse_makefile.py:352-354 | every target keeps its place, and its list loses exactly the dependencies the pattern matches, keeping the others in order |
| Analysis.CopyTargets | create-makefile-callgraph/scripts/parse_makefile.py:357-359 | the first loop builds a copy of the targets map: the same keys in the same order with the same lists |
| Analysis.MergeCalls | create-makefile-callgraph/scripts/parse_makefile.py:360-363 | after the second loop, every caller's list is its dependencies followed by its calls, and callers that are not targets are appended in order |
| Analysis.MergeEntry | create-makefile-callgraph/scripts/parse_makefile.py:361-363 | one caller is added if missing, and its calls are appended to its list |
| Analysis.MergeNext | create-makefile-callgraph/scripts/parse_makefile.py:361-363 | one pass of the second loop keeps the merge invariant one caller further on |
| Analysis.MergeGraph | create-makefile-callgraph/scripts/parse_makefile.py:357-363 | the graph's keys are the targets, then the callers that are not targets. Each node's successors are `targets.get(t, [])` followed by `make_calls.get(t, [])` |
| Analysis.ApplyFilters | create-makefile-callgraph/scripts/parse_makefile.py:341-354 | the kept targets are the phony ones when asked, each list filtered as chosen. Calls are unchanged for kept targets, and every kept caller is still a kept target |
| Analysis.Analyze | create-makefile-callgraph/scripts/parse_makefile.py:338-366 | the graph holds the parsed targets, filtered as chosen, in their order, and each node's successors are its shown dependencies then its calls. Every report is a cycle of that graph; a self-edge is reported; there is no report exactly when the graph has no cycle |

## Left out

- Running `make -pn` as a subprocess, with its 30-second timeout and error
  exits (`parse_makefile_with_make`, lines 19-54). The text make prints is
  the model's input. For the same reason the `parse_makefile` wrapper
  (lines 219-225) is not part of this model.
- Command-line parsing (`parse_args`); the flags `--phony-only` and
  `--no-src` are parameters of `Analysis.Analyze`.
- All printing and sorting in `main`, and the DOT and Mermaid writers
  `generate_dot` and `generate_mermaid`. This includes the node-id
  sanitisation at lines 301 and 303, which replaces `.` and `/` by `_`.
- The `makefile_dir` parameter of `parse_make_database` is never read and
  is not modelled. The `path` parameter of `dfs` is read only to build
  `path + [dep]` (line 249), which becomes the next call's `path` and
  nothing else. It therefore has no effect on any result and is not
  modelled either.
- Cycles.CycleSearch.Dfs: the nested `dfs` (lines 233-249) recurses once
  per node on the current path. A dependency chain deeper than Python's
  default recursion limit (about 1000 frames) raises `RecursionError`, and
  `main` stops with a traceback. The model has no such limit and always
  returns the list of cycles.
- Patterns.IsUpper: Python's `str.isupper` is modelled on ASCII letters
  only. A name whose only cased characters are non-ASCII letters, such as
  `É`, is treated as not upper case, so the model keeps a target Python
  skips. A name that mixes ASCII capitals with non-ASCII lower-case letters,
  such as `Aé`, is treated as upper case, so the model skips a target
  Python keeps.
- General regular-expression matching: only the three patterns the scan
  uses are modelled, each as a hand-written character-level function.
- Cycles.FindCycles: does not state which cycles are found beyond
  self-edges. The search reports the back edges it meets, with one
  `visited` set shared by all roots, so it need not report every cycle of
  a graph. What is stated: every report is a cycle, self-edges are
  reported, and there is at least one report exactly when the graph has a
  cycle.
- Patterns.MakeCallBare: stated for sub-targets that do not start with
  `-`. A sub-target that starts with `-C` can let the `-C` group take part
  instead; the option-like case `-j4` is covered by
  `Patterns.MakeCallTakesOption`. Like `Patterns.MakeCallDirectory`, it is
  stated for the `$(MAKE)` spelling with single spaces.
- Patterns.MakeCallDirectory: stated for the `$(MAKE)` spelling with one
  space between the parts. `MakeCall` itself accepts `${MAKE}` and any
  whitespace run, as the pattern at line 200 does. `${MAKE}` is shown by
  `Patterns.MakeCallBraces`.
- Python's integer and string limits, and the exceptions raised on memory
  exhaustion, are not modelled.
