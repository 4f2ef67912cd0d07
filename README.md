# genmain dependency engine, modelled in Dafny

`schema/util/genmain.py` builds the install order of a database schema. It reads rule files
(`*.deps`) that declare `subject :: dependencies` rules, discovers the schema files
(`.sql`, `.pks`, `.pkb`) of a list of directories, and sorts them so that every file comes
after the files it depends on. Three pieces make this work:

- **Names.** A reference is qualified into an ordered tuple of candidate keys
  (`Name.qualify`). Every lookup is first-match-wins over these keys.
- **The rule table `DepTab`.** It reads rule files: comment lines, backslash-continued
  lines, `path = ...` options and rule lines. Each rule is indexed under every qualified
  form of its subject. Files look their rule up, and each hit is counted. A rule that no
  file hit becomes an alias. An alias is expanded in place wherever it is referenced, with
  a history list guarding against cycles.
- **The ordering list `DepList`.** Files are registered under their keys. A file whose
  primary key is already taken is recorded as an override (`Reader.getfiles`). The
  registered files are then emitted in post-order by an iterative depth-first search. The
  search has an explicit stack of `(item, iterator)` frames and a `pushed` set, and it
  reports unresolved reference groups in `unfound`.

The project mirrors that structure:

| file | module | what |
|---|---|---|
| `wrappers.dfy` | `Wrappers` | `Option` |
| `text.dfy` | `Text` | `strip`, `split(sep, 1)`, `replace`, `endswith` and the `[,\s]+` tokeniser |
| `names.dfy` | `Names` | `Name.qualify`, `basenames`, `qualified`; first-match lookup; indexing under several keys |
| `rulefile.dfy` | `RuleFile` | `DepTab.lines`, the decision of `setoption`, and the rule-line parsing of `read`, as functions |
| `expansion.dfy` | `Expansion` | `DepTab.expand` / `Entry.expanded` as functions over the alias table, and their termination |
| `ruletable.dfy` | `RuleTable` | the `Entry` and `DepTab` classes: `read`, `setoption`, `find`, `findaliases`, `expand`, `expanded` |
| `ordering.dfy` | `Ordering` | the `DepList` class: `add`, `find`, `top`, `push`, `pop`, `sort`, and the invariant of the search |
| `reader.dfy` | `Reading` | `fsort`, the loop of `files`, `getfiles` (as a function and as the `Reader` class), `read`, `sort` |

The imperative parts are classes with their fields:
- `Entry.hits`;
- `DepTab.content`, `index`, `path` and `aliases`;
- `DepList.unsorted`, `index`, `stack`, `pushed`, `sorted` and `unfound`;
- `Reader.overrides`.

Each method is proved against a function of its inputs:
- `read` against `ReadSteps` and `Register`;
- `expand` against `ExpandGroup` and `ExpandList`;
- `getfiles` against `RegisterDirs`;
- `sort` against the search invariant `Searching`, which yields a duplicate-free list of
  the added items (a permutation of them when they were distinct), post-order and the
  `unfound` count.

Two behaviours of the code a reader may not expect, which the model follows:

- **Extension variants do not override.** Files such as `tables/widget.sql` and
  `tables/widget.pkb` might look like one overriding the other. The override test uses
  `qualify(d, fn)[0]`, which keeps the extension. So both files are added, and the later
  one takes over the shared key `tables/widget`. `Reading.ExtensionVariantsBothAdded`
  proves this.
- **Other option keys are not ignored.** For an option line with a key other than `path`,
  `setoption` returns `False`, and `read` goes on to parse the line as a rule line. A line
  like `x = a :: b` therefore declares a rule. `RuleFile.PathOption` and
  `RuleFile.ReadSteps` model this fall-through.

## Model

| member | source | states |
|---|---|---|
| Names.AsList | schema/util/genmain.py:52-53 | a non-list namespace is a one-element list; a list is kept as it is |
| Names.LastDot | schema/util/genmain.py:63-64 | `rsplit('.', 1)` splits at the last `.`: none exactly when there is no `.`; no `.` after the position |
| Names.StripExt | schema/util/genmain.py:60-68 | the name minus its last `.ext` (with `.` not in `ext`); the name itself without a `.` |
| Names.Basenames | schema/util/genmain.py:60-68 | the name first; a second element exactly when the name has a `.`, and it is the name without its extension |
| Names.Qualify | schema/util/genmain.py:45-58 | the result is non-empty exactly when the name is qualified or there is a namespace; its first key is the name (qualified) or `nss[0]/fn` |
| Names.Qualified | schema/util/genmain.py:71-72 | a name is qualified exactly when it holds a `/` |
| Names.QualifyQualified | schema/util/genmain.py:45-51 | a qualified name yields exactly `[fn, stripped]` (or `[fn]` without `.`); no namespace is prepended |
| Names.QualifyUnqualified | schema/util/genmain.py:52-58 | namespace-major: length is namespaces × 1 or 2, and for each namespace in order `ns/fn` then `ns/stripped` |
| Names.FirstHit | schema/util/genmain.py:188-197 | position of the first candidate present: none exactly when no candidate is present; no earlier candidate is present |
| Names.FirstMatch | schema/util/genmain.py:379-386 | first-match-wins lookup: none exactly when no candidate is present; otherwise the value of the first present candidate |
| Names.FirstNamespaceWins | schema/util/genmain.py:52-58 | when the namespaces before `a` in a search path hold neither `ns/fn` nor `ns/fn-without-extension` and `a` holds `a/fn`, the lookup of an unqualified `fn` returns the value of `a/fn`: the earliest holding namespace wins |
| Names.FirstMatchAt | schema/util/genmain.py:190-196 | a present key with no present key before it is the one the lookup returns |
| Names.IndexUnderValue | schema/util/genmain.py:347-354 | indexing a value under several keys adds exactly those keys, maps each to the value, and keeps every other key |
| Names.IndexUnder | schema/util/genmain.py:352-353 | the index after `index[key] = item` for each key in turn; `Names.IndexUnderValue` states its effect |
| Text.Strip | schema/util/genmain.py:167-168 | `strip()`: the result starts and ends with non-whitespace; unchanged when already trimmed; empty on all-whitespace input |
| Text.StripIsSlice | schema/util/genmain.py:167-168 | `strip()` returns a slice of its input with only whitespace before and after it |
| Text.SplitSeps | schema/util/genmain.py:167-168 | `re.split('[,\s]+')` yields at least one piece, and the first piece is non-empty when the input starts with a non-separator |
| Text.SplitSepsPieces | schema/util/genmain.py:167-168 | no piece holds a separator, and only the first and the last piece may be empty |
| Text.SplitSepsKeepsText | schema/util/genmain.py:167-168 | the pieces concatenate to the input without its separators |
| Text.SplitSepsTokenises | schema/util/genmain.py:167-168 | the pieces, with the separator runs between them (`|pieces| - 1` of them, each non-empty), rebuild the input in order |
| Text.TokenisedUnique | schema/util/genmain.py:167-168 | any pieces and separator runs that rebuild the input in that way are the pieces of `re.split('[,\s]+')` |
| Text.Values | schema/util/genmain.py:167-168 | `values(line)` yields at least one token |
| Text.ValuesPieces | schema/util/genmain.py:167-168 | the tokens of `values(line)` hold no separator, and only the first and the last may be empty |
| Text.ValuesTokenise | schema/util/genmain.py:167-168 | the tokens of `values(line)` are the pieces between the separator runs of the trimmed line, and the only such pieces |
| Text.IndexOf | schema/util/genmain.py:131 | a found position leaves room for the pattern |
| Text.IndexOfFirst | schema/util/genmain.py:131 | the first occurrence of a pattern: it occurs there and at no earlier position |
| Text.SplitOnceFirst | schema/util/genmain.py:131 | `split(sep, 1)` gives two parts exactly when `sep` occurs; the parts rejoin with `sep` to the input, split at the first occurrence |
| Text.SplitOnce | schema/util/genmain.py:131 | `split(sep, 1)` as an optional pair of parts; `Text.SplitOnceFirst` states where it splits |
| Text.RemoveAll | schema/util/genmain.py:137 | `replace(c, '')`: `c` no longer occurs, the text does not grow, text without `c` is unchanged, and `c` alone becomes empty |
| Text.RemoveAllAppend | schema/util/genmain.py:137 | removal distributes over concatenation, so every character other than `c` is kept, in order |
| RuleFile.Lines | schema/util/genmain.py:170-186 | the loop of `lines` computes `Joined(raw)` |
| RuleFile.JoinStep | schema/util/genmain.py:176-185 | one physical line: a comment or empty line changes nothing; a line after a continued record replaces that record with the joined text; any other line starts a record |
| RuleFile.Joined | schema/util/genmain.py:170-186 | the records of all physical lines, numbered from 1; `RuleFile.JoinedRuns` states what they are |
| RuleFile.JoinedRuns | schema/util/genmain.py:170-186 | every record comes from one maximal run of kept lines in which all lines but the last end in a continuation; its text is those lines, each but the last cut by two characters, joined by single spaces; its number is the run's last line |
| RuleFile.JoinedNumbered | schema/util/genmain.py:170-186 | every record is numbered by a kept physical line, numbers strictly increase, and only the last record may end in a continuation |
| RuleFile.JoinedWithoutContinuations | schema/util/genmain.py:170-186 | without continuations, `lines` keeps exactly the non-comment lines, each with its own number, in input order |
| RuleFile.JoinedRecordOk | schema/util/genmain.py:180-183 | a joined record is numbered by the later kept line |
| RuleFile.Substituted | schema/util/genmain.py:158-162 | each value `.` becomes the namespace; every other value is kept, position for position |
| RuleFile.PathOption | schema/util/genmain.py:153-165 | a line is a path option exactly when it has `=` and the trimmed text before the first `=` is `path`; the path is the value list with `.` replaced |
| RuleFile.PathOptionResolvesDot | schema/util/genmain.py:158-162 | a search path never keeps `.` (unless the namespace is `.`) |
| RuleFile.DepGroupsOne | schema/util/genmain.py:139-147 | a token yields `qualify(path, token.strip())` when it is non-empty after trimming, and nothing otherwise |
| RuleFile.DepGroups | schema/util/genmain.py:139-147 | at most one group per token; `RuleFile.DepGroupsOne` and `RuleFile.DepGroupsAppend` fix the groups |
| RuleFile.DepGroupsAppend | schema/util/genmain.py:139-147 | the groups of consecutive token lists follow each other, so the groups are the single tokens' groups in token order |
| RuleFile.DepGroupsNonEmpty | schema/util/genmain.py:139-147 | every declared group holds a candidate key when the search path is non-empty |
| RuleFile.ParseRule | schema/util/genmain.py:131-147 | a rule exactly when the line holds `::`; its subject is the trimmed text before the first `::`, its line is the record's, and its groups are `DepGroups` of the tokens after `::` with backslashes removed |
| RuleFile.ReadSteps | schema/util/genmain.py:125-151 | the search path is never empty |
| RuleFile.ReadStepsPath | schema/util/genmain.py:127-163 | the search path is the file's namespace until a path option is read, and then the value of the last path option |
| RuleFile.RuleSites | schema/util/genmain.py:129-133 | the positions of the records that declare rules: strictly increasing, and exactly the non-option records holding `::` |
| RuleFile.RulesMatchRecords | schema/util/genmain.py:127-150 | one rule per rule site, in order, each equal to its record parsed under the search path in force before that record |
| RuleFile.DeclaredGroupsNonEmpty | schema/util/genmain.py:139-147 | no rule of a file declares an empty group |
| Expansion.ScanKeys | schema/util/genmain.py:199-215 | the history only grows, by distinct alias keys it did not hold; literal keys are never aliases; nested groups are non-empty and alias-free |
| Expansion.ExpandGroup | schema/util/genmain.py:199-215 | as `ScanKeys`, and the literal keys are dropped whenever the expansion yielded a group |
| Expansion.ExpandList | schema/util/genmain.py:97-104 | the history only grows; the result never holds an empty group or an alias key |
| Expansion.PushShrinks | schema/util/genmain.py:209-211 | entering an alias strictly shrinks the set of aliases not yet in the history, which bounds the recursion |
| Expansion.ScanKeysLiteral | schema/util/genmain.py:201-208 | the literal keys are the non-alias keys not in the history, in their original order |
| Expansion.ExpandGroupLiteral | schema/util/genmain.py:213-214 | when the expansion yielded no group, the group keeps its plain keys |
| Expansion.ExpandListNoAlias | schema/util/genmain.py:97-104 | without aliases, expansion returns the declared non-empty groups unchanged |
| Expansion.MutualAliases | schema/util/genmain.py:201-212 | two aliases naming each other: expansion ends, enters each once, reports the re-entry, and yields no group |
| RuleTable.Entry.constructor | schema/util/genmain.py:86-91 | a new rule has its info, subject and groups and no hits |
| RuleTable.Entry.Expanded | schema/util/genmain.py:97-104 | computes `ExpandList` over the alias table; each entered alias gets one more hit per entry |
| RuleTable.RegisterKeys | schema/util/genmain.py:149-150 | after a file, a key is indexed exactly when it was before or a new subject yields it |
| RuleTable.Register | schema/util/genmain.py:149-150 | the index after each new rule is indexed under its subject's keys in turn; `RuleTable.RegisterKeys`, `RuleTable.RegisterLastWins` and `RuleTable.RegisterKeeps` state its effect |
| RuleTable.RegisterLastWins | schema/util/genmain.py:149-150 | a shared key maps to the last rule whose subject yields it |
| RuleTable.RegisterKeeps | schema/util/genmain.py:149-150 | a key no new subject yields keeps its old rule |
| RuleTable.DepTab.constructor | schema/util/genmain.py:119-123 | the table starts empty |
| RuleTable.DepTab.SetOption | schema/util/genmain.py:153-165 | applied exactly when the line is a path option, and then the search path is replaced; otherwise unchanged |
| RuleTable.DepTab.Substitute | schema/util/genmain.py:158-162 | the loop computes `Substituted` |
| RuleTable.DepTab.Read | schema/util/genmain.py:125-151 | old rules are kept; the new rules describe the file's rule lines one for one; the index is the old one with each new subject registered in order; the path is the file's final search path |
| RuleTable.DepTab.ReadRecords | schema/util/genmain.py:128-150 | the loop of `read` reaches the state `ReadSteps` and `Register` describe |
| RuleTable.DepTab.ReadRecord | schema/util/genmain.py:129-150 | one record: an option sets the path; a rule line adds one fresh rule with no hits and indexes it; anything else changes nothing |
| RuleTable.DepTab.RuleLine | schema/util/genmain.py:131-150 | a record that is not an option: a rule is added and indexed exactly when the line holds `::`, and otherwise nothing changes |
| RuleTable.DepTab.AddRule | schema/util/genmain.py:131-150 | a rule exactly when the line holds `::`; it carries the file, line, trimmed subject and groups, and is appended and indexed |
| RuleTable.DepTab.Dependencies | schema/util/genmain.py:139-147 | the loop computes the groups `DepGroups` declares for the tokens, with backslashes removed |
| RuleTable.DepTab.AddEntry | schema/util/genmain.py:148-150 | appends the rule and indexes it under every qualified form of its subject |
| RuleTable.DepTab.Find | schema/util/genmain.py:188-197 | the rule of the first qualified form present; that rule gets exactly one hit, and no other counter changes |
| RuleTable.DepTab.FindAliases | schema/util/genmain.py:217-222 | a key is an alias exactly when it is indexed and its rule has no hits; the alias is the indexed rule |
| RuleTable.DepTab.Enter | schema/util/genmain.py:209-212 | entering an alias appends it to the history and expands its rule; hits follow the aliases entered |
| RuleTable.DepTab.Expand | schema/util/genmain.py:199-215 | computes `ExpandGroup`; each entered alias gets one hit per entry and no other counter changes |
| Ordering.SearchDone | schema/util/genmain.py:356-377 | once every item is pushed and the stack is empty, the output is each item once, in post-order, with every unresolved group reported |
| Ordering.Refs | schema/util/genmain.py:93-95 | the groups a frame's iterator yields: the expanded dependency list of the item's rule, and none without a rule |
| Ordering.UnresolvedStep | schema/util/genmain.py:364-369 | a group that resolves to nothing is reported once with the rule's info, and the search invariant holds |
| Ordering.ResolvedStep | schema/util/genmain.py:365-370 | a group resolving to an item pushed before changes nothing else |
| Ordering.DescendStep | schema/util/genmain.py:365-370 | a group resolving to an unpushed item pushes its frame, and the search invariant holds |
| Ordering.PopStep | schema/util/genmain.py:371-373 | popping an exhausted frame emits its item, and the search invariant holds |
| Ordering.AcyclicPrecedes | schema/util/genmain.py:356-377 | without cycles, every item an emitted item refers to was emitted before it |
| Ordering.DepList.constructor | schema/util/genmain.py:335-345 | the list starts empty |
| Ordering.DepList.Reset | schema/util/genmain.py:341-345 | empties the stack, `pushed`, `sorted` and `unfound` |
| Ordering.DepList.Add | schema/util/genmain.py:347-354 | appends the item and maps every key to it, a later add winning on a shared key |
| Ordering.DepList.Find | schema/util/genmain.py:379-386 | the item of the first candidate key present, else none |
| Ordering.DepList.Push | schema/util/genmain.py:391-396 | an already-pushed item changes nothing; otherwise its frame, iterating its expanded dependency list, is pushed and it joins `pushed` |
| Ordering.DepList.Pop | schema/util/genmain.py:398-403 | the top frame's item and the stack without it; none on an empty stack |
| Ordering.DepList.PopTop | schema/util/genmain.py:371-373 | pops the exhausted top frame, keeps the search invariant with its item emitted, and lowers the stack weight |
| Ordering.DepList.Advance | schema/util/genmain.py:362-370 | the top iterator yields a group; the invariant holds and either `pushed` grows or the stack weight drops |
| Ordering.DepList.Follow | schema/util/genmain.py:364-370 | an unresolved group is reported; a resolved one is pushed; the invariant holds |
| Ordering.DepList.Resolve | schema/util/genmain.py:370 | pushes the item a group resolved to; the invariant holds |
| Ordering.DepList.Drain | schema/util/genmain.py:361-373 | runs the stack empty and keeps the invariant with the popped items appended |
| Ordering.DepList.Visit | schema/util/genmain.py:358-373 | pushes one item and drains; the item is then pushed |
| Ordering.DepList.AppendSorted | schema/util/genmain.py:374-375 | appends the popped items to `sorted` in order |
| Ordering.DepList.Sort | schema/util/genmain.py:356-377 | every added item exactly once, a permutation of the added items when they are distinct; each after the items its resolved references name unless they reach back to it; one `unfound` report per unresolved group; `unsorted` becomes the result |
| Reading.Cmp | schema/util/genmain.py:276 | Python 2 `cmp` on strings is -1, 0 or 1; `Reading.CmpLex` gives the order |
| Reading.CmpLex | schema/util/genmain.py:276 | `cmp(x, y)` is -1 exactly when `x` is a proper prefix of `y` or is smaller at the first position where they differ |
| Reading.CmpZero | schema/util/genmain.py:276 | `cmp` is 0 exactly on equal strings |
| Reading.CmpAntisymmetric | schema/util/genmain.py:276 | swapping the arguments negates `cmp` |
| Reading.CmpTransitive | schema/util/genmain.py:276 | `cmp` is a transitive order |
| Reading.SplitExt | schema/util/genmain.py:268-269 | `rsplit('.', 1)` splits exactly when there is a `.`, and the two parts rejoin around the last `.` |
| Reading.SplitExtOf | schema/util/genmain.py:268-269 | `stem.ext` with `.` not in `ext` splits into `stem` and `ext`, as `basenames` does |
| Reading.Position | schema/util/genmain.py:270-271 | `list.index`: the first position; none exactly where Python raises |
| Reading.Fsort | schema/util/genmain.py:266-278 | -1, 0 or 1; 0 whenever a name has no schema extension |
| Reading.FsortRank | schema/util/genmain.py:268-276 | names with schema extensions are ordered by the position of the extension in `EXT`, and names with the same extension by `cmp` on their stems |
| Reading.FsortExtOrder | schema/util/genmain.py:268-276 | whatever the stems, `.sql` comes before `.pks`, which comes before `.pkb` |
| Reading.FsortAntisymmetric | schema/util/genmain.py:266-278 | swapping the arguments negates the result |
| Reading.FsortZero | schema/util/genmain.py:266-278 | two ranked names compare equal exactly when they are the same name |
| Reading.FsortTransitive | schema/util/genmain.py:266-278 | "less than" is transitive |
| Reading.FsortTiesDoNotCompose | schema/util/genmain.py:277-278 | `b.sql` and `a.sql` each tie with `README` yet differ, so ties are not an equivalence |
| Reading.SelectedMembers | schema/util/genmain.py:284-289 | a name is listed exactly when it has one of the extensions, at path `root/fn` |
| Reading.Files | schema/util/genmain.py:284-289 | the loop computes `Selected` |
| Reading.Selected | schema/util/genmain.py:284-289 | the listed names with one of the extensions, in order, each at `root/fn`; `Reading.SelectedMembers` states its members |
| Reading.FirstComeDirs | schema/util/genmain.py:250-261 | every listed file is added or recorded as an override; earlier state is kept; new primary keys were free before the run and are distinct; an override names a registered file |
| Reading.RegisterFile | schema/util/genmain.py:253-260 | one file: added with the rule found for its keys when `keys[0]` is free, otherwise recorded as `(path, pk)` |
| Reading.RegisterFiles | schema/util/genmain.py:252-260 | the files of one directory, in order |
| Reading.RegisterDirs | schema/util/genmain.py:250-261 | the directories in order; `Reading.FirstComeDirs` states what the registry then holds |
| Reading.FirstComeFiles | schema/util/genmain.py:251-260 | the same for the files of one directory |
| Reading.SameNameOverrides | schema/util/genmain.py:254-260 | a second file with the same name is not added and is recorded as `(path, existing path)` |
| Reading.QualifyExt | schema/util/genmain.py:45-68 | the keys of `stem.ext` in `d` are `d/stem.ext` then `d/stem` |
| Reading.ExtensionVariantsBothAdded | schema/util/genmain.py:250-261 | files differing only in extension are both added, with no override, and the later one takes the shared key |
| Reading.Paths | schema/util/genmain.py:241 | the path of each item, in order |
| Reading.Reader.constructor | schema/util/genmain.py:228-231 | an empty table, list and override list |
| Reading.Reader.AddFile | schema/util/genmain.py:251-260 | registers one file as `RegisterFile` says; the file's rule gets one hit |
| Reading.Reader.AddFiles | schema/util/genmain.py:251-260 | registers a directory's files as `RegisterFiles` says; each rule gets one hit per file that found it |
| Reading.Reader.GetFiles | schema/util/genmain.py:250-261 | registers every directory as `RegisterDirs` says; each rule gets one hit per file that found it |
| Reading.Reader.Read | schema/util/genmain.py:233-237 | registers the files, then a rule is an alias exactly when it had no hits before and no listed file found it |
| Reading.Reader.Sort | schema/util/genmain.py:239-241 | the paths of the sorted items: each added item once, in post-order, with unresolved groups reported |

## Left out

- File I/O is not modelled. `DepTab.read` takes the file's physical lines as
  `readlines` returns them, in place of `open`.
- `Reader.files` walks the directory tree with `os.walk`. The model takes the names of one
  walked directory as a parameter, in listing order. `Reader.getfiles` takes the listed
  files of each directory.
- `Reader.opendeptabs` is not modelled because it only lists `*.deps` files and calls
  `read`. A caller reads each rule file with `RuleTable.DepTab.Read` before
  `Reading.Reader.Read`.
- The sorting of a directory listing with `fsort` is not modelled. The listing order is an
  input. The comparator itself is modelled: `Reading.FsortRank` and `Reading.FsortExtOrder`
  give the order it states, and `Reading.FsortTiesDoNotCompose` shows that it is not a
  consistent order once a name without a schema extension takes part.
- The `Writer`, `Oracle` and `Postgres` output writers, `generate`, `usage` and `main` are
  not modelled: they are output formatting, command-line parsing and console I/O.
- The `print` of a circular dependency in `expand` becomes a list of the skipped keys.
- `Entry.__repr__` is not modelled: it is only used for printing.
- `Entry.info` is the string `'path:line'`. It is modelled as a pair of file and line.
- `Entry.tab` is not a field in the model. `RuleTable.Entry.Expanded` takes the table as a
  parameter.
- `DepTab.options` is a dynamic attribute bag. Only its `path` attribute is ever read, so
  it is modelled as the `path` field.
- `DepTab.aliases` is `None` until `findaliases` runs. It is modelled as an empty map.
- `DepTab.find` returns `()` on a miss, and `DepList.add` stores it as the item's rule.
  Both are modelled as `None`. Iterating `()` yields nothing, like a missing rule.
- The regular expression `[,\s]+` is modelled as an explicit tokeniser over
  `seq<char>`, with Python 2 byte-string whitespace.
- An item is a value, like the Python tuple it models. Two equal tuples are one member of
  `pushed`.
- `DepList.sort` iterates with Python's iterator protocol and `StopIteration`. The model
  uses a frame holding the reference groups still to come.
- `DepList.find` wraps a single key in a tuple. `getfiles` passes the single key `keys[0]`
  (schema/util/genmain.py:255), which takes that branch; the model's `Reader.AddFile`
  passes the one-key list `[keys[0]]`, so the model's `find` takes only lists.
- Ordering.DepList.Sort: does not state how the hit counters change. Pushing an item
  expands its rule again, so each alias gets one hit per entry. Only the effect on the
  ordering is stated.
- Reading.Reader.Sort: does not state how the hit counters change, for the same reason as
  `Ordering.DepList.Sort`.
- RuleTable.DepTab.Read: states that the new rules match the parsed rule lines and the
  index. It does not state that they are fresh objects with no hits. `ReadRecord` states
  that for each record.
- Ordering.DepList.Sort: states `unfound` as a multiset of reports, not in the order the
  search found them.
- Ordering.DepList.Sort: states a permutation of the added items only when they are
  distinct; otherwise it states a duplicate-free list with the same set of items.
