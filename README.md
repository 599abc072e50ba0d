# jsinspect core, modelled in Dafny

jsinspect finds copy-pasted and structurally similar code in JavaScript
projects. It parses every file into a syntax tree and walks each tree. Every
chain of `threshold` nested nodes it meets is filed under a hash key. The key
is the chain's node types joined with colons. The chains are kept in three
tables:

- the *identical* table, keyed by the whole chain;
- the *fuzzy head* table, keyed by the chain with up to `distance` leading
  nodes dropped;
- the *fuzzy tail* table.

Once every file has been walked, the inspector reports each bucket that holds
two or more instances. Identical matches come first, then fuzzy ones. After
each report it prunes the identical table. The prune reads the reported key's
bucket while it shrinks: once the first instance has left it, the next index
skips an instance. It only touches buckets whose length equals the group's
length, and it takes at most one node out of each of them. So nested
duplicates can still be reported as matches of their own. Reporters turn each
match into text: PMD's CPD XML format, or Markdown. A shared base prints the
closing summary and renders line diffs.

This project models that core:

| file | module | models |
|---|---|---|
| `common.dfy` | `Common` | JavaScript's `slice`, `split`, `join` and `repeat`, and number printing, with their round trips |
| `node_utils.dfy` | `NodeUtils` | syntax nodes, child collection, the depth-first and breadth-first traversals, `walkSubtrees`, and the node classifiers and comparers |
| `inspector_spec.dfy` | `InspectorSpec` | the hash key and the three tables as values; the walk, insertion, pruning and match emission as functions; the table invariants they keep |
| `inspector.dfy` | `Inspection` | the `Inspector` object, whose methods update the tables in place, each proved against the functions of `InspectorSpec` |
| `match.dfy` | `Matching` | a match and its diff generation |
| `parser.dfy` | `Parser` | the chain of parse attempts and the error message with its source-line context |
| `vue_parser.dfy` | `VueParser` | commenting out a component's script so that line numbers are kept, the comment symbols, and the attribute lookup |
| `reporter_base.dfy` | `ReporterBase` | line totals, the summary line, and the rendering of a line diff |
| `pmd.dfy`, `md.dfy` | `Pmd`, `Md` | the output of the two reporters, including XML escaping |
| `reporters.dfy` | `Reporters` | a reporter object that counts matches and writes its output stream |

Syntax trees are values: a node is its type, its fields in key order and its
location. Children are the node-valued fields and the array-valued fields, as
`getChildren` collects them. Every function that walks a tree is proved to
terminate, because each child is structurally smaller than its parent.

## Model

| member | source | states |
|---|---|---|
| NodeUtils.Children | lib/nodeUtils.js:91-110 | every child of a node is strictly smaller than the node, so every walk over children terminates |
| NodeUtils.ChildrenMember | lib/nodeUtils.js:91-110 | a node is a child exactly when a field holds it directly as a node that has a type, or holds it inside an array |
| NodeUtils.GetChildren | lib/nodeUtils.js:91-110 | the loop over the fields collects exactly the children, in field order |
| NodeUtils.PreOrderUnfold | lib/nodeUtils.js:38-50 | the depth-first order is the node, then the depth-first orders of its children one after the other |
| NodeUtils.GetDFSTraversal | lib/nodeUtils.js:38-50 | with no limit the result is the whole depth-first order; a limit of 0 or less gives nothing; a positive limit n gives the first n nodes of that order; the result always starts at the node |
| NodeUtils.LevelOrderPerm | lib/nodeUtils.js:61-82 | the breadth-first order visits exactly the nodes of the depth-first order, each as often, starting at the node |
| NodeUtils.GetBFSTraversal | lib/nodeUtils.js:61-82 | with no limit the queue loop yields the whole breadth-first order; a limit of 0 or less gives nothing; a positive limit n gives its first n nodes |
| NodeUtils.WalkSubtreesNodes | lib/nodeUtils.js:15-27 | the callback sees every node below the root exactly once, in depth-first order, and never the root itself |
| NodeUtils.WalkSubtreesValid | lib/nodeUtils.js:15-27 | for every callback, the ancestors run from a child of the root down to the visited node's parent, and the parent passed is the last ancestor (null for the root's children) |
| NodeUtils.ES6WindowEnds | lib/nodeUtils.js:118-131 | only the first node decides a module import, and only the last node decides class boilerplate |
| NodeUtils.IsAMD | lib/nodeUtils.js:140-168 | true exactly when one of the last five nodes (all of them, when there are fewer) is an expression statement calling `define` or `require`, directly or as a property of an object |
| NodeUtils.IsCommonJS | lib/nodeUtils.js:176-199 | true exactly when the list is not empty and its first node is a statement calling `require`, or a declaration with a declarator initialised by a `require` call |
| NodeUtils.ClassifiersLocal | lib/nodeUtils.js:140-199 | nodes in front of a window of at least five nodes do not change the AMD verdict, and nodes after it do not change the CommonJS verdict |
| NodeUtils.TypesMatch | lib/nodeUtils.js:207-209 | true exactly when all nodes have the same type; true for an empty list |
| NodeUtils.IdentifiersMatch | lib/nodeUtils.js:217-221 | true exactly when the list is not empty and all nodes have the same name |
| NodeUtils.LiteralsMatch | lib/nodeUtils.js:229-234 | true exactly when the list is not empty and every literal among the nodes has the first node's value |
| InspectorSpec.HashKeyDecode | lib/inspector.js:285-289 | splitting a hash key at its colons gives back the node types, in order |
| InspectorSpec.HashKeyInjective | lib/inspector.js:285-289 | two chains share a key exactly when their type sequences are equal |
| InspectorSpec.IndexOf | lib/inspector.js:258-261 | the result is -1 exactly when the node is absent; otherwise it is the first position holding the node |
| InspectorSpec.SpliceMembers | lib/inspector.js:258-261 | splicing out one element removes exactly that one occurrence and adds nothing |
| InspectorSpec.EmptyIndexValid | lib/inspector.js:28-30 | the empty tables satisfy every table invariant |
| InspectorSpec.InsertIdenticalIdempotent | lib/inspector.js:170-191 | inserting a chain whose first node is already in its bucket changes nothing, so inserting twice is inserting once |
| InspectorSpec.InsertIdenticalEffect | lib/inspector.js:170-191 | after insertion the first node is in the key's bucket and carries the key; every other bucket and every other node's key list is unchanged |
| InspectorSpec.InsertIdenticalValid | lib/inspector.js:170-191 | insertion keeps the identical table well formed: keys listed once each in creation order, no empty bucket, bucket membership and node key lists matching in both directions, no repeats |
| InspectorSpec.HeadKeys | lib/inspector.js:193-202 | the head keys are the hash keys of the chain with its first 1 to `distance` nodes dropped, as many as the chain allows |
| InspectorSpec.TailKeys | lib/inspector.js:204-213 | the tail insertion files the chain's first node under the key "undefined", `distance + 1` times or once per node of a shorter chain |
| InspectorSpec.InsertKeysOnNode | lib/inspector.js:215-237 | filing a node under a list of keys appends exactly those keys to that node's key list and leaves every other node's list alone |
| InspectorSpec.InsertKeysOnBuckets | lib/inspector.js:215-237 | each bucket gains the node once for every time its key occurs in the list |
| InspectorSpec.InsertFuzzyKeyValid | lib/inspector.js:215-237 | one fuzzy insertion keeps a fuzzy table well formed, and a node occurs in a bucket as often as the key occurs on the node |
| InspectorSpec.InsertKeysValid | lib/inspector.js:193-237 | the head and tail insertions keep a fuzzy table well formed and counted |
| InspectorSpec.TrimKeepsLast | lib/inspector.js:97 | the trimmed state is the last `threshold` nodes of the chain, and each of them lies below the first |
| InspectorSpec.WalkStates | lib/inspector.js:145-168 | for any tree, every state the walk hands over has at least `threshold` nodes, runs strictly downwards through the tree below the root, and holds no node twice |
| InspectorSpec.WalkIsPaths | lib/inspector.js:145-168 | in a tree without repeated nodes, the walk hands over exactly one state per node below the root whose path has at least `threshold` nodes, in depth-first order: that node's ancestors from a child of the root, then the node |
| InspectorSpec.WalkPaths | lib/inspector.js:145-168 | in a tree without repeated nodes, every state is a path from a child of the root, each entry a child of the one before, ending with the node just visited; and every long enough path to a visited node is handed over |
| InspectorSpec.OnStateValid | lib/inspector.js:95-108 | handling one state keeps all three tables well formed |
| InspectorSpec.FeedAppend | lib/inspector.js:84-110 | feeding two runs of states is feeding the first and then the second |
| InspectorSpec.FeedValid | lib/inspector.js:84-110 | parsing a file keeps all three tables well formed |
| InspectorSpec.FeedTreesValid | lib/inspector.js:55-72 | parsing any number of files keeps all three tables well formed |
| InspectorSpec.PruneTouchesSameLength | lib/inspector.js:243-283 | a prune creates no bucket, leaves every bucket of another length as it was, and takes at most one node out of each bucket of the pruned group's length; node key lists stay |
| InspectorSpec.PruneKeepsKeys | lib/inspector.js:243-283 | for a group of two or more nodes, a prune deletes no key from the identical table |
| InspectorSpec.PruneValid | lib/inspector.js:243-283 | pruning keeps the identical table well formed |
| InspectorSpec.PruneLiveDropsHead | lib/inspector.js:243-283 | pruning a live bucket of two or more nodes removes exactly its first node from it |
| InspectorSpec.EmitFuzzyGroups | lib/inspector.js:116-130 | a fuzzy table is reported as it stands: exactly its buckets of two or more nodes, in key order |
| InspectorSpec.EmitFromSound | lib/inspector.js:116-130 | emitting keeps the identical table well formed, reports no more groups than the loop has keys, and every group it reports has at least two nodes |
| InspectorSpec.EmitFromKeys | lib/inspector.js:116-130 | one group is reported per reporting key, each such key is one of the loop's keys, and distinct loop keys give distinct reporting keys |
| InspectorSpec.EmitFromBuckets | lib/inspector.js:116-130 | a fuzzy group is the bucket of the key it is reported under; an identical group holds only nodes of that key's bucket as it stood when the loop began, since pruning only takes nodes away |
| InspectorSpec.EmitFromComplete | lib/inspector.js:116-130 | in the identical pass, a bucket of at least two nodes whose key comes after only keys of shorter buckets is reported under its key, whole, as it stood when the loop began |
| InspectorSpec.FuzzyPassSound | lib/inspector.js:112-143 | a fuzzy pass that runs reports the table's reportable buckets in key order; one that is skipped reports nothing |
| InspectorSpec.AnalyzeEvents | lib/inspector.js:112-143 | analysis reports the identical matches first; when `distance` is 0 it reports nothing else; otherwise the fuzzy head groups follow unless the fuzzy type is tail, then the fuzzy tail groups unless it is head; the fuzzy tables are untouched |
| InspectorSpec.AnalyzeGroupsPaired | lib/inspector.js:112-143 | every match reported holds at least two nodes |
| Inspection.OrDefault | lib/inspector.js:20-27 | an option that is missing or 0 falls back to the default; any other value is kept |
| Inspection.Recorded | lib/inspector.js:63-67 | after reading, the recorded contents cover exactly the paths read and those recorded before; each path read holds the contents of the last file read under it, and every other entry is kept |
| Inspection.Inspector.constructor | lib/inspector.js:18-31 | defaults are fuzzy type head, distance 0 and threshold 20; tables and contents start empty; the tables are well formed |
| Inspection.Inspector.InsertIdentical | lib/inspector.js:170-191 | the identical table becomes the specified insertion; nothing else changes |
| Inspection.Inspector.InsertFuzzyKey | lib/inspector.js:215-237 | the head table is updated for fuzzy type head, the tail table otherwise; nothing else changes |
| Inspection.Inspector.InsertFuzzyHead | lib/inspector.js:193-202 | the loop files the first node under every head key, as specified |
| Inspection.Inspector.InsertFuzzyTail | lib/inspector.js:204-213 | the loop files the first node under the tail keys, as specified |
| Inspection.Inspector.OnState | lib/inspector.js:95-108 | the tables become the specified result of handling one trimmed state |
| Inspection.Inspector.Recurse | lib/inspector.js:152-165 | the walk of one subtree feeds the tables exactly the states of the walk specification and returns its counter and last node |
| Inspection.Inspector.RecurseKids | lib/inspector.js:158-164 | walking the children in turn feeds their states in order |
| Inspection.Inspector.Parse | lib/inspector.js:84-110 | parsing a tree feeds the tables the states of its walk and keeps them well formed |
| Inspection.Inspector.RemoveUnderKey | lib/inspector.js:251-265 | one key's bucket loses the node when it has the pruned length, and is deleted when emptied |
| Inspection.Inspector.RemoveNode | lib/inspector.js:250-266 | the node is removed under every key it carries, in order |
| Inspection.Inspector.PruneVisit | lib/inspector.js:268-278 | a node and all its descendants are removed as specified |
| Inspection.Inspector.Prune | lib/inspector.js:243-283 | the identical table becomes the specified prune of the group |
| Inspection.Inspector.EmitMatches | lib/inspector.js:116-130 | the events gain one match per reported group, in order, and the identical table is pruned as specified |
| Inspection.Inspector.Analyze | lib/inspector.js:112-143 | tables and events become those of the analysis specification |
| Inspection.Inspector.ParseFiles | lib/inspector.js:63-67 | each file in turn has its contents recorded and its tree fed to the tables; the tables are the trees fed in order, and no event is emitted |
| Inspection.Inspector.Run | lib/inspector.js:55-72 | a run records every file, emits start, the analysis of all parsed trees, then end; every event in between is a match of at least two nodes |
| Matching.GetLinesRange | lib/match.js:33-37 | for a node within its file, the text holds exactly its lines, `end - start + 1` of them |
| Matching.Match.constructor | lib/match.js:9-13 | a new match has its type and nodes, and no diffs |
| Matching.Match.GenerateDiffs | lib/match.js:22-31 | one diff is appended per instance after the first, each comparing the first instance's lines with that instance's, in order |
| Parser.Attempt | lib/parser.js:31-39 | parse functions are called in order up to the first that returns; a throw is passed on only from the last; an empty list gives undefined |
| Parser.AttemptOutcome | lib/parser.js:31-39 | the attempt throws exactly when every function throws, and then with the last function's error |
| Parser.ErrorContextShape | lib/parser.js:71-78 | the context is empty exactly when the location or its line is missing, or the column is 100 or more; otherwise it is an empty piece, the source line, and a caret after `column` spaces |
| Parser.FailureMessageMentions | lib/parser.js:25-28 | the message starts with "Couldn't parse", the file path and the parser's message |
| Parser.Parse | lib/parser.js:14-29 | the source is parsed exactly when the script, the module, or (when forced) the loose parser succeeds, taking the first success; otherwise the message is built from the last parser's error |
| VueParser.CommentSymbol | lib/vue-parser.js:6-15 | the CoffeeScript and Iced languages comment with `#`, PureScript and Ulmus with `--`, and every other language with `//` |
| VueParser.SplitLines | lib/vue-parser.js:51 | one piece per newline-separated line, none holding a newline |
| VueParser.CommentScriptSplit | lib/vue-parser.js:49-60 | the output splits back into exactly the commented lines |
| VueParser.CommentScriptLines | lib/vue-parser.js:49-60 | the output has as many lines as the input; a blank last line becomes empty, another blank line the bare symbol, and any other line the symbol, a space and the line |
| VueParser.UncommentLine | lib/vue-parser.js:54-58 | a non-blank line is read back from its commented form by dropping the symbol and the space |
| VueParser.GetAttribute | lib/vue-parser.js:66-77 | undefined exactly when there is no attribute list or no attribute of that name; otherwise the value of the last such attribute |
| ReporterBase.TotalLinesIsSum | lib/reporters/pmd.js:72-76 | the total lines of a match are the sum of its instances' spans (the Markdown reporter computes the same reduce): 0 for none, additive over instances, and at least the number of instances when every instance ends on or after its first line |
| ReporterBase.SummaryWording | lib/reporters/base.js:37-56 | "No matches" exactly when nothing was found, otherwise the count with "match" or "matches"; the line ends with the file count and "files" only when it is above one, "NaN file" when there is no count |
| ReporterBase.GetFormattedDiff | lib/reporters/base.js:58-84 | the loop renders the diff chunk by chunk as specified |
| ReporterBase.ChunkLinesRoundTrip | lib/reporters/base.js:62-66 | a chunk's lines joined with newlines, plus its final newline if it had one, give back its text |
| ReporterBase.FormattedChunkLines | lib/reporters/base.js:58-84 | each line of a chunk comes out on its own line, behind `+` when added, `-` when removed, blank otherwise |
| ReporterBase.FormattedDiffAppend | lib/reporters/base.js:61-81 | the rendering of a diff is the renderings of its parts, one after the other |
| Pmd.EscapeChar | lib/reporters/pmd.js:97-109 | a character other than the five specials is kept; a special becomes an entity from `&` to `;` |
| Pmd.EscapeRoundTrip | lib/reporters/pmd.js:97-109 | reading the escaped text back as XML gives the original |
| Pmd.EscapeClean | lib/reporters/pmd.js:97-109 | escaped text holds no quote, apostrophe or angle bracket, and text without specials is left as it is |
| Pmd.BuildFragment | lib/reporters/pmd.js:56-60 | the loop builds the code fragment of all instances, in order |
| Pmd.GetOutput | lib/reporters/pmd.js:46-64 | the output is the specified duplication element |
| Pmd.OutputShape | lib/reporters/pmd.js:46-64 | the element starts with a newline exactly for every match after the first, then opens with the total lines and hash, ends by closing the code fragment and the element, and lists one file line per instance |
| Pmd.FilesSplit | lib/reporters/pmd.js:53 | the file lines split back into one `<file>` tag per instance |
| Pmd.FragmentAppend | lib/reporters/pmd.js:56-61 | the fragment of several instances is their fragments one after the other, and unescaping the escaped fragment gives it back |
| Md.BuildCodeFragment | lib/reporters/md.js:50-55 | the loop joins the instances' pieces with newlines, with no newline after the last |
| Md.GetOutput | lib/reporters/md.js:40-59 | the output is the specified Markdown section |
| Md.OutputShape | lib/reporters/md.js:40-59 | the section starts with a newline exactly for every match after the first, then the heading with the hash and total lines; it lists one entry line per instance and ends with the closing fence and rule |
| Md.CodeFragmentShape | lib/reporters/md.js:50-55 | adding an instance appends a newline and its piece; the fragment opens with the first instance's location comment and ends with the last instance's lines |
| Reporters.Reporter.constructor | lib/reporters/base.js:11-15 | a new reporter has found nothing and written nothing |
| Reporters.Reporter.OnStart | lib/reporters/pmd.js:22-28 | on start the format's opening text is written |
| Reporters.Reporter.OnMatch | lib/reporters/base.js:25-31 | every match increments the count and then writes the format's output for the new count |
| Reporters.Reporter.OnEnd | lib/reporters/pmd.js:30-33 | on end the format's closing text is written |
| Reporters.ReportAll | lib/reporters/base.js:25-31 | reporting several matches counts each and writes their outputs in order |
| Reporters.Run | lib/reporters/md.js:13-30 | a whole run writes the opening, every match's output numbered from 1, then the closing |
| Reporters.RunFraming | lib/reporters/pmd.js:22-33 | the PMD stream begins with the XML declaration and `<pmd-cpd>` and ends with `</pmd-cpd>`; an empty run is just the opening and closing |
| Reporters.LaterMatchesSeparated | lib/reporters/md.js:41 | every match after the first begins on a new line |

## Left out

- Reading files from disk is not modelled. `Inspection.Inspector.Run` takes each file's contents and parsed tree as a parameter.
- The parsers (babylon, acorn's loose parser, parse5), de-indent and the line-diff library are not modelled. A parse attempt is given by its outcome, and a diff by the pair of texts it compares.
- `parseVueFile` is not modelled. It drives parse5 and de-indent; the helpers it uses (`commentScript`, `getCommentSymbol`, `getAttribute`) are.
- The event emitter is not modelled. The inspector's events are a sequence field, and a reporter is driven by calls to its `OnStart`, `OnMatch` and `OnEnd` methods.
- The inspector emits `identical` and `fuzzy` events with arrays of nodes, while the reporters listen for `match` and read a hash and instances from it. Nothing in this core connects the two, so a reporter takes each match as a `Report` value.
- Reporters write to a `_writableStream` that the base reporter never sets, and the summary writes to standard output. The model keeps a single `written` string for the reporter's output. The summary is the string `Summary`.
- The summary reads a file count that the inspector does not define. The count is an `Option`, and a missing count prints as "NaN".
- `_getFormattedLocation`, `_getLines` and `_getAbsolutePath` are not part of the base reporter modelled here. Their results are fields of each `Instance`.
- Colours (chalk) are left out. Coloured text is modelled as the plain text.
- The JSON and default reporters and the `debug` logging are not modelled.
- `getChildren` caches the child keys per node type, and this cache is not modelled. Children are computed from the node's own fields each time, which gives the same result for nodes of one type that share their key layout.
- JavaScript orders integer-like object keys before the others. The key order of a table is modelled as plain insertion order; hash keys are type names joined by colons and are never integer-like.
- Option values that are not numbers are not modelled. An option is a number or missing.
- Inspection.Inspector.constructor: requires the threshold to be 0 or more. A negative threshold would make the source slice the wrong end of each state.
- Parser.ErrorContext: requires a reported column below 100 to be 0 or more. `repeat` would throw on a negative count, and parsers do not report one.
- NodeUtils.IsES6ClassBoilerplate: requires a non-empty list. The source reads the type of the last node and fails on an empty one.
- File contents reach a match as lists of lines, the form `_getLines` indexes them in.
- InspectorSpec.Walk and InspectorSpec.PruneVisit: the source walks and prunes with acorn's per-type walker (`acornWalk.base[type]`). The model uses the children `getChildren` collects instead. Acorn's walker skips some of those fields, such as the property of a non-computed member expression and non-computed property keys. So for code like `a.b()` the model forms states, and so hash keys, that the source does not form, and its prunes reach nodes the source's do not.
- InspectorSpec.WalkIsPaths and InspectorSpec.WalkPaths: both require that no node occur twice in the tree. Parsed trees hold distinct node objects. The source's guard against the node last pushed matters for acorn's re-visits of a node under another type, which are not modelled.
- NodeUtils.Children: an array field holds only nodes. A hole in an array literal or pattern (`[, b]`) puts `null` in the array, and `getChildren` copies it into its result. `getDFSTraversal` and `walkSubtrees` then throw on it, and `getBFSTraversal` can return it when its limit is reached first. The model cannot express holes, so it does not capture those throws or the `null` entry.
- VueParser.CommentSymbol: the table is a plain object, so a language named after an inherited member, such as `constructor`, `toString` or `__proto__`, reads that member instead of falling back to `//`. The model gives `//` for such names, so it does not capture the prefix the source then writes, such as the text of a native function.
- InspectorSpec.EmitFromComplete: requires every earlier key of the loop to have a shorter bucket. A bucket after one of equal or greater length may first lose a node to that bucket's prune. For it the model states only what PruneTouchesSameLength and EmitFromBuckets say: at most one node leaves it per prune, and what is reported comes from it.
- NodeUtils.LiteralsMatch: a numeric literal's value is an exact real rather than a double. Literals that round to the same double, such as `9007199254740993` and `9007199254740992`, or that overflow to `Infinity`, compare equal in the source but not in the model.
- Accesses to missing properties that would throw in JavaScript (a node without a location, a match without instances) are outside the model. The datatypes always carry those fields.
- InspectorSpec.TailKeys: the fuzzy tail insertion is modelled as written. It never computes a key, so every tail entry is filed under "undefined".
