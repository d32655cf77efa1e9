# moz-phab stack reorganisation and Jujutsu backend, in Dafny

This project models two parts of `moz-phab`, the command-line client that
submits local commits to Phabricator:

* the pure core of `moz-phab reorganise`
  (`mozphab/commands/reorganise.py`). It has four pieces:
  * `to_llist` turns a list of revision PHIDs into a child map.
  * `walk_llist` finds the head of a child map and walks it. It rejects
    maps with no head, with two heads, or with a dependency loop.
  * `stack_transactions` plans the `children.set`, `children.remove` and
    `abandon` edits that turn the remote stack into the local one.
  * `convert_stackgraph_to_linear` turns Phabricator's `stackGraph` into a
    child map. It rejects a revision with two children.
* the Jujutsu repository backend (`mozphab/jujutsu.py`):
  * `is_repo`;
  * the `jj version` gate;
  * the constructor. It checks the version, asks `jj git root`, opens Git at
    the parent of the reported `.git`, then requires `<path>/.jj`.

Modules:

| file | module | contents |
|---|---|---|
| `wrappers.dfy` | `Wrappers` | `Option` and `Result`. `Result` supports `:-`. |
| `text.dfy` | `Text` | ASCII digits, Python's `int()` and `str()`, and `str.join` |
| `revisions.dfy` | `Revisions` | revision ids, the child-map type, the errors `walk_llist` and its callers raise, and Python string order |
| `linked_list.dfy` | `LinkedList` | `to_llist`, head finding, `walk_llist`, and their round trip |
| `stack_graph.dfy` | `StackGraph` | `convert_stackgraph_to_linear` |
| `edit_script.dfy` | `EditScript` | the `children.set`, `children.remove` and `abandon` entries, and what a list of them does to a child map |
| `transactions.dfy` | `Transactions` | `stack_transactions`, loop by loop |
| `transactions_effect.dfy` | `TransactionsEffect` | which entries each loop records, and that applying the returned edits to the remote map gives the checked map |
| `transactions_proof.dfy` | `TransactionsProof` | why every intermediate walk succeeds, and why the edited remote map equals the local one |
| `jujutsu_version.dfy` | `JujutsuVersion` | the version pattern, Python list order, and the 0.28.0 floor |
| `jujutsu.dfy` | `Jujutsu` | `os.path.join`, `pathlib` parent, `is_repo`, and the constructor over an abstract environment |

Every exception the modelled code raises becomes an `Err` value:
* `Error(...)` becomes a `StackError` or a `VersionError`;
* `KeyError` becomes `KeyLookup`;
* the `assert` in `stack_transactions` becomes `AssertionFailed`;
* `ValueError` becomes `NotARepo`.

Nothing the source handles is excluded by a precondition.

Details of the code the model follows:
* The version pattern needs the literal prefix `jj `.
* The messages are "Failed to determine Jujutsu version." and
  "`moz-phab` requires Jujutsu 0.28.0 or higher."
* The final check in `stack_transactions` walks both maps with
  `allow_multiple_heads=False`. It compares the `":"`-joined results.

## Model

| member | source | states |
|---|---|---|
| Revisions.Least | mozphab/commands/reorganise.py:54 | the first element of `sorted(keys)`: a member of the set below every other member in Python string order |
| Revisions.StrLessTransitive | mozphab/commands/reorganise.py:54 | the string order used by `sorted` is transitive |
| Revisions.StrLessTotal | mozphab/commands/reorganise.py:54 | two different strings are always ordered one way or the other |
| Revisions.StrLessAsymmetric | mozphab/commands/reorganise.py:54 | no two strings are each below the other |
| LinkedList.ToLList | mozphab/commands/reorganise.py:25-38 | the keys are exactly the listed revisions; the last occurrence of a revision maps to the next list entry, or to None at the end |
| LinkedList.ToLListChildren | mozphab/commands/reorganise.py:25-38 | for a list without repeats, the referenced children are all entries but the first, and the first entry is the only head |
| LinkedList.FindHead | mozphab/commands/reorganise.py:50-62 | "Failed to find head." exactly when every key is some key's child; "Multiple heads found." exactly when two heads exist and they are not allowed; otherwise the head is an unreferenced key, and any other head is allowed and sorts after it |
| LinkedList.Walk | mozphab/commands/reorganise.py:64-74 | the walk fails only with "Dependency loop"; on success it extends the visited nodes by a repeat-free chain of child links |
| LinkedList.WalkLList | mozphab/commands/reorganise.py:41-74 | the two head errors hold exactly as in `FindHead`; success returns a repeat-free chain that starts at the found head |
| LinkedList.WalkFindsChain | mozphab/commands/reorganise.py:64-74 | if a repeat-free chain runs from the head to a node without a child, that chain is exactly what `walk_llist` returns |
| LinkedList.LoopIffNoChain | mozphab/commands/reorganise.py:64-74 | once a head is found, "Dependency loop" is raised exactly when no repeat-free chain ends the walk |
| LinkedList.RoundTrip | mozphab/commands/reorganise.py:25-74 | `walk_llist(to_llist(xs))` returns `xs` for every non-empty list without repeats, with or without multiple heads allowed |
| LinkedList.RankedWalks | mozphab/commands/reorganise.py:41-74 | a non-empty map whose child links strictly lower some rank always walks when multiple heads are allowed |
| StackGraph.Edges | mozphab/commands/reorganise.py:163-164 | the (predecessor, successor) pairs in the order the nested loops visit them: successors in `stackGraph` order, then each one's predecessors in list order |
| StackGraph.EdgesListed | mozphab/commands/reorganise.py:163-164 | the nested loops visit the pair (p, s) exactly when p is listed under successor s |
| StackGraph.LinkEdges | mozphab/commands/reorganise.py:163-173 | on success, the map's keys are exactly the predecessors, and each visited predecessor maps to its successor |
| StackGraph.LinkEdgesOutcome | mozphab/commands/reorganise.py:163-171 | the first loop succeeds exactly when no predecessor repeats; otherwise it fails at the first repeat, with `D<id>` from `phid_to_id` or a KeyError |
| StackGraph.HeadsCompleteLinks | mozphab/commands/reorganise.py:175-185 | adding None for each successor that is not a key gives the linear form of the edges |
| StackGraph.ConvertStackGraphToLinear | mozphab/commands/reorganise.py:153-187 | succeeds exactly when no predecessor repeats. Each predecessor maps to its successor. A key maps to None exactly when it is a successor and never a predecessor. The keys are exactly the revisions in some edge |
| Transactions.Unique | mozphab/commands/reorganise.py:88-90 | the OrderedDict's keys: the same revisions, each once |
| Transactions.UniqueFirstOccurrences | mozphab/commands/reorganise.py:88-90 | the OrderedDict's key order is the order of first insertion |
| Transactions.Checked | mozphab/commands/reorganise.py:99 | the check after an edit passes exactly when `walk_llist(..., allow_multiple_heads=True)` succeeds; it leaves the plan unchanged, and a failure carries the walk's own error |
| Transactions.Retarget | mozphab/commands/reorganise.py:103-113 | succeeds exactly when the map with the new child walks. The map is then updated at that revision only. A new child appends `children.set` of it. No new child appends `children.remove` of the current child when there is one and nothing otherwise. No other list changes |
| Transactions.Detach | mozphab/commands/reorganise.py:94-98 | the revision keeps its key and loses its child; no key is added or removed and no abandon is recorded |
| Transactions.DetachRecords | mozphab/commands/reorganise.py:94-98 | a remote revision missing locally gets `children.remove` of its old child appended when it had one, and nothing otherwise |
| Transactions.Drop | mozphab/commands/reorganise.py:133-134 | `abandon` is appended to the revision's list and the revision leaves the map; no other child or list changes |
| Transactions.DetachRemoved | mozphab/commands/reorganise.py:92-99 | the first loop keeps the key sets and records no abandon |
| Transactions.LinkAdded | mozphab/commands/reorganise.py:101-113 | the second loop only adds keys and records no abandon |
| Transactions.RelinkKept | mozphab/commands/reorganise.py:115-129 | the third loop only adds keys and records no abandon |
| Transactions.AbandonRemoved | mozphab/commands/reorganise.py:131-135 | the last loop appends `abandon` to each remote revision missing locally and leaves every other list alone |
| Transactions.Collect | mozphab/commands/reorganise.py:139-150 | lists exactly the revisions of the order whose list is non-empty, each with its own list. When the order has no repeats, none is listed twice and they come in the order's order |
| Transactions.CollectWellFormed | mozphab/commands/reorganise.py:139-150 | the collected result lists each revision once. Revisions missing locally end with `abandon`. Local revisions are never abandoned |
| Transactions.PlanEdits | mozphab/commands/reorganise.py:85-135 | after the four loops, each revision missing locally ends with `abandon` and no other revision is abandoned |
| Transactions.StackTransactions | mozphab/commands/reorganise.py:77-150 | the result is well formed as in `CollectWellFormed`, with every remote revision missing locally present |
| EditScript.Step | mozphab/commands/reorganise.py:94-134 | the effect of one entry on a child, as `stack_transactions` applies it to its own copy: `children.set [c]` makes `c` the child, `children.remove [c]` clears the child when it is `c`, and `abandon` leaves no child |
| EditScript.ApplyTxns | mozphab/commands/reorganise.py:96-98 | a list of entries applied to one revision gives its child the list's effect and changes no other revision |
| EditScript.ApplyEditsGet | mozphab/commands/reorganise.py:139-150 | when no revision is listed twice, applying the edits one revision after another leaves each revision with its own list applied to its child, whatever the order |
| TransactionsEffect.RetargetTracks | mozphab/commands/reorganise.py:103-113 | after a retarget, each revision's list applied to its remote child still gives its current child |
| TransactionsEffect.DetachTracks | mozphab/commands/reorganise.py:94-98 | the same after a revision's child is removed |
| TransactionsEffect.DropTracks | mozphab/commands/reorganise.py:133-134 | the same after a revision is abandoned and deleted |
| TransactionsEffect.DetachRemovedLinks | mozphab/commands/reorganise.py:92-99 | after the first loop each remote revision missing locally has no child and every other child is unchanged |
| TransactionsEffect.DetachRemovedTxns | mozphab/commands/reorganise.py:92-99 | the first loop changes no list of a revision it does not visit |
| TransactionsEffect.DetachRemovedTracks | mozphab/commands/reorganise.py:92-99 | the first loop keeps every list explaining its revision's child |
| TransactionsEffect.LinkAddedKeys | mozphab/commands/reorganise.py:101-113 | the second loop adds exactly the local revisions missing remotely to the map |
| TransactionsEffect.LinkAddedLinks | mozphab/commands/reorganise.py:101-113 | after the second loop each local revision missing remotely has its local child and every other child is unchanged |
| TransactionsEffect.LinkAddedTxns | mozphab/commands/reorganise.py:101-113 | the second loop changes no list of a revision it does not visit |
| TransactionsEffect.LinkAddedTracks | mozphab/commands/reorganise.py:101-113 | the second loop keeps every list explaining its revision's child |
| TransactionsEffect.RelinkKeptLinks | mozphab/commands/reorganise.py:115-129 | the third loop keeps the keys, gives each revision in both stacks its local child, and leaves every other child unchanged |
| TransactionsEffect.RelinkKeptTxns | mozphab/commands/reorganise.py:115-129 | the third loop changes no list of a revision outside both stacks |
| TransactionsEffect.RelinkKeptTracks | mozphab/commands/reorganise.py:115-129 | the third loop keeps every list explaining its revision's child |
| TransactionsEffect.AbandonRemovedKeys | mozphab/commands/reorganise.py:131-135 | a KeyError from the last loop names a remote revision missing locally; success means every such revision was still in the map |
| TransactionsEffect.AbandonRemovedOnce | mozphab/commands/reorganise.py:131-135 | a successful last loop met no remote revision missing locally twice |
| TransactionsEffect.AbandonRemovedLinks | mozphab/commands/reorganise.py:131-135 | the last loop deletes exactly the remote revisions missing locally from the map |
| TransactionsEffect.AbandonRemovedLists | mozphab/commands/reorganise.py:131-135 | the last loop appends `abandon` to the list of each remote revision missing locally |
| TransactionsEffect.AbandonRemovedTracks | mozphab/commands/reorganise.py:131-135 | the last loop keeps every list explaining its revision's child |
| TransactionsEffect.PlanEditsTracks | mozphab/commands/reorganise.py:85-135 | after the four loops, each revision's list applied to its child in `to_llist(remote)` gives its child in the edited map |
| TransactionsEffect.CollectListOf | mozphab/commands/reorganise.py:139-150 | the list sent for a revision is the one recorded for it when it is in the order, and nothing otherwise |
| TransactionsEffect.StackTransactionsLists | mozphab/commands/reorganise.py:77-150 | on success, the list sent for each revision of either stack is the one the loops recorded for it, and any other revision receives nothing |
| TransactionsEffect.PlanEditsIsLocal | mozphab/commands/reorganise.py:85-135 | for any two stacks, repeats included, the edited remote map equals `to_llist(local)` whenever the four loops finish |
| TransactionsEffect.StackTransactionsOkIff | mozphab/commands/reorganise.py:77-137 | `stack_transactions` succeeds exactly when the four loops finish and the local stack walks with a single head; the final assertion never fails on its own |
| TransactionsEffect.StackTransactionsEditsReachLocal | mozphab/commands/reorganise.py:77-150 | for every successful call, applying the returned edits to `to_llist(remote)` gives `to_llist(local)`, revision by revision |
| TransactionsEffect.StackTransactionsApply | mozphab/commands/reorganise.py:77-150 | applying the result to `to_llist(remote)` gives, revision by revision, the edited map that was checked against the local stack |
| TransactionsEffect.StackTransactionsOrder | mozphab/commands/reorganise.py:88-150 | the revisions come in the order of their first appearance in `remote_phids + local_phids` |
| TransactionsProof.InvWalks | mozphab/commands/reorganise.py:99-135 | every non-empty intermediate map that keeps the loop invariant walks successfully. In that invariant each revision points at its local child, at its remote child, or at nothing |
| TransactionsProof.DetachSucceeds | mozphab/commands/reorganise.py:92-99 | on two stacks without repeats the first loop never fails, and it leaves the revisions missing locally without a child |
| TransactionsProof.LinkSucceeds | mozphab/commands/reorganise.py:101-113 | the second loop never fails and gives each new revision its local child |
| TransactionsProof.RelinkSucceeds | mozphab/commands/reorganise.py:115-129 | the third loop never fails and gives every local revision its local child |
| TransactionsProof.AbandonSucceeds | mozphab/commands/reorganise.py:131-135 | the last loop never fails and leaves exactly the local stack's child map |
| TransactionsProof.PlanEditsReachLocal | mozphab/commands/reorganise.py:85-135 | for two stacks without repeats and a non-empty local stack, the edited remote map equals `to_llist(local)` |
| TransactionsProof.StackTransactionsReachLocal | mozphab/commands/reorganise.py:77-150 | for two stacks without repeats and a non-empty local stack, applying the returned edits to `to_llist(remote)` gives `to_llist(local)`, revision by revision |
| TransactionsProof.StackTransactionsSucceeds | mozphab/commands/reorganise.py:77-150 | under the same conditions `stack_transactions` succeeds, so its assertion that both walks agree holds |
| TransactionsProof.UnchangedStackNeedsNothing | mozphab/commands/reorganise.py:77-150 | an unchanged stack yields no transactions |
| TransactionsProof.EmptyStacksHaveNoHead | mozphab/commands/reorganise.py:137 | two empty stacks fail with "Failed to find head." |
| JujutsuVersion.Parse | mozphab/jujutsu.py:44-45 | a full match yields well-formed groups whose rendering is the whole input |
| JujutsuVersion.ParseRender | mozphab/jujutsu.py:44-45 | every well-formed version text matches, with exactly its own groups |
| JujutsuVersion.ParseIff | mozphab/jujutsu.py:44-45 | the pattern matches `s` with groups `m` exactly when `m` is well formed and `s` is its rendering |
| JujutsuVersion.LeadingTextRejected | mozphab/jujutsu.py:44-47 | any character before an accepted version gives "Failed to determine Jujutsu version." |
| JujutsuVersion.TrailingTextRejected | mozphab/jujutsu.py:44-47 | a non-hex character after an accepted version gives the same error |
| JujutsuVersion.BadSuffixRejected | mozphab/jujutsu.py:44-47 | a `-` suffix of any length other than 40 characters gives the same error |
| JujutsuVersion.ListLess | mozphab/jujutsu.py:51 | Python's list `<`: never holds between equal lists, and a proper prefix is smaller |
| JujutsuVersion.ListLessTriple | mozphab/jujutsu.py:51 | Python's list `<` on triples compares major, then minor, then patch |
| JujutsuVersion.CheckVersion | mozphab/jujutsu.py:42-55 | success returns the whole output unchanged; "Failed to determine" exactly when the pattern does not match; otherwise only the too-old error |
| JujutsuVersion.VersionFloor | mozphab/jujutsu.py:48-54 | a matched version passes exactly when its major is at least 1 or its minor is at least 28 |
| JujutsuVersion.HashIgnored | mozphab/jujutsu.py:48-51 | adding a 40-hex commit id never changes whether the check passes |
| JujutsuVersion.TooOldMessage | mozphab/jujutsu.py:52-54 | the too-old message names 0.28.0 |
| JujutsuVersion.AcceptsMinimum | mozphab/jujutsu.py:42-55 | `jj 0.28.0` passes and is returned verbatim |
| JujutsuVersion.RejectsOlderPatch | mozphab/jujutsu.py:42-55 | `jj 0.27.9` is too old |
| JujutsuVersion.AcceptsNextMajor | mozphab/jujutsu.py:42-55 | `jj 1.0.0` passes |
| JujutsuVersion.AcceptsDevelopmentBuild | mozphab/jujutsu.py:42-55 | `jj 0.28.0-` with a 40-hex id passes and keeps the suffix |
| JujutsuVersion.RejectsShortHash | mozphab/jujutsu.py:42-55 | `jj 0.28.0-deadbeef` does not match |
| Jujutsu.JoinPathShape | mozphab/jujutsu.py:16 | `os.path.join(dir, name)` starts with `dir`, ends with `name`, and has a slash between them when both are non-empty |
| Jujutsu.Normalize | mozphab/jujutsu.py:25 | `str(Path(p))` is never empty; an empty path prints as `.` |
| Jujutsu.Parent | mozphab/jujutsu.py:27 | `str(Path(p).parent)`; a path without components, such as `/` or `.`, is its own parent |
| Jujutsu.ParentOfJoin | mozphab/jujutsu.py:25-27 | the pathlib parent of `os.path.join(dir, name)` is `dir` in pathlib's normal form |
| Jujutsu.GitRootParent | mozphab/jujutsu.py:25-27 | the parent of `/a/b/.git` is `/a/b` |
| Jujutsu.IsRepo | mozphab/jujutsu.py:14-16 | `is_repo` holds exactly when `os.path.join(path, ".jj")` exists |
| Jujutsu.IsRepoTrailingSlash | mozphab/jujutsu.py:14-16 | `is_repo` answers the same with or without a trailing slash |
| Jujutsu.Init | mozphab/jujutsu.py:22-40 | construction succeeds exactly when both commands succeed, the version passes, Git opens at the parent of the git root, and `<path>/.jj` exists. The backend then holds the path, `<path>/.jj`, the version text, the `jj git root` output in pathlib's normal form as `git_path`, its parent as the Git root, `vcs == "jj"`, and unset revset and branch. The not-a-repository error arises exactly when everything before the `.jj` check succeeded |
| Jujutsu.VersionErrorFirst | mozphab/jujutsu.py:22-23 | a failing or unsupported `jj version` decides the outcome whatever the rest of the environment and the path |
| Jujutsu.MissingDotDirNamesPath | mozphab/jujutsu.py:31-33 | with both queries passing and Git opened, a missing `.jj` raises "<path>: not a Jujutsu repository" |
| Jujutsu.GitOpenedAtParent | mozphab/jujutsu.py:25-27 | when `jj git root` reports `<dir>/.git`, Git is opened at `dir` and not at the `.git` path |
| Jujutsu.InitFindsRepo | mozphab/jujutsu.py:31-35 | a constructed backend's path passes `is_repo` |
| Jujutsu.ExampleOpensGitAtParent | mozphab/jujutsu.py:22-40 | with `jj git root` reporting `/a/b/.git`, construction at `/a/b` succeeds and opens Git at `/a/b` |
| Jujutsu.ExampleAncestorRefused | mozphab/jujutsu.py:22-40 | construction at the ancestor `/a` is refused as not a Jujutsu repository |

## Left out

- `reorganise()` (mozphab/commands/reorganise.py:190-319) is left out: it is Conduit calls, spinners, telemetry, logging, the prompt and `sys.exit`. `add_parser` is argparse wiring.
- Logging through `logger.debug` and `logger.warning` is not modelled.
- Running `jj version` and `jj git root` is not modelled. Their outputs are fields of `Jujutsu.Env`, with `None` standing for a failed command. The output is taken as the subprocess wrapper returns it. Any whitespace trimming is the wrapper's, and the wrapper is not part of this model.
- `os.path.exists` is the set `Env.existing`.
- Constructing `Git` is the set `Env.gitRepos` of paths where it succeeds. Its own errors become `GitOpenFailed`. The messages of collaborator errors are not modelled.
- `Repository.__init__` is reduced to storing the path and `<path>/.jj` in `Jujutsu.Backend`.
- `\d` in Python also matches non-ASCII decimal digits. The model accepts ASCII digits only.
- Revision ids are non-empty strings, so the truthiness tests in `walk_llist` coincide with `is not None`.
- Transaction entries are the `Txn` datatype rather than `{"type": ..., "value": ...}` dicts. The conduit result is a sequence of pairs in insertion order.
- Transactions.StackTransactions: its own contract states the shape of the result. Which entries are sent, and what they do, are stated by `TransactionsEffect.StackTransactionsLists`, `TransactionsEffect.StackTransactionsApply` and `TransactionsEffect.StackTransactionsEditsReachLocal`.
- TransactionsEffect.StackTransactionsApply: the maps are compared revision by revision through `dict.get`, so a revision mapped to None and a revision missing from the map read the same.
- EditScript.Step: an entry means what `stack_transactions` does to its own copy of the map when it records it (reorganise.py lines 96-98, 110-112 and 133-134). How Phabricator's server applies the edits is not part of this model.
- Revisions.StackError: a KeyError's text is the id in single quotes. Python's `repr` can switch to double quotes and escape backslashes; that is not modelled.
- Transactions.Unique: its contract states the elements and their distinctness. The order is stated separately by `UniqueFirstOccurrences`.
- TransactionsProof.StackTransactionsSucceeds: proved for stacks without repeated revisions and a non-empty local stack. Two empty stacks are covered by `EmptyStacksHaveNoHead`. For every other input, `TransactionsEffect.StackTransactionsOkIff` reduces success to the four loops finishing and the local stack walking. When the loops themselves finish on stacks with repeats is not characterised.
- Jujutsu.Parent: a Windows path flavour is not modelled. The parent follows `PurePosixPath`: repeated slashes and `.` components are dropped, and exactly two leading slashes are kept.
