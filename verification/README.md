# AECU script selection in Dafny

This project models how AEM Easy Content Upgrade (AECU) decides which upgrade scripts to run. The logic is `AecuServiceImpl`. The service walks the content tree depth-first from a start path:

- A node is descended into when its `jcr:primaryType` is `sling:Folder`, `sling:OrderedFolder` or `nt:folder` and its name matches the system's active run modes. The children are visited in repository order and their candidates are concatenated.
- Any other node is a candidate when its name ends in `.groovy` and does not contain `.fallback.`. The candidate is recorded under the path it was reached by.
- A folder name with no `.` always matches. Otherwise the text after the first `.` is a `;`-separated list of alternatives. Each alternative is a `.`-separated list of run modes that must all be active.

Modules:

- `Wrappers` (`wrappers.dfy`): `Option` stands for a Java reference that may be `null`. `Result` stands for a value or a thrown `AecuException`.
- `JavaString` (`java_string.dfy`): the `java.lang.String` operations the selection depends on. These are `contains`, `endsWith`, `indexOf` and `split`. `split` follows Java exactly: if the separator does not occur, the result is the whole string (so `""` gives `[""]`). Otherwise trailing empty pieces are dropped (so `";"` gives `[]`). Each operation has a characterisation that does not depend on how it is computed. `Split` is proved to invert `Join`.
- `AecuService` (`aecu_service.dfy`): the node tree, the three checks of the service, the depth-first walk, `findCandidates` and `getFiles`. The resource resolver is a function from paths to `Option<Node>`. The run modes are an explicit `set<string>`.
- `AecuExamples` (`aecu_examples.dfy`): concrete folder names, script names and a small tree with the results they produce.

Discovery recurses structurally over each node's `children`. The source instead resolves each `child.getPath()` again. `ChildrenByPath` models that loop as written, and `ChildrenByPathWalks` proves both approaches agree when every child's path resolves to that child. Under that assumption no error can arise below the start node.

An empty token does not by itself make a combination fail. In `x..` the combination `.` splits into no run modes, and `containsAll` of an empty list is true, so `x..` matches every run-mode set (`AecuExamples.DotOnlyCombinationAlwaysMatches`). Other empty tokens behave as Java's `split` makes them. For example, `x.` matches only when `""` is an active run mode, and `x.;` never matches.

## Model

| member | source | states |
|---|---|---|
| `AecuService.IsFolder` | core/src/main/java/de/valtech/aecu/core/service/AecuServiceImpl.java:103-108 | a node is a folder exactly when its primary type is present and is one of `sling:Folder`, `sling:OrderedFolder`, `nt:folder`; a missing type is never a folder |
| `AecuService.AnyCombinationActive` | core/src/main/java/de/valtech/aecu/core/service/AecuServiceImpl.java:123-129 | the loop over combinations returns true exactly when some combination has all its `.`-separated modes active (Java `containsAll`) |
| `AecuService.MatchesRunModes` | core/src/main/java/de/valtech/aecu/core/service/AecuServiceImpl.java:116-130 | a name without `.` matches every run-mode set; a dotted name matches exactly when some `;`-separated combination after the first `.` is wholly active |
| `AecuService.MatchesRunModesMonotone` | core/src/main/java/de/valtech/aecu/core/service/AecuServiceImpl.java:125 | a name that matches a run-mode set also matches every superset of it |
| `AecuService.FolderNameMatches` | core/src/main/java/de/valtech/aecu/core/service/AecuServiceImpl.java:120-129 | for a folder name `base.c1;c2;...` built from non-empty tokens without `.` or `;`, matching holds exactly when some combination has all its tokens active |
| `AecuService.IsValidScriptName` | core/src/main/java/de/valtech/aecu/core/service/AecuServiceImpl.java:138-146 | a name is valid exactly when it ends in `.groovy` and `.fallback.` occurs at no position in it |
| `AecuService.PlainScriptNameValid` | core/src/main/java/de/valtech/aecu/core/service/AecuServiceImpl.java:138-146 | `base.groovy` is valid for every `base` without a `.` |
| `AecuService.FallbackScriptNameInvalid` | core/src/main/java/de/valtech/aecu/core/service/AecuServiceImpl.java:142-144 | `base.fallback.groovy` is never valid, so fallback scripts are never candidates |
| `AecuService.FindCandidates` | core/src/main/java/de/valtech/aecu/core/service/AecuServiceImpl.java:76-95 | a null path fails with "Path is null"; a path that does not resolve fails with "Path is invalid" and no list; otherwise a path is returned exactly when it names a node reached only through run-mode-matching folders, which is not itself such a folder and has a valid script name |
| `AecuService.WalkChildrenMember` | core/src/main/java/de/valtech/aecu/core/service/AecuServiceImpl.java:87-89 | a path is among a folder's collected candidates exactly when it is among some child's |
| `AecuService.WalkSelects` | core/src/main/java/de/valtech/aecu/core/service/AecuServiceImpl.java:85-93 | the walk yields a path exactly when it is the path of a selected node; the start node counts under the path it was reached by |
| `AecuService.NodeNotEntered` | core/src/main/java/de/valtech/aecu/core/service/AecuServiceImpl.java:85-93 | a node not descended into (a non-folder, or a folder failing the run-mode check) yields exactly its own path when its name is a valid script name, else nothing; no descendant is ever selected |
| `AecuService.ChildrenByPath` | core/src/main/java/de/valtech/aecu/core/service/AecuServiceImpl.java:87-89 | the source's child loop, which calls `findCandidates` on each child path, fails as a whole exactly when some child path does not resolve |
| `AecuService.ChildrenByPathWalks` | core/src/main/java/de/valtech/aecu/core/service/AecuServiceImpl.java:85-89 | when each child path resolves to that child, the source's loop gives the structural walk's list |
| `AecuService.FolderCandidatesInChildOrder` | core/src/main/java/de/valtech/aecu/core/service/AecuServiceImpl.java:85-89 | for a matching folder, the candidates are the children's `findCandidates` results concatenated in child order |
| `AecuService.GetFiles` | core/src/main/java/de/valtech/aecu/core/service/AecuServiceImpl.java:58-66 | when no service resolver can be obtained, the result is "Unable to get service resource resolver"; otherwise it is the result of discovery |
| `JavaString.Contains` | core/src/main/java/de/valtech/aecu/core/service/AecuServiceImpl.java:142 | `contains` is true exactly when the text occurs at some position |
| `JavaString.EndsWith` | core/src/main/java/de/valtech/aecu/core/service/AecuServiceImpl.java:139 | `endsWith` is true exactly when the string is some prefix followed by the suffix |
| `JavaString.IndexOf` | core/src/main/java/de/valtech/aecu/core/service/AecuServiceImpl.java:121 | `indexOf` returns -1 exactly when the character is absent; otherwise it returns the first position holding it |
| `JavaString.SplitAll` | core/src/main/java/de/valtech/aecu/core/service/AecuServiceImpl.java:122-124 | the raw pieces are non-empty in number, free of the separator, and join back to the input |
| `JavaString.Split` | core/src/main/java/de/valtech/aecu/core/service/AecuServiceImpl.java:122-124 | Java `split`: gives `[s]` when the separator is absent; otherwise gives the raw pieces without their trailing empty ones |
| `JavaString.SplitJoin` | core/src/main/java/de/valtech/aecu/core/service/AecuServiceImpl.java:122-124 | `split` recovers separator-free pieces from their join, unless the join has a trailing empty piece |
| `AecuExamples.AlternativeCombinationMatches` | core/src/main/java/de/valtech/aecu/core/service/AecuServiceImpl.java:122-127 | `x.author;publish.dev` matches `{author}` |
| `AecuExamples.IncompleteCombinationFails` | core/src/main/java/de/valtech/aecu/core/service/AecuServiceImpl.java:124-125 | `x.author.dev` does not match `{author}` |
| `AecuExamples.EmptySuffixNeedsEmptyRunMode` | core/src/main/java/de/valtech/aecu/core/service/AecuServiceImpl.java:121-125 | `x.` matches exactly when `""` is an active run mode |
| `AecuExamples.SeparatorOnlySuffixNeverMatches` | core/src/main/java/de/valtech/aecu/core/service/AecuServiceImpl.java:122-129 | `x.;` matches no run-mode set |
| `AecuExamples.DotOnlyCombinationAlwaysMatches` | core/src/main/java/de/valtech/aecu/core/service/AecuServiceImpl.java:124-126 | `x..` matches every run-mode set |
| `AecuExamples.UpgradeScriptValid` | core/src/main/java/de/valtech/aecu/core/service/AecuServiceImpl.java:138-146 | `upgrade.groovy` is a valid script name |
| `AecuExamples.UpgradeFallbackInvalid` | core/src/main/java/de/valtech/aecu/core/service/AecuServiceImpl.java:142-144 | `upgrade.fallback.groovy` is not a valid script name |
| `AecuExamples.OtherExtensionInvalid` | core/src/main/java/de/valtech/aecu/core/service/AecuServiceImpl.java:139-141 | `upgrade.txt` is not a valid script name |
| `AecuExamples.PrunedFolderNamedLikeScript` | core/src/main/java/de/valtech/aecu/core/service/AecuServiceImpl.java:85-93 | a folder `x.groovy` that fails the run-mode check is not entered but is itself returned as a candidate |
| `AecuExamples.PublishTreeDiscovery` | core/src/main/java/de/valtech/aecu/core/service/AecuServiceImpl.java:85-94 | on the tree `/root/a.groovy`, `/root/sub.author/b.groovy`, any run-mode set without `author` yields exactly `[/root/a.groovy]` |
| `AecuExamples.PublishOnlyDiscovery` | core/src/main/java/de/valtech/aecu/core/service/AecuServiceImpl.java:85-94 | on that tree, the run modes `{publish}` yield exactly `[/root/a.groovy]` |
| `AecuExamples.AuthorTreeDiscovery` | core/src/main/java/de/valtech/aecu/core/service/AecuServiceImpl.java:85-94 | on that tree, any run-mode set with `author` yields both scripts in tree order |
| `AecuExamples.DiscoveryErrors` | core/src/main/java/de/valtech/aecu/core/service/AecuServiceImpl.java:77-83 | a null path and an unknown path give their respective errors |

## Left out

- `getVersion` (lines 53-56) is left out. It only reads the OSGi bundle version through `FrameworkUtil`, which is a runtime call with no logic.
- The session in `getFiles` is left out. The try-with-resources block only opens and closes the resolver. `GetFiles` takes the outcome of the login as an `Option<Resolver>`, where `None` is a `LoginException`.
- The injected `ServiceResourceResolverService` and `SlingSettingsService` are left out. They are replaced by a resolver function and an explicit run-mode set.
- The iterator `childIterator` (line 86) is left out because it is never used.
- `FindCandidates`: recurses over the resolved node's children instead of resolving each `child.getPath()` again. An inconsistent resolver, where a child path resolves to another node or to nothing, is covered one level deep by `ChildrenByPath` only.
- Exceptions that the resolver or the JCR value map might throw are left out. Reading `jcr:primaryType` is modelled as an optional string.
- Script execution, fallback resolution and execution history are not part of this model, because `AecuServiceImpl` as modelled does not contain them.
