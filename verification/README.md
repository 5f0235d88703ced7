# config-toolkit console core, modelled in Dafny

This project models the core of the config-toolkit console and of its local-file watcher.

The console keeps a configuration tree in ZooKeeper, laid out as `/root/version/group/key`. Each version `v` has a parallel comment shadow `v$`. In the shadow, `/root/v$/group/key` holds the comment of `/root/v/group/key`. Three pieces of the Java code are modelled:

- **`NodeService`** (`node_service.dfy`): the six store operations. They are `findProperties`, `listChildren`, both `createProperty` overloads, `updateProperty`, `deleteProperty` and `getValue`.
  - The ZooKeeper tree is a map from path to node data.
  - The Curator client becomes one flag, `online`. When it is false, every call hits the `catch` block: the caller gets `false`, an empty list or `null`, and nothing changes.
- **`IndexController`** (`index_controller.dfy`, `property_lines.dfy`): the handlers built on those operations.
  - `makePaths` and the `$` shadow naming.
  - The version list of `rootNode`, which drops shadows and sorts.
  - `getItems`, `createGroup`, `createVersion` with `cloneVersion`, `createProp`, `updateProp`, `deleteProp` and `deleteGroup`.
  - The property-file text format written by `formatPropertyLines` and read by `parseInputFile`.
  - The dispatch of `importData` by file name, and `saveGroup`.
- **`FileChangeEventListener`** (`file_watch.dfy`): the watch loop `run`.
  - The stream of `WatchService.take` results is a sequence, and `run` is a fold over it.
  - The fold yields the trace of reloads (`configGroup.initConfigs()`) and key resets, plus the reason the loop stopped.
  - `isSameFile` compares file names.

Three support modules stand in for library code:

- `strings.dfy` models the `java.lang.String` and Spring `StringUtils` calls the code uses.
- `text_lines.dfy` models the `Joiner.on("\r\n")` join of a single-group export and the `IOUtils.readLines` split of an upload.
- `sorting.dfy` models the stream sorts `rootNode` applies to version and group names: `sorted(...reversed())` for versions and `sorted()` for groups.

Source paths below are relative to the repository root. Three files are cited:

- `IndexController.java` is `config-face/src/main/java/com/dangdang/config/face/controller/IndexController.java`.
- `NodeService.java` is `config-face/src/main/java/com/dangdang/config/face/service/NodeService.java`.
- `FileChangeEventListener.java` is `config-toolkit/src/main/java/com/dangdang/config/service/file/FileChangeEventListener.java`.

## Notes on the code's behaviour

- **A `null` value makes `updateProperty` report `false`.** `value.getBytes` throws inside the `try`, so the call writes nothing and returns `false` (`NodeService.UpdateProperty`). So `updateProp` without a comment leaves the comment node untouched.
- **The watch loop can end by crashing.** `isSameFile` calls `getFileName().equals(...)` on the event's context path. A `MODIFY` event whose context has no file name therefore throws a `NullPointerException`, which ends the thread. Reloads already done in that batch stay done, and the key is not reset. The model records this ending as `Crashed`.
- **A comment that begins with `#` survives export and import.** Export writes `"# " + comment`. Import strips the leading run of `#` and then trims (`trimLeadingCharacter`, then `trim`). The space after the written `#` stops the stripping, so a comment that itself starts with `#` comes back unchanged.

## Model

| member | source | states |
|---|---|---|
| NodeService.ListChildren | config-face/src/main/java/com/dangdang/config/face/service/NodeService.java:106-119 | The result is `null` exactly when the node is missing or the backend fails. Otherwise it is the node's children, and an existing leaf gives an empty list, not `null`. |
| NodeService.FindProperties | config-face/src/main/java/com/dangdang/config/face/service/NodeService.java:77-98 | One `(name, data)` pair for each child of an existing node, holding that child's data. The result is empty when the node is missing or the backend fails. |
| NodeService.GetValue | config-face/src/main/java/com/dangdang/config/face/service/NodeService.java:198-210 | The node's data when it exists and the backend answers, otherwise `null`. |
| NodeService.CreateProperty | config-face/src/main/java/com/dangdang/config/face/service/NodeService.java:138-154 | Succeeds exactly when the backend answers and the node did not exist. On success it writes the data, with null or empty data as an empty node, and creates missing ancestors empty. Every other node keeps its data. On failure the tree is unchanged. A well-formed tree stays well formed. |
| NodeService.CreateNode | config-face/src/main/java/com/dangdang/config/face/service/NodeService.java:127-129 | The one-argument overload creates an empty node, with the same success and failure rules. |
| NodeService.UpdateProperty | config-face/src/main/java/com/dangdang/config/face/service/NodeService.java:160-176 | Succeeds exactly when the backend answers and the value is not null. It then overwrites an existing node, or creates it with its ancestors. A failure changes nothing. |
| NodeService.DeleteProperty | config-face/src/main/java/com/dangdang/config/face/service/NodeService.java:182-192 | An existing node is removed together with its whole subtree. Nodes outside the subtree keep their data. A missing node or a backend failure is a no-op. |
| NodeService.WithAncestors | config-face/src/main/java/com/dangdang/config/face/service/NodeService.java:147 | `creatingParentsIfNeeded`: the target holds the data, and every ancestor exists afterwards. Only the target and missing ancestors are added, and the added ancestors are empty. |
| NodeService.Ancestors | config-face/src/main/java/com/dangdang/config/face/service/NodeService.java:147 | The nodes `creatingParentsIfNeeded` may add for a path: exactly its prefixes, the path itself included. |
| NodeService.WrittenAtValid | config-face/src/main/java/com/dangdang/config/face/service/NodeService.java:147 | Such a write keeps the tree parent-closed and free of empty names. |
| NodeService.CreateOnlyOnce | config-face/src/main/java/com/dangdang/config/face/service/NodeService.java:140-153 | Creating an absent path succeeds and `getValue` returns its data. A second create of that path fails and changes nothing, so creation never overwrites. |
| NodeService.LastUpdateWins | config-face/src/main/java/com/dangdang/config/face/service/NodeService.java:160-176 | Two updates leave the second value, whether or not the node existed before. |
| NodeService.DeletedPathIsGone | config-face/src/main/java/com/dangdang/config/face/service/NodeService.java:182-192 | After a delete, `listChildren` returns `null`, `findProperties` is empty and `getValue` is `null` for the deleted node. |
| NodeService.NewNodeHasNoChildren | config-face/src/main/java/com/dangdang/config/face/service/NodeService.java:106-119 | A missing node lists as `null`. The same node, once created, lists as an empty list. |
| IndexController.MakePathsKeepsNonEmptyNames | config-face/src/main/java/com/dangdang/config/face/controller/IndexController.java:316-324 | `makePaths` joins its segments in order and skips empty ones, so a built path never contains an empty node name. |
| IndexController.CommentPathApart | config-face/src/main/java/com/dangdang/config/face/controller/IndexController.java:230-231 | A property's comment path is neither the property's path nor one of its ancestors. So the second create of `createProp` cannot hit the first one's node. |
| IndexController.PropPathApart | config-face/src/main/java/com/dangdang/config/face/controller/IndexController.java:263-266 | Below a named version, a property's data path is not an ancestor of its comment path. So the comment upsert of `updateProp` cannot create the data node. |
| IndexController.DataOutsideShadow | config-face/src/main/java/com/dangdang/config/face/controller/IndexController.java:302-308 | No path under a version lies inside that version's `$` shadow. So deleting data never removes a comment. |
| IndexController.ListVersions | config-face/src/main/java/com/dangdang/config/face/controller/IndexController.java:72-75 | `None` exactly when the root is missing or the backend fails. There `listChildren` returns `null`, and `.stream()` on it throws a `NullPointerException`, which `None` stands for. Otherwise it lists every child of the root not ending in `$`, and nothing else, in descending order. |
| IndexController.RootNode | config-face/src/main/java/com/dangdang/config/face/controller/IndexController.java:67-93 | The shown version is the requested one, else the first listed, else none. Its groups are listed in ascending order, all of them and only them, exactly when the shown version is one of the listed versions. |
| IndexController.GetItems | config-face/src/main/java/com/dangdang/config/face/controller/IndexController.java:112-137 | One item per child of the data group, carrying that child's data. Its comment is the same-named node of the shadow group when that exists, else null. |
| IndexController.ItemsAreKeyedByName | config-face/src/main/java/com/dangdang/config/face/controller/IndexController.java:116-132 | Items are determined by their name, and a missing group or a backend failure gives no items. |
| IndexController.CreateGroup | config-face/src/main/java/com/dangdang/config/face/controller/IndexController.java:142-154 | Creates the trimmed group node in the data tree only, with its ancestors. An existing group or a backend failure changes nothing. |
| IndexController.CreateProp | config-face/src/main/java/com/dangdang/config/face/controller/IndexController.java:213-241 | Succeeds exactly when the backend answers and the trimmed property path is absent, and then stores the trimmed value. A comment with text lands at the mirrored shadow path unless a node is already there. With no comment, only the property and its ancestors are written. Existing nodes never change, and a failure writes nothing. Nodes are added only on the property path, or on the comment path when the comment has text. |
| IndexController.CreateWithComment | config-face/src/main/java/com/dangdang/config/face/controller/IndexController.java:228-234 | The comment is written only after the data create succeeds, and only when the comment has text. Both creates only add nodes. Every added node lies on the data path, or on the comment path when the comment has text. |
| IndexController.UpdateProp | config-face/src/main/java/com/dangdang/config/face/controller/IndexController.java:246-269 | Always reports success. Whenever the backend answers, a non-null value is readable at the property path and a non-null comment at the comment path. A null comment leaves the comment node exactly as it was, present or absent. A null value does the same for the property node. No other node changes. Nodes are added only on the paths of the non-null value and comment. |
| IndexController.UpdateWithComment | config-face/src/main/java/com/dangdang/config/face/controller/IndexController.java:263-266 | Two independent upserts. Each lands when its value is non-null, and neither touches other nodes. A null value or comment leaves its own node exactly as it was, unless that node lies on the other path. Added nodes lie on the path of a non-null write. |
| IndexController.DeleteProp | config-face/src/main/java/com/dangdang/config/face/controller/IndexController.java:274-287 | Always reports success. The property's subtree is removed, nodes outside it keep their data, and, for a non-empty version, the version's comment shadow is left exactly as it was. |
| IndexController.DeleteGroup | config-face/src/main/java/com/dangdang/config/face/controller/IndexController.java:300-311 | Always reports success. The group's subtree is removed, and, for a non-empty version, the shadow tree, including the group's comments, is left as it was. |
| IndexController.CloneVersion | config-face/src/main/java/com/dangdang/config/face/controller/IndexController.java:192-208 | Every group and every property of the source version exists in the destination afterwards. Nodes are only added, and each added node is a group or property copied from the source, or an empty ancestor. |
| IndexController.CloneGroups | config-face/src/main/java/com/dangdang/config/face/controller/IndexController.java:194-207 | The loop over source groups: each visited group and all its properties are present at the destination. |
| IndexController.CloneGroup | config-face/src/main/java/com/dangdang/config/face/controller/IndexController.java:195-206 | One group: the group node is created at the destination, and then each source property is created under it. |
| IndexController.CopyProperties | config-face/src/main/java/com/dangdang/config/face/controller/IndexController.java:201-205 | Each listed property is present under the destination group, and every node added is one of those properties with its source data. When all of them already existed, nothing changes. |
| IndexController.CreateVersion | config-face/src/main/java/com/dangdang/config/face/controller/IndexController.java:159-187 | Succeeds exactly when the trimmed name has text, the backend answers and the version is new. On success the version and its `$` shadow exist, and nothing outside them is added. With no source version, the new version has no groups. With a source version, every source property lands with its data and every source comment lands in the new shadow. On failure nothing changes. |
| IndexController.CreateNamedVersion | config-face/src/main/java/com/dangdang/config/face/controller/IndexController.java:168-183 | The same for an already trimmed, non-empty version name. |
| IndexController.CopyFromVersion | config-face/src/main/java/com/dangdang/config/face/controller/IndexController.java:176-180 | The two `cloneVersion` calls: data into the version and shadow into the shadow, adding nodes only inside the new version's two subtrees. |
| IndexController.DropTrailingSlashes | config-face/src/main/java/com/dangdang/config/face/controller/IndexController.java:429 | `java.io.File` normalisation of the name: it keeps the longest prefix that does not end in `/`. Exactly trailing `/` characters are removed, and a name not ending in `/` is kept whole. |
| IndexController.BaseName | config-face/src/main/java/com/dangdang/config/face/controller/IndexController.java:429 | `File.getName`: the last name of the normalised file name. That is the part after its last `/`, and the whole name when it has no `/`. The result never contains `/`. |
| IndexController.BaseNameIgnoresTrailingSlash | config-face/src/main/java/com/dangdang/config/face/controller/IndexController.java:413-429 | A zip entry named `g/` is read as group `g`, the same as `g`: a trailing `/` does not change the name. |
| IndexController.StripExtension | config-face/src/main/java/com/dangdang/config/face/controller/IndexController.java:429 | The name up to its last dot. The removed part starts with that dot and contains no other dot. |
| IndexController.NameWithoutExtension | config-face/src/main/java/com/dangdang/config/face/controller/IndexController.java:429 | A prefix of the base name without any `/`. It is the whole base name when that has no dot. |
| IndexController.GroupFileName | config-face/src/main/java/com/dangdang/config/face/controller/IndexController.java:429 | `g.properties` is saved into group `g`. |
| IndexController.CreateAll | config-face/src/main/java/com/dangdang/config/face/controller/IndexController.java:433-436 | Running the creates in order only adds nodes, and every path written exists afterwards. |
| IndexController.SaveItems | config-face/src/main/java/com/dangdang/config/face/controller/IndexController.java:433-436 | Every imported item's data node and comment node exist in the target group afterwards, and existing nodes keep their data. |
| IndexController.SaveItemsValid | config-face/src/main/java/com/dangdang/config/face/controller/IndexController.java:433-436 | Importing into well-formed group paths keeps the tree well formed. |
| IndexController.SaveItemsFirstWins | config-face/src/main/java/com/dangdang/config/face/controller/IndexController.java:433-436 | When several items share a name, the first one decides. Its trimmed value, and its comment or an empty node, are what an absent node receives, because later creates of the same path fail. |
| IndexController.SaveGroup | config-face/src/main/java/com/dangdang/config/face/controller/IndexController.java:426-438 | The uploaded text is read line by line and parsed. A file with no property lines changes nothing. Otherwise every parsed item is created under the group named after the file, in both trees. Existing nodes are kept. |
| IndexController.ImportKind | config-face/src/main/java/com/dangdang/config/face/controller/IndexController.java:404-415 | `.properties` is one group, `.zip` is an archive, and any other name is ignored. |
| IndexController.ExportedGroupFileIgnored | config-face/src/main/java/com/dangdang/config/face/controller/IndexController.java:339 | As written, a single-group export is named `group.property`, and importing that file does nothing. |
| IndexController.GroupExportFileImported | config-face/src/main/java/com/dangdang/config/face/controller/IndexController.java:352 | Named with the `.properties` suffix, as the archive entries are, a group export is imported into the group it came from. |
| IndexController.ImportOfExport | config-face/src/main/java/com/dangdang/config/face/controller/IndexController.java:426-438 | Importing the text of a single-group export, `"\r\n"`-joined and read back line by line, saves exactly the normalised exported items into that group's data and shadow paths. |
| IndexController.ImportRestoresExport | config-face/src/main/java/com/dangdang/config/face/controller/IndexController.java:382-438 | Export to text, then import of that text, restores a group: each property whose node is missing gets its value back, and each missing comment node gets the comment, or an empty node when there was none. |
| PropertyLines.Header | config-face/src/main/java/com/dangdang/config/face/controller/IndexController.java:384-385 | The first exported line starts with the export marker. |
| PropertyLines.ItemLines | config-face/src/main/java/com/dangdang/config/face/controller/IndexController.java:387-392 | One item's lines: a `# comment` line exactly when the comment has text, then `name=value` last. |
| PropertyLines.Body | config-face/src/main/java/com/dangdang/config/face/controller/IndexController.java:387-392 | One line per item, plus a `# ` line for each item that has a comment. When there are items, the last line is `name=value` of the last item. |
| PropertyLines.BodyAppend | config-face/src/main/java/com/dangdang/config/face/controller/IndexController.java:387-392 | The lines of two runs of items are the lines of the first run followed by those of the second. So each item contributes exactly its own `ItemLines`, in order. |
| PropertyLines.BodyOnOneLine | config-face/src/main/java/com/dangdang/config/face/controller/IndexController.java:387-392 | When no name, value or comment holds a line break, no exported body line does either. |
| PropertyLines.HeaderOnOneLine | config-face/src/main/java/com/dangdang/config/face/controller/IndexController.java:384-385 | When the root, version and group hold no line break, neither does the header. |
| PropertyLines.FormatPropertyLines | config-face/src/main/java/com/dangdang/config/face/controller/IndexController.java:382-394 | Header, an empty line, then the body, with exactly one line per item plus one per comment. |
| PropertyLines.SplitAtFirstEquals | config-face/src/main/java/com/dangdang/config/face/controller/IndexController.java:444 | `Splitter.on('=').limit(2)`: no split without `=`. Otherwise the line is key, `=`, value, and the key contains no `=`. |
| PropertyLines.CommentOf | config-face/src/main/java/com/dangdang/config/face/controller/IndexController.java:467-469 | The previous line gives a comment exactly when it starts with `#`. |
| PropertyLines.ParseLine | config-face/src/main/java/com/dangdang/config/face/controller/IndexController.java:461-471 | A line yields an item exactly when it does not start with `#` and contains `=`. The item's name and value are trimmed, and its comment comes from the previous line. |
| PropertyLines.ParseInputFile | config-face/src/main/java/com/dangdang/config/face/controller/IndexController.java:450-477 | Never more items than lines, all with trimmed names and values. |
| PropertyLines.ParsedItemsTrimmed | config-face/src/main/java/com/dangdang/config/face/controller/IndexController.java:466 | Every parsed item, at any position, has a trimmed name and value. |
| PropertyLines.CommentLineYieldsNoItem | config-face/src/main/java/com/dangdang/config/face/controller/IndexController.java:462 | A `#` line yields no item and only becomes the previous line. |
| PropertyLines.LineWithoutEqualsYieldsNoItem | config-face/src/main/java/com/dangdang/config/face/controller/IndexController.java:464-465 | A line without `=` yields no item. |
| PropertyLines.SplitsAtFirstEqualsOnly | config-face/src/main/java/com/dangdang/config/face/controller/IndexController.java:464-466 | A value may itself contain `=`: only the first `=` separates key from value. |
| PropertyLines.CommentLineRoundTrip | config-face/src/main/java/com/dangdang/config/face/controller/IndexController.java:389 | A trimmed, non-empty comment written as `# comment` reads back unchanged. |
| PropertyLines.PropertyLineRoundTrip | config-face/src/main/java/com/dangdang/config/face/controller/IndexController.java:390 | A `key=value` line reads back as the item with its own comment. |
| PropertyLines.BodyRoundTrip | config-face/src/main/java/com/dangdang/config/face/controller/IndexController.java:387-392 | Reading the body back gives the items, with comments that have no text dropped. |
| PropertyLines.HeaderIsSkipped | config-face/src/main/java/com/dangdang/config/face/controller/IndexController.java:457-458 | A first line starting with the export marker is skipped. |
| PropertyLines.ExportImportRoundTrip | config-face/src/main/java/com/dangdang/config/face/controller/IndexController.java:450-477 | Parsing the lines of `formatPropertyLines(items)` gives back the items, in order. |
| PropertyLines.ExportFileRoundTrip | config-face/src/main/java/com/dangdang/config/face/controller/IndexController.java:336-477 | The single-group document, `"\r\n"`-joined as exported and read back with `readLines`, parses to the exported items. The final line break of an empty export's blank line is the only line lost, and it holds no item. |
| TextLines.LineEnd | config-face/src/main/java/com/dangdang/config/face/controller/IndexController.java:452 | The first line of a text ends at its first `\n` or `\r`, or at the end of the text, and contains no terminator. |
| TextLines.ReadLines | config-face/src/main/java/com/dangdang/config/face/controller/IndexController.java:452 | `readLines` gives no lines exactly for an empty text, and no line it returns holds a terminator. |
| TextLines.LineEndAfter | config-face/src/main/java/com/dangdang/config/face/controller/IndexController.java:452 | A first line without terminators ends exactly where the following text's first line would end, shifted by its length. |
| TextLines.ReadLinesAfterBreak | config-face/src/main/java/com/dangdang/config/face/controller/IndexController.java:452 | A line followed by `\r\n` reads back as that line, and reading resumes right after the separator. |
| TextLines.DropFinalEmpty | config-face/src/main/java/com/dangdang/config/face/controller/IndexController.java:452 | What a reader loses of joined lines: a final empty line, and nothing else. |
| TextLines.ReadLinesOfJoined | config-face/src/main/java/com/dangdang/config/face/controller/IndexController.java:336 | `readLines` of `Joiner.on("\r\n").join(lines)` gives back the lines, when none holds a terminator, except a final empty line. |
| JavaString.Trim | config-face/src/main/java/com/dangdang/config/face/controller/IndexController.java:219-223 | `String.trim`: the result has no blank at either end. |
| JavaString.TrimKeepsInfix | config-face/src/main/java/com/dangdang/config/face/controller/IndexController.java:219-223 | `trim` keeps a contiguous part of the string and removes only blanks around it. |
| JavaString.TrimFixesTrimmed | config-face/src/main/java/com/dangdang/config/face/controller/IndexController.java:466 | Trimming changes nothing exactly when the string is already trimmed. |
| JavaString.TrimLeadingCharacter | config-face/src/main/java/com/dangdang/config/face/controller/IndexController.java:468 | Removes the whole leading run of the character and nothing else. |
| JavaString.IndexOf | config-face/src/main/java/com/dangdang/config/face/controller/IndexController.java:444 | The first occurrence of the character, or none exactly when it does not occur. |
| JavaString.LastIndexOf | config-face/src/main/java/com/dangdang/config/face/controller/IndexController.java:429 | The last occurrence of the character, or none exactly when it does not occur. |
| JavaString.LexLessTransitive | config-face/src/main/java/com/dangdang/config/face/controller/IndexController.java:74 | The `compareTo` order used to sort versions is transitive. |
| JavaString.LexLessTotal | config-face/src/main/java/com/dangdang/config/face/controller/IndexController.java:74 | That order compares any two different names. |
| NameSort.Insert | config-face/src/main/java/com/dangdang/config/face/controller/IndexController.java:88 | Inserting a new name into an ascending list keeps it ascending, with the same elements plus that name. |
| NameSort.SortAscending | config-face/src/main/java/com/dangdang/config/face/controller/IndexController.java:88 | The group names in strictly ascending order, each exactly once. |
| NameSort.SortDescending | config-face/src/main/java/com/dangdang/config/face/controller/IndexController.java:74 | The version names in strictly descending order, each exactly once. |
| NameSort.Reverse | config-face/src/main/java/com/dangdang/config/face/controller/IndexController.java:74 | The reversed list, position by position. |
| FileChangeListener.FileName | config-toolkit/src/main/java/com/dangdang/config/service/file/FileChangeEventListener.java:79 | `getFileName` is null exactly for a path without name elements, and otherwise is its last name. |
| FileChangeListener.IsSameFile | config-toolkit/src/main/java/com/dangdang/config/service/file/FileChangeEventListener.java:78-80 | Throws exactly when the event path has no file name. Otherwise it is true exactly when both paths end in the same name. |
| FileChangeListener.SameFileIgnoresDirectories | config-toolkit/src/main/java/com/dangdang/config/service/file/FileChangeEventListener.java:78-80 | Only the final names are compared, never the directories. |
| FileChangeListener.Batch | config-toolkit/src/main/java/com/dangdang/config/service/file/FileChangeEventListener.java:48-68 | One batch only triggers reloads, and at most one per event. |
| FileChangeListener.OtherKindsIgnored | config-toolkit/src/main/java/com/dangdang/config/service/file/FileChangeEventListener.java:52-55 | Create, delete and overflow events never change what a batch does. |
| FileChangeListener.BatchReloadsMatching | config-toolkit/src/main/java/com/dangdang/config/service/file/FileChangeEventListener.java:48-68 | A batch reloads exactly once per modify event that names the watched file, and does not crash. |
| FileChangeListener.Run | config-toolkit/src/main/java/com/dangdang/config/service/file/FileChangeEventListener.java:36-76 | The loop is still waiting only if every batch so far arrived and every reset succeeded. |
| FileChangeListener.RunMatchesSpec | config-toolkit/src/main/java/com/dangdang/config/service/file/FileChangeEventListener.java:37-75 | Over any sequence of batches whose modify events carry a file name, the loop never crashes. It reloads once per matching event and resets the key once per processed batch. The crash case is stated by `BatchCrashesAtUnnamed` and `CrashEndsLoop`. |
| FileChangeListener.BatchCrashesAtUnnamed | config-toolkit/src/main/java/com/dangdang/config/service/file/FileChangeEventListener.java:48-68 | A modify event without a file name crashes its batch. The reloads of the matching events before it are kept. |
| FileChangeListener.CrashEndsLoop | config-toolkit/src/main/java/com/dangdang/config/service/file/FileChangeEventListener.java:64-75 | A crashed batch ends the loop: its reloads are the whole trace, there is no reset, and nothing after it is read. |
| FileChangeListener.StopIgnoresRest | config-toolkit/src/main/java/com/dangdang/config/service/file/FileChangeEventListener.java:42-45 | Once the loop has stopped, later signals change nothing. |
| FileChangeListener.WaitingContinues | config-toolkit/src/main/java/com/dangdang/config/service/file/FileChangeEventListener.java:37-75 | While waiting, the loop simply continues with the next batches: its trace is the trace so far followed by theirs. |
| FileChangeListener.InterruptEndsLoop | config-toolkit/src/main/java/com/dangdang/config/service/file/FileChangeEventListener.java:40-45 | An interrupt during `take` ends the loop, and nothing after it has any effect. |
| FileChangeListener.FailedResetEndsLoop | config-toolkit/src/main/java/com/dangdang/config/service/file/FileChangeEventListener.java:71-74 | A failed reset ends the loop after that batch's reloads and the reset. |
| FileChangeListener.NoMatchNoReload | config-toolkit/src/main/java/com/dangdang/config/service/file/FileChangeEventListener.java:64-66 | When no modify event names the watched file, no reload ever happens. |
| FileChangeListener.BatchWithoutMatch | config-toolkit/src/main/java/com/dangdang/config/service/file/FileChangeEventListener.java:64-66 | A batch with no event naming the watched file yields nothing. |

## Left out

- The Curator client's lifecycle and retry policy (NodeService.java:50-70) are left out. Every backend failure is the single `online = false` state.
- Character sets are left out. Node data is a string, not UTF-8 bytes, and `getValue`'s use of the platform charset is not modelled.
- `ZKPaths.makePath` normalisation is left out. Node names are assumed to contain no `/`, and an empty segment is dropped.
- ZooKeeper's path validation is left out. Curator runs it before every call. It rejects node names that hold control characters, `\n` and `\r` included, and the names `.` and `..`. `NodeService` catches the resulting `IllegalArgumentException` and reports failure. The model's `CreateProperty` and `UpdateProperty` instead succeed on such names, for example `createProp` with key `.`.
- Spring MVC routing, `ModelAndView`, `CommonResponse` bodies and `getRoot` (IndexController.java:292-295) are left out. The user's root is a parameter, and `index` and `groupData` are not modelled.
- The structure of the user's root path is left out. The code treats the root as a slash-separated path: a user name such as `tenant/user` names a nested node, and the archive file name replaces its `/` at IndexController.java:368. The model makes the root one opaque path element, `RootPath(root)`, standing for the user's absolute root path, so the root's ancestors are not in the model. `rootNode` calls `listChildren(root)` on the root exactly as given (IndexController.java:72), and the model takes that to list `RootPath(root)`. The two agree for an absolute root without a trailing `/`.
- The HTTP and zip handling of `exportData` (IndexController.java:326-377) and `importData` (IndexController.java:399-421) is left out. Of `exportData`, two parts are modelled: the `"\r\n"` join of a single-group export (`ExportText`) and the file name it gets, which is the finding below. The archive export writes each entry with `IOUtils.writeLines`, which also ends the last line with `\r\n`. That variant is not modelled. Bytes and their UTF-8 decoding are left out; `readLines` works on characters.
- The `PropertyItemVO.compareTo` order of `getItems` is left out. `GetItems` returns a set.
- UTF-16 code units are not modelled: `LexLess` compares Dafny characters.
- Threads, the `WatchService` itself and concurrent request handling are left out. Closing the watch service is not modelled either. `watcher.take()` then throws `ClosedWatchServiceException`, which escapes `run` (FileChangeEventListener.java:42), and `Take` has no such outcome. Races between concurrent creators are not modelled.
- What `initConfigs` does is left out. It appears only as a `Reload` effect.
- Platform-dependent case folding in `Path.equals` is not modelled. File names are compared exactly.
- `null` path arguments are left out. For example, `createGroup` throws on `newGroup.trim()` when `newGroup` is null, and the model takes plain strings for path segments.
- NodeService.DeleteProperty: deleting the root node `/` keeps the root, since ZooKeeper cannot delete it. No handler builds that path.
- IndexController.DeleteProp: requires a well-formed tree (root present, parents present, no empty names). ZooKeeper guarantees this of every tree, and the proof that the comment shadow is untouched needs it. That the shadow is untouched is stated only for a non-empty version. The `{version}` segment of the request path (IndexController.java:273) is never empty. With an empty version, `makePaths(root, "", group, key)` drops the empty segment. With group `$` the property path is then `root/$/key`, which lies inside the shadow `root/$`, so the delete removes a comment node.
- IndexController.DeleteGroup: the same well-formed-tree precondition as `DeleteProp`. The shadow claim has the same non-empty-version condition, for the same reason: the `{version}` segment at IndexController.java:299 is never empty. With an empty version and group `$`, the group path is the shadow `root/$` itself.
- IndexController.CreateVersion: the same precondition. The shadow node is modelled as `makePaths(root, version + "$")`, which equals the code's `versionNode + "$"` because `createVersion` has already checked that the version name is non-empty.
- IndexController.CloneVersion: requires the source and destination to be equal or neither inside the other. `createVersion` meets this in two ways. It clones a version into a different, new version, or one shadow into another, and then the two are apart. Or it clones a version onto itself: `fromVersion` trims to `version` (IndexController.java:166, 174-177), so `cloneVersion(versionNode, versionNode)` and then the shadow onto itself. That is the `src == dst` case of the requires, where every create finds its node present and nothing changes.
- IndexController.CreateProp: the comment is stated only for a comment path that was absent before the call. When it already existed, the create-if-absent keeps the old comment, and the model implies that without stating it.
- IndexController.CreateWithComment: the claims about the data node hold only when the data and comment paths differ. `CreateProp` discharges that condition with `CommentPathApart`.
- IndexController.UpdateWithComment: likewise, the value claim needs the two paths to differ, and `UpdateProp` discharges it with `CommentPathApart`.
- PropertyLines.ExportImportRoundTrip: stated only for items that fit the line syntax. Their name and value must already be trimmed. The name must have no `=` and must not start with `#`. The comment must be trimmed. None of the three may hold a line break. Other items come back trimmed, split at their first `=`, broken across lines, or dropped, as `ParseLine` and `ReadLines` state.
- PropertyLines.ExportFileRoundTrip: the same restriction on items. In addition, the root, version and group names must hold no line break, because they are quoted in the header line.
- IndexController.ImportOfExport: the same restrictions as `ExportFileRoundTrip`.
- IndexController.ImportRestoresExport: the same restrictions, and the item names must also be distinct and non-empty. A ZooKeeper node name can hold `=` or start with `#`. Such names do not survive the text format, and the parser may split or drop them. ZooKeeper rejects names with line breaks, but a value or comment can still hold one, and it is then broken across lines. `SaveItemsFirstWins` and `BodyRoundTrip` state what happens instead.
- IndexController.UpdateProp: when the version trims to the empty string, the frame for a null value is not stated. The data path `root/g/k` can then be an ancestor of the comment path `root/$/g/k`, for example when group and key are both `$`.
- FileChangeListener.RunMatchesSpec: stated for batches whose modify events carry a file name. A real `WatchService` gives a modify event the changed entry's relative name, which always has one. Batches that crash are stated separately by `BatchCrashesAtUnnamed` and `CrashEndsLoop`.
- JavaString.Trim: the contract states only that the result is trimmed and no longer than the input. That only blanks are removed is stated in `TrimKeepsInfix`.
- IndexController.NameWithoutExtension: how the extension is removed is stated in `StripExtension`, not in this member's own contract.

## Findings

| source | as written | input that shows it | evidently intended | confidence | as-written member | corrected member |
|---|---|---|---|---|---|---|
| config-face/src/main/java/com/dangdang/config/face/controller/IndexController.java:339 | a single exported group is offered for download as `group + ".property"` | group `g` is exported as `g.property`, and `importData` (IndexController.java:404-415) ignores that name because it ends neither in `.properties` nor in `.zip` | `group + PROPERTIES`, that is `g.properties`, as the archive entries are named at IndexController.java:352 | medium, not executed | IndexController.ExportedGroupFileIgnored | IndexController.GroupExportFileImported |

The model's round trip `ImportRestoresExport` uses the corrected name, `GroupExportFileName`.
