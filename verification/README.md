# A verified model of the notes backend

The backend turns a directory of Typst notes into a linked set of HTML
fragments. A **build service** watches the project directory. It compiles
each note file through a `SystemWorld`, a Typst world that caches file
slots and records which files a compilation read. It cuts the exported
HTML into one fragment per labelled `h2` heading (`note:<uuid>`), collects
each fragment's `note://<uuid>` links, and keeps a file-dependency graph
so that a modified file triggers a rebuild. A **notes service** owns the
note graph (notes as nodes, links as edges), the titles, the list of notes
each file produced, and the build errors. It serves fragment contents and
broadcasts updates once the initial build has finished. A **package
storage** resolves Typst packages from the data directory, then the cache
directory, then a download from the package registry, and caches the
registry index. The configuration is read from `config.toml` and checked
against the file system. A stub notes actor serves a fixed three-note
graph.

The model is written as pure functions over immutable values:

- Each Rust module becomes a Dafny module: `NotesService`, `BuildService`
  with `Extraction`, `SystemWorld`, `Package`, `Service` and `Config`.
- Shared modules describe the libraries the code relies on:
  - `Digraph`: petgraph's `DiGraphMap` as a node set and an edge set, with
    breadth-first search;
  - `Html`: the parsed HTML tree, plus ego_tree's node arena for
    `clone_subtree`;
  - `Paths`: `PathBuf` as an absolute flag plus components;
  - `Utf8`: UTF-8 validation: the `UTF8-char` syntax of section 4 of RFC 3629, and the encoding of section 3;
  - `Uuids`: the hyphenated form of a 128-bit UUID;
  - `Typst`: file ids, package specs and diagnostics.
- The file system, the network, the Typst compiler, the UUID parser and
  `hash128` are parameters of the functions that use them.

## Model

| member | source | states |
|---|---|---|
| NotesService.Start | backend/src/notes_service.rs:419-442 | The service starts with an empty graph, no titles, no file lists and no errors, and the build is not yet finished. |
| NotesService.CreateNote | backend/src/notes_service.rs:45-63 | The note becomes a node. Each of its links becomes a node and an edge from the note. Its title and file are recorded, and its id is appended to the file's list. Nothing else changes, and no other edge or node appears. |
| NotesService.CreateNotes | backend/src/notes_service.rs:65-93 | A failed build only records the error. A good build replaces the file's list with the batch's ids in order and records the warnings. An `Update` of the output is sent exactly when the build has finished and the output is non-empty. |
| NotesService.CreateNotesOk | backend/src/notes_service.rs:71-87 | After a good initial build, the edges are the old ones plus each batch note's links. The new nodes are the batch's notes and their targets. Batch notes get the title of their last occurrence. Earlier notes keep their titles and files. |
| NotesService.UpdateNote | backend/src/notes_service.rs:95-116 | The note's outgoing neighbours become exactly its new links. Every edge not leaving the note is kept, including edges into it. Its title, file and list entry are updated as for a creation. |
| NotesService.UpdateNotes | backend/src/notes_service.rs:118-154 | The corrected batch update keeps the state well formed. It leaves the finished and cancelled flags and the build directory unchanged. |
| NotesService.UpdateLoopIds | backend/src/notes_service.rs:127-148 | Each file with a good build gets exactly the ids of its last good output. Other files keep their lists. |
| NotesService.UpdateLoopErrors | backend/src/notes_service.rs:127-148 | Each reported file's status is that of its last report, whether success or failure. Unreported files keep theirs. |
| NotesService.UpdateLoopLinks | backend/src/notes_service.rs:127-148 | After the batch, a note's outgoing edges are the links of its last occurrence in the good outputs. Edges of notes outside the batch are kept. |
| NotesService.UpdateLoopTitles | backend/src/notes_service.rs:127-148 | Each note in a good output takes the title and file of its last occurrence. Other notes keep theirs. |
| NotesService.UpdateNotesMessage | backend/src/notes_service.rs:125-153 | At most one `Update` is sent. It holds all good outputs concatenated in input order, and it is sent exactly when the build has finished and that concatenation is non-empty. |
| NotesService.UpdateNotesPanics | backend/src/notes_service.rs:137 | The update as written panics exactly when a good build names a file that has no list. Otherwise it agrees with the corrected update. |
| NotesService.FailedThenFixedPanics | backend/src/notes_service.rs:137 | A file whose first build failed, and whose next build succeeds, crashes the service as written. The corrected update records the note. |
| NotesService.RemoveNotes | backend/src/notes_service.rs:156-188 | The file's error and list disappear. Every note in its list leaves the titles, the files and the graph, together with all edges touching it. `Remove` is sent exactly when the file had a list. The service is cancelled when a fragment cannot be deleted. |
| NotesService.RemovedNotesAreGone | backend/src/notes_service.rs:156-188 | After removal, a removed note has no content, no title, no snapshot entry, and appears in nobody's links. |
| NotesService.Subscribe | backend/src/notes_service.rs:199-213 | In the snapshot, `v` is among `u`'s outgoing links iff the edge `u→v` exists. Only notes with an outgoing edge appear as keys, and the titles are the current ones. |
| NotesService.SnapshotAfterCreate | backend/src/notes_service.rs:199-213 | A link of a freshly built note shows up in the next snapshot. |
| NotesService.GetNoteContent | backend/src/notes_service.rs:33-43 | A non-node gets `None` without a read. A node gets exactly the read of `build/<uuid>.html`, whether content or error. |
| NotesService.CreatedNoteHasContent | backend/src/notes_service.rs:33-43 | Every note of a good build is served from its own fragment file. |
| NotesService.LinklessUpdatedNoteHasNoContent | backend/src/notes_service.rs:95-116 | A new note without links that arrives by an update gets a title but is not a graph node, so its content is `None`. |
| NotesService.SetBuildFinished | backend/src/notes_service.rs:191-193 | Only the finished flag changes, and it becomes set. |
| NotesService.Handle | backend/src/notes_service.rs:259-286 | With the corrected `update_notes`, the state stays well formed. The finished and cancelled flags never reset. Queries change nothing and receive a reply. Only build messages can broadcast. |
| NotesService.Run | backend/src/notes_service.rs:288-308 | With the corrected `update_notes`, over a message sequence the state stays well formed and the flags stay set. At most one broadcast is made per message. |
| NotesService.FinishedStaysFinished | backend/src/notes_service.rs:191-193 | Once the build is finished, no later message un-finishes it. |
| SystemWorld.DecodeUtf8 | backend/src/system_world.rs:329-334 | Decoding succeeds iff the buffer, with one leading BOM removed if present, is well-formed UTF-8. The result is that buffer. |
| SystemWorld.StripBomOnce | backend/src/system_world.rs:329-334 | Exactly one BOM is removed. A second BOM stays. |
| SystemWorld.BomDecodes | backend/src/system_world.rs:329-334 | A BOM followed by valid text decodes to the text. The BOM itself is U+FEFF. |
| SystemWorld.GetOrInit | backend/src/system_world.rs:259-287 | The cell always ends accessed and holding the returned value. An accessed cell with data returns it without loading. Otherwise the fingerprint becomes the hash of the load. An equal fingerprint with data returns the stored value without processing. Otherwise the value is the processed load, given the previous value only when that was `Ok`. |
| SystemWorld.GetOrInitTwice | backend/src/system_world.rs:265-269 | A second lookup in the same compilation neither loads nor changes anything. |
| SystemWorld.UnchangedAfterReset | backend/src/system_world.rs:259-287 | After a reset, an unchanged file is loaded again but not reprocessed, and yields the same value. |
| SystemWorld.ResetCell | backend/src/system_world.rs:250-252 | A reset clears only the access mark. Data and fingerprint are kept. |
| SystemWorld.ResetSlot | backend/src/system_world.rs:176-183 | A slot is accessed iff either cell is. A reset clears both marks and keeps both cells' data and fingerprints. |
| SystemWorld.FreshSource | backend/src/system_world.rs:185-210 | A fresh slot's source is the decoded text, tagged with the slot's id, or `InvalidUtf8`. |
| SystemWorld.SlotFile | backend/src/system_world.rs:212-228 | Only the file cell changes. A changed or new file yields the raw load. |
| SystemWorld.WorldSource | backend/src/system_world.rs:127-136 | A source access creates the slot if needed and records the id as a dependency unless it is the main file. |
| SystemWorld.WorldFile | backend/src/system_world.rs:138-147 | A file access does the same for raw bytes. |
| SystemWorld.CompileDependencies | backend/src/system_world.rs:127-147 | After a compilation, the dependencies are exactly the files it accessed other than the main file. |
| SystemWorld.IntoDependencies | backend/src/system_world.rs:100-104 | Hands back the recorded set and leaves it empty. |
| SystemWorld.MainNotADependency | backend/src/system_world.rs:127-147 | The main file is never its own dependency. |
| Utf8.FromUtf8 | backend/src/system_world.rs:331-333 | Accepts exactly the well-formed buffers. On error, `valid_up_to` is the longest well-formed prefix. |
| Utf8.WellFormedIffEncoding | backend/src/system_world.rs:331-333 | A buffer is well formed iff it is the encoding of some sequence of scalar values. |
| Utf8.EncodeWellFormed | backend/src/system_world.rs:331-333 | Encoding yields well-formed UTF-8 that decodes back to the scalars. |
| Utf8.DecodeEncodes | backend/src/system_world.rs:331-333 | Decoding well-formed UTF-8 and encoding again gives back the bytes. |
| Extraction.ParsePrefixed | backend/src/build_service.rs:382-415 | A label or link without its prefix is `MissingPrefix`. Otherwise the result is the UUID parse of the rest, success or error. |
| Extraction.PrefixedRoundTrip | backend/src/build_service.rs:382-415 | `note:<uuid>` and `note://<uuid>` in hyphenated form parse back to the UUID. |
| Extraction.LinkIsNotLabel | backend/src/build_service.rs:382-415 | A link never parses as a label, because the UUID parser refuses the `//` left after `note:`. |
| Extraction.FindLinksExactly | backend/src/build_service.rs:493-507 | A UUID is found iff some anchor in the fragment has an `href` that parses as a note link to it. |
| Extraction.ArenaMembers | backend/src/build_service.rs:445-455 | The fragment's arena, in id order, holds exactly the fragment's nodes. |
| Extraction.FindLinksSiblings | backend/src/build_service.rs:453-455 | Links come sibling by sibling: a fragment's links are those under its first siblings, then those under the rest. |
| Extraction.FindLinksBreadthFirst | backend/src/build_service.rs:476-507 | Within one copied sibling, links come level by level. A nested anchor is found after a shallower anchor that follows it, unlike in document order. |
| Extraction.FindLinksExample | backend/src/build_service.rs:493-507 | Anchors with another scheme or without an `href` are skipped. |
| Extraction.Section | backend/src/build_service.rs:449-455 | A section is the longest run of siblings that contains no `h2`: it stops right before the next `h2`. |
| Extraction.FragmentsHaveNoHeading | backend/src/build_service.rs:437-459 | Each fragment is one `article` whose children contain no `h2`. |
| Extraction.SectionsExample | backend/src/build_service.rs:437-459 | Two headings split a body into two fragments, keyed by their texts. |
| Extraction.Title | backend/src/build_service.rs:431 | One leading "Section" is stripped from a heading's text, and nothing else. |
| Extraction.TitleExamples | backend/src/build_service.rs:431 | "SectionSectionIntro" loses only the first "Section". |
| Extraction.MatchesKeys | backend/src/build_service.rs:420-435 | The matched UUIDs are exactly those of the headings whose label parses. |
| Extraction.Pair | backend/src/build_service.rs:466-473 | Each output note's fragment is looked up by its title, and no title is used twice. Every match whose title has a fragment is paired. The unconsumed fragments remain. |
| Extraction.ExtractNoteFragments | backend/src/build_service.rs:417-474 | Extraction panics iff the match count differs from the fragment count. Otherwise it returns at most one note per match. Each note carries its matched title and the fragment of that title, with titles and ids distinct. |
| Html.CloneSubtree | backend/src/build_service.rs:476-491 | The copied arena decodes to the source subtree: same values, same child order. Its node ids follow the breadth-first order of the source. |
| Html.LevelOrderMembers | backend/src/build_service.rs:476-491 | The breadth-first order visits exactly the nodes of the document order. |
| Html.SelectIsFilteredNodes | backend/src/build_service.rs:493-507 | Selecting by tag name gives the elements of that name in document order. |
| Html.Attr | backend/src/build_service.rs:498-504 | The value of an attribute is that of its first occurrence, and there is one iff the attribute occurs. |
| Digraph.Bfs | backend/src/build_service.rs:272-286 | The visit starts at the file, repeats nothing, and lists exactly the nodes reachable from it. |
| Digraph.RemoveNode | backend/src/build_service.rs:333-334 | Removing a node drops it and every edge touching it. |
| BuildService.Track | backend/src/build_service.rs:345-373 | A build's slots gain the main file and every accessed file. Its dependencies are the accessed files other than the main file. |
| BuildService.Publish | backend/src/build_service.rs:511-582 | A compiled page panics iff extraction fails. It is built iff every fragment file is written. The built output is each note's title, id and links, together with the warnings and dependencies. |
| BuildService.Build | backend/src/build_service.rs:511-582 | A build fails exactly when compilation does, with its errors. Otherwise it publishes the page. |
| BuildService.HandleCreate | backend/src/build_service.rs:236-266 | A successful build adds the file and an edge from it to each dependency, and sends `Created` with the output. A failed build sends the errors and leaves the graph unchanged. A write failure cancels and a panic crashes, both without sending. |
| BuildService.DependencyDoesNotReachDependent | backend/src/build_service.rs:246-256 | After a creation, a dependency does not reach the file that depends on it, so modifying it does not rebuild that file. |
| BuildService.Rebuild | backend/src/build_service.rs:301-318 | After a successful rebuild of `j`, its incoming edges are exactly those from its package-free dependencies, and the other edges are kept. A failure leaves the graph unchanged. |
| BuildService.RebuildAddsReverseEdge | backend/src/build_service.rs:301-318 | Rebuilding a file adds an edge back from a dependency that already had an edge from it. |
| BuildService.Reattach | backend/src/build_service.rs:301-318 | The incoming edges of `j` are replaced by edges from its package-free dependencies. All other edges are kept. |
| BuildService.ResetAll | backend/src/build_service.rs:278-287 | The visited files' slots are reset and the others kept. The step fails iff a visited file has no slot. |
| BuildService.Sources | backend/src/build_service.rs:281-284 | The files rebuilt are exactly the visited files marked as sources. |
| BuildService.HandleModify | backend/src/build_service.rs:268-331 | The visit is exactly the set of files reachable from the modified one. Every visited file has a slot in a well-formed state. With no sources, at most the modified file itself is rebuilt and reported. |
| BuildService.OnlyTargetRebuilt | backend/src/build_service.rs:280-331 | With `is_source` empty, the only update ever sent is about the modified file. |
| BuildService.HandleRemove | backend/src/build_service.rs:333-340 | The file, its incident edges and its source mark are dropped, and `Removed` is sent. Nothing else changes. |
| BuildService.Classify | backend/src/build_service.rs:182-219 | Access, any and other events are ignored. Other events without exactly one path inside the project panic. A creation fires only for package-free `.typ` files under the notes directory. A modification fires only for graph nodes or note sources. A removal always fires. |
| BuildService.Dispatch | backend/src/build_service.rs:182-219 | Each event applies the handler it is classified for, or nothing, or a crash. A modification rebuilds after a visit of exactly the files reachable from the modified one. |
| BuildService.Run | backend/src/build_service.rs:160-234 | Over the event batches the graph stays well formed and sources are never added. A stopped service does nothing. |
| BuildService.Start | backend/src/build_service.rs:127-171 | A failed reset of the build directory returns at once, building nothing and sending nothing. Otherwise every walked file is handled until a crash or a cancellation stops the walk. `Finished` comes last exactly when neither happened; otherwise only creations are sent. |
| BuildService.Session | backend/src/build_service.rs:160-234 | From the initial state no file is ever a source, so a modification rebuilds nothing else. The state stays valid. Without a crash or a cancellation the build is reported finished. When `Finished` is never sent, only creations are. |
| Package.PackageUrl | backend/src/package.rs:125-143 | A URL exists iff the namespace is `preview`. |
| Package.PackageUrlInjective | backend/src/package.rs:125-143 | Different packages get different URLs. |
| Package.PackageUrlExample | backend/src/package.rs:134-136 | `preview/cetz:0.3.1` maps to `https://packages.typst.org/preview/cetz-0.3.1.tar.gz`. A local namespace has no URL. |
| Package.CallIndex | backend/src/package.rs:89-115 | The index is the decoded body iff the status is 200 and the body and decode succeed. Any other status with a body is `UnexpectedResponse`, carrying that status and body. |
| Package.ClassifyPackage | backend/src/package.rs:220-240 | 200 gives the body. 404 gives `NotFound`. Any other status gives `UnexpectedResponse` with its status and body. |
| Package.CallPackage | backend/src/package.rs:209-241 | The call panics iff the namespace is not `preview`. Otherwise an invalid URI is an error, and a valid one is classified. |
| Package.PackageDirectory | backend/src/package.rs:378-381 | A package lives in `namespace/name/version` under its root. |
| Package.DownloadPackage | backend/src/package.rs:373-399 | The download succeeds iff the fetch, the temporary directory, the unpacking, the directory creation and the rename all succeed. A rename onto an existing directory counts as success. Only the target directory can appear. A 404 reports a placeholder spec. |
| Package.PreparePackage | backend/src/package.rs:401-423 | The data directory wins if present, then the cache directory, in both cases without a download. A success is one of the two and exists afterwards. |
| Package.PrepareDownloads | backend/src/package.rs:417-422 | With neither directory present, a download error propagates. A completed download returns the cache directory. |
| Package.NoDownloadWhenPresent | backend/src/package.rs:402-415 | With either directory present, the outcome does not depend on the network or the disk operations. |
| Package.NotFoundIsPlaceholder | backend/src/package.rs:156-171 | Every `NotFound` that preparation reports carries the placeholder spec, never the requested one. |
| Package.FailedRenameLeavesDirectory | backend/src/package.rs:394-398 | A failed rename reports the error but leaves the empty target directory, which the next preparation returns. |
| Package.GetIndex | backend/src/package.rs:362-371 | The service is called iff no index is cached. A success is cached and returned. A failure is reported as a network error and nothing is cached. |
| Package.CachedIndexIsStable | backend/src/package.rs:362-371 | Once cached, every later request returns the cached index without a call. |
| Package.IndexFetchedUntilFirstSuccess | backend/src/package.rs:362-371 | The service is called until its first success and never after. Earlier requests report the errors, and later ones return that index. |
| Package.StorageGetIndex | backend/src/package.rs:362-371 | The storage's directories are kept. A cached index is returned unchanged. Otherwise the result succeeds iff the index call does, and then it is cached. |
| Typst.DecimalRoundTrip | backend/src/package.rs:134-136 | A version component's decimal text reads back as the number. |
| Uuids.HyphenatedRoundTrip | backend/src/notes_service.rs:35 | The 32 hex digits of a UUID's hyphenated form read back as the UUID. |
| Uuids.HyphenatedInjective | backend/src/notes_service.rs:35 | Different notes get different fragment file names. |
| Service.Default | backend/src/service.rs:21-51 | The default actor is coherent: a well-formed graph whose nodes are the node ids, each with a title. |
| Service.DefaultGraph | backend/src/service.rs:31-48 | The default graph has nodes 1, 2, 3, edges 1→2, 1→3, 2→3, 3→1, and titles "Note 1" to "Note 3". |
| Service.ContentAsWritten | backend/src/service.rs:86-96 | As written, content exists exactly for the first two notes, and the handler never fails. |
| Service.ThirdNoteHasNoContent | backend/src/service.rs:86-96 | The third note is a titled node, yet gets `Ok(None)`, and the third page is never served. |
| Service.ContentForEveryNote | backend/src/service.rs:86-96 | Corrected, exactly the default actor's notes have content, each its own page. |
| Service.Metadata | backend/src/service.rs:102-112 | Metadata is `None` iff the id is not a node. The title is that id's. |
| Service.MetadataIsEdges | backend/src/service.rs:104-108 | Links are the targets of the note's outgoing edges and backlinks the sources of its incoming ones. |
| Service.LinksMirrorBacklinks | backend/src/service.rs:104-108 | `b` is among `a`'s links iff `a` is among `b`'s backlinks. |
| Service.DefaultMetadata | backend/src/service.rs:31-48 | The default notes' links and backlinks, written out. |
| Service.Handle | backend/src/service.rs:86-112 | No handler changes the actor, and content requests never fail. As written, only the first two notes get a page. |
| Service.ServeIsStateless | backend/src/service.rs:159-180 | Each response of the receive loop is the answer to its own request alone. |
| Config.ResolveDirectories | backend/src/config.rs:74-83 | Order and length are kept. Absolute directories are kept. Relative ones end up under the project directory. |
| Config.FirstMissing | backend/src/config.rs:91-95 | There is none iff every directory exists. Otherwise it is the first one, in list order, that does not exist. |
| Config.TryBuild | backend/src/config.rs:57-106 | On success, the cache and data directories are both the per-user data directory, and the project, notes and extra directories all exist. |
| Config.SuccessDerivesPaths | backend/src/config.rs:72-105 | On success, the project directory and default note are the file's. The notes and build directories are its `notes` and `build` children. The extra directories are the file's, resolved in order. |
| Config.ErrorPriority | backend/src/config.rs:58-95 | A missing home directory is reported before any read, and a read error before parsing. Parse errors arise exactly from a parse failure. Then come the project directory, the notes directory, and the first missing extra directory. |
| Config.ReadsOnlyConfigFile | backend/src/config.rs:64-65 | Only `config.toml` in the config directory is read. |
| Config.NoChecksBeforeParse | backend/src/config.rs:58-70 | No existence check happens before the file is parsed. |

## Left out

- I/O: channels, `tokio::select!` loops and async tasks are not modelled. Messages are handled one at a time in order, and each handler's broadcast is an output value. Cancellation is a flag.
- `Event` (event.rs) is a boolean flag that only goes from false to true.
- BuildService.Run: cancellation is checked only at batch boundaries. The order in which `select!` sees a cancellation and a batch is not modelled.
- BuildService.Start: a cancellation stops the walk before the next file. The race in which `set_build_finished` completes before `select!` sees a cancellation raised by the last file is not modelled. Neither is the error of `watcher.watch`, after `Finished`; a watcher that never started delivers no batches.
- NotesService.Handle, NotesService.Run: they run the corrected `update_notes`. The as-written crash on a file without a list is stated by NotesService.UpdateNotesPanics.
- Extraction.FindLinks: `Html::select` is taken to visit a fragment's nodes in `ego_tree` id order, and `append_subtree` to keep a subtree's ids in order after the existing nodes. scraper and ego_tree are not part of this model.
- The Typst compiler and HTML export are an oracle per main file. It gives the accesses a compilation makes and its result. The result does not depend on slot contents.
- HTML parsing and serialisation are not modelled: the tree is given, and fragments are trees. Headings come from Typst's introspection as an oracle list.
- `extract_note_fragments` iterates a `HashMap` in an unspecified order. That order is an oracle permutation of the matches.
- Service.Metadata: links and backlinks are sets, so petgraph's neighbour order and duplicate edges are not modelled.
- NotesService.Subscribe: outgoing links are sets, not vectors in petgraph order.
- The fetch of a package archive is a client oracle. Tar/gzip extraction is an `unpacks` predicate on the body. The temporary-directory, create and rename outcomes are given.
- Package.Subdirectory: namespace, name and version are taken as single path components, so names containing `/` are not modelled.
- File-system changes made concurrently by other processes are not modelled. Directory existence is a set of paths.
- `today()` in system_world.rs (date arithmetic) and fonts are not modelled.
- `ProjectDirs` lookup is an oracle. Error messages and reason strings are abstract.
- Integer widths: the `u64` status codes, `u128` fingerprints and version numbers are unbounded.
- UUID parsing is an oracle. The round-trip lemmas assume only that it reads back hyphenated UUIDs and refuses `/`.
- The three embedded HTML pages of the stub actor are named, not spelled out.
- build_server.rs, editor_protocol.rs, editor_service.rs, router.rs and main.rs are not part of this model. Neither is the older crate under src/.

## Findings

| source | as written | input that shows it | evidently intended | confidence | as-written member | corrected member |
|---|---|---|---|---|---|---|
| backend/src/notes_service.rs:137 | `update_notes` unwraps the file's list of note ids | a file whose first build failed, so `create_notes` stored no list, and whose next build succeeds | the good output replaces the list, inserting one if absent, as `create_notes` does | not executed | NotesService.UpdateNotesAsWritten (NotesService.FailedThenFixedPanics, NotesService.UpdateNotesPanics) | NotesService.UpdateNotes |
| backend/src/service.rs:91 | the third content test repeats the second UUID | the id `550e8400-e29b-41d4-a716-446655440002` gets `Ok(None)` | the third note gets `CONTENT3` | not executed | Service.ContentAsWritten (Service.ThirdNoteHasNoContent) | Service.Content (Service.ContentForEveryNote) |
