# mdnotes core, modelled in Dafny

mdnotes is a browser-based Markdown notes manager. A small web server lets
the browser list, read, create, save and delete notes under a chosen notes
root. It also browses folders to pick that root, relays file-system changes
to the browser as Server-Sent Events, and exports a note as HTML or PDF. The
browser side keeps user preferences in local storage and applies a light or
dark theme.

This project models the decision rules of that core and proves what they
promise:

- the watch relay's registry of watch handles and its event framing;
- the browser's file watcher and its event normaliser;
- the file gateway's containment check, directory listing and mutations;
- the folder browser;
- the settings store;
- theme resolution;
- export dispatch.

The disk is an abstract map from canonical absolute paths to nodes. The
browser's storage is a key/value map. Network outcomes, `readdir` answers,
the Markdown renderer, the highlighter and the PDF printer are inputs or
function parameters.

Modules:

- `Common`: `Option` and `Result`.
- `Strings`: prefix, suffix, first-occurrence search and replace, and code-point order.
- `PosixPath`: Node's POSIX `resolve`, `normalize`, `join` and `relative` as segment normalisation, `dirname` as Node's backward scan for the last separator, and `basename` as the last non-empty segment.
- `Ordering`: an in-place insertion sort on an array by a rank-then-name key, proved sorted and a permutation.
- `Json`: `JSON.stringify` string escaping and flat string-valued objects, with a parser it round-trips through.
- `WatchServer`: the `watchers` registry as a class with the start/stop/stream endpoints, plus SSE framing.
- `ClientWatcher`: the `FileWatcher` class, `onmessage` and `handleFileEvent`, and the end-to-end relay lemma.
- `FileGateway`: the files API.
- `ConfinedGateway`: directory containment, and the corrected `POST` (see Findings).
- `SettingsStore`: the settings store as a class over an in-memory record and the storage map.
- `BrowseFolder`: the folder browser.
- `Theme`: theme resolution and the page's class list, meta colour and listeners, as a class.
- `Export`: export validation, dispatch, download naming and fallbacks.

Two facts about the source that shape the model:

- The settings merge is a shallow spread (`{...defaultSettings, ...parsed}` in `src/lib/stores/settings.js`): a stored key replaces the default's whole value.
- The start action of `src/routes/api/watch/+server.js` always answers success.

## Model

| member | source | states |
|---|---|---|
| WatchServer.Payload | src/routes/api/watch/+server.js:54-76 | each of add/change/unlink/addDir/unlinkDir becomes `{type: <same tag>, path}`; a watcher error becomes `{type: 'error', error: message}` |
| WatchServer.WatchHandle.constructor | src/routes/api/watch/+server.js:16-21 | a new watch handle on the given root is open and has no stream attached |
| WatchServer.WatchHandle.Close | src/routes/api/watch/+server.js:12 | closing marks the handle closed and leaves its streams alone |
| WatchServer.WatchHandle.Deliver | src/routes/api/watch/+server.js:50-76 | an event yields exactly one frame per attached stream, each the event's frame; a closed handle yields none |
| WatchServer.Registry.constructor | src/routes/api/watch/+server.js:4 | the registry starts empty and valid |
| WatchServer.Registry.AtMostOneLive | src/routes/api/watch/+server.js:9-30 | under the registry invariant no client id ever has two open handles |
| WatchServer.Registry.Post | src/routes/api/watch/+server.js:6-36 | start closes the id's previous handle and registers a fresh one on the root; stop closes and removes it and is a no-op for an unknown id; both answer success; any other action answers 400 and changes nothing; the invariant (every handle ever created is current for its id or closed) is kept; entries of other ids and all other handles are untouched |
| WatchServer.Registry.Get | src/routes/api/watch/+server.js:38-89 | a stream opens, with the five SSE headers and one more attached stream, exactly when the id is present, non-empty and registered; otherwise 404 and no handle changes |
| WatchServer.StopTwice | src/routes/api/watch/+server.js:26-33 | two stops leave the registry as one stop does: the id removed |
| ClientWatcher.StripRootUnderRoot | src/lib/fileWatcher.js:79 | for a raw path `root + sep + r` with sep `/` or `\` the delivered path is exactly `r` |
| ClientWatcher.HandleFileEvent | src/lib/fileWatcher.js:75-97 | a missing path throws; add/change/unlink call back, with the same type and `isDirectory: false`, when the raw path ends in `.md` and call nothing otherwise; addDir/unlinkDir call back as add/unlink with `isDirectory: true`; any other type calls nothing; the delivered path is the stripped one |
| ClientWatcher.OnMessage | src/lib/fileWatcher.js:32-39 | data that does not parse is only logged; a delivered change is what `handleFileEvent` produced from the parsed `type` and `path` |
| ClientWatcher.SseDataOfLine | src/routes/api/watch/+server.js:50-52 | a frame `data: <line>` plus a blank line carries that line back as the message data |
| ClientWatcher.FrameRoundTrip | src/routes/api/watch/+server.js:50-52 | every frame is `"data: " + JSON(payload) + "\n\n"`, its data is the serialised payload, and that parses back to the payload |
| ClientWatcher.MarkdownUnderRoot | src/lib/fileWatcher.js:83 | for a path under the root, the `.md` test on the raw path agrees with the test on the part after the root |
| ClientWatcher.RelayDelivers | src/lib/fileWatcher.js:75-97 | end to end, an event the server emits for `root + sep + rel` reaches the browser as the normalised change on `rel` (file events only for `.md`), at most once; an error event is only logged |
| ClientWatcher.EventSource.constructor | src/lib/fileWatcher.js:30 | an event source opens on its URL |
| ClientWatcher.EventSource.Close | src/lib/fileWatcher.js:56 | closing an event source marks it closed |
| ClientWatcher.FileWatcher.constructor | src/lib/fileWatcher.js:2-8 | a new watcher is inactive with no event source, so it satisfies the invariant that an inactive watcher holds no event source |
| ClientWatcher.FileWatcher.Start | src/lib/fileWatcher.js:10-49 | when active: no request and no change; otherwise the start request is sent, and only an ok response opens a fresh event source on the stream URL and activates; a failed or rejected request leaves it inactive with no event source at all; the invariant that an inactive watcher holds no event source is kept |
| ClientWatcher.FileWatcher.Stop | src/lib/fileWatcher.js:51-73 | when inactive: no request and no change; otherwise the event source is closed and dropped, the stop request is sent, and the watcher is inactive unless that request was rejected; when inactive beforehand it has no event source; the invariant that an inactive watcher holds no event source is kept |
| Json.EscapeHasNoControl | src/routes/api/watch/+server.js:51 | escaped string text contains no control character, so a serialised payload is one SSE line |
| Json.StringRoundTrip | src/lib/fileWatcher.js:34 | parsing an escaped string followed by its closing quote gives the string back and the rest of the input |
| Json.ParseStringify | src/lib/fileWatcher.js:34 | `JSON.parse(JSON.stringify(fields)) == fields` for flat string-valued objects |
| Strings.StrLeTotal | src/routes/api/files/+server.js:75 | the name order compares any two names |
| Strings.StrLeTrans | src/routes/api/files/+server.js:75 | the name order is transitive |
| Strings.StrLeAntisym | src/routes/api/files/+server.js:75 | the name order is antisymmetric |
| Ordering.KeyLeTrans | src/routes/api/files/+server.js:71-76 | the rank-then-name order is transitive |
| Ordering.SortByKey | src/routes/api/files/+server.js:71-76 | the in-place sort leaves the array sorted by rank then name, and a permutation of what it was |
| PosixPath.JoinSplit | src/routes/api/files/+server.js:12 | splitting a path at `/` and joining the segments gives the path back |
| PosixPath.SplitJoin | src/routes/api/files/+server.js:12 | joining `/`-free segments and splitting again gives the segments back |
| PosixPath.NormFromNoParent | src/routes/api/files/+server.js:12 | without `..` segments normalisation only drops empty and `.` segments |
| PosixPath.NormFromPlain | src/routes/api/files/+server.js:12 | an absolute path normalises to plain segments only (no empty, `.`, `..` or `/`) |
| PosixPath.DirnameFixedPoint | src/routes/api/browse-folder/+server.js:19-20 | `dirname(p) == p` exactly for `/` and `.` |
| PosixPath.DirnameShorter | src/routes/api/files/+server.js:139 | the dirname of an absolute path other than `/` is a strictly shorter absolute path |
| FileGateway.ContainedWithoutParentSegments | src/routes/api/files/+server.js:12-17 | a relative path without `..` segments is never denied: it resolves to the root's segments followed by its own |
| FileGateway.SiblingPrefixPasses | src/routes/api/files/+server.js:15 | the check is a plain string prefix: `../rootX/a.md` under root `/root` resolves to `/rootX/a.md` and passes |
| FileGateway.ParentEscapeDenied | src/routes/api/files/+server.js:15 | `../etc/passwd` under root `/root` resolves to `/etc/passwd` and is denied |
| FileGateway.CollectSucceeds | src/routes/api/files/+server.js:47-49 | the listing exists exactly when every entry can be `stat`ed; otherwise the request fails |
| FileGateway.CollectComplete | src/routes/api/files/+server.js:47-68 | every subdirectory entry and every file entry named `*.md` is listed, with its root-relative path |
| FileGateway.CollectSound | src/routes/api/files/+server.js:47-68 | nothing else is listed: every item is that of a directory or `*.md` file entry |
| FileGateway.CollectErrorSticks | src/routes/api/files/+server.js:47-49 | the first entry that cannot be `stat`ed fails the whole listing with its error |
| FileGateway.ListingOrder | src/routes/api/files/+server.js:71-76 | in the sorted listing no file precedes a directory, and names ascend within each kind |
| FileGateway.CollectItems | src/routes/api/files/+server.js:47-68 | the loop's outcome is `Collect` over the entries: the first entry that cannot be `stat`ed is the error, and otherwise the items of the directories and `.md` files in entry order |
| FileGateway.SortItems | src/routes/api/files/+server.js:71-76 | the result is ordered directories first, then by name, and is a permutation of its input |
| FileGateway.ListDirectory | src/routes/api/files/+server.js:47-76 | the `push` loop and sort return the collected items, sorted directories first then by name, as a permutation; a failed `stat` is returned as the error |
| FileGateway.Get | src/routes/api/files/+server.js:7-93 | 403 exactly when the containment check fails; a missing target is ENOENT; a file returns its content, basename, root-relative path and size; a directory returns the sorted listing or the `stat` error |
| FileGateway.MdName | src/routes/api/files/+server.js:111 | the result ends in `.md`; a name already ending in `.md` is kept, any other gets `.md` appended (so the normalisation is idempotent) |
| FileGateway.WriteFile | src/routes/api/files/+server.js:122 | a write succeeds exactly when the target is not a directory and its parent is an existing directory, and then changes only the target |
| FileGateway.DirnameAncestor | src/routes/api/files/+server.js:139 | the parent `mkdir -p` climbs to is an ancestor of the path: a prefix of it ending at a separator |
| FileGateway.AncestorTrans | src/routes/api/files/+server.js:139 | an ancestor of an ancestor is an ancestor, so every directory on the climb is one of the target |
| FileGateway.MakeDirs | src/routes/api/files/+server.js:139 | `mkdir -p` creates the target as a directory, keeps every existing node, adds only directories that are ancestors of the target (the target itself or a prefix of it ending at a separator, so `/no` is not one of `/notes`), and fails only when a file sits at such an ancestor |
| FileGateway.RemoveTree | src/routes/api/files/+server.js:158 | recursive removal drops the target and everything under it and keeps the rest unchanged |
| FileGateway.Post | src/routes/api/files/+server.js:96-173 | 403 exactly when the containment check fails; an unknown action is 400 exactly when the check passes; every response other than 200 leaves the disk unchanged; what each create action answers on every disk is stated by `CreateFileOutcome` and `CreateDirectoryOutcome` |
| FileGateway.CreateFileOutcome | src/routes/api/files/+server.js:110-130 | on every disk, once the path check passes: no name fails; a target that exists, file or directory, answers 409 and writes nothing; otherwise the file `target` is created with `content || ''` and the relative path and `.md` name are answered exactly when its parent is a directory, and any other outcome is a failure with the disk unchanged |
| FileGateway.CreateDirectoryOutcome | src/routes/api/files/+server.js:132-145 | on every disk, once the path check passes: no name fails; a target that exists, directory or file, answers 409 and writes nothing; otherwise a successful `mkdir -p` answers the relative path and the name with `mkdir`'s disk, and its error answers 500 with the disk unchanged |
| FileGateway.CreateFileTwiceConflicts | src/routes/api/files/+server.js:110-130 | a successful create writes exactly the new `.md` file with `content` or `''`; the same request again answers 409 and writes nothing |
| FileGateway.CreateDirectoryEffect | src/routes/api/files/+server.js:132-145 | a successful create_directory (no `.md` added) makes the directory and otherwise only missing ancestors of it (prefixes ending at a separator); again answers 409 |
| FileGateway.SaveFileEffect | src/routes/api/files/+server.js:147-151 | a successful save replaces the content at the resolved path and changes nothing else |
| FileGateway.DeleteEffect | src/routes/api/files/+server.js:153-164 | delete removes only the entry for a file, and a directory together with its whole subtree |
| FileGateway.Disk.HandlePost | src/routes/api/files/+server.js:96-173 | a `POST` changes the disk in place as `Post` prescribes, and not at all when it does not succeed |
| ConfinedGateway.WithinIsSegmentPrefix | src/routes/api/files/+server.js:15 | directory containment holds exactly when the root's resolved segments are a prefix of the target's |
| ConfinedGateway.SiblingNotWithin | src/routes/api/files/+server.js:15 | under directory containment `/rootX/a.md` is not within `/root` |
| ConfinedGateway.InTreeContained | src/routes/api/files/+server.js:105 | directory containment implies the source's string check, so the corrected handler never weakens it |
| ConfinedGateway.PostConfined | src/routes/api/files/+server.js:102-145 | the corrected `POST` denies a path outside the root, and a create whose joined name leaves the root |
| ConfinedGateway.AncestorOfTree | src/routes/api/files/+server.js:139 | an ancestor of a path in the root's tree is in that tree or is an ancestor of the root |
| ConfinedGateway.PostConfinedStaysInside | src/routes/api/files/+server.js:102-164 | under the corrected `POST` every node a request changes is within the root, apart from directories `mkdir -p` creates that are ancestors of a root that does not exist yet (prefixes of the root ending at a separator) |
| ConfinedGateway.CreateFileEscapesRoot | src/routes/api/files/+server.js:110-129 | as written, `create_file` with name `../a` under root `/notes` answers success and writes `/a.md` outside the root; the corrected handler denies it |
| SettingsStore.DefaultSettings | src/lib/stores/settings.js:4-17 | the defaults have `theme: 'system'` and a `rootPath` that is the process's working directory when there is one |
| SettingsStore.Merge | src/lib/stores/settings.js:36 | every default key is present, stored values win, and extra stored keys are kept |
| SettingsStore.MergeIdempotent | src/lib/stores/settings.js:36 | merging a merged record over the defaults again changes nothing |
| SettingsStore.MergeComplete | src/lib/stores/settings.js:36 | a stored record that has every default key loads unchanged |
| SettingsStore.Store.constructor | src/lib/stores/settings.js:21 | the store starts equal to the defaults |
| SettingsStore.Store.Load | src/lib/stores/settings.js:29-45 | with a window and a parseable stored record the store is set to, and load returns, the defaults merged with it; otherwise load returns the defaults and leaves the store unchanged; storage is never written |
| SettingsStore.Store.Save | src/lib/stores/settings.js:48-53 | save persists exactly `s` under `markdown-notes-settings` (with a window) and sets the store to `s` |
| SettingsStore.Store.UpdateSetting | src/lib/stores/settings.js:56-64 | only key `k` changes, and the persisted record equals the new in-memory record |
| SettingsStore.Store.Reset | src/lib/stores/settings.js:67-72 | reset removes the persisted key and sets the store to the defaults |
| SettingsStore.SaveThenLoad | src/lib/stores/settings.js:29-53 | saving `s` and then loading yields the defaults merged with `s` |
| SettingsStore.ResetThenLoad | src/lib/stores/settings.js:29-72 | after a reset, loading yields the defaults |
| BrowseFolder.ParentEntry | src/routes/api/browse-folder/+server.js:19-26 | a `..` entry for `dirname(current)`, with `isParent: true`, exists exactly when `dirname(current) != current` |
| BrowseFolder.SubfoldersContents | src/routes/api/browse-folder/+server.js:29-38 | apart from the parent, exactly the directory entries appear, one each, with `path = join(current, name)` and `isParent: false` |
| BrowseFolder.ParentFirst | src/routes/api/browse-folder/+server.js:42-47 | a sorted list holding the parent once starts with it and has no other parent |
| BrowseFolder.NamesAscend | src/routes/api/browse-folder/+server.js:46 | non-parent folders are in ascending name order |
| BrowseFolder.CollectFolders | src/routes/api/browse-folder/+server.js:16-38 | the list built by the loop is the optional parent entry followed by the subfolders in entry order |
| BrowseFolder.SortFolders | src/routes/api/browse-folder/+server.js:42-47 | the result is ordered parent first, then by name, and is a permutation of its input |
| BrowseFolder.LookupNormalises | src/routes/api/browse-folder/+server.js:10 | a component-by-component lookup that succeeds ends at the node of the lexically normalised path |
| BrowseFolder.StatResolves | src/routes/api/browse-folder/+server.js:10 | a `stat` of the raw path that succeeds finds the node at `path.resolve` of it |
| BrowseFolder.MissingThenParent | src/routes/api/browse-folder/+server.js:10 | `stat('/g/..')` with `/g` missing fails with `ENOENT`, although the path resolves to the existing root |
| BrowseFolder.FileWithTrailingSlash | src/routes/api/browse-folder/+server.js:10 | `stat('/f/')` on a file `/f` fails with `ENOTDIR`, although the path resolves to the file |
| BrowseFolder.Browse | src/routes/api/browse-folder/+server.js:5-53 | the raw path is `stat`ed component by component, as the kernel does; a path that is not a directory answers 400; a `stat` failure (a missing component, a file followed by more path) or a `readdir` failure answers 500 with the error; otherwise the folders are the parent entry and the subfolders, sorted, one per subdirectory plus one when not at a root |
| BrowseFolder.BrowseOrder | src/routes/api/browse-folder/+server.js:42-47 | the parent entry, when present, comes first, no other entry is a parent, and the rest ascend by name |
| Theme.Effective | src/lib/theme.js:9-15 | `system` becomes `dark` exactly when the system prefers dark and `light` otherwise; any other value is kept |
| Theme.MetaColor | src/lib/theme.js:23 | the colour is `#1f2937` exactly when the effective theme is dark, `#ffffff` otherwise |
| Theme.OnChange | src/lib/theme.js:34-36 | the change callback gets `dark` exactly when the query matches, as `system` resolves |
| Theme.ThemedClasses | src/lib/theme.js:7-18 | the effective theme is present, the other theme class is gone, and every other class is untouched |
| Theme.ThemedClassesIdempotent | src/lib/theme.js:7-18 | applying the same effective theme twice gives the class list of applying it once |
| Theme.Page.constructor | src/lib/theme.js:1-4 | a page starts with no theme listeners |
| Theme.Page.ApplyTheme | src/lib/theme.js:1-27 | without a window nothing happens; otherwise the class list becomes the old one minus dark/light plus the effective theme, the meta colour follows it (if there is a meta tag), and the effective theme is returned; a token `classList.add` refuses throws after the removal |
| Theme.Page.WatchSystemTheme | src/lib/theme.js:29-38 | with a window exactly one fresh listener is added; without one nothing is registered |
| Theme.Page.Teardown | src/lib/theme.js:40-42 | the teardown removes exactly its own listener and keeps every other; the no-window teardown does nothing |
| Theme.Page.SystemChange | src/lib/theme.js:34-38 | on a system change every registered listener calls back once with `dark` exactly when the query matches; the listeners and the page's invariant are kept, so later registrations and teardowns still work |
| Theme.Without | src/lib/theme.js:41 | removing a listener keeps all others and no copy of it |
| Theme.WithoutKeeps | src/lib/theme.js:38-42 | removing a listener keeps the listener ids distinct |
| Theme.ApplyTwice | src/lib/theme.js:1-27 | `applyTheme` is idempotent for a fixed theme and system preference |
| Export.StripMd | src/routes/api/export/+server.js:223 | one trailing `.md` is dropped; a name without it is unchanged |
| Export.StripMdOnce | src/routes/api/export/+server.js:223 | exactly one `.md` goes: stripping `base + ".md"` gives `base` |
| Export.DownloadName | src/routes/api/export/+server.js:223 | the download name strips one trailing `.md` then appends the extension; a name without `.md` just gets the extension |
| Export.TitleRoundTrip | src/routes/api/export/+server.js:71 | the page's title is the filename |
| Export.BodyRoundTrip | src/routes/api/export/+server.js:212-214 | the rendered fragment is embedded verbatim in the body |
| Export.GenerateHtml | src/routes/api/export/+server.js:60-226 | the HTML export has content type `text/html`, a `.html` attachment name and the page of the filename and fragment; a missing filename is a 500 |
| Export.HandleExport | src/routes/api/export/+server.js:26-58 | 400 `Format and content are required` exactly when either is missing or empty; `html` and `pdf` with content answer what their generators answer; any other format is 400 `Unsupported format`; the only other error is 500 `Export failed`, for a missing filename |
| Export.GeneratePdf | src/routes/api/export/+server.js:228-429 | a printed page with a filename downloads the bytes as `application/pdf` named `<name without .md>.pdf`; a failed print or a missing filename falls back to the HTML export |
| Export.PdfExportShape | src/routes/api/export/+server.js:417-422 | a PDF request whose printing succeeds downloads exactly the printed bytes as `application/pdf`, named `<name without .md>.pdf` |
| Export.PdfFallsBackToHtml | src/routes/api/export/+server.js:423-429 | a PDF request whose printing fails gets exactly the HTML export for the same content and filename |
| Export.HtmlExportShape | src/routes/api/export/+server.js:60-226 | an HTML export is `text/html`, named `<name without .md>.html`, titled with the filename, and embeds the rendered Markdown |
| Export.HighlightCode | src/routes/api/export/+server.js:9-18 | with no language the code is returned unchanged; an unregistered language is highlighted as `plaintext`; a highlighter exception returns the raw code |

## Left out

- Real I/O is not modelled: `fs` calls, `fetch`, `EventSource` transport, `ReadableStream`, `localStorage` and the DOM. Each is an abstract map, a class field or an input outcome. JSON serialisation in `localStorage` is the identity (`Stored.Record`).
- Concurrency is not modelled: handlers run to completion on one event loop. This leaves out races between the gateway and the watcher, overlapping start requests, and listeners leaked when a client disconnects.
- The recursive watcher's own behaviour is not modelled: depth 10, `ignoreInitial`, and the `ignored` dot-file pattern. Its events are inputs.
- The random client id is not modelled; it is a constructor parameter of `FileWatcher`.
- Timestamps (`mtime`, the `modified` fields) are not modelled.
- The health endpoint is not modelled: it returns a constant apart from a clock and an environment lookup.
- `hasMarkdownFiles` in the files API is not modelled: it is never called.
- FileGateway.ListDirectory: names are ordered by code points, not by the locale-sensitive `localeCompare`.
- FileGateway.SortItems: an insertion sort stands for the engine's `Array.prototype.sort`; only the order and the permutation are stated, not stability.
- BrowseFolder.SortFolders: an insertion sort stands for the engine's `Array.prototype.sort`, and names are ordered by code points, not by `localeCompare`.
- BrowseFolder.Browse: names are ordered by code points, not by `localeCompare`. The `readdir` answer is an input, not tied to the disk map. Symbolic links are not modelled, so `..` always climbs to the lexical parent of the directory reached. Permission errors other than a failed read are not modelled.
- FileGateway.Get: the `readdir` answer is an input, not derived from the disk map.
- FileGateway.Get: `size` counts characters, not UTF-8 bytes.
- FileGateway.Get: a directory's own `stat` size is not modelled (the listing gives directories no size).
- FileGateway.Post: `existsSync` followed by the write is one atomic step here.
- `path.join` is modelled without its trailing-slash rule: a joined path never ends in `/` unless it is `/`.
- Json.ParseStringify: covers only flat objects of string values without whitespace. Those are the only shapes the relay sends.
- Json.ParseStringify: a `\u` escape of a lone surrogate is rejected. JavaScript strings can hold one, but Dafny characters cannot, so `JSON.stringify` never produces one here.
- SettingsStore.Value: a setting is a string, a boolean or an integer, the kinds the defaults use. A stored non-integer number or nested object, which the stored JSON could hold, is not modelled.
- SettingsStore.Store.Load: a stored value that parses to something other than an object (a number, `null`) is not modelled. It is either a record or unparseable text.
- The Svelte store's `subscribe`/`set`/`update` plumbing is not modelled; `Store.current` stands for the store's value.
- Theme.Page.ApplyTheme: only the `classList.add` token errors of an empty or whitespace-containing theme are modelled. `matchMedia` is the `prefersDark` field.
- The Markdown renderer, the highlighter and the PDF printer are not modelled: they are uninterpreted function parameters.
- The CSS text of the exported page is not modelled: a placeholder stands for it, and the PDF page's print style sheet is not distinguished from the HTML page's.
- The headless browser's lifecycle, including a browser left open after a failure, is not modelled.

## Findings

| source | as written | input that shows it | evidently intended | confidence | as-written member | corrected member |
|---|---|---|---|---|---|---|
| src/routes/api/files/+server.js:15 | containment is `resolve(root, p).startsWith(resolve(root))`, a string prefix | root `/root`, path `../rootX/a.md` resolves to `/rootX/a.md` and is allowed | only the root and paths below it are allowed | medium, not executed | FileGateway.SiblingPrefixPasses | ConfinedGateway.WithinIsSegmentPrefix |
| src/routes/api/files/+server.js:111-112 | `create_file` and `create_directory` check only the parent path; `name` is joined after the check | root `/notes`, no path, name `../a` writes `/a.md` | the created path is checked as well | medium, not executed | ConfinedGateway.CreateFileEscapesRoot | ConfinedGateway.PostConfinedStaysInside |
