# Moon SD Models Viewer: a Dafny model of the catalog and the workflow library

This project models the logic of two files of the Moon SD Models Viewer, a
tkinter desktop tool for browsing Stable Diffusion model files and ComfyUI
workflows. It leaves the widget code out and proves properties of what remains.

- `safetensors_viewer.py`:
  - the file-system cache (`FileSystemCache`);
  - the walk that builds the model catalog, the category list and the
    subfolder buttons;
  - the filter and sort engine (`filter_files`, `sort_filtered_files`, the
    looser filter of `load_files_without_selection`);
  - the `model_info.json` metadata store: save, auto-save merge, favourites,
    delete, move, copy, the trailing-comma repair;
  - the fetched-description splice and the blank-line collapse;
  - cyclic up/down selection;
  - the copy-name loop;
  - the `webui-user.bat` and SD sidecar rewrites;
  - the hash pass and the batch processor.
- `workflow_manager.py`:
  - the brace-depth scanner that finds a workflow embedded in a PNG or SVG
    file, with its URL-encoded and HTML-escaped variants;
  - the PNG writer `save_image_with_json` and its reader
    `extract_json_from_png`;
  - the workflow table keyed by content hash: persistence in
    `workflow_info.json`, the merge on load, rekeying, favourites, delete,
    the single-selection filter, the filter-button grid and navigation;
  - the info/backup file swap of `change_workflow_dir`.

## Layout

Each Dafny file holds one module. Python strings are `seq<char>`, bytes are
`seq<byte>`, and Python dictionaries are `map`s. Where the source relies on
insertion order, a dictionary is modelled as a key sequence plus a map.
Objects whose fields the source updates are classes:
- `FsCache.FileSystemCache`;
- `Catalog.Loader`;
- `Metadata.Library`;
- `ViewerTools.MemoCache` and `ViewerTools.ModelCache`;
- `WorkflowLibrary.WorkflowManager`.

Their methods are proved against functions on values. Loops that the source
writes as loops are methods with loop invariants:
- the cache lookups;
- the directory walk;
- the category collection;
- the blank-line collapse;
- the `.bat` search;
- the copy-name loop;
- the hash and batch passes;
- the brace scanners;
- the PNG writer and its IDAT copy loop;
- the workflow list filter and the table load.

Environment effects are parameters of the operations that use them:
- the clock is an integer `now`;
- the file system is an abstract tree or map;
- SHA-256 is a function `hashOf`;
- CRC-32 is a function `crc`;
- JSON parsing is a predicate `parses` or a function `parse`;
- `os.path.normpath` is a function `norm`;
- `os.path.exists` is a predicate `taken` or a set `disk`.

Files:
- `common.dfy`: string helpers (lowering, `find`, `strip`, `replace`, ordering, UTF-8).
- `sorting.dfy`: Python's stable `list.sort` with a key, as a stable insertion sort.
- `navigation.dfy`: `list.index` and the cyclic previous/next selection.
- `fs_cache.dfy`: `FileSystemCache`.
- `catalog.dfy`: the scan, the directory check, the category list.
- `metadata.dfy`: the metadata store and its operations.
- `filter_engine.dfy`: sorting plans, `filter_files`, the looser filter, `load_all_files`.
- `descriptions.dfy`: the Liblib/Civitai description splice and the blank-line collapse.
- `viewer_tools.dfy`: the path/preview memo tables, subfolder buttons and padding, copy naming.
- `config_files.dfy`: the `webui-user.bat` rewrite and the SD sidecar JSON.
- `batch.dfy`: the hash pass and the batch processor.
- `embedded_json.dfy`: the brace scanner, URL and HTML unescaping, the workflow extraction.
- `png_workflow.dfy`: the PNG writer, the reader, and their round trip.
- `workflow_table.dfy`: the workflow table as values.
- `workflow_library.dfy`: the workflow manager as a class.

## Model

| member | source | states |
|---|---|---|
| FsCache.FileSystemCache.constructor | safetensors_viewer.py:6668-6672 | The three caches start empty. |
| FsCache.FileSystemCache.GetFileInfo | safetensors_viewer.py:6674-6692 | A cached stat is returned only while `now - stamp < 300`. Otherwise the file is re-stated, and the info and stamp are stored. A missing file yields `None` and stores nothing. A coherent cache answers like the file system. |
| FsCache.FileSystemCache.GetDirContent | safetensors_viewer.py:6694-6707 | Same rule for listings: cached while young, otherwise re-listed and re-stamped. A missing directory yields `[]` and stores nothing. |
| FsCache.FileSystemCache.Clear | safetensors_viewer.py:6709-6712 | All three maps are empty afterwards. |
| Catalog.JoinExtends | safetensors_viewer.py:4087 | `os.path.join` extends the directory and inserts a separator unless the directory is empty or already ends with one. |
| Catalog.ScanAppend | safetensors_viewer.py:4083-4095 | The scan of a concatenated listing is the concatenation of the scans. |
| Catalog.ScanNames | safetensors_viewer.py:4079-4095 | The scanned names are exactly the tree's file names with a model extension, in walk order. |
| Catalog.ScanEntryNames | safetensors_viewer.py:4088-4095 | The same for one directory entry. A subdirectory contributes its own scan. |
| Catalog.ScanSound | safetensors_viewer.py:4079-4095 | Every scanned file has one of the six model extensions. Its folder lies at or below the relative path of the walk. |
| Catalog.ScanEntrySound | safetensors_viewer.py:4088-4095 | The same for one directory entry. |
| Catalog.Loader.constructor | safetensors_viewer.py:4057 | The walk starts from an empty list. |
| Catalog.Loader.RecursiveLoad | safetensors_viewer.py:4079-4095 | The walk appends exactly the scan of the tree to the caller's list, or nothing once cancelled. The cancel flag is unchanged. |
| Catalog.Loader.LoadEntry | safetensors_viewer.py:4087-4095 | One item of the listing: a folder adds the scan of its subtree under the joined relative path; a file adds itself only when it has a model extension. |
| Catalog.HasModelFileIffScan | safetensors_viewer.py:4030-4042 | `check_directory_for_models` holds iff the scan of that directory lists at least one model. |
| Catalog.Dedup | safetensors_viewer.py:4067 | `list(set(...))` yields a list without duplicates that holds exactly the scanned pairs. |
| Catalog.ValidCategoriesMembers | safetensors_viewer.py:3999-4008 | A name is a valid category iff some top-level directory other than "ui" has that name and holds a model somewhere below it. |
| Catalog.CollectValidCategories | safetensors_viewer.py:3999-4008 | The loop collects the valid categories in listing order. |
| Catalog.LoadCategories | safetensors_viewer.py:3996-4022 | The category list is the valid categories with "checkpoints" and "loras" moved to the front, then the rest sorted. |
| Catalog.RemoveFirstMultiset | safetensors_viewer.py:4016 | `list.remove` removes exactly one occurrence. |
| Catalog.ArrangeCategoriesPermutes | safetensors_viewer.py:4011-4022 | The category list is a permutation of the valid categories. |
| Catalog.ArrangeCategoriesOrder | safetensors_viewer.py:4013-4022 | "checkpoints" comes first when present and "loras" next when present. The remaining categories ascend. |
| Catalog.CategoriesAreValidDirectories | safetensors_viewer.py:3996-4022 | A name is in the category list iff it names a top-level directory other than "ui" that holds a model. |
| Sorting.SortByFacts | safetensors_viewer.py:292-294 | `list.sort(key=..., reverse=...)` returns a permutation. It is ordered by the key (descending when reversed). Entries with equal keys keep their input order. |
| Sorting.SortByPermutes | safetensors_viewer.py:292-294 | The sort returns a permutation of its input. |
| Sorting.SortBySorted | safetensors_viewer.py:292-294 | The sort's result is ordered by the key, descending when reversed. |
| Sorting.SortByStable | safetensors_viewer.py:292-294 | Entries with equal keys keep their input order. |
| Common.Lower | safetensors_viewer.py:289 | `str.lower` keeps the length and lowers each character on its own. |
| Sorting.KeyLtTransitive | safetensors_viewer.py:311 | The tuple-and-string order used as a sort key is transitive. |
| FilterEngine.SortFilteredFilesFacts | safetensors_viewer.py:277-322 | `sort_filtered_files` returns a permutation. An empty method falls back to the current sort. A known method sorts stably by its key; without an info file the URL sort sorts by name. An unknown method keeps the input order. |
| FilterEngine.NameOrders | safetensors_viewer.py:289-294 | `name_asc` orders by lowercased name ascending and `name_desc` descending. |
| FilterEngine.NoPreviewFirst | safetensors_viewer.py:309-311 | Every model without a preview precedes every model with one. Names ascend within each group. |
| FilterEngine.NoUrlFirst | safetensors_viewer.py:312-318 | Every model without a stored URL precedes every model with one. Names ascend within each group. |
| FilterEngine.Split | safetensors_viewer.py:333 | `str.split(sep)` yields at least one part, and no part contains the separator. |
| FilterEngine.SplitJoin | safetensors_viewer.py:333 | Joining the parts with the separator gives back the path. |
| FilterEngine.SubfolderTestsAgree | safetensors_viewer.py:347 | The written subfolder test and the intended one agree unless the subfolder also names one of the category's segments. |
| FilterEngine.SubfolderNamedLikeCategory | safetensors_viewer.py:347 | A model in `loras/loras` fails the written test for the `loras` button but passes the intended one. |
| FilterEngine.Keep | safetensors_viewer.py:368 | `list(filter(matches_filter, ...))` keeps exactly the matching entries and never grows. |
| FilterEngine.KeepIsSubsequence | safetensors_viewer.py:367-368 | The filtered list is an order-preserving sub-list of `all_files`. |
| FilterEngine.FilterFilesMembers | safetensors_viewer.py:324-376 | A model is listed iff it is in `all_files` and three tests hold. Its first folder segment is the category. The subfolder test holds: root only, favourite, or, with the corrected test of the Findings, the subfolder right after the category. The lowercased term is empty or occurs in the name, the folder or the stored type. |
| FilterEngine.FilterFilesKeepsOrder | safetensors_viewer.py:367-371 | Unless the URL sort is active with an info file, the result keeps the order of `all_files`. |
| FilterEngine.FilterFilesNoUrlFirst | safetensors_viewer.py:370-376 | With the URL sort and an info file, every model without a URL comes before every model with one. |
| FilterEngine.StrictImpliesLoose | safetensors_viewer.py:3942-3950 | A model that passes `filter_files` on its name or folder also passes the looser filter. |
| FilterEngine.LoosePrefixCategory | safetensors_viewer.py:3944 | The looser filter lets `loras2` through for category `loras`, and `filter_files` does not. |
| FilterEngine.LooseDeepSubfolder | safetensors_viewer.py:3949-3950 | The looser filter accepts the subfolder at any depth, and `filter_files` does not. |
| FilterEngine.StrictTypeOnlyMatch | safetensors_viewer.py:3945 | A match on the stored model type only passes `filter_files` but not the looser filter. |
| FilterEngine.LoadAllFiles | safetensors_viewer.py:4054-4069 | A cancelled load yields nothing. Otherwise the list has no duplicates, holds exactly the scanned models of all categories, and is sorted by the current sort. |
| FilterEngine.SortUnique | safetensors_viewer.py:4067-4069 | Sorting the de-duplicated list keeps it free of duplicates, keeps exactly its members, and orders it by the current sort. |
| Metadata.FavoritesOf | safetensors_viewer.py:3884-3886 | The favourites are exactly the keys whose stored `is_favorite` is truthy. |
| Metadata.SavedRecord | safetensors_viewer.py:2563-2570 | The saved record keeps the caller's fields. It forces `is_favorite` to the stored value (False when absent), whatever the caller passed, and stamps `last_modified`. |
| Metadata.AutoSaveFacts | safetensors_viewer.py:1910-1922 | The auto-save writes the editor fields. It keeps the stored fields the editor does not hold, keeps the stored favourite flag, and stamps the time. No other field appears. |
| Metadata.Library.LoadFavorites | safetensors_viewer.py:3875-3889 | The favourites set becomes exactly the flagged keys of the store. |
| Metadata.Library.SaveModelInfo | safetensors_viewer.py:2555-2572 | When the file loads, only the entry for the key is replaced, by the saved record; when `json.load` raises, nothing is written. Favourites agreement is preserved. |
| Metadata.Library.AutoSaveChanges | safetensors_viewer.py:1895-1922 | With no current model nothing changes. Otherwise the current entry becomes the merged record. |
| Metadata.Library.ToggleFavorite | safetensors_viewer.py:3804-3839 | Nothing changes without a selection or when the write fails. When the file loads, only `is_favorite` of the current entry flips and the favourites set gains or loses the key; agreement is preserved. When `json.load` raises, the file is rewritten holding the current model alone, flagged, so every other record is lost, and the key joins the set. |
| Metadata.Library.AddFavoriteField | safetensors_viewer.py:4106-4125 | Every entry lacking `is_favorite` gets False, including `_app_settings`. Other entries stay as they are. The file is rewritten iff some entry lacked the field. |
| Metadata.Library.DeleteCurrent | safetensors_viewer.py:3392-3447 | Without a selection, a declined confirmation or a failed removal, nothing changes. Otherwise `all_files` becomes the comprehension `KeepOthers`, order kept. When the info file is rewritten, the key also leaves the store and the favourites and the selection is cleared. Favourites agreement is preserved. |
| Metadata.KeepOthersMembers | safetensors_viewer.py:3425 | The comprehension keeps exactly the models whose joined path is not the deleted key. |
| Metadata.KeepOthersAppend | safetensors_viewer.py:3425 | The comprehension splits over concatenation, so kept models keep their relative order. |
| Metadata.KeepOthersAbsent | safetensors_viewer.py:3425 | A list holding no model with the deleted key is kept as it is. |
| Metadata.Library.MoveCurrent | safetensors_viewer.py:5058-5083 | Without a selection nothing changes. Otherwise the entry moves to the new key and the favourites follow it. The source's `remove` fails when a flagged key is missing from the set. |
| Metadata.Library.CopyCurrent | safetensors_viewer.py:5422-5433 | Without a selection nothing changes. Otherwise the target key gets a copy of the entry with `is_favorite` reset to False. The favourites are unchanged. |
| Metadata.SaveKeepsFavorites | safetensors_viewer.py:2563-2565 | Saving never changes which keys are favourites. |
| Metadata.ToggleFacts | safetensors_viewer.py:3815-3822 | Toggling flips the flag of one key only. It keeps the entry's other fields and does not touch `last_modified`. |
| Metadata.ToggleTwice | safetensors_viewer.py:3815-3822 | Toggling twice restores the flag, and the whole store when the flag was a stored boolean. |
| Metadata.MovePreservesAgreement | safetensors_viewer.py:5071-5079 | After a move, the favourites set still equals the flagged keys. |
| Metadata.CopyPreservesAgreement | safetensors_viewer.py:5427-5431 | After a copy, the favourites set still equals the flagged keys. |
| Metadata.RepairDeletesOnlyCommas | safetensors_viewer.py:2534 | The trailing-comma repair only deletes commas. Every other character keeps its count. |
| Metadata.RepairKeepsCleanText | safetensors_viewer.py:2534 | Text without `,}` or `,\n}` is left as it is. |
| Metadata.GetModelInfo | safetensors_viewer.py:2510-2550 | The file is written only when the write succeeds, and never with a document that failed to parse. |
| Metadata.ReturnsWhatIsOnDisk | safetensors_viewer.py:2510-2550 | On every path (missing, unreadable, parsed, repaired, wiped, failed write) the returned record is the key's record in the file as it stands afterwards. |
| Metadata.ParsedNotRewritten | safetensors_viewer.py:2521-2524 | A readable file holding a JSON object is returned from and never written. |
| Metadata.RewriteCauses | safetensors_viewer.py:2510-2550 | The file is written iff the write succeeds and the file was missing, unreadable, a non-object, or malformed with a repair that parses; after a syntax error it is written only with the repaired document. |
| Metadata.WipeLosesContents | safetensors_viewer.py:2541-2550 | An unreadable file or a non-object document is replaced by `{}`, and `{}` is returned. |
| Descriptions.SpliceEndsWithBlock | safetensors_viewer.py:4678-4702 | The new description always ends with this source's marker, a newline and the fetched text. |
| Descriptions.SpliceKeepsUserText | safetensors_viewer.py:4678-4702 | With this source's marker present, the stripped text before it is kept. With only the other marker, the text up to and after that marker is kept. With neither, the whole old text is kept. |
| Descriptions.CollapseBlankLines | safetensors_viewer.py:4916-4924 | The loop computes the collapsed line list. |
| Descriptions.CleanDescription | safetensors_viewer.py:4916-4927 | The formatted description is the collapsed lines joined by newlines and stripped. |
| Descriptions.CollapsedNoBlankRun | safetensors_viewer.py:4916-4924 | The collapsed lines never hold two blank lines in a row. |
| Descriptions.CollapsedKeepsText | safetensors_viewer.py:4916-4924 | The non-blank lines are kept, in order. |
| Descriptions.CollapsedIdempotent | safetensors_viewer.py:4916-4924 | Collapsing twice changes nothing more. |
| Descriptions.MarkersShaped | safetensors_viewer.py:4675-4676 | Each marker is one non-empty line with no whitespace at either end. |
| Descriptions.MarkersDistinct | safetensors_viewer.py:4932-4933 | Neither marker contains the other. |
| Descriptions.SpliceOnClean | safetensors_viewer.py:4935-4959 | On text without markers the result is the user text, a blank line, the marker and the fetched text. |
| Descriptions.ReplaceBlock | safetensors_viewer.py:4939-4946 | Splicing into a description that already has this source's block replaces that block. |
| Descriptions.RefetchReplaces | safetensors_viewer.py:4939-4946 | Fetching twice from one source equals fetching only the second time. |
| Descriptions.SpliceAfterOther | safetensors_viewer.py:4691-4696 | With only the other source's marker, its block is kept and the new block follows it. |
| Descriptions.OtherThenOwn | safetensors_viewer.py:4948-4953 | Fetching from one source, then from the other, keeps both blocks in that order. |
| Descriptions.CivitaiThenLiblib | safetensors_viewer.py:4672-4702 | After a Civitai fetch, a Liblib fetch yields user text, Civitai block, Liblib block. |
| Navigation.IndexOf | safetensors_viewer.py:3492 | `list.index` finds the first occurrence, and fails iff the item is absent. |
| Navigation.PrevIndex | safetensors_viewer.py:3494 | The conditional `i - 1 if i > 0 else n - 1` always lands on a valid index. |
| Navigation.NextIndex | safetensors_viewer.py:3531 | `(i + 1) % n` always lands on a valid index. |
| Navigation.NextIndexCases | safetensors_viewer.py:3531 | `(i + 1) % n` is the next index, wrapping from the last to 0. |
| Navigation.IndexStepsInverse | safetensors_viewer.py:3494 | The previous-index rule and the next-index rule undo each other. |
| Navigation.SelectPrevious | safetensors_viewer.py:3482-3495 | Up arrow: the last entry when nothing is selected, the previous entry cyclically otherwise, nothing when the selection is not listed. The result is always a listed entry. |
| Navigation.SelectNext | safetensors_viewer.py:3519-3532 | Down arrow: the first entry when nothing is selected, the next entry cyclically otherwise. The result is always a listed entry. |
| Navigation.NextThenPrevious | safetensors_viewer.py:3490-3532 | In a list without duplicates, down then up (or up then down) returns to the selected entry. |
| Navigation.NextTimesCovers | safetensors_viewer.py:3531 | Repeated down presses reach every entry and come back after n presses. |
| ViewerTools.SplitExtFacts | safetensors_viewer.py:263 | `os.path.splitext` splits a name into root and extension. The extension is empty or a dot followed by no dot. |
| ViewerTools.MemoCache.GetFilePath | safetensors_viewer.py:250-255 | The memo as written stores the joined path under `f"{rel}_{file}"` on a miss and returns the stored value. |
| ViewerTools.MemoCache.HasPreviewCached | safetensors_viewer.py:257-269 | The same memo for the preview test. |
| ViewerTools.MemoCache.ClearCaches | safetensors_viewer.py:271-274 | Both memo tables are empty afterwards. |
| ViewerTools.MemoCollision | safetensors_viewer.py:252 | Two different models, ("x", "a_b") and ("b_x", "a"), get the same path from the memo as written. The second path is wrong. |
| ViewerTools.CollidingPathsDiffer | safetensors_viewer.py:254 | The two colliding models have different real paths. |
| ViewerTools.ModelCache.GetFilePath | safetensors_viewer.py:250-255 | With the memo keyed by the (file, folder) pair, the path returned is always the model's own path. |
| ViewerTools.ModelCache.HasPreviewCached | safetensors_viewer.py:257-269 | With the pair key, the preview answer is always the model's own. |
| ViewerTools.ModelCache.ClearCaches | safetensors_viewer.py:271-274 | Both pair-keyed tables are empty afterwards, and the cache stays consistent. |
| ViewerTools.PairKeysSeparate | safetensors_viewer.py:250-255 | With the pair key, the two colliding models get their two different paths. |
| ViewerTools.SubfolderNames | safetensors_viewer.py:3583-3588 | A subfolder button is offered only for a directory of the category that holds a model. |
| ViewerTools.ScanListing | safetensors_viewer.py:3579-3590 | The loop collects those subfolders and notes whether a model file sits at the root. |
| ViewerTools.PadFacts | safetensors_viewer.py:3609-3612 | The padded list is a multiple of three. It adds fewer than three empty labels, keeps the labels in front, and adds padding only when needed. |
| ViewerTools.LabelsFacts | safetensors_viewer.py:3601-3607 | The labels are the sorted subfolders, then "其他" when root files exist, then "收藏". |
| ViewerTools.UpdateSubfolderButtons | safetensors_viewer.py:3565-3612 | The button labels for the category listing (none when the category is missing). |
| ViewerTools.CandidatesDistinct | safetensors_viewer.py:5371-5376 | The copy loop's candidate names are pairwise different. |
| ViewerTools.NotYetTried | safetensors_viewer.py:5371-5376 | No candidate repeats an earlier one. |
| ViewerTools.TriedBound | safetensors_viewer.py:5372-5376 | The loop ends after at most as many steps as there are files on disk. |
| ViewerTools.CopyTarget | safetensors_viewer.py:5370-5376 | The chosen target does not exist, and every earlier candidate does. |
| ConfigFiles.ArgsLine | safetensors_viewer.py:996-999 | The generated arguments line starts with `set COMMANDLINE_ARGS=`. |
| ConfigFiles.FirstArgsLine | safetensors_viewer.py:1008-1009 | The first line starting with `set COMMANDLINE_ARGS=`, or none. |
| ConfigFiles.RewriteBat | safetensors_viewer.py:1006-1018 | The loop replaces the first arguments line (when the user agrees) or inserts the line second. |
| ConfigFiles.WrittenShape | safetensors_viewer.py:1006-1022 | Only the first arguments line changes. Or one line is inserted as the second line and the others are kept. |
| ConfigFiles.CreateConfigIdempotent | safetensors_viewer.py:983-1028 | Running the configuration again on the written file rewrites it to itself. |
| ConfigFiles.SdJson | safetensors_viewer.py:1752-1770 | An existing sidecar keeps every key and only `description` and `activation text` change. Otherwise the six default keys are written. |
| ConfigFiles.SdJsonIdempotent | safetensors_viewer.py:1762-1770 | Writing the sidecar twice gives the same record. |
| Batches.CalculateHashes | safetensors_viewer.py:4374-4426 | The hash pass writes the store computed over all models, or nothing when cancelled before the end. |
| Batches.HashAllFacts | safetensors_viewer.py:4392-4417 | Every listed model ends with a hash field that is its old 64-character digest or the freshly computed one. Its other fields are unchanged, and unlisted keys are untouched. |
| Batches.KeptPass | safetensors_viewer.py:4400-4407 | A pass over models that all have valid digests leaves the store unchanged. |
| Batches.HashAllIdempotent | safetensors_viewer.py:4400-4407 | When digests have 64 characters, a second pass changes nothing. |
| Batches.ProcessBatch | safetensors_viewer.py:5894-5968 | Processed plus skipped equals the models reached before cancelling. Skipped counts the failures. The hash batch stores the digests of the successful models. |
| Batches.HashBatchFacts | safetensors_viewer.py:5914-5920 | After a hash batch every processed model has its freshly computed digest, and every other entry is unchanged. |
| EmbeddedJson.FirstCloseUpTo | workflow_manager.py:634-647 | The first position where the brace depth returns to zero, if there is one within the bound. |
| EmbeddedJson.ScanEnd | workflow_manager.py:634-647 | The loop sets `end_pos` to the first prefix with depth zero, or leaves it 0 when the depth never returns. |
| EmbeddedJson.CollectJson | workflow_manager.py:1702-1714 | The character-by-character copy yields that prefix, or the whole rest when it never closes. |
| EmbeddedJson.DepthPositive | workflow_manager.py:608-617 | Inside the found object every shorter non-empty prefix has more opening than closing braces. |
| EmbeddedJson.JsonEndShape | workflow_manager.py:619-620 | The found slice starts with `{`, ends with `}` and is balanced. |
| EmbeddedJson.BalancedFound | workflow_manager.py:634-647 | A balanced object followed by anything is found exactly. |
| EmbeddedJson.Unquote | workflow_manager.py:594-596 | URL unquoting never lengthens the text. |
| EmbeddedJson.UnquoteQuote | workflow_manager.py:594-596 | Unquoting inverts percent-encoding. |
| EmbeddedJson.HtmlUnescape | workflow_manager.py:624-627 | Entity replacement in one pass never lengthens the text. |
| EmbeddedJson.UnescapeEscape | workflow_manager.py:624-627 | One-pass unescaping inverts HTML escaping of `&`, `"`, `<`, `>`. |
| EmbeddedJson.UnescapeAsWrittenDecodesTwice | workflow_manager.py:624-627 | Replacing `&amp;` first decodes an escaped `&lt;` twice, to `<`. One pass gives back `&lt;`. |
| EmbeddedJson.ExtractWorkflow | workflow_manager.py:584-655 | The extraction: plain marker first; for SVG, the URL-encoded marker, then the HTML-escaped marker, decoded with the corrected one-pass unescape of the Findings; the default empty workflow when no object closes. |
| EmbeddedJson.PlainExtractionShape | workflow_manager.py:633-655 | With the plain marker present, the result is the empty workflow or a balanced object that starts with the marker and ends with `}`. |
| EmbeddedJson.PlainRoundTrip | workflow_manager.py:585-655 | A balanced workflow object embedded after marker-free bytes is extracted exactly. |
| PngWorkflow.Be32RoundTrip | workflow_manager.py:2520-2521 | `struct.unpack('>I')` inverts `struct.pack('>I')`. |
| PngWorkflow.SaveImageWithJson | workflow_manager.py:2467-2529 | The writer emits exactly the modelled file, with an IDAT chunk that runs past the end of the encoding copied cut short. It fails only when "IDAT" occurs within the first four bytes of the encoding, leaving `struct.unpack` no length, or when the width, the height or the tEXt data does not fit 32 bits. |
| PngWorkflow.CopyIdats | workflow_manager.py:2517-2524 | The copy loop emits every IDAT chunk of the encoded image, each with its length and CRC. |
| PngWorkflow.IdatStep | workflow_manager.py:2519-2524 | One iteration copies one chunk and continues after it. |
| PngWorkflow.FramedSlices | workflow_manager.py:2480-2529 | The file is the 8-byte signature, then IHDR, tEXt, sRGB, gAMA, the copied IDATs and IEND at their offsets. |
| PngWorkflow.WrittenLayout | workflow_manager.py:2480-2529 | Each written chunk reads back as a big-endian length equal to the data length, the type, the data, and a CRC over type and data. |
| PngWorkflow.IhdrReads | workflow_manager.py:2483-2490 | IHDR holds 13 bytes: width, height, 8, 6, 0, 0, 0. |
| PngWorkflow.TextReads | workflow_manager.py:2492-2497 | tEXt holds `workflow`, NUL and the compact JSON. |
| PngWorkflow.SrgbReads | workflow_manager.py:2499-2503 | sRGB holds one zero byte. |
| PngWorkflow.GamaReads | workflow_manager.py:2505-2510 | gAMA holds 45455 big-endian. |
| PngWorkflow.IendReads | workflow_manager.py:2526-2529 | The file ends with an empty IEND chunk. |
| PngWorkflow.StripUnpadded | workflow_manager.py:2545 | `bytes.strip()` leaves text without edge whitespace as it is. |
| PngWorkflow.ExtractJsonFromPng | workflow_manager.py:2534-2554 | A result is returned only when the tEXt marker occurs, the payload is UTF-8 and it parses. Otherwise the result is None. |
| PngWorkflow.TextMarkerFirst | workflow_manager.py:2538 | In a written file the marker is first found at offset 37. |
| PngWorkflow.ExtractAt | workflow_manager.py:2538-2551 | The reader returns the stripped bytes between the marker and 8 bytes before the next `sRGB`, when they decode and parse. |
| PngWorkflow.ExtractLaidOut | workflow_manager.py:2538-2549 | When the first `sRGB` after the payload is the chunk type, the reader returns the payload. |
| PngWorkflow.SaveThenExtract | workflow_manager.py:2467-2549 | Reading a written file returns exactly the compact JSON when the payload and the CRC bytes hold no earlier `sRGB`. |
| PngWorkflow.CutsAtSrgb | workflow_manager.py:2543-2545 | A payload containing `sRGB` does not come back. |
| PngWorkflow.ExtractCutsAtSrgb | workflow_manager.py:2543-2545 | The same for any written file whose JSON contains `sRGB`. |
| PngWorkflow.ExtractJsonByLength | workflow_manager.py:2534-2554 | The reader that takes the tEXt payload by its length field returns only text that decodes and parses. |
| PngWorkflow.SaveThenExtractByLength | workflow_manager.py:2467-2554 | Reading a written file by length returns exactly the compact JSON for every payload. |
| PngWorkflow.WorkflowTextConforms | workflow_manager.py:2493 | The tEXt chunk conforms to the Latin-1 rule of the PNG specification iff every JSON byte is a printable Latin-1 byte. |
| PngWorkflow.TextBytesConform | workflow_manager.py:2493 | When every JSON byte is printable Latin-1, the tEXt data conforms. |
| PngWorkflow.ConformingTextBytes | workflow_manager.py:2493 | When the tEXt data conforms, every JSON byte is printable Latin-1. |
| WorkflowTable.SaveData | workflow_manager.py:719-733 | The saved file has one entry per workflow hash, plus the root directory. |
| WorkflowTable.Merge | workflow_manager.py:660-707 | A loaded entry takes hash, path, folder and date from the scan and has no `last_modified`. Without a saved entry it is the fresh scan. |
| WorkflowTable.SaveThenMerge | workflow_manager.py:696-733 | Loading after saving restores name, description, type, URL and favourite. Everything else comes from the scan. |
| WorkflowTable.Put | workflow_manager.py:707 | Assigning a key keeps the key list free of duplicates and adds exactly that key. |
| WorkflowTable.Without | workflow_manager.py:1769 | `del` removes exactly that key. |
| WorkflowTable.WithoutDistinct | workflow_manager.py:1769 | `del` keeps the key list free of duplicates. |
| WorkflowTable.MovedKeyed | workflow_manager.py:1564-1566 | Rekeying keeps the table keyed by hash: keys distinct, every key equals its entry's hash. |
| WorkflowTable.DeletedKeyed | workflow_manager.py:1769 | Deleting keeps the table keyed by hash. |
| WorkflowTable.LoadedKeyed | workflow_manager.py:566-707 | After a load every key equals its entry's hash, in scan order. |
| WorkflowTable.LoadedKeys | workflow_manager.py:566-707 | The loaded keys are exactly the scanned hashes. |
| WorkflowTable.LoadedEntry | workflow_manager.py:696-707 | The entry under a hash is the merge of the last file scanned with that hash. |
| WorkflowTable.ShownMembers | workflow_manager.py:753-778 | A workflow is listed iff it matches the term in name, folder or type and passes the filter (favourite, root folder, or the exact folder). |
| WorkflowTable.ShownAppend | workflow_manager.py:753-778 | The list is built entry by entry, in table order. |
| WorkflowTable.ShownAll | workflow_manager.py:753-778 | With no term and no filter every workflow is listed, in table order. |
| WorkflowTable.Clicked | workflow_manager.py:1240-1256 | The filter set holds at most one element, and holds the clicked filter iff it was not active. |
| WorkflowTable.ClickTwice | workflow_manager.py:1240-1256 | Clicking the same filter twice restores the filter state. |
| WorkflowTable.FilterLabels | workflow_manager.py:2033-2037 | The buttons are the root's directories, then "其他" and "收藏" last. |
| WorkflowTable.Directories | workflow_manager.py:2033-2034 | Exactly the listed names that are directories. |
| WorkflowTable.DirectoriesSorted | workflow_manager.py:2033-2034 | The directory buttons come out sorted. |
| WorkflowTable.CellsDistinct | workflow_manager.py:2040-2045 | The grid `(i // 4, i % 4)` gives distinct buttons distinct cells, filling rows of four. |
| WorkflowLibrary.Renamed | workflow_manager.py:1970-2001 | If the swap was chosen but the info file is missing, nothing changes. When no swap applies, no info file remains. |
| WorkflowLibrary.MoveAwayAndBack | workflow_manager.py:1970-2001 | Changing to another root keeps the old info file as backup. Changing back to the directory it names swaps it back into place. |
| WorkflowLibrary.WithField | workflow_manager.py:1328-1331 | An edit sets the one field and keeps every other field, the hash, the favourite and the path. |
| WorkflowLibrary.WorkflowManager.constructor | workflow_manager.py:13-38 | Empty table, no selection, no filter. The directory is `my_workflows` under the working directory. |
| WorkflowLibrary.WorkflowManager.SaveWorkflowInfo | workflow_manager.py:719-738 | The info file becomes the projection of the table. Nothing else changes. |
| WorkflowLibrary.WorkflowManager.RefreshWorkflowList | workflow_manager.py:740-797 | The shown list becomes the workflows that match the term and the filter, in table order. |
| WorkflowLibrary.WorkflowManager.SelectWorkflow | workflow_manager.py:928-945 | The selection becomes the hash when it is in the table, and none otherwise. |
| WorkflowLibrary.WorkflowManager.UpdateSelection | workflow_manager.py:799-809 | After a refresh the first listed workflow is selected, or none when the list is empty. |
| WorkflowLibrary.WorkflowManager.LoadWorkflows | workflow_manager.py:546-717 | The saved root replaces the directory. The table is the merge of the scan with the saved info, keyed by hash. The info file is rewritten, and the list is refreshed. |
| WorkflowLibrary.WorkflowManager.ClickFilter | workflow_manager.py:1240-1256 | The filter set changes as a click does and the list is refreshed. The set never holds more than one filter. |
| WorkflowLibrary.WorkflowManager.ToggleFavorite | workflow_manager.py:1258-1263 | Only the favourite flag of that workflow flips, and the change is saved and shown. An unknown hash changes nothing. |
| WorkflowLibrary.WorkflowManager.ToggleCurrentFavorite | workflow_manager.py:1396-1418 | The same for the selected workflow. |
| WorkflowLibrary.WorkflowManager.SaveFieldChange | workflow_manager.py:1292-1339 | A changed field of the selected workflow is stored and stamped with `last_modified`, then saved. Name changes also refresh the list. An unchanged value changes nothing. |
| WorkflowLibrary.WorkflowManager.MoveEntry | workflow_manager.py:1564-1566 | The entry moves to the new hash with its hash field updated. The old key is removed and the table stays keyed by hash. |
| WorkflowLibrary.WorkflowManager.UpdateWorkflowHash | workflow_manager.py:1551-1575 | A changed digest moves the entry to the new key and re-points the selection. An unchanged digest or an unknown hash changes nothing. |
| WorkflowLibrary.WorkflowManager.SaveWorkflowName | workflow_manager.py:1341-1392 | A blank name or a taken path changes nothing. Otherwise the file is renamed, the name and path are stored, and the entry is rekeyed by the new digest. |
| WorkflowLibrary.WorkflowManager.DeleteWorkflow | workflow_manager.py:1754-1781 | A confirmed delete removes the entry and clears the selection when it was selected, then saves and refreshes. Otherwise nothing changes. |
| WorkflowLibrary.WorkflowManager.SelectPreviousWorkflow | workflow_manager.py:1787-1824 | Up arrow over the listed workflows. |
| WorkflowLibrary.WorkflowManager.SelectNextWorkflow | workflow_manager.py:1826-1863 | Down arrow over the listed workflows. |
| WorkflowLibrary.WorkflowManager.ChangeWorkflowDir | workflow_manager.py:1946-2023 | Either the info and backup files swap, or the info file becomes the backup. Then the table is reloaded from the new root and the selection is cleared. Nothing changes when no directory is chosen or the swap's renames fail. |
| WorkflowLibrary.FilterWorkflows | workflow_manager.py:753-778 | The filter loop computes exactly the shown list. |
| WorkflowLibrary.LoadTable | workflow_manager.py:566-707 | The scan loop builds exactly the loaded key order and table. |

## Left out

- Widgets, layout, styles, menus, popups, scrolling, key bindings and drag-and-drop are not modelled. Neither are thumbnails, previews and image resizing, which are floating point and a foreign library.
- Network scraping (Civitai requests, the Liblib page script) is not modelled. Only the string post-processing of its result is.
- Threads, the loading lock and `after()` timers are not modelled. The scan and the batches run sequentially. A cancel flag is a constant for the walk, or the position at which it is first seen for the passes. `UpdateSelection` is a separate method because the source defers it with `after()`.
- PngWorkflow.SaveImageWithJson: CRC-32 (`zlib.crc32`) is a parameter `crc` whose values fit in 32 bits. The CRC arithmetic of section 5.5 of the PNG specification (ISO/IEC 15948) is not modelled.
- PngWorkflow.SaveImageWithJson: the PIL encoding of the image is the parameter `encoded`. The JSON is given already compacted, because `json.dumps` is not modelled.
- SHA-256 (`calculate_file_hash`, `calculate_workflow_hash`) is a function `hashOf` of the path. A read failure is one of its values, not a separate path: `calculate_workflow_hash` then yields `""`, and `calculate_file_hash` yields the text "无法计算哈希值".
- `json.load` and `json.dump` are not modelled. The files are their parsed contents. A failing load is modelled in Metadata.GetModelInfo (`InfoFile`, `parse`), Metadata.Library.ToggleFavorite and Metadata.Library.SaveModelInfo (`readOk`), and for `workflow_info.json` in WorkflowLibrary.WorkflowManager.LoadWorkflows. The other operations on `model_info.json` take a file that loads.
- Metadata.Library.AutoSaveChanges: takes a `model_info.json` that loads. On a malformed or unreadable file, `get_model_info` first repairs or wipes it (Metadata.GetModelInfo models those paths), and the save then works on the result or raises; that combination is not modelled.
- EmbeddedJson.ExtractWorkflow: the UTF-8 check of the HTML variant is modelled, and the `latin1` fallback returns the undecoded bytes. UTF-8 replacement in `unquote` is not modelled.
- Common.Lower: Unicode `str.lower` is modelled as ASCII lowering.
- FilterEngine.FilterFiles: the subfolder condition is the corrected test `SubfolderHolds` (the segment right after the category is the chosen subfolder), not the `path_parts.index` test of safetensors_viewer.py:347. The two differ only when the subfolder's name also occurs among the category's segments (`SubfolderTestsAgree`). Then the source hides a model the model lists (`SubfolderNamedLikeCategory`).
- FilterEngine.FilterFilesMembers: states membership with the corrected subfolder test, for the reason given for FilterEngine.FilterFiles.
- EmbeddedJson.ExtractWorkflow: the HTML-escaped SVG branch decodes with the one-pass `HtmlUnescape`, not the four ordered replaces of workflow_manager.py:624-627 (`HtmlUnescapeAsWritten`). The two differ on text holding `&amp;` followed by `lt;`, `gt;` or `quot;`, which the source decodes twice (`UnescapeAsWrittenDecodesTwice`).
- EmbeddedJson.Embedded: the same one-pass decoding as EmbeddedJson.ExtractWorkflow.
- The brace scanner counts braces inside JSON strings, as the source does. The model does not claim more than that.
- FsCache.FileSystemCache.GetFileInfo: the stat record is an abstract value. The shadowed `FileSystemCache` at the top of the file is dead code and not modelled.
- File moves, copies, deletes and renames on disk are not modelled. Their store-side effects are, with the outcomes that matter as boolean parameters (`writeOk`, `confirmed`, `removed`, `infoOk`).
- WorkflowLibrary.WorkflowManager.SaveWorkflowName: a failing `os.rename` is not modelled. The rename always succeeds once the target is free.
- WorkflowLibrary.WorkflowManager.SelectPreviousWorkflow: the check that the search box has focus is not modelled, and neither is the check of the category box in the model viewer.
- WorkflowLibrary.WorkflowManager.ChangeWorkflowDir: `os.path.normpath` is a parameter `norm`.
- The `_root_dir` key of `workflow_info.json` is kept apart from the hash entries, so it never collides with a hash.
- The second `refresh_workflow_list` at the end of `change_workflow_dir` is folded into the refresh that `load_workflows` ends with. Both compute the same list.
- WorkflowLibrary.WorkflowManager.LoadWorkflows: workflow nodes, links and previews are not part of the table entries.
- Date sorts (`date_desc`, `date_asc`, `info_modified_desc`) sort by file modification times, which are the parameter `env.mtime`. Reading them from disk is not modelled.
- `update_git.py`, `build.py` and the rest of the repository are not part of this model.

## Findings

| source | as written | input that shows it | evidently intended | confidence | as-written member | corrected member |
|---|---|---|---|---|---|---|
| safetensors_viewer.py:252 | the path and preview memo key is `f"{rel}_{file}"` | models ("x" in folder "a_b") and ("b_x" in folder "a") share the key "a_b_x", so the second gets the first's path | one memo entry per (file, folder) pair | not executed | ViewerTools.MemoCollision | ViewerTools.PairKeysSeparate |
| safetensors_viewer.py:347 | `path_parts.index(sub)` finds the first segment equal to the subfolder | model `a.safetensors` in `loras/loras` with the `loras` subfolder button: index 0 differs from 1, so the model is hidden | the segment right after the category equals the subfolder | not executed | FilterEngine.SubfolderNamedLikeCategory | FilterEngine.SubfolderTestsAgree |
| workflow_manager.py:624-627 | `&amp;` is replaced before `&lt;`, `&gt;`, `&quot;` | the text `&lt;` is escaped in the SVG as `&amp;lt;` and comes back as `<` | each entity is decoded once, so unescaping inverts escaping | not executed | EmbeddedJson.UnescapeAsWrittenDecodesTwice | EmbeddedJson.UnescapeEscape |
| workflow_manager.py:2543-2545 | the payload ends 8 bytes before the first `sRGB` after the marker | a workflow whose JSON contains the text `sRGB`, such as a node titled "sRGB conversion": the read is cut short | the tEXt payload is the chunk data, whose length the chunk header gives | not executed | PngWorkflow.ExtractCutsAtSrgb | PngWorkflow.SaveThenExtractByLength |
