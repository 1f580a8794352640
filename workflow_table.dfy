/** The workflow table of workflow_manager.py as values: the entries of the
    `workflows` dictionary (keyed by the SHA-256 of the workflow file), the
    part of an entry `workflow_info.json` keeps, the merge of that file into
    a fresh scan, the list filter, and the filter-button grid. A Python
    dictionary is a key order plus a map; assigning to a new key appends it,
    assigning to an existing key keeps its place, `del` removes it. */
module WorkflowTable {
  import opened Common
  import Navigation

  /** One entry of `self.workflows`. The node and link lists and the
      preview images are not part of the model. */
  datatype Workflow = Workflow(
    name: string,
    description: string,
    kind: string,            // the 'type' field
    url: string,
    isFavorite: bool,
    filePath: string,
    folder: string,          // relative to the root, "" for the root itself
    hash: string,
    createdDate: string,
    lastModified: Option<string>)

  /** What the directory walk learns about one workflow file. */
  datatype ScannedFile = ScannedFile(stem: string, filePath: string, folder: string, hash: string, createdDate: string)

  /** The entry `load_workflows` builds for a scanned file before looking at
      the saved information. */
  function Fresh(s: ScannedFile): Workflow {
    Workflow(s.stem, "", "", "", false, s.filePath, s.folder, s.hash, s.createdDate, None)
  }

  /** One entry of `workflow_info.json` as `json.load` returns it: any of
      the five fields may be missing. */
  datatype SavedEntry = SavedEntry(name: Option<string>, description: Option<string>, kind: Option<string>,
                                   url: Option<string>, isFavorite: Option<bool>)

  /** `workflow_info.json`: the `_root_dir` key and one entry per hash. */
  datatype InfoFile = InfoFile(rootDir: Option<string>, entries: map<string, SavedEntry>)

  /** Python `d.get(key, default)` on one field. */
  function OrElse<T>(o: Option<T>, default: T): T {
    if o.Some? then o.value else default
  }

  // ---------------------------------------------------------------------
  // Save and load.

  /** The five fields `save_workflow_info` keeps of an entry. */
  function Project(w: Workflow): SavedEntry {
    SavedEntry(Some(w.name), Some(w.description), Some(w.kind), Some(w.url), Some(w.isFavorite))
  }

  /** The file `save_workflow_info` writes: the root directory and the
      projection of every entry. */
  function SaveData(root: string, workflows: map<string, Workflow>): (f: InfoFile)
    ensures f.entries.Keys == workflows.Keys
  {
    InfoFile(Some(root), map h | h in workflows :: Project(workflows[h]))
  }

  /** The entry `load_workflows` stores for a scanned file: the saved name,
      description, type, url and favourite flag when the file's hash has an
      entry, each defaulting as `dict.get` does; everything else from the
      scan. */
  function Merge(s: ScannedFile, saved: map<string, SavedEntry>): (w: Workflow)
    ensures w.hash == s.hash && w.filePath == s.filePath && w.folder == s.folder
    ensures w.createdDate == s.createdDate && w.lastModified.None?
    ensures s.hash !in saved ==> w == Fresh(s)
  {
    var w := Fresh(s);
    if s.hash in saved then
      var e := saved[s.hash];
      w.(name := OrElse(e.name, w.name), description := OrElse(e.description, ""), kind := OrElse(e.kind, ""),
         url := OrElse(e.url, ""), isFavorite := OrElse(e.isFavorite, false))
    else w
  }

  /** What an entry becomes when it is saved and its file is scanned again:
      its five saved fields, the rest from the scan. */
  function Restored(w: Workflow, s: ScannedFile): Workflow {
    w.(filePath := s.filePath, folder := s.folder, hash := s.hash, createdDate := s.createdDate, lastModified := None)
  }

  /** Saving and loading again brings back name, description, type, url and
      favourite flag of every workflow whose file still has the same hash;
      a file with a new hash loads as fresh; `last_modified` is lost. */
  lemma SaveThenMerge(root: string, workflows: map<string, Workflow>, s: ScannedFile)
    ensures s.hash in workflows ==> Merge(s, SaveData(root, workflows).entries) == Restored(workflows[s.hash], s)
    ensures s.hash !in workflows ==> Merge(s, SaveData(root, workflows).entries) == Fresh(s)
  {
  }

  /** A dictionary: keys in insertion order, each mapped to its entry, each
      entry stored under its own hash. */
  ghost predicate Keyed(order: seq<string>, workflows: map<string, Workflow>) {
    && Navigation.Distinct(order)
    && (forall h :: h in order <==> h in workflows)
    && forall h :: h in workflows ==> workflows[h].hash == h
  }

  /** Python `d[k] = v` on the key order. */
  function Put(order: seq<string>, k: string): (r: seq<string>)
    ensures Navigation.Distinct(order) ==> Navigation.Distinct(r)
    ensures forall h :: h in r <==> h in order || h == k
  {
    if k in order then order else order + [k]
  }

  /** Python `del d[k]` on the key order. */
  function Without(order: seq<string>, k: string): (r: seq<string>)
    ensures forall h :: h in r <==> h in order && h != k
  {
    if order == [] then []
    else if order[0] == k then Without(order[1..], k)
    else [order[0]] + Without(order[1..], k)
  }

  /** Deleting a key keeps the others free of repetitions. */
  lemma {:induction false} WithoutDistinct(order: seq<string>, k: string)
    requires Navigation.Distinct(order)
    ensures Navigation.Distinct(Without(order, k))
  {
    if order != [] {
      assert Navigation.Distinct(order[1..]) by {
        forall i, j | 0 <= i < j < |order| - 1
          ensures order[1..][i] != order[1..][j]
        {
          assert order[1..][i] == order[i + 1] && order[1..][j] == order[j + 1];
        }
      }
      WithoutDistinct(order[1..], k);
      assert order[0] !in order[1..] by {
        forall i | 0 <= i < |order| - 1
          ensures order[1..][i] != order[0]
        {
          assert order[1..][i] == order[i + 1];
        }
      }
    }
  }

  /** Moving the entry under `h` to the key `n` keeps the dictionary well
      formed. */
  lemma MovedKeyed(order: seq<string>, workflows: map<string, Workflow>, h: string, n: string)
    requires Keyed(order, workflows) && h in workflows && n != h
    ensures Keyed(Without(Put(order, n), h), (workflows[n := workflows[h].(hash := n)]) - {h})
  {
    WithoutDistinct(Put(order, n), h);
  }

  /** So does deleting the entry under `h`. */
  lemma DeletedKeyed(order: seq<string>, workflows: map<string, Workflow>, h: string)
    requires Keyed(order, workflows)
    ensures Keyed(Without(order, h), workflows - {h})
  {
    WithoutDistinct(order, h);
  }

  /** The table after `self.workflows[h] = ...` for each scanned file in
      turn, starting from the empty dictionary. */
  function Loaded(scan: seq<ScannedFile>, saved: map<string, SavedEntry>): (seq<string>, map<string, Workflow>) {
    if scan == [] then ([], map[])
    else
      var (order, workflows) := Loaded(scan[..|scan| - 1], saved);
      var s := scan[|scan| - 1];
      (Put(order, s.hash), workflows[s.hash := Merge(s, saved)])
  }

  /** After loading, the dictionary is well formed: its keys in their order
      of first appearance, each entry under its own hash. */
  lemma {:induction false} LoadedKeyed(scan: seq<ScannedFile>, saved: map<string, SavedEntry>)
    ensures Keyed(Loaded(scan, saved).0, Loaded(scan, saved).1)
  {
    if scan != [] {
      LoadedKeyed(scan[..|scan| - 1], saved);
    }
  }

  /** The keys after loading are exactly the scanned hashes. */
  lemma {:induction false} LoadedKeys(scan: seq<ScannedFile>, saved: map<string, SavedEntry>)
    ensures forall h :: h in Loaded(scan, saved).1 <==> exists i :: 0 <= i < |scan| && scan[i].hash == h
  {
    if scan != [] {
      var n := |scan| - 1;
      LoadedKeys(scan[..n], saved);
      var m := Loaded(scan, saved).1;
      forall h | h in m
        ensures exists i :: 0 <= i < |scan| && scan[i].hash == h
      {
        if h != scan[n].hash {
          var i :| 0 <= i < n && scan[..n][i].hash == h;
          assert scan[i].hash == h;
        }
      }
      forall i | 0 <= i < |scan|
        ensures scan[i].hash in m
      {
        if i < n {
          assert scan[..n][i] == scan[i];
        }
      }
    }
  }

  /** The entry under a hash is the merge of the last file scanned with
      that hash. */
  lemma {:induction false} LoadedEntry(scan: seq<ScannedFile>, saved: map<string, SavedEntry>, i: nat)
    requires i < |scan| && forall j :: i < j < |scan| ==> scan[j].hash != scan[i].hash
    ensures scan[i].hash in Loaded(scan, saved).1 && Loaded(scan, saved).1[scan[i].hash] == Merge(scan[i], saved)
  {
    var n := |scan| - 1;
    LoadedStep(scan, saved);
    if i < n {
      var prefix := scan[..n];
      assert prefix[i] == scan[i];
      assert forall j :: i < j < n ==> prefix[j].hash != prefix[i].hash by {
        assert forall j :: i < j < n ==> prefix[j] == scan[j];
      }
      LoadedEntry(prefix, saved, i);
      assert scan[n].hash != scan[i].hash;
    }
  }

  /** One more scanned file: one more assignment. */
  lemma LoadedStep(scan: seq<ScannedFile>, saved: map<string, SavedEntry>)
    requires scan != []
    ensures var n := |scan| - 1;
      Loaded(scan, saved).1 == Loaded(scan[..n], saved).1[scan[n].hash := Merge(scan[n], saved)]
  {
  }

  // ---------------------------------------------------------------------
  // The list.

  /** The two sentinel filters: favourites, and workflows at the root. */
  const Favourites: string := "收藏"
  const Others: string := "其他"

  /** The search test of `refresh_workflow_list`: the lowercased search
      term `term` occurs in the lowercased name, folder or type. */
  predicate Matches(w: Workflow, term: string) {
    term == [] || Contains(Lower(w.name), term) || Contains(Lower(w.folder), term) || Contains(Lower(w.kind), term)
  }

  /** The filter test for the selected filter `f`. */
  predicate FilterHolds(w: Workflow, f: string) {
    if f == Favourites then w.isFavorite
    else if f == Others then w.folder == ""
    else w.folder == f
  }

  /** A workflow is listed when it matches the search and the selected
      filter holds. The filter set has at most one element, so "every
      element holds" is the test on the element `next(iter(...))` picks. */
  predicate Visible(w: Workflow, term: string, filters: set<string>) {
    Matches(w, term) && forall f :: f in filters ==> FilterHolds(w, f)
  }

  /** The hashes listed, in dictionary order. */
  function Shown(order: seq<string>, workflows: map<string, Workflow>, term: string, filters: set<string>): (r: seq<string>)
    requires forall h :: h in order ==> h in workflows
  {
    if order == [] then []
    else
      var rest := Shown(order[1..], workflows, term, filters);
      if Visible(workflows[order[0]], term, filters) then [order[0]] + rest else rest
  }

  /** A hash is listed exactly when it is a key whose workflow is visible. */
  lemma {:induction false} ShownMembers(order: seq<string>, workflows: map<string, Workflow>, term: string, filters: set<string>)
    requires forall h :: h in order ==> h in workflows
    ensures forall h :: h in Shown(order, workflows, term, filters) <==> h in order && Visible(workflows[h], term, filters)
  {
    if order != [] {
      ShownMembers(order[1..], workflows, term, filters);
      assert forall h :: h in order <==> h == order[0] || h in order[1..];
    }
  }

  /** Filtering keeps the dictionary order: the list of a concatenation is
      the concatenation of the lists. */
  lemma {:induction false} ShownAppend(a: seq<string>, b: seq<string>, workflows: map<string, Workflow>, term: string, filters: set<string>)
    requires forall h :: h in a + b ==> h in workflows
    ensures Shown(a + b, workflows, term, filters) == Shown(a, workflows, term, filters) + Shown(b, workflows, term, filters)
  {
    if a == [] {
      assert a + b == b;
    } else {
      assert (a + b)[0] == a[0] && (a + b)[1..] == a[1..] + b;
      ShownAppend(a[1..], b, workflows, term, filters);
    }
  }

  /** With the filter set empty and no search term, every workflow is
      listed. */
  lemma {:induction false} ShownAll(order: seq<string>, workflows: map<string, Workflow>)
    requires forall h :: h in order ==> h in workflows
    ensures Shown(order, workflows, "", {}) == order
  {
    if order != [] {
      ShownAll(order[1..], workflows);
    }
  }

  /** The filter set after a click on `f`: clicking the selected filter
      clears it, any other click selects `f` alone. */
  function Clicked(filters: set<string>, f: string): (r: set<string>)
    ensures |r| <= 1
    ensures f in r <==> f !in filters
  {
    if f in filters then {} else {f}
  }

  /** Clicking the same button twice clears the selection, or brings it
      back when the button was the selected one. */
  lemma ClickTwice(filters: set<string>, f: string)
    requires |filters| <= 1
    ensures Clicked(Clicked(filters, f), f) == if f in filters then {f} else {}
  {
  }

  // ---------------------------------------------------------------------
  // Filter buttons.

  const ButtonsPerRow: nat := 4

  /** The button texts of `update_filter_buttons`: the directories of the
      root in sorted order, then the two sentinels. `entries` is the sorted
      listing, `isDir` tells which of its names are directories. */
  function FilterLabels(entries: seq<string>, isDir: string -> bool): (r: seq<string>)
    ensures |r| >= 2 && r[|r| - 2] == Others && r[|r| - 1] == Favourites
    ensures forall x :: x in r[..|r| - 2] <==> x in entries && isDir(x)
  {
    Directories(entries, isDir) + [Others, Favourites]
  }

  /** The list comprehension over the sorted listing. */
  function Directories(entries: seq<string>, isDir: string -> bool): (r: seq<string>)
    ensures forall x :: x in r <==> x in entries && isDir(x)
  {
    if entries == [] then []
    else if isDir(entries[0]) then [entries[0]] + Directories(entries[1..], isDir)
    else Directories(entries[1..], isDir)
  }

  /** The listing is sorted, so the directory buttons come out sorted too. */
  lemma {:induction false} DirectoriesSorted(entries: seq<string>, isDir: string -> bool)
    requires forall i, j :: 0 <= i < j < |entries| ==> !StrLt(entries[j], entries[i])
    ensures forall i, j :: 0 <= i < j < |Directories(entries, isDir)| ==>
      !StrLt(Directories(entries, isDir)[j], Directories(entries, isDir)[i])
    decreases |entries|
  {
    if entries != [] {
      var rest := entries[1..];
      DirectoriesSorted(rest, isDir);
      var t := Directories(rest, isDir);
      if isDir(entries[0]) {
        var r := [entries[0]] + t;
        forall i, j | 0 <= i < j < |r|
          ensures !StrLt(r[j], r[i])
        {
          if i == 0 {
            assert r[j] == t[j - 1] && t[j - 1] in t;
            var k :| 0 <= k < |rest| && rest[k] == r[j];
            assert entries[k + 1] == r[j];
          } else {
            assert r[i] == t[i - 1] && r[j] == t[j - 1];
          }
        }
        assert Directories(entries, isDir) == r;
      } else {
        assert Directories(entries, isDir) == t;
      }
    }
  }

  /** The grid cell of the button at position `i`: row `i // 4`, column
      `i % 4`. */
  function Cell(i: nat): (nat, nat) {
    (i / ButtonsPerRow, i % ButtonsPerRow)
  }

  /** The grid is filled row by row without gaps: distinct buttons get
      distinct cells, every row but the last holds four buttons. */
  lemma CellsDistinct(i: nat, j: nat)
    ensures Cell(i) == Cell(j) <==> i == j
    ensures Cell(i).1 < ButtonsPerRow && i == Cell(i).0 * ButtonsPerRow + Cell(i).1
  {
    if Cell(i) == Cell(j) {
      assert i == (i / 4) * 4 + i % 4;
      assert j == (j / 4) * 4 + j % 4;
    }
  }
}
