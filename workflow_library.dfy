/** The workflow library of workflow_manager.py (class `WorkflowManager`)
    as a class whose fields are the dictionary of workflows, the selection,
    the filter set, the list on screen, and the two files the library
    keeps next to the program: `workflow_info.json` and
    `workflow_info(backup).json`. The file system, the SHA-256 of a file
    and the directory walk are parameters of the methods that use them. */
module WorkflowLibrary {
  import opened Common
  import opened WorkflowTable
  import Navigation

  /** One of the two info files on disk. */
  datatype InfoSlot = Absent | Unreadable | Stored(info: InfoFile)

  /** The saved entries `load_workflows` sees: none when the info file is
      missing or `json.load` fails. */
  function SavedIn(slot: InfoSlot): map<string, SavedEntry> {
    if slot.Stored? then slot.info.entries else map[]
  }

  /** The root directory once `load_workflows` has read the info file. */
  function RootAfterRead(slot: InfoSlot, dir: string): string {
    if slot.Stored? && slot.info.rootDir.Some? then slot.info.rootDir.value else dir
  }

  /** The two files as a pair: the info file and its backup. */
  datatype Slots = Slots(info: InfoSlot, backup: InfoSlot)

  /** `change_workflow_dir` swaps the files back when the chosen directory
      is, after `normpath`, the non-empty `_root_dir` of the backup. */
  predicate Swaps(s: Slots, newDir: string, norm: string -> string) {
    s.backup.Stored? && s.backup.info.rootDir.Some? && s.backup.info.rootDir.value != ""
    && norm(newDir) == norm(s.backup.info.rootDir.value)
  }

  /** The renames fail (the first `os.rename` finds no info file) and the
      change is abandoned. */
  predicate RenameFails(s: Slots, newDir: string, norm: string -> string) {
    Swaps(s, newDir, norm) && s.info.Absent?
  }

  /** The two files after the renames: swapped through a temporary name, or
      the info file moved over the backup, or nothing to move. */
  function Renamed(s: Slots, newDir: string, norm: string -> string): (r: Slots)
    ensures RenameFails(s, newDir, norm) ==> r == s
    ensures !Swaps(s, newDir, norm) ==> r.info.Absent?
  {
    if Swaps(s, newDir, norm) then
      if s.info.Absent? then s else Slots(s.backup, s.info)
    else if s.info.Absent? then s
    else Slots(Absent, s.info)
  }

  /** Moving to another root and back: the first change keeps the old info
      file as the backup; the second, to the directory that file names,
      puts it back in place (the load then reads the old names, favourites
      and descriptions) and keeps the other root's file as the backup. */
  lemma MoveAwayAndBack(info0: InfoFile, backup0: InfoSlot, away: string, back: string, norm: string -> string, written: InfoFile)
    requires info0.rootDir == Some(back) && back != ""
    requires !Swaps(Slots(Stored(info0), backup0), away, norm)
    ensures Renamed(Slots(Stored(info0), backup0), away, norm) == Slots(Absent, Stored(info0))
    ensures Renamed(Slots(Stored(written), Stored(info0)), back, norm) == Slots(Stored(info0), Stored(written))
  {
  }

  /** The detail fields `save_field_change` writes. */
  datatype Field = NameField | KindField | UrlField | DescriptionField

  function FieldOf(w: Workflow, f: Field): string {
    match f
    case NameField => w.name
    case KindField => w.kind
    case UrlField => w.url
    case DescriptionField => w.description
  }

  function WithField(w: Workflow, f: Field, v: string): (r: Workflow)
    ensures FieldOf(r, f) == v
    ensures forall g :: g != f ==> FieldOf(r, g) == FieldOf(w, g)
    ensures r.hash == w.hash && r.isFavorite == w.isFavorite && r.folder == w.folder && r.filePath == w.filePath
  {
    match f
    case NameField => w.(name := v)
    case KindField => w.(kind := v)
    case UrlField => w.(url := v)
    case DescriptionField => w.(description := v)
  }

  class WorkflowManager {
    var workflowDir: string
    /** `self.workflows`: its key order and its entries. */
    var order: seq<string>
    var workflows: map<string, Workflow>
    /** `self.current_workflow`, by its hash. */
    var current: Option<string>
    var currentFilters: set<string>
    /** The hashes of the list entries on screen, top to bottom. */
    var shown: seq<string>
    var infoFile: InfoSlot
    var backupFile: InfoSlot

    ghost predicate Valid()
      reads this
    {
      Keyed(order, workflows) && |currentFilters| <= 1
    }

    /** The part of `__init__` that sets up the library: the default root
        `my_workflows` under the working directory, nothing loaded. */
    constructor (cwd: string, info: InfoSlot, backup: InfoSlot)
      ensures Valid()
      ensures workflowDir == cwd + [Sep] + "my_workflows"
      ensures order == [] && workflows == map[] && current == None && currentFilters == {} && shown == []
      ensures infoFile == info && backupFile == backup
    {
      workflowDir := cwd + [Sep] + "my_workflows";
      order, workflows := [], map[];
      current := None;
      currentFilters := {};
      shown := [];
      infoFile, backupFile := info, backup;
    }

    /** `save_workflow_info`. */
    method SaveWorkflowInfo()
      modifies this
      ensures infoFile == Stored(SaveData(workflowDir, workflows))
      ensures workflowDir == old(workflowDir) && order == old(order) && workflows == old(workflows)
      ensures current == old(current) && currentFilters == old(currentFilters) && shown == old(shown)
      ensures backupFile == old(backupFile)
    {
      infoFile := Stored(SaveData(workflowDir, workflows));
    }

    /** `refresh_workflow_list` with the search box holding `term`: the
        entries that pass the search and the selected filter, in dictionary
        order. */
    method RefreshWorkflowList(term: string)
      requires Valid()
      modifies this
      ensures workflowDir == old(workflowDir) && order == old(order) && workflows == old(workflows)
      ensures current == old(current) && currentFilters == old(currentFilters)
      ensures infoFile == old(infoFile) && backupFile == old(backupFile)
      ensures Valid() && shown == Shown(order, workflows, Lower(term), currentFilters)
    {
      shown := FilterWorkflows(order, workflows, Lower(term), currentFilters);
    }

    /** `select_workflow`: the entry under `h`, if there is one. */
    method SelectWorkflow(h: string)
      modifies this
      ensures current == if h in workflows then Some(h) else None
      ensures workflowDir == old(workflowDir) && order == old(order) && workflows == old(workflows)
      ensures currentFilters == old(currentFilters) && shown == old(shown)
      ensures infoFile == old(infoFile) && backupFile == old(backupFile)
    {
      current := if h in workflows then Some(h) else None;
    }

    /** The `update_selection` callback the refresh schedules: the first
        entry on screen, or nothing. */
    method UpdateSelection()
      requires Valid() && forall h :: h in shown ==> h in workflows
      modifies this
      ensures current == if shown == [] then None else Some(shown[0])
      ensures workflowDir == old(workflowDir) && order == old(order) && workflows == old(workflows)
      ensures currentFilters == old(currentFilters) && shown == old(shown)
      ensures infoFile == old(infoFile) && backupFile == old(backupFile)
    {
      if shown != [] {
        SelectWorkflow(shown[0]);
      } else {
        current := None;
      }
    }

    /** `load_workflows`: read the info file (it may name another root),
        walk the root, merge, save, refresh. `scanOf(d)` is what the walk
        of `d` yields, file by file, for the files that load without an
        error. */
    method LoadWorkflows(scanOf: string -> seq<ScannedFile>, term: string)
      requires |currentFilters| <= 1
      modifies this
      ensures Valid()
      ensures workflowDir == RootAfterRead(old(infoFile), old(workflowDir))
      ensures (order, workflows) == Loaded(scanOf(workflowDir), SavedIn(old(infoFile)))
      ensures infoFile == Stored(SaveData(workflowDir, workflows))
      ensures shown == Shown(order, workflows, Lower(term), currentFilters)
      ensures current == old(current) && currentFilters == old(currentFilters) && backupFile == old(backupFile)
    {
      order, workflows := [], map[];
      var saved := map[];
      if infoFile.Stored? {
        saved := infoFile.info.entries;
        if infoFile.info.rootDir.Some? {
          workflowDir := infoFile.info.rootDir.value;
        }
      }
      var scan := scanOf(workflowDir);
      order, workflows := LoadTable(scan, saved);
      LoadedKeyed(scan, saved);
      SaveWorkflowInfo();
      RefreshWorkflowList(term);
    }

    /** `filter_workflows`: a click on the filter button `f`. */
    method ClickFilter(f: string, term: string)
      requires Valid()
      modifies this
      ensures Valid()
      ensures currentFilters == Clicked(old(currentFilters), f)
      ensures shown == Shown(order, workflows, Lower(term), currentFilters)
      ensures workflowDir == old(workflowDir) && order == old(order) && workflows == old(workflows)
      ensures current == old(current) && infoFile == old(infoFile) && backupFile == old(backupFile)
    {
      if f in currentFilters {
        currentFilters := {};
      } else {
        currentFilters := {};
        currentFilters := currentFilters + {f};
      }
      RefreshWorkflowList(term);
    }

    /** `toggle_favorite`: flip the flag of the entry under `h`, save,
        refresh. */
    method ToggleFavorite(h: string, term: string)
      requires Valid()
      modifies this
      ensures Valid()
      ensures h !in old(workflows) ==> unchanged(this)
      ensures h in old(workflows) ==>
        && workflows == old(workflows)[h := old(workflows)[h].(isFavorite := !old(workflows)[h].isFavorite)]
        && infoFile == Stored(SaveData(workflowDir, workflows))
        && shown == Shown(order, workflows, Lower(term), currentFilters)
      ensures workflowDir == old(workflowDir) && order == old(order) && current == old(current)
      ensures currentFilters == old(currentFilters) && backupFile == old(backupFile)
    {
      if h in workflows {
        var w := workflows[h];
        workflows := workflows[h := w.(isFavorite := !w.isFavorite)];
        SaveWorkflowInfo();
        RefreshWorkflowList(term);
      }
    }

    /** `toggle_current_favorite`: the same for the selected entry, without
        rebuilding the list. */
    method ToggleCurrentFavorite()
      requires Valid()
      modifies this
      ensures Valid()
      ensures (current.None? || current.value !in old(workflows)) ==> unchanged(this)
      ensures current.Some? && current.value in old(workflows) ==>
        var h := current.value;
        && workflows == old(workflows)[h := old(workflows)[h].(isFavorite := !old(workflows)[h].isFavorite)]
        && infoFile == Stored(SaveData(workflowDir, workflows))
      ensures workflowDir == old(workflowDir) && order == old(order) && current == old(current)
      ensures currentFilters == old(currentFilters) && shown == old(shown) && backupFile == old(backupFile)
    {
      if current.None? {
        return;
      }
      var h := current.value;
      if h !in workflows {
        return;
      }
      var w := workflows[h];
      workflows := workflows[h := w.(isFavorite := !w.isFavorite)];
      SaveWorkflowInfo();
    }

    /** `save_field_change` for the selected entry: the editor's `text`
        (stripped, except for the name) replaces the field when it differs,
        the entry is stamped with `stamp`, the file is saved, and the list
        is rebuilt after a name change. */
    method SaveFieldChange(field: Field, text: string, stamp: string, term: string)
      requires Valid()
      modifies this
      ensures Valid()
      ensures var value := if field == NameField then text else Strip(text);
        if old(current.Some? && current.value in workflows && FieldOf(workflows[current.value], field) != value) then
          var h := old(current).value;
          && workflows == old(workflows)[h := WithField(old(workflows)[h], field, value).(lastModified := Some(stamp))]
          && infoFile == Stored(SaveData(workflowDir, workflows))
          && (field == NameField ==> shown == Shown(order, workflows, Lower(term), currentFilters))
          && (field != NameField ==> shown == old(shown))
        else unchanged(this)
      ensures workflowDir == old(workflowDir) && order == old(order) && current == old(current)
      ensures currentFilters == old(currentFilters) && backupFile == old(backupFile)
    {
      if current.None? {
        return;
      }
      var h := current.value;
      if h !in workflows {
        return;
      }
      var value := if field == NameField then text else Strip(text);
      var w := workflows[h];
      if FieldOf(w, field) != value {
        workflows := workflows[h := WithField(w, field, value).(lastModified := Some(stamp))];
        SaveWorkflowInfo();
        if field == NameField {
          RefreshWorkflowList(term);
        }
      }
    }

    /** `self.workflows[n] = self.workflows[h]; ...['hash'] = n;
        del self.workflows[h]`: the entry moves to the key `n` (to the end
        of the order unless `n` was a key, whose entry it replaces). */
    method MoveEntry(h: string, n: string)
      requires Valid() && h in workflows && n != h
      modifies this
      ensures Valid()
      ensures workflows == (old(workflows)[n := old(workflows)[h].(hash := n)]) - {h}
      ensures order == Without(Put(old(order), n), h)
      ensures workflowDir == old(workflowDir) && current == old(current) && currentFilters == old(currentFilters)
      ensures shown == old(shown) && infoFile == old(infoFile) && backupFile == old(backupFile)
    {
      MovedKeyed(order, workflows, h, n);
      var w := workflows[h];
      order := Put(order, n);
      workflows := workflows[n := w.(hash := n)];
      order := Without(order, h);
      workflows := workflows - {h};
    }

    /** `update_workflow_hash`: rehash the entry's file; on a new hash the
        entry moves to it and the selection follows. */
    method UpdateWorkflowHash(h: string, hashOf: string -> string, term: string)
      requires Valid()
      modifies this
      ensures Valid()
      ensures h !in old(workflows) || hashOf(old(workflows)[h].filePath) == h ==> unchanged(this)
      ensures h in old(workflows) && hashOf(old(workflows)[h].filePath) != h ==>
        var n := hashOf(old(workflows)[h].filePath);
        && workflows == (old(workflows)[n := old(workflows)[h].(hash := n)]) - {h}
        && order == Without(Put(old(order), n), h)
        && current == (if old(current) == Some(h) then Some(n) else old(current))
        && infoFile == Stored(SaveData(workflowDir, workflows))
        && shown == Shown(order, workflows, Lower(term), currentFilters)
      ensures workflowDir == old(workflowDir) && currentFilters == old(currentFilters) && backupFile == old(backupFile)
    {
      if h !in workflows {
        return;
      }
      var n := hashOf(workflows[h].filePath);
      if n == h {
        return;
      }
      MoveEntry(h, n);
      if current == Some(h) {
        current := Some(n);
      }
      SaveWorkflowInfo();
      RefreshWorkflowList(term);
    }

    /** `save_workflow_name`: rename the selected entry's file to the
        stripped name (keeping folder and extension, `pathOf`), refusing an
        empty name or a path another file holds (`taken`, `os.path.exists`); then rehash as
        `update_workflow_hash` does. */
    method SaveWorkflowName(rawName: string, pathOf: (string, string) -> string, taken: string -> bool,
                            hashOf: string -> string, term: string)
      requires Valid()
      modifies this
      ensures Valid()
      ensures var name := Strip(rawName);
        if old(current.Some? && current.value in workflows) && name != "" then
          var h := old(current.value);
          var oldPath := old(workflows)[h].filePath;
          var path := pathOf(oldPath, name);
          if taken(path) && oldPath != path then unchanged(this)
          else
            var renamed := old(workflows)[h].(name := name, filePath := path);
            var n := hashOf(path);
            && (n == h ==> workflows == old(workflows)[h := renamed] && order == old(order) && current == old(current))
            && (n != h ==> workflows == (old(workflows)[h := renamed][n := renamed.(hash := n)]) - {h}
                           && order == Without(Put(old(order), n), h) && current == Some(n))
            && infoFile == Stored(SaveData(workflowDir, workflows))
            && shown == Shown(order, workflows, Lower(term), currentFilters)
        else unchanged(this)
      ensures workflowDir == old(workflowDir) && currentFilters == old(currentFilters) && backupFile == old(backupFile)
    {
      if current.None? {
        return;
      }
      var h := current.value;
      if h !in workflows {
        return;
      }
      var name := Strip(rawName);
      if name == "" {
        return;
      }
      var oldPath := workflows[h].filePath;
      var path := pathOf(oldPath, name);
      if taken(path) && oldPath != path {
        return;
      }
      workflows := workflows[h := workflows[h].(name := name, filePath := path)];
      var n := hashOf(path);
      if n != h {
        MoveEntry(h, n);
        current := Some(n);
      }
      SaveWorkflowInfo();
      RefreshWorkflowList(term);
    }

    /** `delete_workflow`: after the confirmation (`confirmed`) and the
        removal of the file (`removed`: `os.remove` did not raise), the
        entry leaves the dictionary and the selection. */
    method DeleteWorkflow(h: string, confirmed: bool, removed: bool, term: string)
      requires Valid()
      modifies this
      ensures Valid()
      ensures h !in old(workflows) || !confirmed || !removed ==> unchanged(this)
      ensures h in old(workflows) && confirmed && removed ==>
        && workflows == old(workflows) - {h}
        && order == Without(old(order), h)
        && current == (if old(current) == Some(h) then None else old(current))
        && infoFile == Stored(SaveData(workflowDir, workflows))
        && shown == Shown(order, workflows, Lower(term), currentFilters)
      ensures workflowDir == old(workflowDir) && currentFilters == old(currentFilters) && backupFile == old(backupFile)
    {
      if h !in workflows || !confirmed || !removed {
        return;
      }
      DeletedKeyed(order, workflows, h);
      workflows := workflows - {h};
      order := Without(order, h);
      if current == Some(h) {
        current := None;
      }
      SaveWorkflowInfo();
      RefreshWorkflowList(term);
    }

    /** `select_previous_workflow`: one entry up the list, wrapping. */
    method SelectPreviousWorkflow()
      modifies this
      ensures var target := Navigation.SelectPrevious(shown, old(current));
        current == if old(workflows) != map[] && target.Some? then
                     (if target.value in workflows then Some(target.value) else None)
                   else old(current)
      ensures workflowDir == old(workflowDir) && order == old(order) && workflows == old(workflows)
      ensures currentFilters == old(currentFilters) && shown == old(shown)
      ensures infoFile == old(infoFile) && backupFile == old(backupFile)
    {
      if workflows == map[] {
        return;
      }
      var target := Navigation.SelectPrevious(shown, current);
      if target.Some? {
        SelectWorkflow(target.value);
      }
    }

    /** `select_next_workflow`: one entry down the list, wrapping. */
    method SelectNextWorkflow()
      modifies this
      ensures var target := Navigation.SelectNext(shown, old(current));
        current == if old(workflows) != map[] && target.Some? then
                     (if target.value in workflows then Some(target.value) else None)
                   else old(current)
      ensures workflowDir == old(workflowDir) && order == old(order) && workflows == old(workflows)
      ensures currentFilters == old(currentFilters) && shown == old(shown)
      ensures infoFile == old(infoFile) && backupFile == old(backupFile)
    {
      if workflows == map[] {
        return;
      }
      var target := Navigation.SelectNext(shown, current);
      if target.Some? {
        SelectWorkflow(target.value);
      }
    }

    /** `change_workflow_dir` to the chosen directory `newDir` ("" when the
        dialog is cancelled): the file renames, then a fresh load of the
        new root. */
    method ChangeWorkflowDir(newDir: string, norm: string -> string, scanOf: string -> seq<ScannedFile>, term: string)
      requires Valid()
      modifies this
      ensures Valid()
      ensures var s := Slots(old(infoFile), old(backupFile));
        if newDir == "" || RenameFails(s, newDir, norm) then unchanged(this)
        else
          var moved := Renamed(s, newDir, norm);
          && backupFile == moved.backup
          && workflowDir == RootAfterRead(moved.info, newDir)
          && (order, workflows) == Loaded(scanOf(workflowDir), SavedIn(moved.info))
          && infoFile == Stored(SaveData(workflowDir, workflows))
          && current == None
          && shown == Shown(order, workflows, Lower(term), currentFilters)
      ensures currentFilters == old(currentFilters)
    {
      if newDir == "" {
        return;
      }
      ghost var s := Slots(infoFile, backupFile);
      if Swaps(Slots(infoFile, backupFile), newDir, norm) {
        if infoFile.Absent? {
          return;
        }
        var temp := infoFile;
        infoFile := backupFile;
        backupFile := temp;
      } else if !infoFile.Absent? {
        backupFile := infoFile;
        infoFile := Absent;
      }
      assert Slots(infoFile, backupFile) == Renamed(s, newDir, norm);
      ghost var read := infoFile;
      workflowDir := newDir;
      order, workflows := [], map[];
      current := None;
      LoadWorkflows(scanOf, term);
      assert (order, workflows) == Loaded(scanOf(workflowDir), SavedIn(read));
      RefreshWorkflowList(term);
    }
  }

  /** The loop of `refresh_workflow_list` over `self.workflows.items()`:
      the keys, in order, whose workflow passes the search for the
      lowercased `t` and the filter `next(iter(filters))`. */
  method FilterWorkflows(keys: seq<string>, table: map<string, Workflow>, t: string, filters: set<string>)
    returns (list: seq<string>)
    requires |filters| <= 1 && forall h :: h in keys ==> h in table
    ensures list == Shown(keys, table, t, filters)
  {
    var filter: Option<string> := None;
    if filters != {} {
      var f :| f in filters;
      OnlyElement(filters, f);
      filter := Some(f);
    }
    list := [];
    var i := 0;
    while i < |keys|
      invariant 0 <= i <= |keys|
      invariant list == Shown(keys[..i], table, t, filters)
    {
      var w := table[keys[i]];
      var show := true;
      if t != [] {
        show := Contains(Lower(w.name), t) || Contains(Lower(w.folder), t) || Contains(Lower(w.kind), t);
      }
      if show && filter.Some? {
        var f := filter.value;
        show := if f == Favourites then w.isFavorite else if f == Others then w.folder == "" else w.folder == f;
      }
      assert show == Visible(w, t, filters);
      assert Shown(keys[..i + 1], table, t, filters)
             == Shown(keys[..i], table, t, filters) + (if show then [keys[i]] else []) by {
        assert keys[..i + 1] == keys[..i] + [keys[i]];
        ShownAppend(keys[..i], [keys[i]], table, t, filters);
        ShownOne(keys[i], table, t, filters);
      }
      if show {
        list := list + [keys[i]];
      }
      i := i + 1;
    }
    assert keys[..i] == keys;
  }

  /** The loop of `load_workflows` over the walk: each scanned file merged
      with its saved entry and stored under its hash. */
  method LoadTable(scan: seq<ScannedFile>, saved: map<string, SavedEntry>)
    returns (order: seq<string>, workflows: map<string, Workflow>)
    ensures (order, workflows) == Loaded(scan, saved)
  {
    order, workflows := [], map[];
    var i := 0;
    while i < |scan|
      invariant 0 <= i <= |scan|
      invariant (order, workflows) == Loaded(scan[..i], saved)
    {
      var s := scan[i];
      assert scan[..i + 1][..i] == scan[..i];
      order := Put(order, s.hash);
      workflows := workflows[s.hash := Merge(s, saved)];
      i := i + 1;
    }
    assert scan[..i] == scan;
  }

  /** The list of one key. */
  lemma ShownOne(h: string, workflows: map<string, Workflow>, term: string, filters: set<string>)
    requires h in workflows
    ensures Shown([h], workflows, term, filters) == if Visible(workflows[h], term, filters) then [h] else []
  {
    assert [h][1..] == [];
  }

  /** A set of at most one element holding `f` is `{f}`. */
  lemma OnlyElement(s: set<string>, f: string)
    requires |s| <= 1 && f in s
    ensures s == {f}
  {
    assert s == {f} + (s - {f});
    assert |s - {f}| == 0;
  }
}
