/** The model catalog of safetensors_viewer.py: the directory walk that lists
    every model file under a category, the check that a directory holds a
    model somewhere below it, the ordering of the category list, and the
    de-duplication of the scanned list. The directory tree is a value; the
    listing of a directory is the sequence of its children. */
module Catalog {
  import opened Common
  import Sorting

  /** A scanned model: the `(file, relative_path)` tuple of `all_files`. */
  datatype ModelFile = ModelFile(name: string, folder: string)

  /** A directory entry as `os.listdir` and `os.path.isdir` see it. */
  datatype Entry = File(name: string) | Dir(name: string, children: seq<Entry>)

  /** `os.path.join(a, b)` for a relative `b`: a separator is inserted unless
      `a` is empty or already ends with one. */
  function Join(a: string, b: string): string {
    if a == [] || a[|a| - 1] == Sep then a + b else a + [Sep] + b
  }

  /** The joined path extends the directory by the name, with a separator
      in between when the directory does not already end with one. */
  lemma JoinExtends(a: string, b: string)
    ensures a <= Join(a, b)
    ensures Join(a, b)[|a|..] == (if a == [] || a[|a| - 1] == Sep then b else [Sep] + b)
  {
  }

  /** The key the metadata store and the favourites set use for a model. */
  function StoreKey(m: ModelFile): string {
    Join(m.folder, m.name)
  }

  /** `supported_model_extensions`. */
  const ModelExtensions: seq<string> := [".safetensors", ".ckpt", ".bin", ".pth", ".gguf", ".pt"]

  predicate EndsWith(s: string, suffix: string) {
    |suffix| <= |s| && s[|s| - |suffix|..] == suffix
  }

  /** `name.endswith(supported_model_extensions)`. */
  predicate HasModelExtension(name: string) {
    exists e | e in ModelExtensions :: EndsWith(name, e)
  }

  // ---------------------------------------------------------------------
  // The walk.

  /** What `recursive_load_all_files_to_list(path, rel, list)` appends when it
      is not cancelled: the model files of each entry in listing order, a
      sub-directory's files carrying `rel` joined with the directory names on
      the way down. */
  function Scan(entries: seq<Entry>, rel: string): seq<ModelFile>
    decreases entries
  {
    if entries == [] then [] else ScanEntry(entries[0], rel) + Scan(entries[1..], rel)
  }

  function ScanEntry(e: Entry, rel: string): seq<ModelFile>
    decreases e
  {
    match e
    case File(n) => if HasModelExtension(n) then [ModelFile(n, rel)] else []
    case Dir(n, cs) => Scan(cs, Join(rel, n))
  }

  lemma {:induction false} ScanAppend(a: seq<Entry>, b: seq<Entry>, rel: string)
    ensures Scan(a + b, rel) == Scan(a, rel) + Scan(b, rel)
    decreases a
  {
    if a == [] {
      assert a + b == b;
    } else {
      assert (a + b)[1..] == a[1..] + b;
      ScanAppend(a[1..], b, rel);
    }
  }

  /** Every file name below `entries`, in the order of the walk. */
  function Names(entries: seq<Entry>): seq<string>
    decreases entries
  {
    if entries == [] then [] else EntryNames(entries[0]) + Names(entries[1..])
  }

  function EntryNames(e: Entry): seq<string>
    decreases e
  {
    match e
    case File(n) => [n]
    case Dir(_, cs) => Names(cs)
  }

  function NamesOf(s: seq<ModelFile>): (r: seq<string>)
    ensures |r| == |s| && forall i :: 0 <= i < |s| ==> r[i] == s[i].name
  {
    if s == [] then [] else [s[0].name] + NamesOf(s[1..])
  }

  function KeepModelNames(names: seq<string>): (r: seq<string>)
    ensures forall n :: n in r <==> n in names && HasModelExtension(n)
  {
    if names == [] then []
    else (if HasModelExtension(names[0]) then [names[0]] else []) + KeepModelNames(names[1..])
  }

  lemma NamesOfAppend(a: seq<ModelFile>, b: seq<ModelFile>)
    ensures NamesOf(a + b) == NamesOf(a) + NamesOf(b)
  {
  }

  lemma {:induction false} KeepModelNamesAppend(a: seq<string>, b: seq<string>)
    ensures KeepModelNames(a + b) == KeepModelNames(a) + KeepModelNames(b)
    decreases a
  {
    if a == [] {
      assert a + b == b;
    } else {
      assert (a + b)[1..] == a[1..] + b;
      KeepModelNamesAppend(a[1..], b);
    }
  }

  /** The scan lists exactly the files of the tree whose names carry a model
      extension, in walk order, whatever folder it starts from. */
  lemma {:induction false} ScanNames(entries: seq<Entry>, rel: string)
    ensures NamesOf(Scan(entries, rel)) == KeepModelNames(Names(entries))
    decreases entries
  {
    if entries != [] {
      ScanEntryNames(entries[0], rel);
      ScanNames(entries[1..], rel);
      NamesOfAppend(ScanEntry(entries[0], rel), Scan(entries[1..], rel));
      KeepModelNamesAppend(EntryNames(entries[0]), Names(entries[1..]));
    }
  }

  lemma {:induction false} ScanEntryNames(e: Entry, rel: string)
    ensures NamesOf(ScanEntry(e, rel)) == KeepModelNames(EntryNames(e))
    decreases e
  {
    match e
    case File(n) =>
    case Dir(n, cs) => ScanNames(cs, Join(rel, n));
  }

  /** Every scanned file has a model extension and lies in `rel` or below it. */
  lemma {:induction false} ScanSound(entries: seq<Entry>, rel: string)
    ensures forall m :: m in Scan(entries, rel) ==> HasModelExtension(m.name) && rel <= m.folder
    decreases entries
  {
    if entries != [] {
      ScanEntrySound(entries[0], rel);
      ScanSound(entries[1..], rel);
    }
  }

  lemma {:induction false} ScanEntrySound(e: Entry, rel: string)
    ensures forall m :: m in ScanEntry(e, rel) ==> HasModelExtension(m.name) && rel <= m.folder
    decreases e
  {
    match e
    case File(n) =>
    case Dir(n, cs) =>
      ScanSound(cs, Join(rel, n));
      forall m | m in ScanEntry(e, rel)
        ensures rel <= m.folder
      {
        assert rel <= Join(rel, n) <= m.folder;
      }
  }

  // ---------------------------------------------------------------------
  // The scan as the loader runs it: appending into a list.

  class Loader {
    /** The list the walk appends to (`temp_files`). */
    var tempFiles: seq<ModelFile>
    /** `loading_cancelled`, set from outside the walk. */
    var cancelled: bool

    constructor (cancelled: bool)
      ensures tempFiles == [] && this.cancelled == cancelled
    {
      tempFiles := [];
      this.cancelled := cancelled;
    }

    /** `recursive_load_all_files_to_list`: appends the model files below
        `entries` in walk order; a cancelled walk appends nothing. */
    method RecursiveLoad(entries: seq<Entry>, rel: string)
      modifies this
      ensures cancelled == old(cancelled)
      ensures tempFiles == old(tempFiles) + (if cancelled then [] else Scan(entries, rel))
      decreases entries
    {
      if cancelled {
        return;
      }
      ghost var start := tempFiles;
      var i := 0;
      while i < |entries|
        invariant 0 <= i <= |entries|
        invariant !cancelled
        invariant tempFiles == start + Scan(entries[..i], rel)
      {
        ScanStep(entries, i, rel);
        LoadEntry(entries[i], rel);
        AppendAssociative(start, Scan(entries[..i], rel), ScanEntry(entries[i], rel));
        i := i + 1;
      }
      assert entries[..i] == entries;
    }

    /** One iteration of the walk: a directory is walked into, a file with a
        model extension is appended. */
    method LoadEntry(e: Entry, rel: string)
      requires !cancelled
      modifies this
      ensures !cancelled
      ensures tempFiles == old(tempFiles) + ScanEntry(e, rel)
      decreases e
    {
      match e {
        case Dir(n, cs) =>
          RecursiveLoad(cs, Join(rel, n));
        case File(n) =>
          if HasModelExtension(n) {
            tempFiles := tempFiles + [ModelFile(n, rel)];
          }
      }
    }
  }

  lemma ScanStep(entries: seq<Entry>, i: nat, rel: string)
    requires i < |entries|
    ensures Scan(entries[..i + 1], rel) == Scan(entries[..i], rel) + ScanEntry(entries[i], rel)
  {
    ScanAppend(entries[..i], [entries[i]], rel);
    assert entries[..i + 1] == entries[..i] + [entries[i]];
    assert Scan([entries[i]], rel) == ScanEntry(entries[i], rel) + Scan([], rel);
  }

  /** `check_directory_for_models`: some file anywhere below has a model
      extension (the walk stops at the first one). */
  function HasModelFile(entries: seq<Entry>): (r: bool)
    decreases entries
  {
    if entries == [] then false
    else
      match entries[0]
      case File(n) => HasModelExtension(n) || HasModelFile(entries[1..])
      case Dir(_, cs) => HasModelFile(cs) || HasModelFile(entries[1..])
  }

  /** A directory passes the check exactly when the scan of it lists
      something. */
  lemma {:induction false} HasModelFileIffScan(entries: seq<Entry>, rel: string)
    ensures HasModelFile(entries) <==> Scan(entries, rel) != []
    decreases entries
  {
    if entries != [] {
      HasModelFileIffScan(entries[1..], rel);
      match entries[0]
      case File(n) =>
      case Dir(n, cs) => HasModelFileIffScan(cs, Join(rel, n));
    }
  }

  // ---------------------------------------------------------------------
  // De-duplication: `list(set(temp_files))`.

  predicate Distinct<T(==)>(s: seq<T>) {
    forall i, j :: 0 <= i < j < |s| ==> s[i] != s[j]
  }

  /** Python does not fix the order of `list(set(...))`; this one keeps first
      occurrences, and the contract states only what Python promises. */
  method Dedup(s: seq<ModelFile>) returns (r: seq<ModelFile>)
    ensures Distinct(r)
    ensures forall m :: m in r <==> m in s
  {
    r := [];
    var i := 0;
    while i < |s|
      invariant 0 <= i <= |s|
      invariant Distinct(r)
      invariant forall m :: m in r <==> m in s[..i]
    {
      if s[i] !in r {
        r := r + [s[i]];
      }
      assert s[..i + 1] == s[..i] + [s[i]];
      i := i + 1;
    }
    assert s[..i] == s;
  }

  // ---------------------------------------------------------------------
  // The category list.

  /** The top-level directories other than "ui" that hold a model, in
      listing order. */
  function ValidCategories(dirs: seq<Entry>): seq<string> {
    if dirs == [] then []
    else (if IsCandidate(dirs[0]) && HasModelFile(dirs[0].children) then [dirs[0].name] else [])
         + ValidCategories(dirs[1..])
  }

  /** The list comprehension over `os.listdir(BASE_PATH)`. */
  predicate IsCandidate(e: Entry) {
    e.Dir? && e.name != "ui"
  }

  lemma {:induction false} ValidCategoriesAppend(a: seq<Entry>, b: seq<Entry>)
    ensures ValidCategories(a + b) == ValidCategories(a) + ValidCategories(b)
    decreases a
  {
    if a == [] {
      assert a + b == b;
    } else {
      assert (a + b)[1..] == a[1..] + b;
      ValidCategoriesAppend(a[1..], b);
    }
  }

  lemma {:induction false} ValidCategoriesMembers(dirs: seq<Entry>, c: string)
    ensures c in ValidCategories(dirs) <==>
      exists i :: 0 <= i < |dirs| && IsCandidate(dirs[i]) && dirs[i].name == c && HasModelFile(dirs[i].children)
    decreases dirs
  {
    if dirs != [] {
      ValidCategoriesMembers(dirs[1..], c);
      assert forall i :: 0 < i < |dirs| ==> dirs[i] == dirs[1..][i - 1];
      if c in ValidCategories(dirs[1..]) {
        var i :| 0 <= i < |dirs[1..]| && IsCandidate(dirs[1..][i]) && dirs[1..][i].name == c && HasModelFile(dirs[1..][i].children);
        assert dirs[i + 1] == dirs[1..][i];
      }
    }
  }

  /** Python `list.remove(x)`: drops the first occurrence. */
  function RemoveFirst(s: seq<string>, x: string): (r: seq<string>)
    ensures x !in s ==> r == s
  {
    if s == [] then []
    else if s[0] == x then s[1..]
    else [s[0]] + RemoveFirst(s[1..], x)
  }

  lemma {:induction false} RemoveFirstMultiset(s: seq<string>, x: string)
    requires x in s
    ensures multiset(RemoveFirst(s, x)) == multiset(s) - multiset{x}
  {
    assert s == [s[0]] + s[1..];
    if s[0] != x {
      RemoveFirstMultiset(s[1..], x);
    }
  }

  function NameKey(s: string): Sorting.Key {
    Sorting.Text(s)
  }

  /** `[x]` when `x` is present, which `load_categories` moves to the front. */
  function Leading(s: seq<string>, x: string): seq<string> {
    if x in s then [x] else []
  }

  /** "checkpoints", then "loras" (each when present), then the rest in
      ascending order. */
  function ArrangeCategories(valid: seq<string>): seq<string> {
    var v1 := RemoveFirst(valid, "checkpoints");
    var v2 := RemoveFirst(v1, "loras");
    Leading(valid, "checkpoints") + Leading(v1, "loras") + Sorting.SortBy(NameKey, false, v2)
  }

  /** `load_categories`: the candidate directories in listing order, those
      holding a model, then the fixed-first ordering. */
  method LoadCategories(base: seq<Entry>) returns (categories: seq<string>)
    ensures categories == ArrangeCategories(ValidCategories(base))
  {
    var valid := CollectValidCategories(base);
    categories := [];
    if "checkpoints" in valid {
      categories := categories + ["checkpoints"];
      valid := RemoveFirst(valid, "checkpoints");
    }
    if "loras" in valid {
      categories := categories + ["loras"];
      valid := RemoveFirst(valid, "loras");
    }
    categories := categories + Sorting.SortBy(NameKey, false, valid);
  }

  method CollectValidCategories(base: seq<Entry>) returns (valid: seq<string>)
    ensures valid == ValidCategories(base)
  {
    var allDirs: seq<Entry> := [];
    var i := 0;
    while i < |base|
      invariant 0 <= i <= |base|
      invariant forall k :: 0 <= k < |allDirs| ==> IsCandidate(allDirs[k])
      invariant ValidCategories(allDirs) == ValidCategories(base[..i])
    {
      assert base[..i + 1] == base[..i] + [base[i]];
      ValidCategoriesAppend(base[..i], [base[i]]);
      if IsCandidate(base[i]) {
        ValidCategoriesAppend(allDirs, [base[i]]);
        allDirs := allDirs + [base[i]];
      }
      i := i + 1;
    }
    assert base[..i] == base;
    valid := [];
    i := 0;
    while i < |allDirs|
      invariant 0 <= i <= |allDirs|
      invariant valid == ValidCategories(allDirs[..i])
    {
      assert allDirs[..i + 1] == allDirs[..i] + [allDirs[i]];
      ValidCategoriesAppend(allDirs[..i], [allDirs[i]]);
      if HasModelFile(allDirs[i].children) {
        valid := valid + [allDirs[i].name];
      }
      i := i + 1;
    }
    assert allDirs[..i] == allDirs;
  }

  lemma RemoveFirstKeepsOthers(s: seq<string>, x: string, y: string)
    requires y != x
    ensures y in RemoveFirst(s, x) <==> y in s
  {
    if x in s {
      RemoveFirstMultiset(s, x);
      assert multiset(RemoveFirst(s, x))[y] == multiset(s)[y];
    }
  }

  lemma MoveToFront(s: seq<string>, x: string)
    ensures multiset(Leading(s, x) + RemoveFirst(s, x)) == multiset(s)
  {
    if x in s {
      RemoveFirstMultiset(s, x);
    }
  }

  lemma SortNamesPermutes(v: seq<string>)
    ensures multiset(Sorting.SortBy(NameKey, false, v)) == multiset(v)
  {
    Sorting.SortByFacts(NameKey, false, v);
  }

  lemma MoveTwoToFront(valid: seq<string>, a: string, b: string, rest: seq<string>)
    requires multiset(rest) == multiset(RemoveFirst(RemoveFirst(valid, a), b))
    ensures multiset(Leading(valid, a) + Leading(RemoveFirst(valid, a), b) + rest) == multiset(valid)
  {
    var v1 := RemoveFirst(valid, a);
    var v2 := RemoveFirst(v1, b);
    MoveToFront(valid, a);
    MoveToFront(v1, b);
    var h1, h2 := Leading(valid, a), Leading(v1, b);
    assert h1 + h2 + rest == h1 + (h2 + rest);
    var m2 := multiset(h2 + rest);
    assert m2 == multiset(h2) + multiset(rest);
    assert m2 == multiset(h2 + v2);
    assert multiset(h1 + (h2 + rest)) == multiset(h1) + m2;
  }

  /** The category list is a permutation of the valid categories. */
  lemma ArrangeCategoriesPermutes(valid: seq<string>)
    ensures multiset(ArrangeCategories(valid)) == multiset(valid)
  {
    var v2 := RemoveFirst(RemoveFirst(valid, "checkpoints"), "loras");
    SortNamesPermutes(v2);
    MoveTwoToFront(valid, "checkpoints", "loras", Sorting.SortBy(NameKey, false, v2));
  }

  lemma SortNamesSorted(v: seq<string>, r: seq<string>)
    requires r == Sorting.SortBy(NameKey, false, v)
    ensures forall i, j :: 0 <= i < j < |r| ==> !StrLt(r[j], r[i])
  {
    Sorting.SortByFacts(NameKey, false, v);
    forall i, j | 0 <= i < j < |r|
      ensures !StrLt(r[j], r[i])
    {
      assert !Sorting.Precedes(NameKey, false, r[j], r[i]);
    }
  }

  /** "checkpoints" comes first and "loras" next when present, and the
      remaining categories follow in ascending order. */
  lemma ArrangeCategoriesOrder(valid: seq<string>)
    ensures "checkpoints" in valid ==> ArrangeCategories(valid)[0] == "checkpoints"
    ensures "loras" in valid ==>
      ArrangeCategories(valid)[if "checkpoints" in valid then 1 else 0] == "loras"
    ensures var k := (if "checkpoints" in valid then 1 else 0) + (if "loras" in valid then 1 else 0);
      k <= |ArrangeCategories(valid)| &&
      forall i, j :: k <= i < j < |ArrangeCategories(valid)| ==>
        !StrLt(ArrangeCategories(valid)[j], ArrangeCategories(valid)[i])
  {
    var v1 := RemoveFirst(valid, "checkpoints");
    var v2 := RemoveFirst(v1, "loras");
    RemoveFirstKeepsOthers(valid, "checkpoints", "loras");
    var sorted := Sorting.SortBy(NameKey, false, v2);
    SortNamesSorted(v2, sorted);
    FrontThenSorted(Leading(valid, "checkpoints"), Leading(v1, "loras"), sorted);
  }

  lemma FrontThenSorted(h1: seq<string>, h2: seq<string>, sorted: seq<string>)
    requires forall i, j :: 0 <= i < j < |sorted| ==> !StrLt(sorted[j], sorted[i])
    ensures var r := h1 + h2 + sorted;
      && (|h1| > 0 ==> r[0] == h1[0])
      && (|h2| > 0 ==> r[|h1|] == h2[0])
      && forall i, j :: |h1| + |h2| <= i < j < |r| ==> !StrLt(r[j], r[i])
  {
    var r := h1 + h2 + sorted;
    var k := |h1| + |h2|;
    forall i, j | k <= i < j < |r|
      ensures !StrLt(r[j], r[i])
    {
      assert r[i] == sorted[i - k] && r[j] == sorted[j - k];
    }
  }

  /** A name is in the category list iff it names a top-level directory,
      other than "ui", holding a model somewhere below it. */
  lemma CategoriesAreValidDirectories(base: seq<Entry>, c: string)
    ensures c in ArrangeCategories(ValidCategories(base)) <==>
      exists i :: 0 <= i < |base| && base[i].Dir? && base[i].name == c && c != "ui" && HasModelFile(base[i].children)
  {
    var valid := ValidCategories(base);
    ArrangeCategoriesPermutes(valid);
    ValidCategoriesMembers(base, c);
    assert c in ArrangeCategories(valid) <==> c in multiset(ArrangeCategories(valid));
    assert c in valid <==> c in multiset(valid);
  }
}
