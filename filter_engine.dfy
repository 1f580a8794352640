/** The list shown for a category in safetensors_viewer.py: the sort methods
    of `sort_filtered_files`, the inclusion test of `filter_files`, the looser
    test of `load_files_without_selection`, and `load_all_files`, which scans
    every category, removes duplicates and applies the current sort. File
    modification times and preview-image existence are parameters. */
module FilterEngine {
  import opened Common
  import Sorting
  import Catalog
  import Metadata
  import Navigation

  type ModelFile = Catalog.ModelFile

  // ---------------------------------------------------------------------
  // Sorting.

  /** What the sort keys read besides the file tuple: the parsed
      `model_info.json` when the file exists, `os.path.getmtime` of the model,
      and whether a preview image exists next to it. */
  datatype SortEnv = SortEnv(info: Option<Metadata.Store>, mtime: ModelFile -> int, hasPreview: ModelFile -> bool)

  /** `name_key`: the lowered file name. */
  function NameKey(m: ModelFile): Sorting.Key {
    Sorting.Text(Lower(m.name))
  }

  /** `bool(all_info.get(key, {}).get('url'))`. */
  predicate HasUrl(s: Metadata.Store, m: ModelFile) {
    Metadata.Truthy(Metadata.Get(Metadata.Entry(s, Catalog.StoreKey(m)), "url", Metadata.Null))
  }

  /** The stored `last_modified`, falling back to the file's mtime. */
  function InfoModified(s: Metadata.Store, env: SortEnv, m: ModelFile): int {
    match Metadata.Get(Metadata.Entry(s, Catalog.StoreKey(m)), Metadata.LastModifiedKey, Metadata.Null)
    case Num(n) => n
    case _ => env.mtime(m)
  }

  /** `(has_preview, lowered name)`. */
  function PreviewKey(env: SortEnv): ModelFile -> Sorting.Key {
    m => Sorting.Flagged(env.hasPreview(m), Lower(m.name))
  }

  /** `(has_url, lowered name)` over the stored records. */
  function UrlKey(s: Metadata.Store): ModelFile -> Sorting.Key {
    m => Sorting.Flagged(HasUrl(s, m), Lower(m.name))
  }

  datatype Plan = Plan(key: ModelFile -> Sorting.Key, reverse: bool)

  /** The key and direction each sort method uses; `None` for an unknown
      method, which leaves the list as it is. */
  function PlanFor(sortMethod: string, env: SortEnv): Option<Plan> {
    if sortMethod == "name_asc" then Some(Plan(NameKey, false))
    else if sortMethod == "name_desc" then Some(Plan(NameKey, true))
    else if sortMethod == "date_desc" then Some(Plan(m => Sorting.Number(env.mtime(m)), true))
    else if sortMethod == "date_asc" then Some(Plan(m => Sorting.Number(env.mtime(m)), false))
    else if sortMethod == "info_modified_desc" then
      match env.info
      case Some(s) => Some(Plan(m => Sorting.Number(InfoModified(s, env, m)), true))
      case None => Some(Plan(m => Sorting.Number(env.mtime(m)), true))
    else if sortMethod == "no_preview_first" then
      Some(Plan(PreviewKey(env), false))
    else if sortMethod == "no_url_first" then
      match env.info
      case Some(s) => Some(Plan(UrlKey(s), false))
      case None => Some(Plan(NameKey, false))
    else None
  }

  /** `sort_filtered_files(files, sort_method)`; an empty method falls back to
      the current one. */
  function SortFilteredFiles(files: seq<ModelFile>, sortMethod: string, currentSort: string, env: SortEnv): seq<ModelFile> {
    if files == [] then []
    else
      var chosen := if sortMethod == "" then currentSort else sortMethod;
      match PlanFor(chosen, env)
      case None => files
      case Some(p) => Sorting.SortBy(p.key, p.reverse, files)
  }

  /** The sort returns a permutation of its input; a known method orders it
      by its key and keeps the input order among equal keys; an unknown method
      returns the input unchanged. */
  lemma SortFilteredFilesFacts(files: seq<ModelFile>, sortMethod: string, currentSort: string, env: SortEnv)
    ensures multiset(SortFilteredFiles(files, sortMethod, currentSort, env)) == multiset(files)
    ensures var chosen := if sortMethod == "" then currentSort else sortMethod;
      match PlanFor(chosen, env)
      case None => SortFilteredFiles(files, sortMethod, currentSort, env) == files
      case Some(p) =>
        && Sorting.Sorted(p.key, p.reverse, SortFilteredFiles(files, sortMethod, currentSort, env))
        && forall k :: Sorting.WithKey(p.key, k, SortFilteredFiles(files, sortMethod, currentSort, env))
                       == Sorting.WithKey(p.key, k, files)
  {
    var chosen := if sortMethod == "" then currentSort else sortMethod;
    if files != [] && PlanFor(chosen, env).Some? {
      var p := PlanFor(chosen, env).value;
      Sorting.SortByFacts(p.key, p.reverse, files);
    }
  }

  /** With a key `(flag, lowered name)`, every unflagged entry precedes every
      flagged one, and names ascend within each group. */
  lemma FlaggedGroups(key: ModelFile -> Sorting.Key, flag: ModelFile -> bool, files: seq<ModelFile>)
    requires forall m :: key(m) == Sorting.Flagged(flag(m), Lower(m.name))
    ensures var r := Sorting.SortBy(key, false, files);
      forall i, j :: 0 <= i < j < |r| ==>
        && !(flag(r[i]) && !flag(r[j]))
        && (flag(r[i]) == flag(r[j]) ==> !StrLt(Lower(r[j].name), Lower(r[i].name)))
  {
    Sorting.SortByFacts(key, false, files);
    var r := Sorting.SortBy(key, false, files);
    forall i, j | 0 <= i < j < |r|
      ensures !(flag(r[i]) && !flag(r[j]))
      ensures flag(r[i]) == flag(r[j]) ==> !StrLt(Lower(r[j].name), Lower(r[i].name))
    {
      assert !Sorting.Precedes(key, false, r[j], r[i]);
    }
  }

  /** `no_preview_first`: models without a preview come first. */
  lemma NoPreviewFirst(files: seq<ModelFile>, currentSort: string, env: SortEnv)
    ensures var r := SortFilteredFiles(files, "no_preview_first", currentSort, env);
      forall i, j :: 0 <= i < j < |r| ==>
        && !(env.hasPreview(r[i]) && !env.hasPreview(r[j]))
        && (env.hasPreview(r[i]) == env.hasPreview(r[j]) ==> !StrLt(Lower(r[j].name), Lower(r[i].name)))
  {
    if files != [] {
      assert PlanFor("no_preview_first", env) == Some(Plan(PreviewKey(env), false));
      var r := SortFilteredFiles(files, "no_preview_first", currentSort, env);
      assert r == Sorting.SortBy(PreviewKey(env), false, files);
      FlaggedGroups(PreviewKey(env), env.hasPreview, files);

    }
  }

  /** `no_url_first` with an info file: models without a URL come first. */
  lemma NoUrlFirst(files: seq<ModelFile>, currentSort: string, env: SortEnv)
    requires env.info.Some?
    ensures var r := SortFilteredFiles(files, "no_url_first", currentSort, env);
      forall i, j :: 0 <= i < j < |r| ==>
        && !(HasUrl(env.info.value, r[i]) && !HasUrl(env.info.value, r[j]))
        && (HasUrl(env.info.value, r[i]) == HasUrl(env.info.value, r[j]) ==> !StrLt(Lower(r[j].name), Lower(r[i].name)))
  {
    if files != [] {
      var s := env.info.value;
      assert PlanFor("no_url_first", env) == Some(Plan(UrlKey(s), false));
      assert SortFilteredFiles(files, "no_url_first", currentSort, env) == Sorting.SortBy(UrlKey(s), false, files);
      FlaggedGroups(UrlKey(s), m => HasUrl(s, m), files);
    }
  }

  /** `name_asc` orders by lowered name; `name_desc` by descending lowered
      name, equal names keeping their input order. */
  lemma NameOrders(files: seq<ModelFile>, currentSort: string, env: SortEnv)
    ensures var r := SortFilteredFiles(files, "name_asc", currentSort, env);
      forall i, j :: 0 <= i < j < |r| ==> !StrLt(Lower(r[j].name), Lower(r[i].name))
    ensures var r := SortFilteredFiles(files, "name_desc", currentSort, env);
      forall i, j :: 0 <= i < j < |r| ==> !StrLt(Lower(r[i].name), Lower(r[j].name))
  {
    if files != [] {
      Sorting.SortByFacts(NameKey, false, files);
      Sorting.SortByFacts(NameKey, true, files);
      var a := Sorting.SortBy(NameKey, false, files);
      var d := Sorting.SortBy(NameKey, true, files);
      forall i, j | 0 <= i < j < |a|
        ensures !StrLt(Lower(a[j].name), Lower(a[i].name))
      {
        assert !Sorting.Precedes(NameKey, false, a[j], a[i]);
      }
      forall i, j | 0 <= i < j < |d|
        ensures !StrLt(Lower(d[i].name), Lower(d[j].name))
      {
        assert !Sorting.Precedes(NameKey, true, d[j], d[i]);
      }
    }
  }

  // ---------------------------------------------------------------------
  // Path segments.

  /** Python `s.split(sep)` for a one-character separator. */
  function Split(s: string, sep: char): (r: seq<string>)
    ensures |r| >= 1
    ensures forall i :: 0 <= i < |r| ==> sep !in r[i]
    decreases |s|
  {
    var i := Find(s, [sep]);
    if i == -1 then
      assert forall k :: 0 <= k < |s| ==> s[k] != sep by {
        forall k | 0 <= k < |s| ensures s[k] != sep { assert !OccursAt(s, [sep], k); }
      }
      [s]
    else
      assert forall k :: 0 <= k < i ==> s[k] != sep by {
        forall k | 0 <= k < i ensures s[k] != sep { assert !OccursAt(s, [sep], k); }
      }
      [s[..i]] + Split(s[i + 1..], sep)
  }

  /** `sep.join(parts)`. */
  function JoinWith(parts: seq<string>, sep: char): string
    requires |parts| >= 1
  {
    if |parts| == 1 then parts[0] else parts[0] + [sep] + JoinWith(parts[1..], sep)
  }

  lemma NoOccurrence(s: string, c: char, n: nat)
    requires forall k :: 0 <= k < n && k < |s| ==> s[k] != c
    ensures forall k :: 0 <= k < n ==> !OccursAt(s, [c], k)
  {
    forall k | 0 <= k < n
      ensures !OccursAt(s, [c], k)
    {
      if k + 1 <= |s| {
        assert s[k..k + 1][0] == s[k];
      }
    }
  }

  /** A path without the separator is one segment. */
  lemma SplitNoSep(s: string, c: char)
    requires c !in s
    ensures Split(s, c) == [s]
  {
    NoOccurrence(s, c, |s| + 1);
    assert forall k :: |s| < k ==> !OccursAt(s, [c], k);
  }

  /** The first separator at `i` ends the first segment. */
  lemma SplitAt(s: string, c: char, i: nat)
    requires i < |s| && s[i] == c && c !in s[..i]
    ensures Split(s, c) == [s[..i]] + Split(s[i + 1..], c)
  {
    assert forall k :: 0 <= k < i ==> s[k] == s[..i][k];
    NoOccurrence(s, c, i);
    assert OccursAt(s, [c], i);
  }

  /** Splitting and re-joining gives back the path. */
  lemma {:induction false} SplitJoin(s: string, sep: char)
    ensures JoinWith(Split(s, sep), sep) == s
    decreases |s|
  {
    var i := Find(s, [sep]);
    if i != -1 {
      var rest := Split(s[i + 1..], sep);
      var parts := [s[..i]] + rest;
      assert Split(s, sep) == parts;
      assert parts[1..] == rest;
      SplitJoin(s[i + 1..], sep);
      assert s[i] == sep by { assert OccursAt(s, [sep], i); }
      assert s == s[..i] + [sep] + s[i + 1..];
    }
  }

  // ---------------------------------------------------------------------
  // filter_files.

  /** The quick-filter button names with a fixed meaning. */
  const RootOnly: string := "其他"
  const FavoritesOnly: string := "收藏"

  /** The active category, the active subfolder button ("" for none) and the
      search text. */
  datatype Query = Query(category: string, subfolder: string, searchTerm: string)

  /** The subfolder test as written: a named subfolder must occur among the
      path segments, and its first occurrence must sit right after the
      category's segments. */
  predicate SubfolderHoldsAsWritten(m: ModelFile, q: Query, favorites: set<string>) {
    var parts := Split(m.folder, Sep);
    if q.subfolder == "" then true
    else if q.subfolder == RootOnly then m.folder == q.category
    else if q.subfolder == FavoritesOnly then Catalog.StoreKey(m) in favorites
    else
      match Navigation.IndexOf(parts, q.subfolder)
      case None => false
      case Some(i) => i == |Split(q.category, Sep)|
  }

  /** The subfolder test as intended: the segment right after the category's
      segments is the chosen subfolder. */
  predicate SubfolderHolds(m: ModelFile, q: Query, favorites: set<string>) {
    var parts := Split(m.folder, Sep);
    var k := |Split(q.category, Sep)|;
    if q.subfolder == "" then true
    else if q.subfolder == RootOnly then m.folder == q.category
    else if q.subfolder == FavoritesOnly then Catalog.StoreKey(m) in favorites
    else k < |parts| && parts[k] == q.subfolder
  }

  /** The two tests differ only when the chosen subfolder also names one of
      the earlier segments. */
  lemma SubfolderTestsAgree(m: ModelFile, q: Query, favorites: set<string>)
    requires q.subfolder !in Split(m.folder, Sep)[..Min(|Split(q.category, Sep)|, |Split(m.folder, Sep)|)]
    ensures SubfolderHoldsAsWritten(m, q, favorites) == SubfolderHolds(m, q, favorites)
  {
    var parts := Split(m.folder, Sep);
    var k := |Split(q.category, Sep)|;
    match Navigation.IndexOf(parts, q.subfolder)
    case None =>
    case Some(i) =>
  }

  function Min(a: int, b: int): int {
    if a < b then a else b
  }

  /** A subfolder named like its category: the button is offered, but as
      written no model in it passes the test. */
  lemma SubfolderNamedLikeCategory()
    ensures var m := Catalog.ModelFile("a.safetensors", "loras" + [Sep] + "loras");
      var q := Query("loras", "loras", "");
      !SubfolderHoldsAsWritten(m, q, {}) && SubfolderHolds(m, q, {})
  {
    var folder := "loras" + [Sep] + "loras";
    SplitAt(folder, Sep, 5);
    assert folder[..5] == "loras" && folder[6..] == "loras";
    SplitNoSep("loras", Sep);
    assert Split(folder, Sep) == ["loras", "loras"];
  }

  /** The stored model type, lowered, contains the term. */
  predicate TypeMatches(r: Metadata.Record, term: string) {
    r != map[] && "type" in r && r["type"].Str? && Contains(Lower(r["type"].s), term)
  }

  /** `matches_filter`, with the intended subfolder test. */
  predicate MatchesFilter(m: ModelFile, q: Query, favorites: set<string>, store: Metadata.Store) {
    var term := Lower(q.searchTerm);
    && Split(m.folder, Sep)[0] == q.category
    && SubfolderHolds(m, q, favorites)
    && (term == [] || Contains(Lower(m.name), term) || Contains(Lower(m.folder), term)
        || TypeMatches(Metadata.Entry(store, Catalog.StoreKey(m)), term))
  }

  /** `list(filter(p, s))`. */
  function Keep(s: seq<ModelFile>, q: Query, favorites: set<string>, store: Metadata.Store): (r: seq<ModelFile>)
    ensures |r| <= |s|
    ensures forall m :: m in r <==> m in s && MatchesFilter(m, q, favorites, store)
  {
    if s == [] then []
    else (if MatchesFilter(s[0], q, favorites, store) then [s[0]] else []) + Keep(s[1..], q, favorites, store)
  }

  /** `r` is `s` with some elements left out, the rest in their order. */
  predicate Subsequence<T(==)>(r: seq<T>, s: seq<T>) {
    if r == [] then true
    else if s == [] then false
    else if r[0] == s[0] then Subsequence(r[1..], s[1..])
    else Subsequence(r, s[1..])
  }

  lemma {:induction false} KeepIsSubsequence(s: seq<ModelFile>, q: Query, favorites: set<string>, store: Metadata.Store)
    ensures Subsequence(Keep(s, q, favorites, store), s)
    decreases |s|
  {
    if s != [] {
      KeepIsSubsequence(s[1..], q, favorites, store);
      var rest := Keep(s[1..], q, favorites, store);
      if !MatchesFilter(s[0], q, favorites, store) {
        assert Keep(s, q, favorites, store) == rest;
        SubsequenceSkip(rest, s);
      } else {
        assert Keep(s, q, favorites, store) == [s[0]] + rest;
        assert ([s[0]] + rest)[1..] == rest;
      }
    }
  }

  /** Skipping a first element keeps a subsequence one. */
  lemma {:induction false} SubsequenceSkip<T>(r: seq<T>, s: seq<T>)
    requires s != [] && Subsequence(r, s[1..])
    ensures Subsequence(r, s)
    decreases |s|, 1
  {
    if r != [] && r[0] == s[0] {
      SubsequenceTail(r, s[1..]);
    }
  }

  lemma {:induction false} SubsequenceTail<T>(r: seq<T>, t: seq<T>)
    requires r != [] && Subsequence(r, t)
    ensures Subsequence(r[1..], t)
    decreases |t|, 2
  {
    if r[0] == t[0] {
      if r[1..] != [] {
        SubsequenceSkip(r[1..], t);
      }
    } else {
      SubsequenceTail(r, t[1..]);
      if r[1..] != [] {
        SubsequenceSkip(r[1..], t);
      }
    }
  }

  /** `filter_files`: the matching entries of `all_files` in their order,
      re-sorted when the current sort is `no_url_first` and the info file
      exists. */
  function FilterFiles(allFiles: seq<ModelFile>, q: Query, currentSort: string, favorites: set<string>, env: SortEnv): seq<ModelFile> {
    var store := if env.info.Some? then env.info.value else map[];
    var filtered := Keep(allFiles, q, favorites, store);
    if currentSort == "no_url_first" && env.info.Some? then
      Sorting.SortBy(UrlKey(store), false, filtered)
    else filtered
  }

  /** An entry is listed iff it is in `all_files` and passes the filter. */
  lemma FilterFilesMembers(allFiles: seq<ModelFile>, q: Query, currentSort: string, favorites: set<string>, env: SortEnv)
    ensures var store := if env.info.Some? then env.info.value else map[];
      forall m :: m in FilterFiles(allFiles, q, currentSort, favorites, env) <==>
        m in allFiles && MatchesFilter(m, q, favorites, store)
  {
    var store := if env.info.Some? then env.info.value else map[];
    var filtered := Keep(allFiles, q, favorites, store);
    var r := FilterFiles(allFiles, q, currentSort, favorites, env);
    if currentSort == "no_url_first" && env.info.Some? {
      var key := UrlKey(store);
      Sorting.SortByFacts(key, false, filtered);
      assert r == Sorting.SortBy(key, false, filtered);
      forall m
        ensures m in r <==> m in filtered
      {
        assert m in r <==> m in multiset(r);
        assert m in filtered <==> m in multiset(filtered);
      }
    }
  }

  /** Without the `no_url_first` re-sort the listing keeps the order of
      `all_files`. */
  lemma FilterFilesKeepsOrder(allFiles: seq<ModelFile>, q: Query, currentSort: string, favorites: set<string>, env: SortEnv)
    requires !(currentSort == "no_url_first" && env.info.Some?)
    ensures Subsequence(FilterFiles(allFiles, q, currentSort, favorites, env), allFiles)
  {
    var store := if env.info.Some? then env.info.value else map[];
    KeepIsSubsequence(allFiles, q, favorites, store);
  }

  /** With the `no_url_first` re-sort, models without a URL come first. */
  lemma FilterFilesNoUrlFirst(allFiles: seq<ModelFile>, q: Query, favorites: set<string>, env: SortEnv)
    requires env.info.Some?
    ensures var r := FilterFiles(allFiles, q, "no_url_first", favorites, env);
      forall i, j :: 0 <= i < j < |r| ==> !(HasUrl(env.info.value, r[i]) && !HasUrl(env.info.value, r[j]))
  {
    var store := env.info.value;
    var filtered := Keep(allFiles, q, favorites, store);
    assert FilterFiles(allFiles, q, "no_url_first", favorites, env) == Sorting.SortBy(UrlKey(store), false, filtered);
    FlaggedGroups(UrlKey(store), m => HasUrl(store, m), filtered);
  }

  // ---------------------------------------------------------------------
  // load_files_without_selection.

  predicate StartsWith(s: string, prefix: string) {
    prefix <= s
  }

  /** The inclusion test of `load_files_without_selection`: a prefix test on
      the folder, the term only on name and folder, and a named subfolder
      anywhere in the path. */
  predicate LooseMatches(m: ModelFile, q: Query, favorites: set<string>) {
    var term := Lower(q.searchTerm);
    && StartsWith(m.folder, q.category)
    && (Contains(Lower(m.name), term) || Contains(Lower(m.folder), term))
    && (q.subfolder == ""
        || (q.subfolder == RootOnly && m.folder == q.category)
        || (q.subfolder == FavoritesOnly && Catalog.StoreKey(m) in favorites)
        || (q.subfolder != RootOnly && q.subfolder != FavoritesOnly && q.subfolder in Split(m.folder, Sep)))
  }

  lemma EmptyContained(s: string)
    ensures Contains(s, [])
  {
    assert OccursAt(s, [], 0);
  }

  lemma SplitHeadIsPrefix(s: string, sep: char)
    ensures Split(s, sep)[0] <= s
  {
  }

  /** Whatever the strict filter lists because of its name or folder, the
      loose one lists too. */
  lemma StrictImpliesLoose(m: ModelFile, q: Query, favorites: set<string>, store: Metadata.Store)
    requires MatchesFilter(m, q, favorites, store)
    requires var term := Lower(q.searchTerm);
      term == [] || Contains(Lower(m.name), term) || Contains(Lower(m.folder), term)
    ensures LooseMatches(m, q, favorites)
  {
    SplitHeadIsPrefix(m.folder, Sep);
    if Lower(q.searchTerm) == [] {
      EmptyContained(Lower(m.name));
    }
    if q.subfolder != "" && q.subfolder != RootOnly && q.subfolder != FavoritesOnly {
      var parts := Split(m.folder, Sep);
      assert parts[|Split(q.category, Sep)|] == q.subfolder;
    }
  }

  /** Where the two filters disagree. A category that is a prefix of another
      passes the loose test only. */
  lemma LoosePrefixCategory()
    ensures var m := Catalog.ModelFile("a.pt", "loras2");
      var q := Query("loras", "", "");
      LooseMatches(m, q, {}) && !MatchesFilter(m, q, {}, map[])
  {
    EmptyContained(Lower("a.pt"));
    SplitNoSep("loras2", Sep);
  }

  /** A subfolder below the first level passes the loose test only. */
  lemma LooseDeepSubfolder()
    ensures var m := Catalog.ModelFile("a.pt", "x" + [Sep] + "y" + [Sep] + "z");
      var q := Query("x", "z", "");
      LooseMatches(m, q, {}) && !MatchesFilter(m, q, {}, map[])
  {
    var m := Catalog.ModelFile("a.pt", "x" + [Sep] + "y" + [Sep] + "z");
    var q := Query("x", "z", "");
    SplitThree("x", "y", "z");
    SplitNoSep("x", Sep);
    assert LooseMatches(m, q, {}) by {
      EmptyContained(Lower("a.pt"));
      assert m.folder[..|q.category|] == q.category;
    }
  }

  /** A path of three separator-free names splits into them. */
  lemma SplitThree(a: string, b: string, c: string)
    requires Sep !in a && Sep !in b && Sep !in c
    ensures Split(a + [Sep] + b + [Sep] + c, Sep) == [a, b, c]
  {
    assert a + [Sep] + b + [Sep] + c == a + [Sep] + (b + [Sep] + c);
    SplitCons(a, b + [Sep] + c);
    SplitCons(b, c);
    SplitNoSep(c, Sep);
  }

  /** A separator-free name and a separator in front of a path add the name
      as the first segment. */
  lemma SplitCons(a: string, rest: string)
    requires Sep !in a
    ensures Split(a + [Sep] + rest, Sep) == [a] + Split(rest, Sep)
  {
    var s := a + [Sep] + rest;
    assert s[..|a|] == a && s[|a| + 1..] == rest && s[|a|] == Sep;
    SplitAt(s, Sep, |a|);
  }

  /** A term found only in the stored model type passes the strict test
      only. */
  lemma StrictTypeOnlyMatch()
    ensures var m := Catalog.ModelFile("a.pt", "x");
      var q := Query("x", "", "q");
      var store := map["x" + [Sep] + "a.pt" := map["type" := Metadata.Str("Q")]];
      !LooseMatches(m, q, {}) && MatchesFilter(m, q, {}, store)
  {
    SplitNoSep("x", Sep);
    var m := Catalog.ModelFile("a.pt", "x");
    var key := "x" + [Sep] + "a.pt";
    var store := map[key := map["type" := Metadata.Str("Q")]];
    assert Catalog.StoreKey(m) == key;
    assert Metadata.Entry(store, key) == map["type" := Metadata.Str("Q")];
    assert Lower("q") == "q" && Lower("Q") == "q";
    var rec := Metadata.Entry(store, Catalog.StoreKey(m));
    assert "type" in rec && rec["type"] == Metadata.Str("Q");
    assert OccursAt(Lower("Q"), "q", 0);
    assert Contains(Lower(rec["type"].s), Lower("q"));
    assert TypeMatches(Metadata.Entry(store, Catalog.StoreKey(m)), Lower("q"));
    assert !Contains(Lower("a.pt"), "q") by {
      assert Lower("a.pt") == "a.pt";
      assert forall k :: 0 <= k <= 3 ==> !OccursAt("a.pt", "q", k);
    }
    assert !Contains(Lower("x"), "q") by {
      assert Lower("x") == "x";
      assert !OccursAt("x", "q", 0);
    }
  }

  // ---------------------------------------------------------------------
  // load_all_files.

  /** Every model below each category, scanned with the category as the
      relative folder. */
  function ScanCategories(categories: seq<string>, trees: string -> seq<Catalog.Entry>): seq<ModelFile> {
    if categories == [] then []
    else ScanCategories(categories[..|categories| - 1], trees)
         + Catalog.Scan(trees(categories[|categories| - 1]), categories[|categories| - 1])
  }

  /** `load_all_files` run to completion: the list is empty when the load was
      cancelled; otherwise it holds each scanned model once, ordered by the
      current sort. `trees(c)` is the directory tree of category `c`. */
  method LoadAllFiles(categories: seq<string>, trees: string -> seq<Catalog.Entry>, cancelled: bool,
                      currentSort: string, env: SortEnv) returns (allFiles: seq<ModelFile>)
    ensures cancelled ==> allFiles == []
    ensures !cancelled ==>
      && Catalog.Distinct(allFiles)
      && (forall m :: m in allFiles <==> m in ScanCategories(categories, trees))
      && (PlanFor(currentSort, env).Some? ==>
            Sorting.Sorted(PlanFor(currentSort, env).value.key, PlanFor(currentSort, env).value.reverse, allFiles))
  {
    allFiles := [];
    var loader := new Catalog.Loader(cancelled);
    var i := 0;
    while i < |categories|
      invariant 0 <= i <= |categories|
      invariant loader.cancelled == cancelled
      invariant loader.tempFiles == (if cancelled then [] else ScanCategories(categories[..i], trees))
    {
      if loader.cancelled {
        return;
      }
      loader.RecursiveLoad(trees(categories[i]), categories[i]);
      assert categories[..i + 1][..i] == categories[..i];
      i := i + 1;
    }
    if !loader.cancelled {
      ghost var scanned := ScanCategories(categories, trees);
      assert loader.tempFiles == scanned by {
        assert categories[..i] == categories;
      }
      var unique := Catalog.Dedup(loader.tempFiles);
      allFiles := SortFilteredFiles(unique, currentSort, currentSort, env);
      SortUnique(unique, currentSort, env);
      assert forall m :: m in allFiles <==> m in scanned;
    }
  }

  /** Sorting the de-duplicated list by the current sort keeps it free of
      duplicates and keeps its members. */
  lemma SortUnique(unique: seq<ModelFile>, currentSort: string, env: SortEnv)
    requires Catalog.Distinct(unique)
    ensures Catalog.Distinct(SortFilteredFiles(unique, currentSort, currentSort, env))
    ensures forall m :: m in SortFilteredFiles(unique, currentSort, currentSort, env) <==> m in unique
    ensures PlanFor(currentSort, env).Some? ==>
      Sorting.Sorted(PlanFor(currentSort, env).value.key, PlanFor(currentSort, env).value.reverse,
                     SortFilteredFiles(unique, currentSort, currentSort, env))
  {
    var r := SortFilteredFiles(unique, currentSort, currentSort, env);
    SortFilteredFilesFacts(unique, currentSort, currentSort, env);
    forall m
      ensures m in r <==> m in unique
    {
      assert m in r <==> m in multiset(r);
      assert m in unique <==> m in multiset(unique);
    }
    DistinctPermutation(unique, r);
    if unique == [] {
      assert r == [];
    }
  }

  lemma DistinctPermutation<T>(a: seq<T>, b: seq<T>)
    requires Catalog.Distinct(a) && multiset(a) == multiset(b)
    ensures Catalog.Distinct(b)
  {
    forall i, j | 0 <= i < j < |b|
      ensures b[i] != b[j]
    {
      if b[i] == b[j] {
        assert multiset(b)[b[i]] >= 2 by {
          assert b == b[..i] + [b[i]] + b[i + 1..j] + [b[j]] + b[j + 1..];
        }
        DistinctCount(a, b[i]);
      }
    }
  }

  lemma {:induction false} DistinctCount<T>(a: seq<T>, x: T)
    requires Catalog.Distinct(a)
    ensures multiset(a)[x] <= 1
    decreases |a|
  {
    if a != [] {
      assert a == [a[0]] + a[1..];
      DistinctCount(a[1..], x);
      if a[0] == x {
        assert x !in a[1..];
      }
    }
  }
}
