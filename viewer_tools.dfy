/** Helpers of the model viewer in safetensors_viewer.py: the memo tables
    behind `get_file_path` and `has_preview`, the quick-filter buttons of a
    category, and the name a copied model receives in its target folder.
    The disk is a set of existing paths. */
module ViewerTools {
  import opened Common
  import Catalog
  import Sorting
  import FilterEngine

  /** `supported_image_extensions`. */
  const ImageExtensions: seq<string> := [".png", ".jpg", ".jpeg", ".gif", ".webp"]

  /** The last position of `c` in `s`, or -1. */
  function LastIndex(s: string, c: char): (r: int)
    ensures -1 <= r < |s|
    ensures r >= 0 ==> s[r] == c && forall k :: r < k < |s| ==> s[k] != c
    ensures r == -1 ==> forall k :: 0 <= k < |s| ==> s[k] != c
  {
    if s == [] then -1
    else if s[|s| - 1] == c then |s| - 1
    else LastIndex(s[..|s| - 1], c)
  }

  /** `os.path.splitext` of a file name: the extension starts at the last
      dot, unless only dots precede that dot. */
  function SplitExt(name: string): (string, string) {
    var i := LastIndex(name, '.');
    if i > 0 && exists k :: 0 <= k < i && name[k] != '.' then (name[..i], name[i..]) else (name, "")
  }

  /** The two parts put together give back the name; a non-empty extension
      is a dot followed by no further dot. */
  lemma SplitExtFacts(name: string)
    ensures SplitExt(name).0 + SplitExt(name).1 == name
    ensures SplitExt(name).1 == [] || (SplitExt(name).1[0] == '.' && '.' !in SplitExt(name).1[1..])
  {
    var i := LastIndex(name, '.');
    if i > 0 && exists k :: 0 <= k < i && name[k] != '.' {
      assert name[..i] + name[i..] == name;
      forall k | 0 <= k < |name[i..][1..]|
        ensures name[i..][1..][k] != '.'
      {
        assert name[i..][1..][k] == name[i + 1 + k];
      }
    }
  }

  // ---------------------------------------------------------------------
  // The memo tables of get_file_path and has_preview.

  /** `os.path.join(BASE_PATH, relative_path, file_name)`. */
  function FullPath(base: string, m: Catalog.ModelFile): string {
    Catalog.Join(Catalog.Join(base, m.folder), m.name)
  }

  /** Some image with the model's base name sits beside it. */
  predicate HasPreview(disk: set<string>, base: string, m: Catalog.ModelFile) {
    exists e | e in ImageExtensions :: Catalog.Join(Catalog.Join(base, m.folder), SplitExt(m.name).0 + e) in disk
  }

  /** The memo key as written: `f"{relative_path}_{file_name}"`. */
  function MemoKey(m: Catalog.ModelFile): string {
    m.folder + "_" + m.name
  }

  /** The memo tables as written, keyed by `MemoKey`. */
  class MemoCache {
    const base: string
    const disk: set<string>
    var paths: map<string, string>
    var previews: map<string, bool>

    constructor (base: string, disk: set<string>)
      ensures this.base == base && this.disk == disk && paths == map[] && previews == map[]
    {
      this.base := base;
      this.disk := disk;
      paths := map[];
      previews := map[];
    }

    /** `get_file_path`: the remembered path under the key, or the computed
        one, which is then remembered. */
    method GetFilePath(m: Catalog.ModelFile) returns (p: string)
      modifies this
      ensures MemoKey(m) in old(paths) ==> paths == old(paths)
      ensures MemoKey(m) !in old(paths) ==> paths == old(paths)[MemoKey(m) := FullPath(base, m)]
      ensures MemoKey(m) in paths && p == paths[MemoKey(m)]
      ensures previews == old(previews)
    {
      var key := MemoKey(m);
      if key !in paths {
        paths := paths[key := FullPath(base, m)];
      }
      p := paths[key];
    }

    /** `has_preview`, remembered under the same key. */
    method HasPreviewCached(m: Catalog.ModelFile) returns (b: bool)
      modifies this
      ensures MemoKey(m) in old(previews) ==> previews == old(previews)
      ensures MemoKey(m) !in old(previews) ==> previews == old(previews)[MemoKey(m) := HasPreview(disk, base, m)]
      ensures MemoKey(m) in previews && b == previews[MemoKey(m)]
      ensures paths == old(paths)
    {
      var key := MemoKey(m);
      if key !in previews {
        previews := previews[key := HasPreview(disk, base, m)];
      }
      b := previews[key];
    }

    /** `clear_caches`. */
    method ClearCaches()
      modifies this
      ensures paths == map[] && previews == map[]
    {
      paths := map[];
      previews := map[];
    }
  }

  /** The key is not injective: `("x", "a_b")` and `("b_x", "a")` both give
      `"a_b_x"`, so the second model is answered with the first one's path. */
  method MemoCollision(base: string, disk: set<string>) returns (first: string, second: string)
    ensures first == FullPath(base, Catalog.ModelFile("x", "a_b"))
    ensures second == first
    ensures second != FullPath(base, Catalog.ModelFile("b_x", "a"))
  {
    var c := new MemoCache(base, disk);
    var m1 := Catalog.ModelFile("x", "a_b");
    var m2 := Catalog.ModelFile("b_x", "a");
    assert MemoKey(m1) == MemoKey(m2);
    first := c.GetFilePath(m1);
    second := c.GetFilePath(m2);
    CollidingPathsDiffer(base);
  }

  /** The two models of the collision live at different paths. */
  lemma CollidingPathsDiffer(base: string)
    ensures FullPath(base, Catalog.ModelFile("x", "a_b")) != FullPath(base, Catalog.ModelFile("b_x", "a"))
  {
    var p1 := FullPath(base, Catalog.ModelFile("x", "a_b"));
    var p2 := FullPath(base, Catalog.ModelFile("b_x", "a"));
    var pre := if base == [] || base[|base| - 1] == Sep then base else base + [Sep];
    var d := pre + "a";
    var e := pre + "a_b";
    assert Catalog.Join(base, "a") == d && Catalog.Join(base, "a_b") == e;
    assert e[|e| - 1] == 'b' && d[|d| - 1] == 'a';
    assert p1 == e + [Sep] + "x";
    assert p2 == d + [Sep] + "b_x";
    assert p1[|d|] == e[|d|] == '_';
    assert p2[|d|] == Sep;
  }

  /** The memo tables keyed by the `(file, folder)` pair itself. */
  class ModelCache {
    const base: string
    const disk: set<string>
    var paths: map<Catalog.ModelFile, string>
    var previews: map<Catalog.ModelFile, bool>

    /** Every remembered answer is the true one. */
    ghost predicate Valid()
      reads this
    {
      && (forall m | m in paths :: paths[m] == FullPath(base, m))
      && (forall m | m in previews :: previews[m] == HasPreview(disk, base, m))
    }

    constructor (base: string, disk: set<string>)
      ensures this.base == base && this.disk == disk && paths == map[] && previews == map[]
      ensures Valid()
    {
      this.base := base;
      this.disk := disk;
      paths := map[];
      previews := map[];
    }

    method GetFilePath(m: Catalog.ModelFile) returns (p: string)
      requires Valid()
      modifies this
      ensures Valid()
      ensures p == FullPath(base, m)
      ensures paths == old(paths)[m := FullPath(base, m)] && previews == old(previews)
    {
      if m !in paths {
        paths := paths[m := FullPath(base, m)];
      }
      p := paths[m];
    }

    method HasPreviewCached(m: Catalog.ModelFile) returns (b: bool)
      requires Valid()
      modifies this
      ensures Valid()
      ensures b == HasPreview(disk, base, m)
      ensures previews == old(previews)[m := HasPreview(disk, base, m)] && paths == old(paths)
    {
      if m !in previews {
        previews := previews[m := HasPreview(disk, base, m)];
      } else {
        assert previews == previews[m := previews[m]];
      }
      b := previews[m];
    }

    method ClearCaches()
      modifies this
      ensures paths == map[] && previews == map[]
      ensures Valid()
    {
      paths := map[];
      previews := map[];
    }
  }

  /** With pair keys the two colliding models get their own paths. */
  method PairKeysSeparate(base: string, disk: set<string>) returns (first: string, second: string)
    ensures first == FullPath(base, Catalog.ModelFile("x", "a_b"))
    ensures second == FullPath(base, Catalog.ModelFile("b_x", "a"))
    ensures first != second
  {
    var c := new ModelCache(base, disk);
    first := c.GetFilePath(Catalog.ModelFile("x", "a_b"));
    second := c.GetFilePath(Catalog.ModelFile("b_x", "a"));
    CollidingPathsDiffer(base);
  }

  // ---------------------------------------------------------------------
  // update_subfolder_buttons.

  /** The sub-directories of a category listing with a model file somewhere
      below them, in listing order. */
  function SubfolderNames(listing: seq<Catalog.Entry>): (r: seq<string>)
    ensures forall n :: n in r ==> exists e :: e in listing && e.Dir? && e.name == n && Catalog.HasModelFile(e.children)
  {
    if listing == [] then []
    else
      (if listing[0].Dir? && Catalog.HasModelFile(listing[0].children) then [listing[0].name] else [])
      + SubfolderNames(listing[1..])
  }

  /** A plain file of the listing is a model file. */
  predicate HasRootFiles(listing: seq<Catalog.Entry>) {
    listing != [] && ((listing[0].File? && Catalog.HasModelExtension(listing[0].name)) || HasRootFiles(listing[1..]))
  }

  /** The loop over `os.listdir(category_path)`. */
  method ScanListing(listing: seq<Catalog.Entry>) returns (subfolders: seq<string>, hasRootFiles: bool)
    ensures subfolders == SubfolderNames(listing)
    ensures hasRootFiles == HasRootFiles(listing)
  {
    subfolders := [];
    hasRootFiles := false;
    var i := 0;
    while i < |listing|
      invariant 0 <= i <= |listing|
      invariant subfolders + SubfolderNames(listing[i..]) == SubfolderNames(listing)
      invariant (hasRootFiles || HasRootFiles(listing[i..])) == HasRootFiles(listing)
    {
      var e := listing[i];
      assert listing[i..][1..] == listing[i + 1..];
      if e.Dir? {
        if Catalog.HasModelFile(e.children) {
          subfolders := subfolders + [e.name];
        }
      } else if Catalog.HasModelExtension(e.name) {
        hasRootFiles := true;
      }
      i := i + 1;
    }
  }

  /** Blank buttons needed to fill the last row of three. */
  function Padding(n: nat): nat {
    (3 - n % 3) % 3
  }

  /** `labels.extend([''] * padding_needed)`. */
  function Pad(labels: seq<string>): seq<string> {
    labels + seq(Padding(|labels|), _ => "")
  }

  /** Padding fills the rows with fewer than three blank labels and keeps the
      labels in front. */
  lemma PadFacts(labels: seq<string>)
    ensures |Pad(labels)| % 3 == 0
    ensures |labels| <= |Pad(labels)| < |labels| + 3
    ensures Pad(labels)[..|labels|] == labels
    ensures forall i :: |labels| <= i < |Pad(labels)| ==> Pad(labels)[i] == ""
    ensures forall n: nat :: |labels| <= n < |Pad(labels)| ==> n % 3 != 0
  {
  }

  /** The labels before padding: the sorted subfolders, "其他" when the
      category has model files of its own, and always "收藏". */
  function Labels(subfolders: seq<string>, hasRootFiles: bool): seq<string> {
    Sorting.SortBy(Catalog.NameKey, false, subfolders)
    + (if hasRootFiles then [FilterEngine.RootOnly] else [])
    + [FilterEngine.FavoritesOnly]
  }

  /** The button texts, row by row; none when the category does not exist or
      holds no model anywhere. */
  function ButtonLabels(listing: Option<seq<Catalog.Entry>>): seq<string> {
    match listing
    case None => []
    case Some(l) =>
      var subfolders := SubfolderNames(l);
      if subfolders == [] && !HasRootFiles(l) then [] else Pad(Labels(subfolders, HasRootFiles(l)))
  }

  method UpdateSubfolderButtons(listing: Option<seq<Catalog.Entry>>) returns (labels: seq<string>)
    ensures labels == ButtonLabels(listing)
  {
    if listing.None? {
      return [];
    }
    var subfolders, hasRootFiles := ScanListing(listing.value);
    if subfolders == [] && !hasRootFiles {
      return [];
    }
    var sorted := Sorting.SortBy(Catalog.NameKey, false, subfolders);
    if hasRootFiles {
      sorted := sorted + [FilterEngine.RootOnly];
    }
    sorted := sorted + [FilterEngine.FavoritesOnly];
    labels := sorted + seq(Padding(|sorted|), _ => "");
  }

  /** The unpadded labels start with the qualifying subfolders in ascending
      order, then "其他" exactly when the category has model files of its own,
      then "收藏". */
  lemma LabelsFacts(subfolders: seq<string>, hasRootFiles: bool)
    ensures |Labels(subfolders, hasRootFiles)| == |subfolders| + (if hasRootFiles then 2 else 1)
    ensures multiset(Labels(subfolders, hasRootFiles)[..|subfolders|]) == multiset(subfolders)
    ensures forall i, j :: 0 <= i < j < |subfolders| ==>
              !StrLt(Labels(subfolders, hasRootFiles)[j], Labels(subfolders, hasRootFiles)[i])
    ensures hasRootFiles ==> Labels(subfolders, hasRootFiles)[|subfolders|] == FilterEngine.RootOnly
    ensures Labels(subfolders, hasRootFiles)[|Labels(subfolders, hasRootFiles)| - 1] == FilterEngine.FavoritesOnly
  {
    var sorted := Sorting.SortBy(Catalog.NameKey, false, subfolders);
    Sorting.SortByLength(Catalog.NameKey, false, subfolders);
    Catalog.SortNamesPermutes(subfolders);
    Catalog.SortNamesSorted(subfolders, sorted);
    var r := Labels(subfolders, hasRootFiles);
    assert r[..|subfolders|] == sorted;
  }

  // ---------------------------------------------------------------------
  // The name a copied model receives.

  /** The marker put before the counter, as the source file spells it: an
      opening parenthesis, three replacement characters, 本, and a closing
      parenthesis. */
  const CopySuffix: string := "(\U{FFFD}\U{FFFD}\U{FFFD}\U{672C})"

  /** The `k`-th path the copy loop tries in `dir`: the model's own name
      first, then its base name with the marker, then with the marker and
      2, 3, and so on. */
  function CopyCandidate(dir: string, name: string, k: nat): string {
    if k == 0 then Catalog.Join(dir, name)
    else Catalog.Join(dir, CopyName(SplitExt(name).0, SplitExt(name).1, k))
  }

  /** The copy's file name: base, `CopySuffix`, the counter when it is above
      1, then the extension. The suffix literal in the source is three U+FFFD
      replacement characters followed by 本, inside parentheses. */
  function CopyName(base: string, ext: string, counter: nat): string {
    base + CopySuffix + (if counter > 1 then Decimal(counter) else "") + ext
  }

  lemma JoinInjective(dir: string, x: string, y: string)
    ensures x != y ==> Catalog.Join(dir, x) != Catalog.Join(dir, y)
  {
    var rx, ry := Catalog.Join(dir, x), Catalog.Join(dir, y);
    if !(dir == [] || dir[|dir| - 1] == Sep) {
      assert x == rx[|dir|..][1..] && y == ry[|dir|..][1..];
    }
  }

  /** Text between a fixed prefix and a fixed suffix determines the whole. */
  lemma MiddleInjective(pre: string, a: string, b: string, post: string)
    ensures a != b ==> pre + a + post != pre + b + post
  {
    if |a| == |b| {
      assert a == (pre + a + post)[|pre|..|pre| + |a|];
      assert b == (pre + b + post)[|pre|..|pre| + |b|];
    }
  }

  /** The loop never tries the same path twice. */
  lemma CandidatesDistinct(dir: string, name: string, j: nat, k: nat)
    requires j < k
    ensures CopyCandidate(dir, name, j) != CopyCandidate(dir, name, k)
  {
    var base, ext := SplitExt(name).0, SplitExt(name).1;
    var dk: string := if k > 1 then Decimal(k) else "";
    var dj: string := if j > 1 then Decimal(j) else "";
    if j == 0 {
      SplitExtFacts(name);
      assert |name| < |base + CopySuffix + dk + ext|;
      JoinInjective(dir, name, base + CopySuffix + dk + ext);
    } else {
      if j > 1 && Decimal(j) == Decimal(k) {
        DecimalInjective(j, k);
      }
      assert dj != dk;
      MiddleInjective(base + CopySuffix, dj, dk, ext);
      JoinInjective(dir, base + CopySuffix + dj + ext, base + CopySuffix + dk + ext);
    }
  }

  /** The paths the loop has tried before the `n`-th. */
  function Tried(dir: string, name: string, n: nat): set<string> {
    if n == 0 then {} else Tried(dir, name, n - 1) + {CopyCandidate(dir, name, n - 1)}
  }

  lemma {:induction false} NotYetTried(dir: string, name: string, n: nat, m: nat)
    requires n <= m
    ensures CopyCandidate(dir, name, m) !in Tried(dir, name, n)
  {
    if n > 0 {
      CandidatesDistinct(dir, name, n - 1, m);
      NotYetTried(dir, name, n - 1, m);
    }
  }

  lemma SubsetSize<T>(a: set<T>, b: set<T>)
    requires a <= b
    ensures |a| <= |b|
  {
    assert b == a + (b - a);
  }

  /** The paths tried so far are distinct and all exist. */
  lemma {:induction false} TriedSize(dir: string, name: string, n: nat, disk: set<string>)
    requires forall j :: 0 <= j < n ==> CopyCandidate(dir, name, j) in disk
    ensures Tried(dir, name, n) <= disk && |Tried(dir, name, n)| == n
  {
    if n > 0 {
      TriedSize(dir, name, n - 1, disk);
      NotYetTried(dir, name, n - 1, n - 1);
    }
  }

  /** The loop cannot find more existing candidates than there are paths. */
  lemma TriedBound(dir: string, name: string, n: nat, disk: set<string>)
    requires forall j :: 0 <= j < n ==> CopyCandidate(dir, name, j) in disk
    ensures n <= |disk|
  {
    TriedSize(dir, name, n, disk);
    SubsetSize(Tried(dir, name, n), disk);
  }

  /** The `while os.path.exists(target_path)` loop of `copy_model`: the
      result is the first candidate that does not exist, every earlier one
      does. */
  method CopyTarget(dir: string, name: string, disk: set<string>) returns (target: string, ghost k: nat)
    ensures target == CopyCandidate(dir, name, k) && target !in disk
    ensures forall j :: 0 <= j < k ==> CopyCandidate(dir, name, j) in disk
  {
    var base, ext := SplitExt(name).0, SplitExt(name).1;
    target := Catalog.Join(dir, name);
    var counter := 1;
    while target in disk
      invariant 1 <= counter
      invariant target == CopyCandidate(dir, name, counter - 1)
      invariant forall j :: 0 <= j < counter - 1 ==> CopyCandidate(dir, name, j) in disk
      invariant counter - 1 <= |disk|
      decreases |disk| - (counter - 1)
    {
      TriedBound(dir, name, counter, disk);
      target := Catalog.Join(dir, CopyName(base, ext, counter));
      counter := counter + 1;
    }
    k := counter - 1;
  }
}
