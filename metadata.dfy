/** The metadata store of safetensors_viewer.py: `model_info.json`, a map
    from a model's relative path to its record, together with the in-memory
    favourites set and the scanned file list. A missing file reads as the
    empty map. */
module Metadata {
  import opened Common
  import Catalog

  /** The JSON values records hold. */
  datatype Value = Str(s: string) | Bool(b: bool) | Num(n: int) | Null

  type Record = map<string, Value>
  type Store = map<string, Record>

  const IsFavoriteKey: string := "is_favorite"
  const LastModifiedKey: string := "last_modified"
  /** The reserved entry holding the application's settings (the theme). */
  const AppSettingsKey: string := "_app_settings"

  /** Python truthiness of a JSON value. */
  predicate Truthy(v: Value) {
    match v
    case Str(s) => s != ""
    case Bool(b) => b
    case Num(n) => n != 0
    case Null => false
  }

  /** `d.get(k, default)`. */
  function Get(r: Record, k: string, default: Value): Value {
    if k in r then r[k] else default
  }

  /** `all_info.get(path, {})`. */
  function Entry(s: Store, path: string): Record {
    if path in s then s[path] else map[]
  }

  /** `info.get('is_favorite', False)`, read as a condition. */
  predicate Flagged(r: Record) {
    Truthy(Get(r, IsFavoriteKey, Bool(false)))
  }

  /** `load_favorites`: the keys whose record is flagged. */
  function FavoritesOf(s: Store): (r: set<string>)
    ensures forall k :: k in r <==> k in s && Flagged(s[k])
  {
    set k | k in s && Flagged(s[k])
  }

  // ---------------------------------------------------------------------
  // save_model_info and the auto-save merge.

  /** The record `save_model_info(path, info)` writes: the caller's record with
      `is_favorite` forced to the stored value (False when absent) and
      `last_modified` stamped. */
  function SavedRecord(s: Store, path: string, info: Record, now: int): (r: Record)
    ensures r.Keys == info.Keys + {IsFavoriteKey, LastModifiedKey}
    ensures IsFavoriteKey in r && r[IsFavoriteKey] == Get(Entry(s, path), IsFavoriteKey, Bool(false))
    ensures LastModifiedKey in r && r[LastModifiedKey] == Num(now)
    ensures forall k :: k in info && k != IsFavoriteKey && k != LastModifiedKey ==> r[k] == info[k]
  {
    info[IsFavoriteKey := Get(Entry(s, path), IsFavoriteKey, Bool(false))][LastModifiedKey := Num(now)]
  }

  /** The text fields the editor pane collects for `auto_save_changes`. */
  datatype EditorFields = EditorFields(modelType: string, url: string, description: string, triggerWords: string, hash: string)

  function FieldsRecord(f: EditorFields): Record {
    map["type" := Str(f.modelType), "url" := Str(f.url), "description" := Str(f.description),
        "trigger_words" := Str(f.triggerWords), "hash" := Str(f.hash)]
  }

  /** The record `auto_save_changes` hands to `save_model_info`: the editor's
      fields, plus every other existing field except `last_modified`. */
  function AutoSaveRecord(f: EditorFields, existing: Record, now: int): Record {
    var info := FieldsRecord(f);
    var kept := map k | k in existing && k !in info && k != LastModifiedKey :: existing[k];
    (info + kept)[LastModifiedKey := Num(now)]
  }

  /** After an auto-save, the entry holds the editor's five fields, keeps
      every other stored field, keeps its favourite flag, and carries the new
      time stamp; nothing else is added. */
  lemma AutoSaveFacts(s: Store, path: string, f: EditorFields, now: int)
    ensures var r := SavedRecord(s, path, AutoSaveRecord(f, Entry(s, path), now), now);
      && (forall k :: k in FieldsRecord(f) ==> r[k] == FieldsRecord(f)[k])
      && r[IsFavoriteKey] == Get(Entry(s, path), IsFavoriteKey, Bool(false))
      && r[LastModifiedKey] == Num(now)
      && (forall k :: k in Entry(s, path) && k !in FieldsRecord(f) && k != IsFavoriteKey && k != LastModifiedKey ==>
            r[k] == Entry(s, path)[k])
      && r.Keys == FieldsRecord(f).Keys + Entry(s, path).Keys + {IsFavoriteKey, LastModifiedKey}
  {
    var info := AutoSaveRecord(f, Entry(s, path), now);
    AutoSaveRecordFacts(f, Entry(s, path), now, info);
  }

  /** The record before `save_model_info` adds its two fields. */
  lemma AutoSaveRecordFacts(f: EditorFields, e: Record, now: int, info: Record)
    requires info == AutoSaveRecord(f, e, now)
    ensures IsFavoriteKey !in FieldsRecord(f) && LastModifiedKey !in FieldsRecord(f)
    ensures forall k :: k in FieldsRecord(f) ==> k in info && info[k] == FieldsRecord(f)[k]
    ensures forall k :: k in e && k !in FieldsRecord(f) && k != LastModifiedKey ==> k in info && info[k] == e[k]
    ensures info.Keys == FieldsRecord(f).Keys + e.Keys + {LastModifiedKey}
  {
    assert info.Keys == FieldsRecord(f).Keys + (e.Keys - {LastModifiedKey}) + {LastModifiedKey};
  }

  /** `[(f, p) for f, p in all_files if os.path.join(p, f) != key]`. */
  function KeepOthers(files: seq<Catalog.ModelFile>, key: string): seq<Catalog.ModelFile> {
    if files == [] then []
    else
      var last := files[|files| - 1];
      KeepOthers(files[..|files| - 1], key) + (if Catalog.StoreKey(last) != key then [last] else [])
  }

  /** The comprehension keeps exactly the other models. */
  lemma {:induction false} KeepOthersMembers(files: seq<Catalog.ModelFile>, key: string)
    ensures forall m :: m in KeepOthers(files, key) <==> m in files && Catalog.StoreKey(m) != key
  {
    if files != [] {
      var init := files[..|files| - 1];
      KeepOthersMembers(init, key);
      assert files == init + [files[|files| - 1]];
    }
  }

  /** Deleting a key no listed model has leaves the list as it is. */
  lemma {:induction false} KeepOthersAbsent(files: seq<Catalog.ModelFile>, key: string)
    requires forall i :: 0 <= i < |files| ==> Catalog.StoreKey(files[i]) != key
    ensures KeepOthers(files, key) == files
  {
    if files != [] {
      var init := files[..|files| - 1];
      KeepOthersAbsent(init, key);
      assert files == init + [files[|files| - 1]];
    }
  }

  /** Deleting splits over concatenation, so the kept models appear in their
      original relative order. */
  lemma {:induction false} KeepOthersAppend(a: seq<Catalog.ModelFile>, b: seq<Catalog.ModelFile>, key: string)
    ensures KeepOthers(a + b, key) == KeepOthers(a, key) + KeepOthers(b, key)
    decreases |b|
  {
    if b == [] {
      assert a + b == a;
    } else {
      var init := b[..|b| - 1];
      var last := b[|b| - 1];
      assert (a + b)[..|a + b| - 1] == a + init;
      KeepOthersAppend(a, init, key);
      AppendAssociative(KeepOthers(a, key), KeepOthers(init, key), if Catalog.StoreKey(last) != key then [last] else []);
    }
  }

  // ---------------------------------------------------------------------
  // The state the store operations act on.

  class Library {
    /** The parsed contents of `model_info.json`. */
    var store: Store
    /** `self.favorites`. */
    var favorites: set<string>
    /** `self.all_files`. */
    var allFiles: seq<Catalog.ModelFile>
    /** `self.current_file`: the selected model's key, if any. */
    var currentFile: Option<string>

    constructor (store: Store, allFiles: seq<Catalog.ModelFile>)
      ensures this.store == store && favorites == {} && this.allFiles == allFiles && currentFile == None
    {
      this.store := store;
      favorites := {};
      this.allFiles := allFiles;
      currentFile := None;
    }

    /** The favourites set mirrors the stored flags. */
    predicate FavoritesAgree()
      reads this
    {
      favorites == FavoritesOf(store)
    }

    /** `load_favorites`, assigned to `self.favorites`. */
    method LoadFavorites()
      modifies this
      ensures favorites == FavoritesOf(store) && FavoritesAgree()
      ensures store == old(store) && allFiles == old(allFiles) && currentFile == old(currentFile)
    {
      var found: set<string> := {};
      var todo := store.Keys;
      while todo != {}
        invariant todo <= store.Keys
        invariant found == set k | k in store.Keys - todo && Flagged(store[k])
        decreases todo
      {
        var k :| k in todo;
        if Flagged(store[k]) {
          found := found + {k};
        }
        todo := todo - {k};
      }
      favorites := found;
    }

    /** `save_model_info(path, info)` with the clock reading `now`. `readOk`
        says whether an existing `model_info.json` loads; when it does not,
        `json.load` raises before anything is written. */
    method SaveModelInfo(path: string, info: Record, now: int, readOk: bool)
      modifies this
      ensures store == if readOk then old(store)[path := SavedRecord(old(store), path, info, now)] else old(store)
      ensures favorites == old(favorites) && allFiles == old(allFiles) && currentFile == old(currentFile)
      ensures old(FavoritesAgree()) ==> FavoritesAgree()
    {
      if !readOk {
        return;
      }
      var current := Entry(store, path);
      var saved := info[IsFavoriteKey := Get(current, IsFavoriteKey, Bool(false))];
      saved := saved[LastModifiedKey := Num(now)];
      store := store[path := saved];
      SaveKeepsFavorites(old(store), path, info, now);
    }

    /** `auto_save_changes`: does nothing without a selection. */
    method AutoSaveChanges(f: EditorFields, now: int)
      modifies this
      ensures currentFile.None? ==> store == old(store)
      ensures currentFile.Some? ==>
        store == old(store)[currentFile.value :=
          SavedRecord(old(store), currentFile.value, AutoSaveRecord(f, Entry(old(store), currentFile.value), now), now)]
      ensures favorites == old(favorites) && allFiles == old(allFiles) && currentFile == old(currentFile)
      ensures old(FavoritesAgree()) ==> FavoritesAgree()
    {
      if currentFile.None? {
        return;
      }
      var path := currentFile.value;
      var existing := Entry(store, path);
      SaveModelInfo(path, AutoSaveRecord(f, existing, now), now, true);
    }

    /** `toggle_favorite`. `readOk` says whether an existing
        `model_info.json` loads: when `json.load` raises, the error is logged
        and the toggle works on `{}`, so the file written back holds the
        selected model alone, flagged, and every other record is lost.
        `writeOk` says whether writing the file succeeded; when it fails
        nothing changes. */
    method ToggleFavorite(readOk: bool, writeOk: bool)
      modifies this
      ensures currentFile.None? || !writeOk ==> store == old(store) && favorites == old(favorites)
      ensures currentFile.Some? && writeOk && readOk ==>
        && store == Toggled(old(store), currentFile.value)
        && favorites == (if Flagged(store[currentFile.value]) then old(favorites) + {currentFile.value}
                         else old(favorites) - {currentFile.value})
      ensures currentFile.Some? && writeOk && !readOk ==>
        && store == map[currentFile.value := map[IsFavoriteKey := Bool(true)]]
        && favorites == old(favorites) + {currentFile.value}
      ensures allFiles == old(allFiles) && currentFile == old(currentFile)
      ensures readOk && old(FavoritesAgree()) ==> FavoritesAgree()
    {
      if currentFile.None? {
        return;
      }
      var path := currentFile.value;
      var allInfo := if readOk then store else map[];
      var current := Entry(allInfo, path);
      var isFavorite := !Truthy(Get(current, IsFavoriteKey, Bool(false)));
      if !writeOk {
        return;
      }
      store := allInfo[path := current[IsFavoriteKey := Bool(isFavorite)]];
      if isFavorite {
        favorites := favorites + {path};
      } else {
        favorites := favorites - {path};
      }
      assert Flagged(store[path]) == isFavorite;
    }

    /** `add_favorite_field_to_model_info`: every record without a flag gets
        `is_favorite: False` (the `_app_settings` entry included); the file is
        rewritten only when something changed. */
    method AddFavoriteField() returns (modified: bool)
      modifies this
      ensures store.Keys == old(store).Keys
      ensures forall k :: k in store ==>
        store[k] == (if IsFavoriteKey in old(store)[k] then old(store)[k] else old(store)[k][IsFavoriteKey := Bool(false)])
      ensures modified <==> exists k :: k in old(store) && IsFavoriteKey !in old(store)[k]
      ensures AppSettingsKey in store ==> IsFavoriteKey in store[AppSettingsKey]
      ensures favorites == old(favorites) && allFiles == old(allFiles) && currentFile == old(currentFile)
      ensures old(FavoritesAgree()) ==> FavoritesAgree()
    {
      var result := store;
      var todo := store.Keys;
      modified := false;
      while todo != {}
        invariant todo <= store.Keys && result.Keys == store.Keys
        invariant forall k :: k in todo ==> result[k] == store[k]
        invariant forall k :: k in store.Keys - todo ==>
          result[k] == (if IsFavoriteKey in store[k] then store[k] else store[k][IsFavoriteKey := Bool(false)])
        invariant modified <==> exists k :: k in store.Keys - todo && IsFavoriteKey !in store[k]
        decreases todo
      {
        var k :| k in todo;
        if IsFavoriteKey !in result[k] {
          result := result[k := result[k][IsFavoriteKey := Bool(false)]];
          modified := true;
        }
        todo := todo - {k};
      }
      if modified {
        store := result;
      }
      assert FavoritesOf(store) == FavoritesOf(old(store));
    }

    /** `delete_model`. Nothing happens without a selection, when the user
        declines the confirmation (`confirmed`), or when removing the model's
        files raises (`removed`). Otherwise the model leaves `all_files`, its
        order kept; then, when reading and rewriting `model_info.json`
        succeeds (`infoOk`), it leaves the store and the favourites and the
        selection is cleared. A failure there leaves those three as they were. */
    method DeleteCurrent(confirmed: bool, removed: bool, infoOk: bool)
      modifies this
      ensures if old(currentFile).None? || !confirmed || !removed then
          store == old(store) && favorites == old(favorites) && allFiles == old(allFiles) && currentFile == old(currentFile)
        else
          && allFiles == KeepOthers(old(allFiles), old(currentFile).value)
          && if infoOk then
               store == old(store) - {old(currentFile).value}
               && favorites == old(favorites) - {old(currentFile).value}
               && currentFile == None
             else
               store == old(store) && favorites == old(favorites) && currentFile == old(currentFile)
      ensures old(FavoritesAgree()) ==> FavoritesAgree()
    {
      if currentFile.None? || !confirmed || !removed {
        return;
      }
      var key := currentFile.value;
      var kept: seq<Catalog.ModelFile> := [];
      var i := 0;
      while i < |allFiles|
        invariant 0 <= i <= |allFiles|
        invariant kept == KeepOthers(allFiles[..i], key)
      {
        assert allFiles[..i + 1][..i] == allFiles[..i];
        if Catalog.StoreKey(allFiles[i]) != key {
          kept := kept + [allFiles[i]];
        }
        i := i + 1;
      }
      assert allFiles[..i] == allFiles;
      allFiles := kept;
      if !infoOk {
        return;
      }
      store := store - {key};
      favorites := favorites - {key};
      currentFile := None;
    }

    /** The store side of moving the selected model to `target` (`None` when
        the target lies outside the program's directory: the file is left
        alone). Without a selection nothing happens. The result is false when
        `favorites.remove` raises because a flagged record is missing from the
        set; nothing is written then. */
    method MoveCurrent(target: Option<string>) returns (ok: bool)
      modifies this
      ensures old(currentFile).None? ==> ok && store == old(store) && favorites == old(favorites)
      ensures old(currentFile).Some? ==>
        var old_ := old(currentFile).value;
        if target.None? || old_ !in old(store) then ok && store == old(store) && favorites == old(favorites)
        else if Flagged(old(store)[old_]) && old_ !in old(favorites) then
          !ok && store == old(store) && favorites == old(favorites)
        else
          && ok
          && store == (old(store) - {old_})[target.value := old(store)[old_]]
          && favorites == (if Flagged(old(store)[old_]) then old(favorites) - {old_} + {target.value} else old(favorites))
      ensures allFiles == old(allFiles) && currentFile == old(currentFile)
    {
      ok := true;
      if currentFile.None? {
        return;
      }
      var oldKey := currentFile.value;
      if target.None? || oldKey !in store {
        return;
      }
      var info := store[oldKey];
      if Flagged(info) {
        if oldKey !in favorites {
          return false;
        }
        favorites := favorites - {oldKey} + {target.value};
      }
      store := (store - {oldKey})[target.value := info];
    }

    /** The store side of copying the selected model to `target` (`None`
        when `os.path.relpath` raises): the copy's record is the original's
        with the favourite flag cleared. Without a selection nothing happens. */
    method CopyCurrent(target: Option<string>)
      modifies this
      ensures store == (if old(currentFile).Some? && target.Some? && old(currentFile).value in old(store)
                        then old(store)[target.value := old(store)[old(currentFile).value][IsFavoriteKey := Bool(false)]]
                        else old(store))
      ensures favorites == old(favorites) && allFiles == old(allFiles) && currentFile == old(currentFile)
    {
      if currentFile.None? {
        return;
      }
      var src := currentFile.value;
      if target.Some? && src in store {
        var info := store[src][IsFavoriteKey := Bool(false)];
        store := store[target.value := info];
      }
    }
  }

  /** The store after `toggle_favorite` on `path`. */
  function Toggled(s: Store, path: string): Store {
    var current := Entry(s, path);
    s[path := current[IsFavoriteKey := Bool(!Flagged(current))]]
  }

  lemma SaveKeepsFavorites(s: Store, path: string, info: Record, now: int)
    ensures FavoritesOf(s[path := SavedRecord(s, path, info, now)]) == FavoritesOf(s)
  {
    var t := s[path := SavedRecord(s, path, info, now)];
    assert Flagged(t[path]) <==> path in s && Flagged(s[path]);
  }

  /** Toggling touches only the selected entry's flag, and flips it. */
  lemma ToggleFacts(s: Store, path: string)
    ensures var t := Toggled(s, path);
      && t.Keys == s.Keys + {path}
      && (forall k :: k in s && k != path ==> t[k] == s[k])
      && Flagged(t[path]) == !Flagged(Entry(s, path))
      && (forall f :: f in Entry(s, path) && f != IsFavoriteKey ==> t[path][f] == Entry(s, path)[f])
      && (LastModifiedKey in Entry(s, path) ==> t[path][LastModifiedKey] == Entry(s, path)[LastModifiedKey])
  {
  }

  /** Toggling twice restores the store when the flag was stored as a
      boolean; otherwise (absent, or a non-boolean value) only its truth is
      restored. */
  lemma {:induction false} ToggleTwice(s: Store, path: string)
    ensures Flagged(Entry(Toggled(Toggled(s, path), path), path)) == Flagged(Entry(s, path))
    ensures path in s && IsFavoriteKey in s[path] && s[path][IsFavoriteKey].Bool? ==>
      Toggled(Toggled(s, path), path) == s
  {
    var t := Toggled(s, path);
    assert Flagged(Entry(t, path)) == !Flagged(Entry(s, path));
    if path in s && IsFavoriteKey in s[path] && s[path][IsFavoriteKey].Bool? {
      var u := Toggled(t, path);
      assert u[path] == s[path];
      assert u == s;
    }
  }

  /** Moving keeps the favourites set in step with the store, provided the
      target key is new. */
  lemma MovePreservesAgreement(s: Store, favs: set<string>, oldKey: string, newKey: string)
    requires favs == FavoritesOf(s) && oldKey in s && newKey !in s
    ensures var t := (s - {oldKey})[newKey := s[oldKey]];
      FavoritesOf(t) == (if Flagged(s[oldKey]) then favs - {oldKey} + {newKey} else favs)
  {
  }

  /** Copying keeps the favourites set in step with the store, provided the
      target is not a favourite key. */
  lemma CopyPreservesAgreement(s: Store, favs: set<string>, src: string, target: string)
    requires favs == FavoritesOf(s) && src in s && target !in favs
    ensures FavoritesOf(s[target := s[src][IsFavoriteKey := Bool(false)]]) == favs
  {
  }

  // ---------------------------------------------------------------------
  // The trailing-comma repair in get_model_info.

  /** `content.replace(',}', '}').replace(',\n}', '\n}')`. */
  function RepairTrailingCommas(content: string): string {
    ReplaceAll(ReplaceAll(content, ",}", "}"), ",\n}", "\n}")
  }

  /** Replacing `[x] + rep` by `rep` only deletes copies of `x`. */
  lemma {:induction false} ReplaceDropsOnly<T>(s: seq<T>, x: T, rep: seq<T>)
    ensures |ReplaceAll(s, [x] + rep, rep)| <= |s|
    ensures forall c :: c != x ==> multiset(ReplaceAll(s, [x] + rep, rep))[c] == multiset(s)[c]
    decreases |s|
  {
    var pat := [x] + rep;
    if |s| >= |pat| {
      if s[..|pat|] == pat {
        ReplaceDropsOnly(s[|pat|..], x, rep);
        assert s == [x] + rep + s[|pat|..];
        assert ReplaceAll(s, pat, rep) == rep + ReplaceAll(s[|pat|..], pat, rep);
      } else {
        ReplaceDropsOnly(s[1..], x, rep);
        assert s == [s[0]] + s[1..];
      }
    }
  }

  /** The repair deletes commas and nothing else. */
  lemma RepairDeletesOnlyCommas(content: string)
    ensures |RepairTrailingCommas(content)| <= |content|
    ensures forall c :: c != ',' ==> multiset(RepairTrailingCommas(content))[c] == multiset(content)[c]
  {
    assert ",}" == [','] + "}";
    assert ",\n}" == [','] + "\n}";
    ReplaceDropsOnly(content, ',', "}");
    ReplaceDropsOnly(ReplaceAll(content, ",}", "}"), ',', "\n}");
  }

  /** Text without a comma before a closing brace is left as it is. */
  lemma RepairKeepsCleanText(content: string)
    requires !Contains(content, ",}") && !Contains(content, ",\n}")
    ensures RepairTrailingCommas(content) == content
  {
    ReplaceAbsent(content, ",}", "}");
    ReplaceAbsent(content, ",\n}", "\n}");
  }

  /** `model_info.json` as `get_model_info` finds it: absent, present but
      failing to read (undecodable UTF-8, no permission), or readable text. */
  datatype InfoFile = Missing | Unreadable | Readable(text: string)

  /** What `json.loads` makes of a text: a syntax error, a top-level value
      that is not an object (on which `all_info.get` raises), or an object. */
  datatype Parsed = Malformed | NonObject | Object(all: Store)

  /** The record `get_model_info` returns and the document it writes back to
      the file, if any. */
  datatype InfoRead = InfoRead(record: Record, rewrite: Option<Parsed>)

  /** The outer `except Exception` branch: write `{}` over the file (when the
      write succeeds) and return `{}`. */
  function Wiped(writeOk: bool): (r: InfoRead)
    ensures r.record == map[] && (r.rewrite.Some? <==> writeOk)
  {
    InfoRead(map[], if writeOk then Some(Object(map[])) else None)
  }

  /** `get_model_info(path)`: `parse` is `json.loads`, `writeOk` whether
      writing the file succeeds. A missing file is created as `{}` (and a
      failed creation falls into the outer handler, which also returns `{}`).
      A syntax error leads to the trailing-comma repair; any other error
      (unreadable file, non-object document) wipes the file. */
  function GetModelInfo(file: InfoFile, path: string, parse: string -> Parsed, writeOk: bool): (r: InfoRead)
    ensures r.rewrite.Some? ==> writeOk && !r.rewrite.value.Malformed?
  {
    match file
    case Missing => Wiped(writeOk)
    case Unreadable => Wiped(writeOk)
    case Readable(text) =>
      match parse(text)
      case Object(all) => InfoRead(Entry(all, path), None)
      case NonObject => Wiped(writeOk)
      case Malformed =>
        match parse(RepairTrailingCommas(text))
        case Malformed => InfoRead(map[], None)
        case NonObject =>
          // written back, then `.get` raises inside the repair handler
          InfoRead(map[], if writeOk then Some(NonObject) else None)
        case Object(all) =>
          if writeOk then InfoRead(Entry(all, path), Some(Object(all))) else InfoRead(map[], None)
  }

  /** The document the file holds after the call: what was written back, or
      else the untouched file's contents (`None` when it is missing or cannot
      be read). */
  function OnDisk(file: InfoFile, r: InfoRead, parse: string -> Parsed): Option<Parsed> {
    if r.rewrite.Some? then r.rewrite
    else if file.Readable? then Some(parse(file.text))
    else None
  }

  /** The key's record in a document: its entry when the document is an
      object, `{}` otherwise. */
  function EntryIn(d: Option<Parsed>, path: string): Record {
    if d.Some? && d.value.Object? then Entry(d.value.all, path) else map[]
  }

  /** Whatever path is taken, the record returned is the key's record in the
      file as it stands after the call. */
  lemma ReturnsWhatIsOnDisk(file: InfoFile, path: string, parse: string -> Parsed, writeOk: bool)
    ensures var r := GetModelInfo(file, path, parse, writeOk);
      r.record == EntryIn(OnDisk(file, r, parse), path)
  {
  }

  /** A readable file holding an object is returned from and never written. */
  lemma ParsedNotRewritten(file: InfoFile, path: string, parse: string -> Parsed, writeOk: bool)
    requires file.Readable? && parse(file.text).Object?
    ensures GetModelInfo(file, path, parse, writeOk) == InfoRead(Entry(parse(file.text).all, path), None)
  {
  }

  /** The file is written only to create it, to save a repaired document that
      parses, or to wipe it after an error that is not a syntax error. */
  lemma RewriteCauses(file: InfoFile, path: string, parse: string -> Parsed, writeOk: bool)
    ensures var r := GetModelInfo(file, path, parse, writeOk);
      r.rewrite.Some? <==>
        writeOk &&
        (|| file.Missing?
         || file.Unreadable?
         || parse(file.text).NonObject?
         || (parse(file.text).Malformed? && !parse(RepairTrailingCommas(file.text)).Malformed?))
    ensures var r := GetModelInfo(file, path, parse, writeOk);
      file.Readable? && parse(file.text).Malformed? && r.rewrite.Some? ==>
        r.rewrite == Some(parse(RepairTrailingCommas(file.text)))
  {
  }

  /** After an error other than a syntax error, the stored document is lost:
      `{}` is returned and written over the file. */
  lemma WipeLosesContents(file: InfoFile, path: string, parse: string -> Parsed)
    requires file.Unreadable? || (file.Readable? && parse(file.text).NonObject?)
    ensures GetModelInfo(file, path, parse, true) == InfoRead(map[], Some(Object(map[])))
  {
  }
}

