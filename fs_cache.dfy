/** The viewer's memo table over `stat` and `listdir` (class `FileSystemCache`
    of safetensors_viewer.py). Entries are stamped with the time they were
    stored and are served while they are younger than 300 seconds. The clock
    and the file system are parameters of each call. */
module FsCache {
  import opened Common

  type Path = string

  /** What `os.stat` reports that the cache keeps (`exists` is always true). */
  datatype FileInfo = FileInfo(size: nat, mtime: int)

  /** The file system as the two queries see it: `os.stat(p)` succeeds iff
      `p in stats`, `os.listdir(p)` succeeds iff `p in listings`. */
  datatype FileSystem = FileSystem(stats: map<Path, FileInfo>, listings: map<Path, seq<string>>)

  /** `cache_lifetime`, in seconds. */
  const Lifetime: int := 300

  class FileSystemCache {
    var fileInfoCache: map<Path, FileInfo>
    var dirContentCache: map<Path, seq<string>>
    /** One stamp per path, shared by the two tables. */
    var cacheTime: map<Path, int>

    constructor ()
      ensures fileInfoCache == map[] && dirContentCache == map[] && cacheTime == map[]
    {
      fileInfoCache, dirContentCache, cacheTime := map[], map[], map[];
    }

    /** `current_time - cache_time.get(path, 0) < cache_lifetime`. */
    predicate Young(path: Path, now: int)
      reads this
    {
      now - (if path in cacheTime then cacheTime[path] else 0) < Lifetime
    }

    /** Every entry agrees with the file system `fs`. */
    predicate CoherentWith(fs: FileSystem)
      reads this
    {
      && (forall p :: p in fileInfoCache ==> p in fs.stats && fileInfoCache[p] == fs.stats[p])
      && (forall p :: p in dirContentCache ==> p in fs.listings && dirContentCache[p] == fs.listings[p])
    }

    method GetFileInfo(path: Path, now: int, fs: FileSystem) returns (r: Option<FileInfo>)
      modifies this
      ensures old(path in fileInfoCache && Young(path, now)) ==>
                r == Some(old(fileInfoCache[path])) && unchanged(this)
      ensures !old(path in fileInfoCache && Young(path, now)) && path in fs.stats ==>
                && r == Some(fs.stats[path])
                && fileInfoCache == old(fileInfoCache)[path := fs.stats[path]]
                && cacheTime == old(cacheTime)[path := now]
                && dirContentCache == old(dirContentCache)
      ensures !old(path in fileInfoCache && Young(path, now)) && path !in fs.stats ==>
                r == None && unchanged(this)
      // The cache is invisible while the file system does not change.
      ensures old(CoherentWith(fs)) ==>
                CoherentWith(fs) && r == (if path in fs.stats then Some(fs.stats[path]) else None)
    {
      if path in fileInfoCache {
        var stamp := if path in cacheTime then cacheTime[path] else 0;
        if now - stamp < Lifetime {
          return Some(fileInfoCache[path]);
        }
      }
      if path in fs.stats {
        var info := fs.stats[path];
        fileInfoCache := fileInfoCache[path := info];
        cacheTime := cacheTime[path := now];
        return Some(info);
      }
      return None;
    }

    method GetDirContent(path: Path, now: int, fs: FileSystem) returns (r: seq<string>)
      modifies this
      ensures old(path in dirContentCache && Young(path, now)) ==>
                r == old(dirContentCache[path]) && unchanged(this)
      ensures !old(path in dirContentCache && Young(path, now)) && path in fs.listings ==>
                && r == fs.listings[path]
                && dirContentCache == old(dirContentCache)[path := fs.listings[path]]
                && cacheTime == old(cacheTime)[path := now]
                && fileInfoCache == old(fileInfoCache)
      ensures !old(path in dirContentCache && Young(path, now)) && path !in fs.listings ==>
                r == [] && unchanged(this)
      ensures old(CoherentWith(fs)) ==>
                CoherentWith(fs) && r == (if path in fs.listings then fs.listings[path] else [])
    {
      if path in dirContentCache {
        var stamp := if path in cacheTime then cacheTime[path] else 0;
        if now - stamp < Lifetime {
          return dirContentCache[path];
        }
      }
      if path in fs.listings {
        var content := fs.listings[path];
        dirContentCache := dirContentCache[path := content];
        cacheTime := cacheTime[path := now];
        return content;
      }
      return [];
    }

    method Clear()
      modifies this
      ensures fileInfoCache == map[] && dirContentCache == map[] && cacheTime == map[]
    {
      fileInfoCache, dirContentCache, cacheTime := map[], map[], map[];
    }
  }

  /** A client run: after the file changes on disk, a lookup within the
      lifetime still returns the old stat, and one at the lifetime re-stats. */
  method ExpiryScenario(path: Path, before: FileInfo, after: FileInfo, t0: int)
    requires before != after
  {
    var cache := new FileSystemCache();
    var fs0 := FileSystem(map[path := before], map[]);
    var fs1 := FileSystem(map[path := after], map[]);
    var r := cache.GetFileInfo(path, t0, fs0);
    assert r == Some(before);
    r := cache.GetFileInfo(path, t0 + Lifetime - 1, fs1);
    assert r == Some(before);
    r := cache.GetFileInfo(path, t0 + Lifetime, fs1);
    assert r == Some(after);
    cache.Clear();
    r := cache.GetFileInfo(path, t0 + Lifetime, FileSystem(map[], map[]));
    assert r == None;
  }
}
