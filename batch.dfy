/** The two passes of safetensors_viewer.py that walk every scanned model:
    the hash calculation, which fills the `hash` field of each record unless
    a SHA-256 digest is already there, and the batch processor, which counts
    processed and skipped models. File hashing is a function of the model's
    key (it yields the 64 hex digits, or an error text when the file cannot
    be read). The cancel button is modelled as the position in the list at
    which the flag is first seen. */
module Batches {
  import opened Common
  import Catalog
  import Metadata

  const HashKey: string := "hash"

  /** What the skip test of `calculate_hashes` decides for one model. */
  datatype HashCheck = Keep | Compute | Fail

  /** `existing_hash and len(existing_hash) == 64`: a falsy value is
      recomputed; `len` of a truthy number or `True` raises, which ends the
      whole pass. */
  function CheckHash(store: Metadata.Store, key: string): HashCheck {
    if key in store && HashKey in store[key] then
      match store[key][HashKey]
      case Str(s) => if s != "" && |s| == 64 then Keep else Compute
      case Null => Compute
      case Bool(b) => if b then Fail else Compute
      case Num(n) => if n != 0 then Fail else Compute
    else Compute
  }

  /** The record after `all_info[model_path]['hash'] = hash_value`. */
  function WithHash(store: Metadata.Store, key: string, hash: string): Metadata.Store {
    store[key := Metadata.Entry(store, key)[HashKey := Metadata.Str(hash)]]
  }

  /** The store after the pass over `files`, or `None` when it ends in an
      exception. */
  function HashAll(files: seq<Catalog.ModelFile>, store: Metadata.Store, hashOf: string -> string): Option<Metadata.Store>
    decreases |files|
  {
    if files == [] then Some(store)
    else
      var key := Catalog.StoreKey(files[0]);
      match CheckHash(store, key)
      case Keep => HashAll(files[1..], store, hashOf)
      case Fail => None
      case Compute => HashAll(files[1..], WithHash(store, key, hashOf(key)), hashOf)
  }

  /** `calculate_hashes`: the store written back, if any. Nothing is written
      when the pass was cancelled (`cancelAt <= |files|`) or failed. */
  method CalculateHashes(files: seq<Catalog.ModelFile>, store: Metadata.Store, hashOf: string -> string, cancelAt: nat)
    returns (written: Option<Metadata.Store>)
    ensures written == if cancelAt <= |files| then None else HashAll(files, store, hashOf)
  {
    var info := store;
    var i := 0;
    while i < |files|
      invariant 0 <= i <= |files|
      invariant HashAll(files[i..], info, hashOf) == HashAll(files, store, hashOf)
    {
      if cancelAt <= i {
        break;
      }
      var key := Catalog.StoreKey(files[i]);
      assert files[i..][1..] == files[i + 1..];
      var check := CheckHash(info, key);
      if check == Fail {
        return None;
      }
      if check == Compute {
        info := WithHash(info, key, hashOf(key));
      }
      i := i + 1;
    }
    if cancelAt <= |files| {
      return None;
    }
    written := Some(info);
  }

  function KeysOf(files: seq<Catalog.ModelFile>): set<string> {
    set f | f in files :: Catalog.StoreKey(f)
  }

  /** A stored digest the pass keeps. */
  predicate ValidHash(v: Metadata.Value) {
    v.Str? && v.s != "" && |v.s| == 64
  }

  /** The pass's result relative to the store it started from: only the
      models' records gain entries, every model's record has a kept digest or
      the freshly computed one, and nothing but the `hash` field changes. */
  ghost predicate HashedFrom(store: Metadata.Store, r: Metadata.Store, keys: set<string>, hashOf: string -> string) {
    && r.Keys == store.Keys + keys
    && (forall k :: k in store && k !in keys ==> r[k] == store[k])
    && (forall k :: k in keys ==>
          HashKey in r[k]
          && (ValidHash(r[k][HashKey]) || r[k][HashKey] == Metadata.Str(hashOf(k)))
          && r[k] - {HashKey} == Metadata.Entry(store, k) - {HashKey})
  }

  lemma {:induction false} HashAllFacts(files: seq<Catalog.ModelFile>, store: Metadata.Store, hashOf: string -> string)
    requires HashAll(files, store, hashOf).Some?
    ensures HashedFrom(store, HashAll(files, store, hashOf).value, KeysOf(files), hashOf)
    decreases |files|
  {
    if files != [] {
      var key := Catalog.StoreKey(files[0]);
      var rest := files[1..];
      assert KeysOf(files) == {key} + KeysOf(rest) by {
        assert files == [files[0]] + rest;
      }
      var r := HashAll(files, store, hashOf).value;
      if CheckHash(store, key) == Keep {
        assert HashAll(files, store, hashOf) == HashAll(rest, store, hashOf);
        HashAllFacts(rest, store, hashOf);
        HashedFromKept(store, r, key, KeysOf(rest), KeysOf(files), hashOf);
      } else {
        var next := WithHash(store, key, hashOf(key));
        assert HashAll(files, store, hashOf) == HashAll(rest, next, hashOf);
        HashAllFacts(rest, next, hashOf);
        HashedFromComputed(store, next, r, key, KeysOf(rest), KeysOf(files), hashOf);
      }
    }
  }

  /** A model whose digest is kept joins the keys the result accounts for. */
  lemma HashedFromKept(store: Metadata.Store, r: Metadata.Store, key: string, keys: set<string>, all: set<string>,
                       hashOf: string -> string)
    requires CheckHash(store, key) == Keep
    requires HashedFrom(store, r, keys, hashOf) && all == {key} + keys
    ensures HashedFrom(store, r, all, hashOf)
  {
    if key !in keys {
      assert r[key] == store[key];
    }
  }

  /** A model whose digest is computed: the step's record and the rest of the
      pass together account for it. */
  lemma HashedFromComputed(store: Metadata.Store, next: Metadata.Store, r: Metadata.Store, key: string, keys: set<string>,
                           all: set<string>, hashOf: string -> string)
    requires next == WithHash(store, key, hashOf(key))
    requires HashedFrom(next, r, keys, hashOf) && all == {key} + keys
    ensures HashedFrom(store, r, all, hashOf)
  {
    var own := Metadata.Entry(store, key)[HashKey := Metadata.Str(hashOf(key))];
    assert next == store[key := own];
    assert r.Keys == store.Keys + all by {
      assert next.Keys == store.Keys + {key};
    }
    forall k | k in store && k !in all
      ensures r[k] == store[k]
    {
      assert k in next && k !in keys && next[k] == store[k];
    }
    forall k | k in all
      ensures HashKey in r[k]
      ensures ValidHash(r[k][HashKey]) || r[k][HashKey] == Metadata.Str(hashOf(k))
      ensures r[k] - {HashKey} == Metadata.Entry(store, k) - {HashKey}
    {
      if k == key {
        DropHash(Metadata.Entry(store, key), Metadata.Str(hashOf(key)));
        assert Metadata.Entry(next, key) == own;
        if key !in keys {
          assert r[key] == own;
        }
      } else {
        assert k in keys && Metadata.Entry(next, k) == Metadata.Entry(store, k);
      }
    }
  }

  /** Setting the digest does not touch the other fields. */
  lemma DropHash(m: Metadata.Record, v: Metadata.Value)
    ensures m[HashKey := v] - {HashKey} == m - {HashKey}
  {
  }

  /** With every digest of the right length, a second pass over the same
      models keeps every record: there is nothing left to compute. */
  lemma {:induction false} HashAllIdempotent(files: seq<Catalog.ModelFile>, store: Metadata.Store, hashOf: string -> string)
    requires forall k :: |hashOf(k)| == 64
    requires HashAll(files, store, hashOf).Some?
    ensures HashAll(files, HashAll(files, store, hashOf).value, hashOf) == HashAll(files, store, hashOf)
  {
    var r := HashAll(files, store, hashOf).value;
    HashAllFacts(files, store, hashOf);
    forall f | f in files
      ensures CheckHash(r, Catalog.StoreKey(f)) == Keep
    {
      assert Catalog.StoreKey(f) in KeysOf(files);
    }
    KeptPass(files, r, hashOf);
  }

  /** A pass over models whose digests are all kept changes nothing. */
  lemma {:induction false} KeptPass(files: seq<Catalog.ModelFile>, store: Metadata.Store, hashOf: string -> string)
    requires forall f :: f in files ==> CheckHash(store, Catalog.StoreKey(f)) == Keep
    ensures HashAll(files, store, hashOf) == Some(store)
    decreases |files|
  {
    if files != [] {
      assert files[0] in files;
      forall f | f in files[1..]
        ensures CheckHash(store, Catalog.StoreKey(f)) == Keep
      {
        assert f in files;
      }
      KeptPass(files[1..], store, hashOf);
    }
  }

  // ---------------------------------------------------------------------
  // process_batch.

  datatype BatchKind = HashBatch | CsBatch | SdBatch

  /** The store after the hash batch's step for one model: the record as
      read, with the digest set, saved through `save_model_info`. */
  function HashStep(store: Metadata.Store, key: string, hashOf: string -> string, now: int): Metadata.Store {
    var info := Metadata.Entry(store, key)[HashKey := Metadata.Str(hashOf(key))];
    store[key := Metadata.SavedRecord(store, key, info, now)]
  }

  /** The store after the hash batch over `files`; a model whose step raises
      (`fails`) is skipped and leaves the store as it was. */
  function HashBatchStore(files: seq<Catalog.ModelFile>, fails: seq<bool>, store: Metadata.Store, hashOf: string -> string, now: int): Metadata.Store
    requires |fails| == |files|
    decreases |files|
  {
    if files == [] then store
    else
      var next := if fails[0] then store else HashStep(store, Catalog.StoreKey(files[0]), hashOf, now);
      HashBatchStore(files[1..], fails[1..], next, hashOf, now)
  }

  function Min(a: nat, b: nat): nat {
    if a < b then a else b
  }

  /** The store a batch of the given kind leaves after `files`: only the
      hash batch writes records; the other kinds write files beside the
      models. */
  function BatchStore(kind: BatchKind, files: seq<Catalog.ModelFile>, fails: seq<bool>, store: Metadata.Store,
                      hashOf: string -> string, now: int): Metadata.Store
    requires |fails| == |files|
  {
    if kind == HashBatch then HashBatchStore(files, fails, store, hashOf, now) else store
  }

  /** `process_batch`: the models before the cancel point are handled; each
      counts as processed, or as skipped when its step raises. */
  method ProcessBatch(kind: BatchKind, files: seq<Catalog.ModelFile>, fails: seq<bool>, store: Metadata.Store,
                      hashOf: string -> string, now: int, cancelAt: nat)
    returns (processed: nat, skipped: nat, after: Metadata.Store)
    requires |fails| == |files|
    ensures processed + skipped == Min(cancelAt, |files|)
    ensures skipped == CountTrue(fails[..Min(cancelAt, |files|)])
    ensures after == BatchStore(kind, files[..Min(cancelAt, |files|)], fails[..Min(cancelAt, |files|)], store, hashOf, now)
  {
    processed, skipped, after := 0, 0, store;
    var i := 0;
    while i < |files|
      invariant 0 <= i <= Min(cancelAt, |files|)
      invariant processed + skipped == i
      invariant skipped == CountTrue(fails[..i])
      invariant after == BatchStore(kind, files[..i], fails[..i], store, hashOf, now)
    {
      if cancelAt <= i {
        break;
      }
      BatchStep(kind, files, fails, i, store, hashOf, now);
      if fails[i] {
        skipped := skipped + 1;
      } else {
        if kind == HashBatch {
          after := HashStep(after, Catalog.StoreKey(files[i]), hashOf, now);
        }
        processed := processed + 1;
      }
      i := i + 1;
    }
  }

  /** One more model: one more count, and for the hash batch one more step. */
  lemma BatchStep(kind: BatchKind, files: seq<Catalog.ModelFile>, fails: seq<bool>, i: nat, store: Metadata.Store,
                  hashOf: string -> string, now: int)
    requires |fails| == |files| && i < |files|
    ensures CountTrue(fails[..i + 1]) == CountTrue(fails[..i]) + (if fails[i] then 1 else 0)
    ensures BatchStore(kind, files[..i + 1], fails[..i + 1], store, hashOf, now)
            == if kind == HashBatch && !fails[i]
               then HashStep(BatchStore(kind, files[..i], fails[..i], store, hashOf, now), Catalog.StoreKey(files[i]), hashOf, now)
               else BatchStore(kind, files[..i], fails[..i], store, hashOf, now)
  {
    assert fails[..i + 1][..i] == fails[..i];
    if kind == HashBatch {
      var fs, fl := files[..i + 1], fails[..i + 1];
      assert fs == files[..i] + [files[i]] && fl == fails[..i] + [fails[i]];
      HashBatchStoreSnoc(files[..i], fails[..i], files[i], fails[i], store, hashOf, now);
    }
  }

  /** The batch store over a list with one more model is one more step. */
  lemma {:induction false} HashBatchStoreSnoc(files: seq<Catalog.ModelFile>, fails: seq<bool>, f: Catalog.ModelFile, fail: bool,
                                              store: Metadata.Store, hashOf: string -> string, now: int)
    requires |fails| == |files|
    ensures HashBatchStore(files + [f], fails + [fail], store, hashOf, now)
            == var s := HashBatchStore(files, fails, store, hashOf, now);
               if fail then s else HashStep(s, Catalog.StoreKey(f), hashOf, now)
    decreases |files|
  {
    if files != [] {
      var next := if fails[0] then store else HashStep(store, Catalog.StoreKey(files[0]), hashOf, now);
      assert (files + [f])[1..] == files[1..] + [f];
      assert (fails + [fail])[1..] == fails[1..] + [fail];
      HashBatchStoreSnoc(files[1..], fails[1..], f, fail, next, hashOf, now);
    }
  }

  /** The models the hash batch processes. */
  function ProcessedKeys(files: seq<Catalog.ModelFile>, fails: seq<bool>): set<string>
    requires |fails| == |files|
    decreases |files|
  {
    if files == [] then {}
    else (if fails[0] then {} else {Catalog.StoreKey(files[0])}) + ProcessedKeys(files[1..], fails[1..])
  }

  /** The hash batch's result relative to the store it started from: only
      processed models' records change or appear, each carries the computed
      digest and keeps its old favourite flag. */
  ghost predicate BatchedFrom(store: Metadata.Store, r: Metadata.Store, keys: set<string>, hashOf: string -> string) {
    && r.Keys == store.Keys + keys
    && (forall k :: k in store && k !in keys ==> r[k] == store[k])
    && (forall k :: k in keys ==>
          HashKey in r[k] && r[k][HashKey] == Metadata.Str(hashOf(k))
          && Metadata.IsFavoriteKey in r[k]
          && r[k][Metadata.IsFavoriteKey] == Metadata.Get(Metadata.Entry(store, k), Metadata.IsFavoriteKey, Metadata.Bool(false)))
  }

  lemma {:induction false} HashBatchFacts(files: seq<Catalog.ModelFile>, fails: seq<bool>, store: Metadata.Store, hashOf: string -> string, now: int)
    requires |fails| == |files|
    ensures BatchedFrom(store, HashBatchStore(files, fails, store, hashOf, now), ProcessedKeys(files, fails), hashOf)
    decreases |files|
  {
    if files != [] {
      var k0 := Catalog.StoreKey(files[0]);
      if fails[0] {
        HashBatchFacts(files[1..], fails[1..], store, hashOf, now);
      } else {
        var next := HashStep(store, k0, hashOf, now);
        HashBatchFacts(files[1..], fails[1..], next, hashOf, now);
        BatchedFromStep(store, next, HashBatchStore(files, fails, store, hashOf, now), k0, ProcessedKeys(files[1..], fails[1..]), hashOf, now);
      }
    }
  }

  lemma BatchedFromStep(store: Metadata.Store, next: Metadata.Store, r: Metadata.Store, key: string, keys: set<string>,
                        hashOf: string -> string, now: int)
    requires next == HashStep(store, key, hashOf, now)
    requires BatchedFrom(next, r, keys, hashOf)
    ensures BatchedFrom(store, r, {key} + keys, hashOf)
  {
    assert r.Keys == store.Keys + ({key} + keys) by {
      assert next.Keys == store.Keys + {key};
    }
    forall k | k in store && k !in {key} + keys
      ensures r[k] == store[k]
    {
      assert next[k] == store[k];
    }
    forall k | k in {key} + keys
      ensures HashKey in r[k] && r[k][HashKey] == Metadata.Str(hashOf(k))
      ensures Metadata.IsFavoriteKey in r[k]
      ensures r[k][Metadata.IsFavoriteKey] == Metadata.Get(Metadata.Entry(store, k), Metadata.IsFavoriteKey, Metadata.Bool(false))
    {
      if k == key {
        if k !in keys {
          assert r[k] == next[k];
        }
        assert Metadata.Get(Metadata.Entry(next, k), Metadata.IsFavoriteKey, Metadata.Bool(false))
            == Metadata.Get(Metadata.Entry(store, k), Metadata.IsFavoriteKey, Metadata.Bool(false));
      }
    }
  }
}
