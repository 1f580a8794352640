/** Python's `list.sort(key=..., reverse=...)`: a stable sort. Equal keys keep
    their input order, also when `reverse` is set. The keys the viewer uses are
    lowered file names, modification times, and `(flag, lowered name)` pairs. */
module Sorting {
  import opened Common

  datatype Key = Text(s: string) | Number(n: int) | Flagged(flag: bool, s: string)

  function Tag(k: Key): nat {
    match k
    case Text(_) => 0
    case Number(_) => 1
    case Flagged(_, _) => 2
  }

  /** Python's `<` on keys of one kind; pairs compare the flag first
      (`False < True`), then the text. */
  predicate KeyLt(a: Key, b: Key) {
    if Tag(a) != Tag(b) then Tag(a) < Tag(b)
    else match a
      case Text(s) => StrLt(s, b.s)
      case Number(n) => n < b.n
      case Flagged(f, s) => (!f && b.flag) || (f == b.flag && StrLt(s, b.s))
  }

  lemma KeyLtIrreflexive(a: Key)
    ensures !KeyLt(a, a)
  {
    match a
    case Text(s) => StrLtIrreflexive(s);
    case Number(_) =>
    case Flagged(_, s) => StrLtIrreflexive(s);
  }

  lemma KeyLtTransitive(a: Key, b: Key, c: Key)
    requires KeyLt(a, b) && KeyLt(b, c)
    ensures KeyLt(a, c)
  {
    if Tag(a) == Tag(b) == Tag(c) {
      match a
      case Text(s) => StrLtTransitive(s, b.s, c.s);
      case Number(_) =>
      case Flagged(f, s) =>
        if f == b.flag == c.flag {
          StrLtTransitive(s, b.s, c.s);
        }
    }
  }

  lemma KeyLtTotal(a: Key, b: Key)
    ensures a == b || KeyLt(a, b) || KeyLt(b, a)
  {
    if Tag(a) == Tag(b) {
      match a
      case Text(s) => StrLtTotal(s, b.s);
      case Number(_) =>
      case Flagged(f, s) => StrLtTotal(s, b.s);
    }
  }

  /** In the sorted output, `a` must come before `b`. */
  predicate Precedes<T>(key: T -> Key, reverse: bool, a: T, b: T) {
    if reverse then KeyLt(key(b), key(a)) else KeyLt(key(a), key(b))
  }

  ghost predicate Sorted<T>(key: T -> Key, reverse: bool, s: seq<T>) {
    forall i, j :: 0 <= i < j < |s| ==> !Precedes(key, reverse, s[j], s[i])
  }

  /** The elements of `s` whose key is `k`, in their order in `s`. */
  function WithKey<T>(key: T -> Key, k: Key, s: seq<T>): seq<T> {
    if s == [] then [] else (if key(s[0]) == k then [s[0]] else []) + WithKey(key, k, s[1..])
  }

  /** Inserting the next input element: it goes in front of the first element
      it must precede, so after every element with an equal key. */
  function Insert<T>(key: T -> Key, reverse: bool, r: seq<T>, x: T): seq<T> {
    if r == [] then [x]
    else if Precedes(key, reverse, x, r[0]) then [x] + r
    else [r[0]] + Insert(key, reverse, r[1..], x)
  }

  function SortBy<T>(key: T -> Key, reverse: bool, s: seq<T>): seq<T> {
    if s == [] then []
    else Insert(key, reverse, SortBy(key, reverse, s[..|s| - 1]), s[|s| - 1])
  }

  lemma PrecedesChain<T>(key: T -> Key, reverse: bool, a: T, b: T, c: T)
    requires Precedes(key, reverse, a, b) && !Precedes(key, reverse, c, b)
    ensures Precedes(key, reverse, a, c)
  {
    KeyLtTotal(key(b), key(c));
    if key(b) != key(c) {
      if reverse {
        KeyLtTransitive(key(c), key(b), key(a));
      } else {
        KeyLtTransitive(key(a), key(b), key(c));
      }
    }
  }

  lemma PrecedesAsymmetric<T>(key: T -> Key, reverse: bool, a: T, b: T)
    requires Precedes(key, reverse, a, b)
    ensures !Precedes(key, reverse, b, a) && key(a) != key(b)
  {
    KeyLtIrreflexive(key(a));
    if KeyLt(key(a), key(b)) && KeyLt(key(b), key(a)) {
      KeyLtTransitive(key(a), key(b), key(a));
    }
  }

  lemma WithKeyCons<T>(key: T -> Key, k: Key, h: T, t: seq<T>)
    ensures WithKey(key, k, [h] + t) == (if key(h) == k then [h] else []) + WithKey(key, k, t)
  {
    assert ([h] + t)[1..] == t;
  }

  lemma WithKeyAppend<T>(key: T -> Key, k: Key, a: seq<T>, b: seq<T>)
    ensures WithKey(key, k, a + b) == WithKey(key, k, a) + WithKey(key, k, b)
  {
    if a == [] {
      assert a + b == b;
    } else {
      assert (a + b)[1..] == a[1..] + b;
      WithKeyAppend(key, k, a[1..], b);
      AppendAssociative(if key(a[0]) == k then [a[0]] else [], WithKey(key, k, a[1..]), WithKey(key, k, b));
    }
  }

  lemma {:induction false} InsertPermutes<T>(key: T -> Key, reverse: bool, r: seq<T>, x: T)
    ensures multiset(Insert(key, reverse, r, x)) == multiset(r) + multiset{x}
    decreases |r|
  {
    if r != [] && !Precedes(key, reverse, x, r[0]) {
      InsertPermutes(key, reverse, r[1..], x);
      assert r == [r[0]] + r[1..];
    }
  }

  /** An element that must precede the head of a sorted sequence must precede
      all of it. */
  lemma PrecedesAll<T>(key: T -> Key, reverse: bool, r: seq<T>, x: T)
    requires Sorted(key, reverse, r) && r != [] && Precedes(key, reverse, x, r[0])
    ensures forall j :: 0 <= j < |r| ==> Precedes(key, reverse, x, r[j])
  {
    forall j | 0 < j < |r|
      ensures Precedes(key, reverse, x, r[j])
    {
      PrecedesChain(key, reverse, x, r[0], r[j]);
    }
  }

  /** Putting in front of a sorted sequence an element that nothing in it must
      precede keeps it sorted. */
  lemma ConsSorted<T>(key: T -> Key, reverse: bool, h: T, rest: seq<T>)
    requires Sorted(key, reverse, rest)
    requires forall j :: 0 <= j < |rest| ==> !Precedes(key, reverse, rest[j], h)
    ensures Sorted(key, reverse, [h] + rest)
  {
    var ins := [h] + rest;
    forall i, j | 0 <= i < j < |ins|
      ensures !Precedes(key, reverse, ins[j], ins[i])
    {
      assert ins[j] == rest[j - 1];
      if i > 0 {
        assert ins[i] == rest[i - 1];
      }
    }
  }

  lemma {:induction false} InsertSorted<T>(key: T -> Key, reverse: bool, r: seq<T>, x: T)
    requires Sorted(key, reverse, r)
    ensures Sorted(key, reverse, Insert(key, reverse, r, x))
    decreases |r|
  {
    if r == [] {
    } else if Precedes(key, reverse, x, r[0]) {
      PrecedesAll(key, reverse, r, x);
      forall j | 0 <= j < |r|
        ensures !Precedes(key, reverse, r[j], x)
      {
        PrecedesAsymmetric(key, reverse, x, r[j]);
      }
      ConsSorted(key, reverse, x, r);
    } else {
      var rest := Insert(key, reverse, r[1..], x);
      InsertSorted(key, reverse, r[1..], x);
      InsertPermutes(key, reverse, r[1..], x);
      forall j | 0 <= j < |rest|
        ensures !Precedes(key, reverse, rest[j], r[0])
      {
        assert rest[j] in multiset(rest);
        if rest[j] != x {
          assert rest[j] in multiset(r[1..]);
          var m :| 0 <= m < |r[1..]| && r[1..][m] == rest[j];
          assert r[m + 1] == rest[j];
        }
      }
      ConsSorted(key, reverse, r[0], rest);
    }
  }

  lemma {:induction false} InsertStable<T>(key: T -> Key, reverse: bool, r: seq<T>, x: T, k: Key)
    requires Sorted(key, reverse, r)
    ensures WithKey(key, k, Insert(key, reverse, r, x))
            == WithKey(key, k, r) + (if key(x) == k then [x] else [])
    decreases |r|
  {
    if r == [] {
      assert Insert(key, reverse, r, x) == [x];
    } else if Precedes(key, reverse, x, r[0]) {
      InsertFrontStable(key, reverse, r, x, k);
    } else {
      var rest := Insert(key, reverse, r[1..], x);
      assert Insert(key, reverse, r, x) == [r[0]] + rest;
      InsertStable(key, reverse, r[1..], x, k);
      WithKeyCons(key, k, r[0], rest);
    }
  }

  /** An element inserted in front of a sorted sequence has a key no element
      of the sequence has. */
  lemma InsertFrontStable<T>(key: T -> Key, reverse: bool, r: seq<T>, x: T, k: Key)
    requires Sorted(key, reverse, r) && r != [] && Precedes(key, reverse, x, r[0])
    ensures WithKey(key, k, [x] + r) == WithKey(key, k, r) + (if key(x) == k then [x] else [])
  {
    WithKeyCons(key, k, x, r);
    if key(x) == k {
      PrecedesAll(key, reverse, r, x);
      NoKeyAfterPrecedence(key, reverse, r, x);
    }
  }

  lemma NoKeyAfterPrecedence<T>(key: T -> Key, reverse: bool, r: seq<T>, x: T)
    requires forall j :: 0 <= j < |r| ==> Precedes(key, reverse, x, r[j])
    ensures WithKey(key, key(x), r) == []
  {
    if r != [] {
      PrecedesAsymmetric(key, reverse, x, r[0]);
      NoKeyAfterPrecedence(key, reverse, r[1..], x);
    }
  }

  /** The sort returns a permutation of its input, ordered by key, and keeps
      the input order among elements with equal keys. */
  lemma SortByFacts<T>(key: T -> Key, reverse: bool, s: seq<T>)
    ensures multiset(SortBy(key, reverse, s)) == multiset(s)
    ensures Sorted(key, reverse, SortBy(key, reverse, s))
    ensures forall k :: WithKey(key, k, SortBy(key, reverse, s)) == WithKey(key, k, s)
  {
    SortByPermutes(key, reverse, s);
    SortBySorted(key, reverse, s);
    forall k
      ensures WithKey(key, k, SortBy(key, reverse, s)) == WithKey(key, k, s)
    {
      SortByStable(key, reverse, s, k);
    }
  }

  lemma {:induction false} SortByPermutes<T>(key: T -> Key, reverse: bool, s: seq<T>)
    ensures multiset(SortBy(key, reverse, s)) == multiset(s)
    decreases |s|
  {
    if s != [] {
      var init, last := s[..|s| - 1], s[|s| - 1];
      SortByPermutes(key, reverse, init);
      InsertPermutes(key, reverse, SortBy(key, reverse, init), last);
      assert s == init + [last];
    }
  }

  lemma {:induction false} SortBySorted<T>(key: T -> Key, reverse: bool, s: seq<T>)
    ensures Sorted(key, reverse, SortBy(key, reverse, s))
    decreases |s|
  {
    if s != [] {
      var init, last := s[..|s| - 1], s[|s| - 1];
      SortBySorted(key, reverse, init);
      InsertSorted(key, reverse, SortBy(key, reverse, init), last);
    }
  }

  lemma {:induction false} SortByStable<T>(key: T -> Key, reverse: bool, s: seq<T>, k: Key)
    ensures WithKey(key, k, SortBy(key, reverse, s)) == WithKey(key, k, s)
    decreases |s|
  {
    if s != [] {
      var init, last := s[..|s| - 1], s[|s| - 1];
      SortByStable(key, reverse, init, k);
      SortBySorted(key, reverse, init);
      InsertStable(key, reverse, SortBy(key, reverse, init), last, k);
      assert s == init + [last];
      WithKeyAppend(key, k, init, [last]);
      WithKeyCons(key, k, last, []);
      assert [last] + [] == [last];
    }
  }

  lemma SortByLength<T>(key: T -> Key, reverse: bool, s: seq<T>)
    ensures |SortBy(key, reverse, s)| == |s|
  {
    SortByFacts(key, reverse, s);
    assert |multiset(SortBy(key, reverse, s))| == |multiset(s)|;
  }
}
