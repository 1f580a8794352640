/** Up/down selection in the model list (safetensors_viewer.py) and in the
    workflow list (workflow_manager.py). Both wrap around at the ends; with
    nothing selected, "previous" picks the last entry and "next" the first. */
module Navigation {
  import opened Common

  /** Python `list.index(x)`: the first position of `x`, or nothing (the
      `ValueError` the callers swallow). */
  function IndexOf<T(==)>(s: seq<T>, x: T): (r: Option<nat>)
    ensures r.None? <==> x !in s
    ensures r.Some? ==> r.value < |s| && s[r.value] == x && x !in s[..r.value]
  {
    if s == [] then None
    else if s[0] == x then Some(0)
    else match IndexOf(s[1..], x)
      case None => None
      case Some(i) => assert s[1..][..i] == s[1..i + 1]; Some(i + 1)
  }

  function PrevIndex(i: nat, n: nat): (r: nat)
    requires i < n
    ensures r < n
  {
    if i > 0 then i - 1 else n - 1
  }

  function NextIndex(i: nat, n: nat): (r: nat)
    requires i < n
    ensures r < n
  {
    (i + 1) % n
  }

  /** `(i + 1) % n` only wraps at the last position. */
  lemma NextIndexCases(i: nat, n: nat)
    requires i < n
    ensures NextIndex(i, n) == if i + 1 < n then i + 1 else 0
  {
    if i + 1 == n {
      assert (i + 1) % n == n % n == 0;
    }
  }

  /** The entry `select_previous_*` moves to, or `None` when it does nothing
      (empty list, or the current entry is not in the list). */
  function SelectPrevious<T(==)>(items: seq<T>, current: Option<T>): (r: Option<T>)
    ensures r.Some? ==> r.value in items
    ensures items == [] ==> r.None?
  {
    if items == [] then None
    else match current
      case None => Some(items[|items| - 1])
      case Some(c) =>
        match IndexOf(items, c)
        case None => None
        case Some(i) => Some(items[PrevIndex(i, |items|)])
  }

  function SelectNext<T(==)>(items: seq<T>, current: Option<T>): (r: Option<T>)
    ensures r.Some? ==> r.value in items
    ensures items == [] ==> r.None?
  {
    if items == [] then None
    else match current
      case None => Some(items[0])
      case Some(c) =>
        match IndexOf(items, c)
        case None => None
        case Some(i) => Some(items[NextIndex(i, |items|)])
  }

  /** The two index steps undo each other. */
  lemma IndexStepsInverse(i: nat, n: nat)
    requires i < n
    ensures NextIndex(PrevIndex(i, n), n) == i
    ensures PrevIndex(NextIndex(i, n), n) == i
  {
    NextIndexCases(i, n);
    NextIndexCases(PrevIndex(i, n), n);
  }

  predicate Distinct<T(==)>(s: seq<T>) {
    forall i, j :: 0 <= i < j < |s| ==> s[i] != s[j]
  }

  lemma IndexOfDistinct<T>(s: seq<T>, i: nat)
    requires Distinct(s) && i < |s|
    ensures IndexOf(s, s[i]) == Some(i)
  {
    var r := IndexOf(s, s[i]);
    assert r.Some?;
  }

  /** In a list without repetitions (the keys of the frame dictionary, the
      workflow hashes), "next" then "previous" comes back to the current entry,
      and so does "previous" then "next". */
  lemma NextThenPrevious<T>(items: seq<T>, c: T)
    requires Distinct(items) && c in items
    ensures SelectNext(items, Some(c)).Some?
    ensures SelectPrevious(items, SelectNext(items, Some(c))) == Some(c)
    ensures SelectPrevious(items, Some(c)).Some?
    ensures SelectNext(items, SelectPrevious(items, Some(c))) == Some(c)
  {
    var i :| 0 <= i < |items| && items[i] == c;
    IndexOfDistinct(items, i);
    var n := |items|;
    IndexOfDistinct(items, NextIndex(i, n));
    IndexOfDistinct(items, PrevIndex(i, n));
    IndexStepsInverse(i, n);
  }

  /** `k` presses of "next" from position `i`. */
  function NextTimes(i: nat, n: nat, k: nat): (r: nat)
    requires i < n
    ensures r < n
  {
    if k == 0 then i else NextIndex(NextTimes(i, n, k - 1), n)
  }

  /** Up to one full round, `k` presses of "next" advance by `k` places,
      wrapping once past the end. */
  lemma {:induction false} NextTimesIsShift(i: nat, n: nat, k: nat)
    requires i < n && k <= n
    ensures NextTimes(i, n, k) == if i + k < n then i + k else i + k - n
  {
    if k > 0 {
      NextTimesIsShift(i, n, k - 1);
      NextIndexCases(NextTimes(i, n, k - 1), n);
    }
  }

  /** From any entry, "next" reaches every other entry, and `n` presses
      return to the start. */
  lemma NextTimesCovers(i: nat, n: nat, j: nat)
    requires i < n && j < n
    ensures NextTimes(i, n, if j >= i then j - i else j + n - i) == j
    ensures NextTimes(i, n, n) == i
  {
    NextTimesIsShift(i, n, if j >= i then j - i else j + n - i);
    NextTimesIsShift(i, n, n);
  }
}
