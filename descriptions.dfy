/** How safetensors_viewer.py merges a description fetched from Liblib or
    Civitai into the model's description text: each source owns a block that
    starts with its marker line, a new fetch replaces that source's block and
    keeps what the user wrote before it. The page scraping itself is not part
    of this model; its result arrives as a list of lines. */
module Descriptions {
  import opened Common

  const LiblibMarker: string := "=== 从Liblib抓取的描述 ==="
  const CivitaiMarker: string := "=== 从Civitai抓取的描述 ==="

  /** Python `sep.join(lines)`. */
  function JoinLines(lines: seq<string>, sep: string): string {
    if lines == [] then ""
    else if |lines| == 1 then lines[0]
    else lines[0] + sep + JoinLines(lines[1..], sep)
  }

  /** The block a fetch writes: its marker, a line break, the fetched text. */
  function Block(marker: string, body: string): string {
    marker + ("\n" + body)
  }

  /** The splice shared by both fetchers. `text` is the editor content,
      `own` this source's marker and `other` the other source's. With this
      source's marker present, the stripped text before its first occurrence
      is kept and the rest dropped; with only the other marker present, the
      text up to the other block's end is kept; otherwise the whole text is
      kept and the block appended after a blank line. */
  function Splice(text: string, own: string, other: string, body: string): (r: string)
    requires |own| > 0 && |other| > 0
  {
    var cur := Strip(text);
    var block := Block(own, body);
    if cur == "" then block
    else if Contains(cur, own) then
      var user := Strip(BeforeFirst(cur, own));
      if user == "" then block else user + "\n\n" + block
    else if Contains(cur, other) then
      Strip(BeforeFirst(cur, other)) + "\n\n" + other + SecondPart(cur, other) + "\n\n" + block
    else cur + "\n\n" + block
  }

  /** Whatever the text was, it now ends with this source's block. */
  lemma SpliceEndsWithBlock(text: string, own: string, other: string, body: string)
    requires |own| > 0 && |other| > 0
    ensures var r := Splice(text, own, other, body);
      |Block(own, body)| <= |r| && r[|r| - |Block(own, body)|..] == Block(own, body)
  {
  }

  /** What a fetch keeps in front of its block: the stripped text before
      this source's first marker; else the text up to the end of the other
      source's first block; else the whole stripped text. */
  lemma SpliceKeepsUserText(text: string, own: string, other: string, body: string)
    requires |own| > 0 && |other| > 0
    ensures var cur := Strip(text);
      var r := Splice(text, own, other, body);
      && (Contains(cur, own) ==> Strip(BeforeFirst(cur, own)) <= r)
      && (!Contains(cur, own) && Contains(cur, other) ==>
            Strip(BeforeFirst(cur, other)) + "\n\n" + other + SecondPart(cur, other) <= r)
      && (!Contains(cur, own) && !Contains(cur, other) ==> cur <= r)
  {
  }

  /** The Liblib fetcher: the page's lines joined by blank lines. */
  function LiblibDescription(text: string, lines: seq<string>): string {
    Splice(text, LiblibMarker, CivitaiMarker, JoinLines(lines, "\n\n"))
  }

  /** The Civitai fetcher: the cleaned description (see `CleanDescription`). */
  function CivitaiDescription(text: string, formatted: string): string {
    Splice(text, CivitaiMarker, LiblibMarker, formatted)
  }

  // ---------------------------------------------------------------------
  // Blank-line collapse of the Civitai text.

  /** The lines the collapse keeps: every non-empty line, and the first empty
      line of each run of empty lines (`prevEmpty` says whether the previous
      line kept was empty). */
  function Collapsed(lines: seq<string>, prevEmpty: bool): seq<string> {
    if lines == [] then []
    else if lines[0] != "" then [lines[0]] + Collapsed(lines[1..], false)
    else if !prevEmpty then [""] + Collapsed(lines[1..], true)
    else Collapsed(lines[1..], true)
  }

  /** The `clean_description` loop. */
  method CollapseBlankLines(lines: seq<string>) returns (clean: seq<string>)
    ensures clean == Collapsed(lines, false)
  {
    clean := [];
    var prevEmpty := false;
    var i := 0;
    while i < |lines|
      invariant 0 <= i <= |lines|
      invariant clean + Collapsed(lines[i..], prevEmpty) == Collapsed(lines, false)
    {
      var line := lines[i];
      assert lines[i..][1..] == lines[i + 1..];
      if line != "" {
        clean := clean + [line];
        prevEmpty := false;
      } else if !prevEmpty {
        clean := clean + [line];
        prevEmpty := true;
      }
      i := i + 1;
    }
    assert lines[i..] == [];
  }

  /** The text placed after the Civitai marker. */
  method CleanDescription(lines: seq<string>) returns (formatted: string)
    ensures formatted == Strip(JoinLines(Collapsed(lines, false), "\n"))
  {
    var clean := CollapseBlankLines(lines);
    formatted := Strip(JoinLines(clean, "\n"));
  }

  /** The non-empty lines, in order. */
  function NonEmpty(lines: seq<string>): seq<string> {
    if lines == [] then []
    else (if lines[0] != "" then [lines[0]] else []) + NonEmpty(lines[1..])
  }

  /** No two empty lines are adjacent after the collapse, and after an empty
      line the output does not start with another. */
  lemma {:induction false} CollapsedNoBlankRun(lines: seq<string>, prevEmpty: bool)
    ensures forall i :: 0 <= i < |Collapsed(lines, prevEmpty)| - 1 ==>
      Collapsed(lines, prevEmpty)[i] != "" || Collapsed(lines, prevEmpty)[i + 1] != ""
    ensures prevEmpty ==> Collapsed(lines, prevEmpty) == [] || Collapsed(lines, prevEmpty)[0] != ""
    decreases |lines|
  {
    if lines != [] {
      var rest := Collapsed(lines[1..], lines[0] == "");
      CollapsedNoBlankRun(lines[1..], lines[0] == "");
      if lines[0] != "" || !prevEmpty {
        var r := [lines[0]] + rest;
        assert r == Collapsed(lines, prevEmpty);
        forall i | 0 <= i < |r| - 1
          ensures r[i] != "" || r[i + 1] != ""
        {
          if i > 0 {
            assert r[i] == rest[i - 1] && r[i + 1] == rest[i];
          }
        }
      }
    }
  }

  /** The collapse drops empty lines only: the text lines survive, in
      order. */
  lemma {:induction false} CollapsedKeepsText(lines: seq<string>, prevEmpty: bool)
    ensures NonEmpty(Collapsed(lines, prevEmpty)) == NonEmpty(lines)
    decreases |lines|
  {
    if lines != [] {
      var rest := Collapsed(lines[1..], lines[0] == "");
      CollapsedKeepsText(lines[1..], lines[0] == "");
      if lines[0] != "" || !prevEmpty {
        var r := [lines[0]] + rest;
        assert r[1..] == rest;
      }
    }
  }

  /** Collapsing a collapsed list changes nothing. */
  lemma {:induction false} CollapsedIdempotent(lines: seq<string>, prevEmpty: bool)
    ensures Collapsed(Collapsed(lines, prevEmpty), prevEmpty) == Collapsed(lines, prevEmpty)
    decreases |lines|
  {
    if lines != [] {
      var l := lines[1..];
      if lines[0] != "" {
        CollapsedIdempotent(l, false);
        var r := [lines[0]] + Collapsed(l, false);
        assert r[1..] == Collapsed(l, false);
      } else if !prevEmpty {
        CollapsedIdempotent(l, true);
        var r := [""] + Collapsed(l, true);
        assert r[1..] == Collapsed(l, true);
      } else {
        CollapsedIdempotent(l, true);
      }
    }
  }

  // ---------------------------------------------------------------------
  // Fetching again.

  /** A marker line: no line break inside, no whitespace at either end. */
  predicate MarkerShape(m: string) {
    |m| > 0 && !IsSpace(m[0]) && !IsSpace(m[|m| - 1]) && '\n' !in m
  }

  lemma MarkersShaped()
    ensures MarkerShape(LiblibMarker) && MarkerShape(CivitaiMarker)
  {
    assert forall i :: 0 <= i < |LiblibMarker| ==> LiblibMarker[i] != '\n';
    assert forall i :: 0 <= i < |CivitaiMarker| ==> CivitaiMarker[i] != '\n';
  }

  lemma MarkersDistinct()
    ensures !Contains(CivitaiMarker, LiblibMarker)
  {
    assert LiblibMarker[5] == 'L' && CivitaiMarker[5] == 'C' && CivitaiMarker[6] == 'i';
    assert !OccursAt(CivitaiMarker, LiblibMarker, 0);
    assert !OccursAt(CivitaiMarker, LiblibMarker, 1);
  }

  /** Where an occurrence in `a + b` lies. */
  lemma OccursSplit(a: string, b: string, m: string, p: int)
    ensures p + |m| <= |a| ==> (OccursAt(a + b, m, p) <==> OccursAt(a, m, p))
    ensures |a| <= p ==> (OccursAt(a + b, m, p) <==> OccursAt(b, m, p - |a|))
    ensures OccursAt(a + b, m, p) && p <= |a| < p + |m| ==> m[|a| - p] == (a + b)[|a|]
  {
    if 0 <= p && p + |m| <= |a| {
      assert (a + b)[p..p + |m|] == a[p..p + |m|];
    }
    if |a| <= p && p + |m| <= |a + b| {
      assert (a + b)[p..p + |m|] == b[p - |a|..p - |a| + |m|];
    }
    if OccursAt(a + b, m, p) && p <= |a| < p + |m| {
      assert (a + b)[p..p + |m|][|a| - p] == (a + b)[|a|];
    }
  }

  /** A marker found in `a + "\n" + b` lies within `a` or within `b`. */
  lemma NoMarkerAcrossBreak(a: string, b: string, m: string)
    requires MarkerShape(m) && !Contains(a, m) && !Contains(b, m)
    ensures !Contains(a + "\n" + b, m)
  {
    var s := a + "\n" + b;
    assert s == a + ("\n" + b);
    forall p | 0 <= p <= |s| - |m|
      ensures !OccursAt(s, m, p)
    {
      OccursSplit(a, "\n" + b, m, p);
      OccursSplit(a + "\n", b, m, p);
    }
  }

  /** A line break does not bring a marker into marker-free text. */
  lemma NoMarkerAfterBreak(b: string, m: string)
    requires MarkerShape(m) && !Contains(b, m)
    ensures !Contains("\n" + b, m)
  {
    NoMarkerAcrossBreak("", b, m);
    assert "" + "\n" + b == "\n" + b;
  }

  /** The first occurrence of a marker after marker-free text and a blank
      line is right after the blank line. */
  lemma FirstMarkerAfter(u: string, m: string, rest: string)
    requires MarkerShape(m) && !Contains(u, m)
    ensures Find(u + "\n\n" + m + rest, m) == |u| + 2
  {
    var s := u + "\n\n" + m + rest;
    assert s == (u + "\n\n") + (m + rest) by {
      AppendAssociative(u + "\n\n", m, rest);
    }
    assert s == u + ("\n\n" + m + rest) by {
      AppendAssociative(u, "\n\n", m + rest);
      AppendAssociative("\n\n", m, rest);
    }
    assert s == (u + "\n") + ("\n" + m + rest) by {
      assert u + "\n\n" == (u + "\n") + "\n";
      AppendAssociative(u + "\n", "\n", m + rest);
      AppendAssociative("\n", m, rest);
    }
    OccursSplit(u + "\n\n", m + rest, m, |u| + 2);
    assert (m + rest)[0..|m|] == m;
    forall p | 0 <= p < |u| + 2
      ensures !OccursAt(s, m, p)
    {
      OccursSplit(u, "\n\n" + m + rest, m, p);
      OccursSplit(u + "\n", "\n" + m + rest, m, p);
    }
  }

  /** Trailing whitespace does not change what `rstrip` keeps. */
  lemma {:induction false} RStripSpaces(s: string, w: string)
    requires forall i :: 0 <= i < |w| ==> IsSpace(w[i])
    ensures RStrip(s + w) == RStrip(s)
    decreases |w|
  {
    if w == [] {
      assert s + w == s;
    } else {
      var w' := w[..|w| - 1];
      assert (s + w)[|s + w| - 1] == w[|w| - 1];
      assert (s + w)[..|s + w| - 1] == s + w';
      RStripSpaces(s, w');
    }
  }

  /** `rstrip` keeps a prefix ending in a non-space character. */
  lemma {:induction false} RStripKeeps(s: string, t: string)
    requires s != [] && !IsSpace(s[|s| - 1])
    ensures s <= RStrip(s + t)
    decreases |t|
  {
    if t == [] {
      assert s + t == s;
    } else {
      var t' := t[..|t| - 1];
      assert (s + t)[|s + t| - 1] == t[|t| - 1];
      assert (s + t)[..|s + t| - 1] == s + t';
      RStripKeeps(s, t');
    }
  }

  /** Text `strip` leaves unchanged: empty, or starting and ending with a
      non-space character. */
  predicate Trimmed(s: string) {
    s == [] || (!IsSpace(s[0]) && !IsSpace(s[|s| - 1]))
  }

  lemma StripTrimmed(s: string)
    ensures Trimmed(s) <==> Strip(s) == s
  {
    if Trimmed(s) {
      assert LStrip(s) == s;
      assert RStrip(s) == s;
    }
    if Strip(s) == s && s != [] {
      var l := LStrip(s);
      LStripFacts(s);
      RStripFacts(l);
      assert s == l[..|s|];
      assert s[0] == l[0];
    }
  }

  /** The text the user typed, once stripped and free of markers. */
  predicate CleanUserText(user: string, own: string, other: string) {
    Trimmed(user) && !Contains(user, own) && !Contains(user, other)
  }

  /** What precedes the block after one fetch onto clean user text. */
  function UserPrefix(user: string): string {
    if user == "" then "" else user + "\n\n"
  }

  /** The text one fetch leaves on clean user text. */
  function Fetched(user: string, m: string, body: string): string {
    UserPrefix(user) + m + ("\n" + body)
  }

  /** One fetch onto clean user text. */
  lemma SpliceOnClean(user: string, own: string, other: string, body: string)
    requires |own| > 0 && |other| > 0 && CleanUserText(user, own, other)
    ensures Splice(user, own, other, body) == Fetched(user, own, body)
  {
    StripTrimmed(user);
  }

  /** The prefix and a marker start and end with non-space characters. */
  lemma PrefixedMarkerEnds(user: string, m: string)
    requires Trimmed(user) && MarkerShape(m)
    ensures var h := UserPrefix(user) + m; !IsSpace(h[0]) && !IsSpace(h[|h| - 1])
  {
    var h := UserPrefix(user) + m;
    if user != "" {
      assert h[0] == user[0];
    }
    assert h[|h| - 1] == m[|m| - 1];
  }

  /** Stripping the prefix gives back the user's text. */
  lemma StripUserPrefix(user: string)
    requires Trimmed(user)
    ensures Strip(UserPrefix(user)) == user
  {
    if user != "" {
      var pre := user + "\n\n";
      assert pre[0] == user[0];
      assert LStrip(pre) == pre;
      RStripSpaces(user, "\n\n");
      assert LStrip(user) == user;
    }
  }

  /** In the prefix, a marker and anything after it, the marker is found
      right after the prefix, and the text before it strips to the user's. */
  lemma PrefixParts(user: string, m: string, rest: string)
    requires Trimmed(user) && !Contains(user, m) && MarkerShape(m)
    ensures Contains(UserPrefix(user) + m + rest, m)
    ensures Find(UserPrefix(user) + m + rest, m) == |UserPrefix(user)|
    ensures BeforeFirst(UserPrefix(user) + m + rest, m) == UserPrefix(user)
  {
    var s := UserPrefix(user) + m + rest;
    OccursSplit(UserPrefix(user), m + rest, m, |UserPrefix(user)|);
    assert (m + rest)[0..|m|] == m;
    assert s == UserPrefix(user) + (m + rest);
    if user != "" {
      FirstMarkerAfter(user, m, rest);
    }
  }

  /** Stripping text that starts with the prefix and a marker keeps both. */
  lemma StripKeepsHead(user: string, m: string, t: string)
    requires Trimmed(user) && MarkerShape(m)
    ensures |UserPrefix(user) + m| <= |Strip(UserPrefix(user) + m + t)|
    ensures Strip(UserPrefix(user) + m + t)[..|UserPrefix(user) + m|] == UserPrefix(user) + m
  {
    var head := UserPrefix(user) + m;
    PrefixedMarkerEnds(user, m);
    assert (head + t)[0] == head[0];
    assert LStrip(head + t) == head + t;
    RStripKeeps(head, t);
  }

  /** A fetch onto user text followed by a block of this source replaces
      the block and keeps the text. */
  lemma ReplaceBlock(user: string, own: string, other: string, earlier: string, later: string)
    requires MarkerShape(own) && |other| > 0 && CleanUserText(user, own, other)
    ensures Splice(Fetched(user, own, earlier), own, other, later) == Fetched(user, own, later)
  {
    var cur := Strip(Fetched(user, own, earlier));
    assert Contains(cur, own) && Strip(BeforeFirst(cur, own)) == user by {
      var head := UserPrefix(user) + own;
      StripKeepsHead(user, own, "\n" + earlier);
      assert cur == head + cur[|head|..];
      PrefixParts(user, own, cur[|head|..]);
      StripUserPrefix(user);
    }
    FetchedShape(user, own, later);
  }

  /** A fetch result is the block, after the user's text and a blank line
      when there is any. */
  lemma FetchedShape(user: string, m: string, body: string)
    ensures Fetched(user, m, body) == if user == "" then Block(m, body) else user + "\n\n" + Block(m, body)
  {
  }

  /** Fetching twice from the same source leaves what one fetch of the newer
      text leaves: the first block is replaced, the user's text is kept. */
  lemma RefetchReplaces(user: string, own: string, other: string, earlier: string, later: string)
    requires MarkerShape(own) && |other| > 0 && CleanUserText(user, own, other)
    ensures Splice(Splice(user, own, other, earlier), own, other, later) == Splice(user, own, other, later)
  {
    SpliceOnClean(user, own, other, earlier);
    SpliceOnClean(user, own, other, later);
    ReplaceBlock(user, own, other, earlier, later);
  }

  /** One fetch onto clean user text leaves stripped text. */
  lemma FetchStripped(user: string, m: string, body: string)
    requires Trimmed(user) && MarkerShape(m) && body != "" && Trimmed(body)
    ensures Strip(Fetched(user, m, body)) == Fetched(user, m, body)
  {
    var r := Fetched(user, m, body);
    assert r == (UserPrefix(user) + m) + ("\n" + body);
    PrefixedMarkerEnds(user, m);
    assert r[0] == (UserPrefix(user) + m)[0];
    assert r[|r| - 1] == body[|body| - 1];
    assert LStrip(r) == r;
    assert RStrip(r) == r;
  }

  /** One fetch onto clean user text adds no marker of the other source. */
  lemma FetchLacksMarker(user: string, m: string, body: string, own: string)
    requires MarkerShape(own) && !Contains(user, own) && !Contains(m, own) && !Contains(body, own)
    ensures !Contains(Fetched(user, m, body), own)
  {
    NoMarkerAcrossBreak(m, body, own);
    if user != "" {
      NoMarkerAcrossBreak("", m + "\n" + body, own);
      NoMarkerAcrossBreak(user, "" + "\n" + (m + "\n" + body), own);
      assert Fetched(user, m, body) == user + "\n" + ("" + "\n" + (m + "\n" + body));
    } else {
      assert Fetched(user, m, body) == m + "\n" + body;
    }
  }

  /** The other fetcher finds the block's marker where it was written. */
  lemma FetchCut(user: string, m: string, body: string)
    requires Trimmed(user) && !Contains(user, m) && MarkerShape(m)
    ensures Contains(Fetched(user, m, body), m)
    ensures Find(Fetched(user, m, body), m) == |UserPrefix(user)|
    ensures BeforeFirst(Fetched(user, m, body), m) == UserPrefix(user)
  {
    assert Fetched(user, m, body) == UserPrefix(user) + m + ("\n" + body);
    PrefixParts(user, m, "\n" + body);
  }

  /** The text the other fetcher keeps after the block's marker is the
      block's own text. */
  lemma FetchSecondPart(user: string, m: string, body: string)
    requires Trimmed(user) && !Contains(user, m) && MarkerShape(m) && !Contains(body, m)
    ensures Contains(Fetched(user, m, body), m)
    ensures SecondPart(Fetched(user, m, body), m) == "\n" + body
  {
    FetchCut(user, m, body);
    NoMarkerAfterBreak(body, m);
    SecondPartAfter(UserPrefix(user), m, "\n" + body);
  }

  /** The third branch of the splice: only the other source's marker. */
  lemma SpliceAfterOther(cur: string, own: string, other: string, later: string)
    requires |own| > 0 && |other| > 0
    requires Strip(cur) == cur && cur != "" && !Contains(cur, own) && Contains(cur, other)
    ensures Splice(cur, own, other, later)
            == Strip(BeforeFirst(cur, other)) + "\n\n" + other + SecondPart(cur, other) + "\n\n" + Block(own, later)
  {
  }

  /** A fetch after one from the other source keeps the user's text and the
      other source's block, and appends this source's block after them. */
  lemma OtherThenOwn(user: string, own: string, other: string, body: string, later: string)
    requires MarkerShape(own) && MarkerShape(other) && !Contains(other, own)
    requires CleanUserText(user, own, other)
    requires body != "" && Trimmed(body) && !Contains(body, own) && !Contains(body, other)
    ensures Splice(Splice(user, other, own, body), own, other, later)
            == user + "\n\n" + Block(other, body) + "\n\n" + Block(own, later)
  {
    SpliceOnClean(user, other, own, body);
    FetchStripped(user, other, body);
    FetchLacksMarker(user, other, body, own);
    FetchCut(user, other, body);
    FetchSecondPart(user, other, body);
    StripUserPrefix(user);
    SpliceAfterOther(Fetched(user, other, body), own, other, later);
    AppendAssociative(user + "\n\n", other, "\n" + body);
  }

  /** A Liblib fetch after a Civitai fetch keeps the user's text and the
      Civitai block, and appends the Liblib block after them. */
  lemma CivitaiThenLiblib(user: string, formatted: string, lines: seq<string>)
    requires CleanUserText(user, LiblibMarker, CivitaiMarker)
    requires formatted != "" && Trimmed(formatted)
    requires !Contains(formatted, LiblibMarker) && !Contains(formatted, CivitaiMarker)
    ensures LiblibDescription(CivitaiDescription(user, formatted), lines)
            == user + "\n\n" + Block(CivitaiMarker, formatted) + "\n\n" + Block(LiblibMarker, JoinLines(lines, "\n\n"))
  {
    MarkersShaped();
    MarkersDistinct();
    OtherThenOwn(user, LiblibMarker, CivitaiMarker, formatted, JoinLines(lines, "\n\n"));
  }
}
