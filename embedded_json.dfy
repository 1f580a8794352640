/** The ComfyUI workflow that a `.png` or `.svg` file carries inside it, as
    `load_workflows` in workflow_manager.py finds it: a search for the start
    of the JSON object, a brace-depth scan for its end, and the decoding of
    the two escaped forms an SVG may hold it in. Text is handled as the
    file's bytes; `json.loads` of the result is left to the caller. */
module EmbeddedJson {
  import opened Common

  const OpenBrace: byte := 123   // '{'
  const CloseBrace: byte := 125  // '}'
  const QuoteMark: byte := 34    // '"'

  /** `{"last_node_id":` */
  const PlainMarker: seq<byte> := [123, 34, 108, 97, 115, 116, 95, 110, 111, 100, 101, 95, 105, 100, 34, 58]
  /** `%7B%22last_node_id%22%3A` */
  const UrlMarker: seq<byte> :=
    [37, 55, 66, 37, 50, 50, 108, 97, 115, 116, 95, 110, 111, 100, 101, 95, 105, 100, 37, 50, 50, 37, 51, 65]
  /** `{"amp;last_node_id":` */
  const HtmlMarker: seq<byte> :=
    [123, 34, 97, 109, 112, 59, 108, 97, 115, 116, 95, 110, 111, 100, 101, 95, 105, 100, 34, 58]

  // ---------------------------------------------------------------------
  // The brace-depth scan.

  /** What one element does to the brace count: the scan tests for the
      opening brace first. */
  function Delta<T(==)>(x: T, open: T, close: T): int {
    if x == open then 1 else if x == close then -1 else 0
  }

  /** The brace count after scanning all of `s`. */
  function Depth<T(==)>(s: seq<T>, open: T, close: T): int {
    if s == [] then 0 else Depth(s[..|s| - 1], open, close) + Delta(s[|s| - 1], open, close)
  }

  lemma DepthSnoc<T>(s: seq<T>, open: T, close: T, k: nat)
    requires 0 < k <= |s|
    ensures Depth(s[..k], open, close) == Depth(s[..k - 1], open, close) + Delta(s[k - 1], open, close)
  {
    assert s[..k][..k - 1] == s[..k - 1];
  }

  /** The scan may stop after the first `k` elements: the k-th is a closing
      brace that brings the count back to zero. */
  predicate ClosesAt<T(==)>(s: seq<T>, open: T, close: T, k: nat) {
    0 < k <= |s| && Delta(s[k - 1], open, close) == -1 && Depth(s[..k], open, close) == 0
  }

  /** The first place among the first `n` elements where the scan may stop,
      or 0 if there is none. */
  function FirstCloseUpTo<T(==)>(s: seq<T>, open: T, close: T, n: nat): (r: nat)
    requires n <= |s|
    ensures r <= n
    ensures r > 0 ==> ClosesAt(s, open, close, r) && forall k :: 0 < k < r ==> !ClosesAt(s, open, close, k)
    ensures r == 0 ==> forall k :: 0 < k <= n ==> !ClosesAt(s, open, close, k)
  {
    if n == 0 then 0
    else
      var e := FirstCloseUpTo(s, open, close, n - 1);
      if e > 0 then e else if ClosesAt(s, open, close, n) then n else 0
  }

  /** `end_pos`: the length of the JSON object at the start of `s`, or 0
      when the brace count never comes back to zero. */
  function JsonEnd<T(==)>(s: seq<T>, open: T, close: T): nat {
    FirstCloseUpTo(s, open, close, |s|)
  }

  /** The first stopping place is the only one with no stopping place
      before it. */
  lemma JsonEndIs<T>(s: seq<T>, open: T, close: T, e: nat)
    requires e <= |s|
    requires e > 0 ==> ClosesAt(s, open, close, e)
    requires forall k :: 0 < k <= |s| && (e == 0 || k < e) ==> !ClosesAt(s, open, close, k)
    ensures JsonEnd(s, open, close) == e
  {
  }

  /** The `while i < len(json_bytes)` loop: counts braces and stops at the
      closing brace that brings the count back to zero. */
  method ScanEnd<T(==)>(s: seq<T>, open: T, close: T) returns (endPos: nat)
    ensures endPos == JsonEnd(s, open, close)
  {
    var braceCount := 0;
    endPos := 0;
    var i := 0;
    while i < |s|
      invariant 0 <= i <= |s|
      invariant braceCount == Depth(s[..i], open, close)
      invariant forall k :: 0 < k <= i ==> !ClosesAt(s, open, close, k)
    {
      DepthSnoc(s, open, close, i + 1);
      if s[i] == open {
        braceCount := braceCount + 1;
      } else if s[i] == close {
        braceCount := braceCount - 1;
        if braceCount == 0 {
          endPos := i + 1;
          break;
        }
      }
      i := i + 1;
    }
    JsonEndIs(s, open, close, endPos);
  }

  /** The scan of the copy command, which builds the text element by
      element from `start` and keeps the stopping brace. */
  method CollectJson<T(==)>(s: seq<T>, start: nat, open: T, close: T) returns (json: seq<T>)
    requires start <= |s|
    ensures var t := s[start..];
      json == if JsonEnd(t, open, close) > 0 then t[..JsonEnd(t, open, close)] else t
  {
    ghost var t := s[start..];
    json := [];
    var braceCount := 0;
    var i := start;
    while i < |s|
      invariant start <= i <= |s|
      invariant json == t[..i - start]
      invariant braceCount == Depth(json, open, close)
      invariant forall k :: 0 < k <= i - start ==> !ClosesAt(t, open, close, k)
    {
      DepthSnoc(t, open, close, i - start + 1);
      var c := s[i];
      json := json + [c];
      assert json == t[..i - start + 1];
      if c == open {
        braceCount := braceCount + 1;
      } else if c == close {
        braceCount := braceCount - 1;
        if braceCount == 0 {
          JsonEndIs(t, open, close, i - start + 1);
          return;
        }
      }
      i := i + 1;
    }
    JsonEndIs(t, open, close, 0);
  }

  /** A balanced object: it opens with a brace, every shorter non-empty
      prefix has more opening than closing braces, and the whole has as
      many of each. */
  predicate Balanced<T(==)>(s: seq<T>, open: T, close: T) {
    |s| > 0 && s[0] == open && Depth(s, open, close) == 0
    && forall k :: 0 < k < |s| ==> Depth(s[..k], open, close) > 0
  }

  /** Within the found object the count stays positive: it starts at one
      and the first return to zero is where the scan stops. */
  lemma {:induction false} DepthPositive<T>(s: seq<T>, open: T, close: T, k: nat)
    requires |s| > 0 && s[0] == open
    requires 0 < k < JsonEnd(s, open, close)
    ensures Depth(s[..k], open, close) > 0
  {
    DepthSnoc(s, open, close, k);
    if k == 1 {
      assert s[..0] == [];
    } else {
      DepthPositive(s, open, close, k - 1);
      assert !ClosesAt(s, open, close, k);
    }
  }

  /** What the scan finds, starting at an opening brace, is a balanced
      object ending in a closing brace. */
  lemma JsonEndShape<T>(s: seq<T>, open: T, close: T)
    requires |s| > 0 && s[0] == open && JsonEnd(s, open, close) > 0
    ensures var e := JsonEnd(s, open, close);
      Balanced(s[..e], open, close) && s[e - 1] == close
  {
    var e := JsonEnd(s, open, close);
    assert s[..e][..e] == s[..e];
    forall k | 0 < k < e
      ensures Depth(s[..e][..k], open, close) > 0
    {
      DepthPositive(s, open, close, k);
      assert s[..e][..k] == s[..k];
    }
  }

  /** Conversely, a balanced object followed by anything is found whole. */
  lemma BalancedFound<T>(obj: seq<T>, rest: seq<T>, open: T, close: T)
    requires Balanced(obj, open, close)
    ensures JsonEnd(obj + rest, open, close) == |obj|
  {
    var s := obj + rest;
    var n := |obj|;
    assert s[..n] == obj;
    DepthSnoc(s, open, close, n);
    assert s[..n - 1] == obj[..n - 1];
    assert ClosesAt(s, open, close, n);
    forall k | 0 < k < n
      ensures !ClosesAt(s, open, close, k)
    {
      assert s[..k] == obj[..k];
    }
    JsonEndIs(s, open, close, n);
  }

  // ---------------------------------------------------------------------
  // URL-encoded workflows: `urllib.parse.unquote`.

  predicate IsHexDigit(b: byte) {
    48 <= b <= 57 || 65 <= b <= 70 || 97 <= b <= 102
  }

  function HexValue(b: byte): (v: nat)
    requires IsHexDigit(b)
    ensures v < 16
  {
    if b <= 57 then b - 48 else if b <= 70 then b - 55 else b - 87
  }

  /** The upper-case hexadecimal digit of `v`. */
  function HexDigit(v: nat): (b: byte)
    requires v < 16
    ensures IsHexDigit(b) && HexValue(b) == v
  {
    if v < 10 then 48 + v else 55 + v
  }

  const Percent: byte := 37

  /** Every `%` followed by two hexadecimal digits becomes the byte they
      spell; everything else is kept. */
  function Unquote(s: seq<byte>): (r: seq<byte>)
    ensures |r| <= |s|
    decreases |s|
  {
    if s == [] then []
    else if s[0] == Percent && |s| >= 3 && IsHexDigit(s[1]) && IsHexDigit(s[2]) then
      [HexValue(s[1]) * 16 + HexValue(s[2])] + Unquote(s[3..])
    else [s[0]] + Unquote(s[1..])
  }

  /** Percent-encoding that leaves the bytes `safe` accepts (other than `%`)
      as they are, as an SVG writer encodes a JSON attribute. */
  function Quote(s: seq<byte>, safe: byte -> bool): seq<byte> {
    if s == [] then []
    else
      (if safe(s[0]) && s[0] != Percent then [s[0]]
       else [Percent, HexDigit(s[0] / 16), HexDigit(s[0] % 16)])
      + Quote(s[1..], safe)
  }

  /** Decoding undoes any such encoding. */
  lemma {:induction false} UnquoteQuote(s: seq<byte>, safe: byte -> bool)
    ensures Unquote(Quote(s, safe)) == s
    decreases |s|
  {
    if s != [] {
      var rest := Quote(s[1..], safe);
      UnquoteQuote(s[1..], safe);
      if safe(s[0]) && s[0] != Percent {
        assert Quote(s, safe) == [s[0]] + rest;
        assert ([s[0]] + rest)[1..] == rest;
      } else {
        var enc := [Percent, HexDigit(s[0] / 16), HexDigit(s[0] % 16)];
        assert Quote(s, safe) == enc + rest;
        assert (enc + rest)[3..] == rest;
      }
    }
  }

  // ---------------------------------------------------------------------
  // HTML-escaped workflows.

  const AmpEntity: seq<byte> := [38, 97, 109, 112, 59]    // "&amp;"
  const QuotEntity: seq<byte> := [38, 113, 117, 111, 116, 59]  // "&quot;"
  const LtEntity: seq<byte> := [38, 108, 116, 59]   // "&lt;"
  const GtEntity: seq<byte> := [38, 103, 116, 59]   // "&gt;"

  /** The four characters HTML escapes, and their entities. */
  function EscapeByte(b: byte): seq<byte> {
    if b == 38 then AmpEntity
    else if b == 34 then QuotEntity
    else if b == 60 then LtEntity
    else if b == 62 then GtEntity
    else [b]
  }

  /** How an SVG writer escapes text put into an attribute. */
  function HtmlEscape(s: seq<byte>): seq<byte> {
    if s == [] then [] else EscapeByte(s[0]) + HtmlEscape(s[1..])
  }

  /** The entity replacement as written: four `str.replace` passes, `&amp;`
      first, so that text produced by the first pass is decoded again by
      the later ones. */
  function HtmlUnescapeAsWritten(s: seq<byte>): seq<byte> {
    var s1 := ReplaceAll(s, AmpEntity, [38]);
    var s2 := ReplaceAll(s1, QuotEntity, [34]);
    var s3 := ReplaceAll(s2, LtEntity, [60]);
    ReplaceAll(s3, GtEntity, [62])
  }

  /** The entity replacement in one left-to-right pass: each entity is
      decoded once. */
  function HtmlUnescape(s: seq<byte>): (r: seq<byte>)
    ensures |r| <= |s|
    decreases |s|
  {
    if s == [] then []
    else if AmpEntity <= s then [38] + HtmlUnescape(s[|AmpEntity|..])
    else if QuotEntity <= s then [34] + HtmlUnescape(s[|QuotEntity|..])
    else if LtEntity <= s then [60] + HtmlUnescape(s[|LtEntity|..])
    else if GtEntity <= s then [62] + HtmlUnescape(s[|GtEntity|..])
    else [s[0]] + HtmlUnescape(s[1..])
  }

  lemma UnescapeEscapedByte(b: byte, rest: seq<byte>)
    ensures HtmlUnescape(EscapeByte(b) + rest) == [b] + HtmlUnescape(rest)
  {
    var s := EscapeByte(b) + rest;
    if b == 38 {
      assert s[..5] == AmpEntity && s[5..] == rest;
    } else if b == 34 {
      assert s[1] == 113 && s[..6] == QuotEntity && s[6..] == rest;
    } else if b == 60 {
      assert s[1] == 108 && s[..4] == LtEntity && s[4..] == rest;
    } else if b == 62 {
      assert s[1] == 103 && s[..4] == GtEntity && s[4..] == rest;
    } else {
      assert s[0] == b && s[1..] == rest;
    }
  }

  /** The one-pass replacement undoes the escaping of any text. */
  lemma {:induction false} UnescapeEscape(s: seq<byte>)
    ensures HtmlUnescape(HtmlEscape(s)) == s
    decreases |s|
  {
    if s != [] {
      UnescapeEscapedByte(s[0], HtmlEscape(s[1..]));
      UnescapeEscape(s[1..]);
    }
  }

  /** Text that itself reads `&lt;` is escaped to `&amp;lt;`; the passes as
      written turn that into `<`, while one pass gives back `&lt;`. */
  lemma UnescapeAsWrittenDecodesTwice()
    ensures HtmlEscape(LtEntity) == AmpEntity + [108, 116, 59]
    ensures HtmlUnescapeAsWritten(HtmlEscape(LtEntity)) == [60]
    ensures HtmlUnescape(HtmlEscape(LtEntity)) == LtEntity
  {
    var escaped := AmpEntity + [108, 116, 59];
    assert HtmlEscape(LtEntity) == escaped by {
      assert LtEntity == [38] + [108, 116, 59];
      assert HtmlEscape([108, 116, 59]) == [108, 116, 59];
    }
    var s1 := ReplaceAll(escaped, AmpEntity, [38]);
    assert s1 == LtEntity by {
      assert escaped[..|AmpEntity|] == AmpEntity;
      assert escaped[|AmpEntity|..] == [108, 116, 59];
      assert ReplaceAll([108, 116, 59], AmpEntity, [38]) == [108, 116, 59];
      assert [38] + [108, 116, 59] == LtEntity;
    }
    ReplaceAbsent(LtEntity, QuotEntity, [34]);
    var s3 := ReplaceAll(LtEntity, LtEntity, [60]);
    assert s3 == [60] by {
      assert LtEntity[..|LtEntity|] == LtEntity;
      assert LtEntity[|LtEntity|..] == [];
    }
    UnescapeEscape(LtEntity);
  }

  // ---------------------------------------------------------------------
  // What `load_workflows` makes of a file.

  datatype Extracted =
    | EmptyWorkflow            // no complete object: the default {'nodes': [], 'links': []}
    | Json(text: seq<byte>)    // the text handed to `json.loads`
    | Unreadable               // the decode raised: the file is skipped

  /** The extraction for a `.png` or `.svg` file's bytes. */
  function Embedded(data: seq<byte>, isSvg: bool): Extracted {
    var p := Find(data, PlainMarker);
    if p == -1 && isSvg then
      var u := Find(data, UrlMarker);
      if u != -1 then
        var encoded := BeforeFirst(data[u..], [QuoteMark]);
        if IsAscii(encoded) then Json(Unquote(encoded)) else Unreadable
      else
        var h := Find(data, HtmlMarker);
        if h == -1 then EmptyWorkflow
        else
          var t := data[h..];
          var e := JsonEnd(t, OpenBrace, CloseBrace);
          if e == 0 then EmptyWorkflow
          else if Utf8(t[..e]) then Json(HtmlUnescape(t[..e]))
          else Json(t[..e])
    else if p != -1 then
      var t := data[p..];
      var e := JsonEnd(t, OpenBrace, CloseBrace);
      if e == 0 then EmptyWorkflow else Json(t[..e])
    else EmptyWorkflow
  }

  /** The extraction as `load_workflows` performs it, with its scan loop. */
  method ExtractWorkflow(data: seq<byte>, isSvg: bool) returns (r: Extracted)
    ensures r == Embedded(data, isSvg)
  {
    var p := Find(data, PlainMarker);
    if p == -1 && isSvg {
      var u := Find(data, UrlMarker);
      if u != -1 {
        var encoded := BeforeFirst(data[u..], [QuoteMark]);
        if IsAscii(encoded) {
          r := Json(Unquote(encoded));
        } else {
          r := Unreadable;
        }
      } else {
        var h := Find(data, HtmlMarker);
        r := EmptyWorkflow;
        if h != -1 {
          var t := data[h..];
          var e := ScanEnd(t, OpenBrace, CloseBrace);
          if e > 0 {
            if Utf8(t[..e]) {
              r := Json(HtmlUnescape(t[..e]));
            } else {
              r := Json(t[..e]);
            }
          }
        }
      }
    } else if p != -1 {
      var t := data[p..];
      var e := ScanEnd(t, OpenBrace, CloseBrace);
      r := if e == 0 then EmptyWorkflow else Json(t[..e]);
    } else {
      r := EmptyWorkflow;
    }
  }

  /** An unescaped workflow text is a balanced object that starts with the
      marker and ends with a closing brace. */
  lemma PlainExtractionShape(data: seq<byte>, isSvg: bool)
    requires Find(data, PlainMarker) != -1
    ensures Embedded(data, isSvg).EmptyWorkflow? || Embedded(data, isSvg).Json?
    ensures Embedded(data, isSvg).Json? ==>
      var t := Embedded(data, isSvg).text;
      PlainMarker <= t && Balanced(t, OpenBrace, CloseBrace) && t[|t| - 1] == CloseBrace
  {
    var p := Find(data, PlainMarker);
    var t := data[p..];
    assert PlainMarker <= t by { assert t[..|PlainMarker|] == PlainMarker; }
    assert t[0] == PlainMarker[0] == OpenBrace;
    var e := JsonEnd(t, OpenBrace, CloseBrace);
    assert Embedded(data, isSvg) == if e == 0 then EmptyWorkflow else Json(t[..e]);
    if e > 0 {
      var w := t[..e];
      assert Balanced(w, OpenBrace, CloseBrace) && w[|w| - 1] == CloseBrace by {
        JsonEndShape(t, OpenBrace, CloseBrace);
      }
      assert PlainMarker <= w by {
        assert ClosesAt(t, OpenBrace, CloseBrace, e);
        ClosingInsideMarker(t, e);
        assert w[..|PlainMarker|] == PlainMarker;
      }
    }
  }

  /** The marker holds one opening brace and no closing one, so the object
      cannot close inside it. */
  lemma ClosingInsideMarker(t: seq<byte>, e: nat)
    requires PlainMarker <= t && e > 0 && ClosesAt(t, OpenBrace, CloseBrace, e)
    ensures e > |PlainMarker|
  {
    assert t[e - 1] == CloseBrace;
    forall j | 0 <= j < |PlainMarker|
      ensures t[j] != CloseBrace
    {
      assert t[j] == PlainMarker[j];
    }
  }

  /** A file holding a balanced workflow object, with no marker before it,
      yields exactly that object. */
  lemma PlainRoundTrip(pre: seq<byte>, obj: seq<byte>, post: seq<byte>, isSvg: bool)
    requires PlainMarker <= obj && Balanced(obj, OpenBrace, CloseBrace)
    requires forall i :: 0 <= i < |pre| ==> !OccursAt(pre + obj + post, PlainMarker, i)
    ensures Embedded(pre + obj + post, isSvg) == Json(obj)
  {
    var data := pre + obj + post;
    assert data[|pre|..|pre| + |PlainMarker|] == obj[..|PlainMarker|];
    assert OccursAt(data, PlainMarker, |pre|);
    assert Find(data, PlainMarker) == |pre|;
    assert data[|pre|..] == obj + post;
    BalancedFound(obj, post, OpenBrace, CloseBrace);
    assert (obj + post)[..|obj|] == obj;
  }
}
