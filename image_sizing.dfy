/** Extended image syntax `![alt](src =WIDTHxHEIGHT)`.  Before rendering, each
    use outside code becomes `![alt](src)` followed by a size marker comment;
    after rendering, every `<img>` immediately followed by a marker loses the
    marker and gains `width`/`height` attributes. */
module ImageSizing {
  import opened Wrappers
  import opened Strings
  import Seqs
  import TagScan

  // ---------------------------------------------------------------------
  // parse_dimensions

  function NonEmptyOr(s: string): (r: Option<string>)
    ensures r.None? <==> s == []
    ensures r.Some? ==> r.value == s
  {
    if s == [] then None else Some(s)
  }

  /** `parse_dimensions`: without an `x` the whole string is the width;
      otherwise the first two fields of a split at every `x`, an empty field
      standing for no value. */
  function ParseDimensions(dim: string): (r: (Option<string>, Option<string>))
    ensures 'x' !in dim ==> r == (Some(dim), None)
    ensures r.0.Some? ==> StartsWith(dim, r.0.value)
  {
    if 'x' in dim then
      var parts := SplitAll(dim, 'x');
      SplitAllFirst(dim, 'x');
      (NonEmptyOr(parts[0]), if |parts| > 1 then NonEmptyOr(parts[1]) else None)
    else
      assert dim[..|dim|] == dim;
      (Some(dim), None)
  }

  /** `WxH` reads back as its two sides, either of which may be empty. */
  lemma ParseWidthHeight(w: string, h: string)
    requires NoChar(w, 'x') && NoChar(h, 'x')
    ensures ParseDimensions(w + "x" + h) == (NonEmptyOr(w), NonEmptyOr(h))
  {
    var d := w + "x" + h;
    assert d[|w|] == 'x';
    assert Join([w, h], "x") == d by {
      assert [w, h][1..] == [h];
    }
    SplitAllJoin([w, h], 'x');
  }

  /** Sides beyond the second are ignored. */
  lemma ParseIgnoresRest(w: string, h: string, rest: string)
    requires NoChar(w, 'x') && NoChar(h, 'x')
    ensures ParseDimensions(w + "x" + h + "x" + rest) == (NonEmptyOr(w), NonEmptyOr(h))
  {
    var t := h + "x" + rest;
    var d := w + "x" + t;
    assert d == w + "x" + h + "x" + rest;
    assert d[|w|] == 'x';
    IndexOfFirst(d, 'x', |w|);
    assert d[..|w|] == w && d[|w| + 1..] == t;
    assert SplitAll(d, 'x') == [w] + SplitAll(t, 'x');
    assert t[|h|] == 'x';
    IndexOfFirst(t, 'x', |h|);
    assert t[..|h|] == h;
    assert SplitAll(t, 'x') == [h] + SplitAll(t[|h| + 1..], 'x');
  }

  /** `"#{width || 'auto'}"` */
  function Side(v: Option<string>): string {
    v.GetOr("auto")
  }

  const MarkerOpen: string := "<!-- IMG_SIZE:"
  const MarkerClose: string := " -->"

  /** The comment the pre-render pass leaves after the image. */
  function Marker(dims: (Option<string>, Option<string>)): string {
    MarkerOpen + Side(dims.0) + ":" + Side(dims.1) + MarkerClose
  }

  // ---------------------------------------------------------------------
  // The sizing syntax  !\[([^\]]*)\]\(([^\s)]+)\s+=([^\)]+)\)

  /** One use of the syntax: "![" alt "](" src spaces "=" dims ")" */
  datatype SizeMatch = SizeMatch(alt: string, src: string, spaces: string, dims: string)
  {
    function Text(): string {
      "![" + alt + "](" + src + spaces + "=" + dims + ")"
    }

    /** `"![#{alt_text}](#{src})<!-- IMG_SIZE:#{width || 'auto'}:#{height || 'auto'} -->"` */
    function Rewritten(): string {
      "![" + alt + "](" + src + ")" + Marker(ParseDimensions(Strip(dims)))
    }
  }

  predicate SizeCaptured(m: SizeMatch) {
    && NoChar(m.alt, ']')
    && m.src != [] && NoChar(m.src, ')') && (forall i :: 0 <= i < |m.src| ==> !IsSpace(m.src[i]))
    && m.spaces != [] && AllSpace(m.spaces)
    && m.dims != [] && NoChar(m.dims, ')')
  }

  /** The first index at or after `from` holding whitespace or `)`, or `|s|`. */
  function SrcEnd(s: string, from: nat): (r: nat)
    requires from <= |s|
    ensures from <= r <= |s|
    ensures r < |s| ==> IsSpace(s[r]) || s[r] == ')'
    ensures forall k :: from <= k < r ==> !IsSpace(s[k]) && s[k] != ')'
    decreases |s| - from
  {
    if from == |s| || IsSpace(s[from]) || s[from] == ')' then from else SrcEnd(s, from + 1)
  }

  /** Cut points of a use at the start of the text: `]` at `a`, the spaces
      from `b` to `c` (where `=` is), `)` at `d`. */
  datatype SizeCut = SizeCut(a: nat, b: nat, c: nat, d: nat)

  predicate SizeCutFits(s: string, x: SizeCut) {
    && 2 <= x.a && x.a + 2 < x.b < x.c < x.d < |s|
    && s[0] == '!' && s[1] == '['
    && (forall i :: 2 <= i < x.a ==> s[i] != ']')
    && s[x.a] == ']' && s[x.a + 1] == '('
    && (forall i :: x.a + 2 <= i < x.b ==> !IsSpace(s[i]) && s[i] != ')')
    && (forall i :: x.b <= i < x.c ==> IsSpace(s[i]))
    && s[x.c] == '='
    && x.c + 1 < x.d
    && (forall i :: x.c + 1 <= i < x.d ==> s[i] != ')')
    && s[x.d] == ')'
  }

  /** The match at the very start of `s`.  Every group is forced: the alt
      text runs to the first `]`, the source to the first space or `)`, the
      spaces as far as they go, the dimensions to the first `)`. */
  function SizeCutAt(s: string): (x: Option<SizeCut>)
    ensures x.Some? ==> SizeCutFits(s, x.value)
  {
    if !(2 <= |s| && s[0] == '!' && s[1] == '[') then None
    else
      var a := IndexOf(s, ']', 2);
      if !(a + 1 < |s| && s[a + 1] == '(') then None
      else
        var b := SrcEnd(s, a + 2);
        if !(a + 2 < b < |s| && IsSpace(s[b])) then None
        else
          var c := SkipSpaces(s, b);
          if !(c < |s| && s[c] == '=') then None
          else
            var d := IndexOf(s, ')', c + 1);
            if !(c + 1 < d < |s|) then None
            else Some(SizeCut(a, b, c, d))
  }

  function SizeMatchOf(s: string, x: SizeCut): SizeMatch
    requires SizeCutFits(s, x)
  {
    SizeMatch(s[2..x.a], s[x.a + 2..x.b], s[x.b..x.c], s[x.c + 1..x.d])
  }

  lemma SizeMatchSound(s: string, x: SizeCut)
    requires SizeCutFits(s, x)
    ensures s[..x.d + 1] == SizeMatchOf(s, x).Text()
    ensures SizeCaptured(SizeMatchOf(s, x))
  {
    var m := SizeMatchOf(s, x);
    TagScan.Chain(s, 0, 2, x.a, "![", m.alt);
    TagScan.Chain(s, 0, x.a, x.a + 2, "![" + m.alt, "](");
    TagScan.Chain(s, 0, x.a + 2, x.b, "![" + m.alt + "](", m.src);
    TagScan.Chain(s, 0, x.b, x.c, "![" + m.alt + "](" + m.src, m.spaces);
    TagScan.Chain(s, 0, x.c, x.c + 1, "![" + m.alt + "](" + m.src + m.spaces, "=");
    TagScan.Chain(s, 0, x.c + 1, x.d, "![" + m.alt + "](" + m.src + m.spaces + "=", m.dims);
    TagScan.Chain(s, 0, x.d, x.d + 1, "![" + m.alt + "](" + m.src + m.spaces + "=" + m.dims, ")");
    assert s[..x.d + 1] == s[0..x.d + 1];
    TagScan.SliceNoChar(s, 2, x.a, ']');
    TagScan.SliceNoChar(s, x.a + 2, x.b, ')');
    forall i | 0 <= i < |m.src| ensures !IsSpace(m.src[i]) {
      assert m.src[i] == s[x.a + 2 + i];
    }
    TagScan.SliceAllSpace(s, x.b, x.c);
    TagScan.SliceNoChar(s, x.c + 1, x.d, ')');
  }

  datatype SizePiece = Text(c: char) | Use(m: SizeMatch)

  function SizeStep(s: string): (r: (SizePiece, nat))
    requires s != []
    ensures 0 < r.1 <= |s|
    ensures r.0.Text? ==> s[..r.1] == [r.0.c]
    ensures r.0.Use? ==> s[..r.1] == r.0.m.Text() && SizeCaptured(r.0.m)
  {
    match SizeCutAt(s)
    case Some(x) =>
      SizeMatchSound(s, x);
      (Use(SizeMatchOf(s, x)), x.d + 1)
    case None => (Text(s[0]), 1)
  }

  /** `gsub`'s view of a part: uses of the syntax and the characters between them. */
  function SizeScan(s: string): seq<SizePiece>
    decreases |s|
  {
    if s == [] then []
    else
      var (p, n) := SizeStep(s);
      [p] + SizeScan(s[n..])
  }

  function SizeOriginal(ps: seq<SizePiece>): string {
    if ps == [] then []
    else (match ps[0] case Text(c) => [c] case Use(m) => m.Text()) + SizeOriginal(ps[1..])
  }

  function SizeRewritten(ps: seq<SizePiece>): string {
    if ps == [] then []
    else (match ps[0] case Text(c) => [c] case Use(m) => m.Rewritten()) + SizeRewritten(ps[1..])
  }

  /** The scan loses nothing. */
  lemma {:induction false} SizeScanOriginal(s: string)
    ensures SizeOriginal(SizeScan(s)) == s
    decreases |s|
  {
    if s != [] {
      var (p, n) := SizeStep(s);
      SizeScanOriginal(s[n..]);
      assert SizeScan(s) == [p] + SizeScan(s[n..]);
      assert ([p] + SizeScan(s[n..]))[1..] == SizeScan(s[n..]);
      Seqs.SplitAt(s, n);
    }
  }

  /** Where nothing uses the syntax, the rewrite gives the text back. */
  lemma {:induction false} NoUseUnchanged(ps: seq<SizePiece>)
    requires forall i :: 0 <= i < |ps| ==> ps[i].Text?
    ensures SizeRewritten(ps) == SizeOriginal(ps)
  {
    if ps != [] {
      NoUseUnchanged(ps[1..]);
    }
  }

  /** `part.gsub(...)` with the sizing rewrite. */
  function SizeImages(part: string): (r: string)
    ensures (forall i :: 0 <= i < |SizeScan(part)| ==> SizeScan(part)[i].Text?) ==> r == part
  {
    var ps := SizeScan(part);
    if forall i :: 0 <= i < |ps| ==> ps[i].Text? then
      NoUseUnchanged(ps);
      SizeScanOriginal(part);
      SizeRewritten(ps)
    else SizeRewritten(ps)
  }

  /** Where the groups of `m` end in `m.Text() + rest`. */
  function SizeCutOf(m: SizeMatch): SizeCut {
    var a := 2 + |m.alt|;
    var b := a + 2 + |m.src|;
    var c := b + |m.spaces|;
    SizeCut(a, b, c, c + 1 + |m.dims|)
  }

  /** `m.Text() + rest` written from the left, one group at a time. */
  function SizeThen(m: SizeMatch, rest: string): string {
    "![" + (m.alt + ("](" + (m.src + (m.spaces + ("=" + (m.dims + (")" + rest)))))))
  }

  lemma SizeTextThen(m: SizeMatch, rest: string)
    ensures m.Text() + rest == SizeThen(m, rest)
  {
  }

  /** What follows the source of `m`: its spaces, `=`, dimensions and `)`. */
  function SizeTailThen(m: SizeMatch, rest: string): string {
    m.spaces + ("=" + (m.dims + (")" + rest)))
  }

  /** Where the alt text and the source of `m` sit in `m.Text() + rest`. */
  lemma SizeHeadSlices(m: SizeMatch, rest: string)
    ensures var s, x := m.Text() + rest, SizeCutOf(m);
      && x.b <= |s|
      && s[0..2] == "![" && s[2..x.a] == m.alt && s[x.a..x.a + 2] == "](" && s[x.a + 2..x.b] == m.src
      && s[x.b..] == SizeTailThen(m, rest)
  {
    var s, x := m.Text() + rest, SizeCutOf(m);
    var t3 := m.src + SizeTailThen(m, rest);
    var t2 := "](" + t3;
    var t1 := m.alt + t2;
    SizeTextThen(m, rest);
    assert s[0..] == "![" + t1;
    Peel(s, 0, 2, "![", t1);
    Peel(s, 2, x.a, m.alt, t2);
    Peel(s, x.a, x.a + 2, "](", t3);
    Peel(s, x.a + 2, x.b, m.src, SizeTailThen(m, rest));
  }

  /** Reading the spaces, the dimensions and the `)` of `m` from where its source ends. */
  lemma SizeTailSlicesAt(s: string, x: SizeCut, m: SizeMatch, rest: string)
    requires x.b <= |s| && s[x.b..] == SizeTailThen(m, rest)
    requires x.c == x.b + |m.spaces| && x.d == x.c + 1 + |m.dims|
    ensures && x.d < |s|
      && s[x.b..x.c] == m.spaces && s[x.c] == '=' && s[x.c + 1..x.d] == m.dims && s[x.d] == ')'
      && s[x.d + 1..] == rest
  {
    var t7 := ")" + rest;
    var t6 := m.dims + t7;
    var t5 := "=" + t6;
    Peel(s, x.b, x.c, m.spaces, t5);
    Peel(s, x.c, x.c + 1, "=", t6);
    Peel(s, x.c + 1, x.d, m.dims, t7);
    Peel(s, x.d, x.d + 1, ")", rest);
    assert s[x.c] == s[x.c..x.c + 1][0];
    assert s[x.d] == s[x.d..x.d + 1][0];
  }

  /** Where the groups of `m` sit in `m.Text() + rest`. */
  lemma SizeSlices(m: SizeMatch, rest: string)
    ensures var s, x := m.Text() + rest, SizeCutOf(m);
      && x.d < |s|
      && s[0..2] == "![" && s[2..x.a] == m.alt && s[x.a..x.a + 2] == "](" && s[x.a + 2..x.b] == m.src
      && s[x.b..x.c] == m.spaces && s[x.c] == '=' && s[x.c + 1..x.d] == m.dims && s[x.d] == ')'
      && s[x.d + 1..] == rest
  {
    SizeHeadSlices(m, rest);
    SizeTailSlicesAt(m.Text() + rest, SizeCutOf(m), m, rest);
  }

  /** A slice without whitespace or `)` followed by whitespace ends where `SrcEnd` stops. */
  lemma SrcEndSlice(s: string, i: nat, j: nat, t: string)
    requires i <= j < |s| && s[i..j] == t && NoChar(t, ')') && IsSpace(s[j])
    requires forall k :: 0 <= k < |t| ==> !IsSpace(t[k])
    ensures SrcEnd(s, i) == j
  {
    forall k | i <= k < j ensures !IsSpace(s[k]) && s[k] != ')' { assert s[k] == t[k - i]; }
  }

  /** The first part of the pattern, up to the source, stops at the cut points of `m`. */
  lemma SizeHeadPositions(m: SizeMatch, rest: string)
    requires SizeCaptured(m)
    ensures var s, x := m.Text() + rest, SizeCutOf(m);
      && x.d < |s| && s[0] == '!' && s[1] == '['
      && IndexOf(s, ']', 2) == x.a && s[x.a + 1] == '('
      && SrcEnd(s, x.a + 2) == x.b && x.a + 2 < x.b && IsSpace(s[x.b])
  {
    var s, x := m.Text() + rest, SizeCutOf(m);
    SizeSlices(m, rest);
    assert s[0] == s[0..2][0] && s[1] == s[0..2][1];
    assert s[x.a] == s[x.a..x.a + 2][0] && s[x.a + 1] == s[x.a..x.a + 2][1];
    IndexOfSlice(s, 2, x.a, m.alt, ']');
    assert IsSpace(s[x.b]) by { assert s[x.b] == m.spaces[0]; }
    SrcEndSlice(s, x.a + 2, x.b, m.src);
  }

  /** The rest of the pattern, from the spaces on, stops at the cut points of `m`. */
  lemma SizeTailPositions(m: SizeMatch, rest: string)
    requires SizeCaptured(m)
    ensures var s, x := m.Text() + rest, SizeCutOf(m);
      && x.d < |s| && SkipSpaces(s, x.b) == x.c && s[x.c] == '='
      && IndexOf(s, ')', x.c + 1) == x.d && x.c + 1 < x.d
  {
    var s, x := m.Text() + rest, SizeCutOf(m);
    SizeSlices(m, rest);
    SkipSpacesSlice(s, x.b, x.c, m.spaces);
    IndexOfSlice(s, x.c + 1, x.d, m.dims, ')');
  }

  /** The sizing pattern, applied where a use `m` starts, finds the cut points of `m`. */
  lemma SizeCutOfText(m: SizeMatch, rest: string)
    requires SizeCaptured(m)
    ensures SizeCutAt(m.Text() + rest) == Some(SizeCutOf(m))
  {
    SizeHeadPositions(m, rest);
    SizeTailPositions(m, rest);
  }

  /** The groups read at the cut points of `m` are the fields of `m`. */
  lemma SizeOfText(m: SizeMatch, rest: string)
    ensures SizeCutFits(m.Text() + rest, SizeCutOf(m)) ==>
      SizeMatchOf(m.Text() + rest, SizeCutOf(m)) == m
    ensures SizeCutOf(m).d + 1 == |m.Text()|
  {
    SizeSlices(m, rest);
  }

  /** The sizing pattern, applied where a use `m` starts, takes exactly `m`:
      the alt text, the source, the spaces and the dimensions are the ones
      `m` holds. */
  lemma SizeStepRecognizes(m: SizeMatch, rest: string)
    requires SizeCaptured(m)
    ensures SizeStep(m.Text() + rest) == (Use(m), |m.Text()|)
  {
    SizeCutOfText(m, rest);
    SizeOfText(m, rest);
  }

  /** A use of the syntax at the start of a part is rewritten to the image
      followed by its marker, and the scan goes on after it. */
  lemma SizeImagesUse(m: SizeMatch, rest: string)
    requires SizeCaptured(m)
    ensures SizeImages(m.Text() + rest) == m.Rewritten() + SizeImages(rest)
  {
    var s := m.Text() + rest;
    SizeStepRecognizes(m, rest);
    assert s[|m.Text()|..] == rest;
    assert SizeScan(s) == [Use(m)] + SizeScan(rest);
    assert ([Use(m)] + SizeScan(rest))[1..] == SizeScan(rest);
  }

  // ---------------------------------------------------------------------
  // Lines and inline code

  /** `line =~ /^(```|~~~)/` for a line without line breaks. */
  predicate IsFence(line: string) {
    StartsWith(line, "```") || StartsWith(line, "~~~")
  }

  /** `part =~ /^`+$/` */
  predicate IsTicks(part: string) {
    part != [] && forall i :: 0 <= i < |part| ==> part[i] == '`'
  }

  /** The end of the run of backticks (or of other characters) starting at `from`. */
  function RunEnd(s: string, from: nat, ticks: bool): (r: nat)
    requires from <= |s|
    ensures from <= r <= |s|
    ensures forall k :: from <= k < r ==> (s[k] == '`') == ticks
    ensures r < |s| ==> (s[r] == '`') != ticks
    decreases |s| - from
  {
    if from == |s| || (s[from] == '`') != ticks then from else RunEnd(s, from + 1, ticks)
  }

  /** `line.split(/(`+)/)`: runs of backticks and the text between them.
      Ruby also yields an empty first field when the line starts with a
      backtick; it changes neither the output nor the inline-code state. */
  function TickParts(s: string): (r: seq<string>)
    ensures forall i :: 0 <= i < |r| ==> r[i] != [] && (IsTicks(r[i]) || NoChar(r[i], '`'))
    decreases |s|
  {
    if s == [] then []
    else
      var e := RunEnd(s, 0, s[0] == '`');
      assert e > 0;
      var part := s[..e];
      assert IsTicks(part) || NoChar(part, '`') by {
        if s[0] == '`' {
          assert forall k :: 0 <= k < e ==> part[k] == s[k];
        } else {
          TagScan.SliceNoChar(s, 0, e, '`');
          assert s[0..e] == part;
        }
      }
      [part] + TickParts(s[e..])
  }

  lemma {:induction false} TickPartsConcat(s: string)
    ensures Concat(TickParts(s)) == s
    decreases |s|
  {
    if s != [] {
      var e := RunEnd(s, 0, s[0] == '`');
      TickPartsConcat(s[e..]);
      var ps := TickParts(s);
      assert ps == [s[..e]] + TickParts(s[e..]);
      assert ps[1..] == TickParts(s[e..]);
      Seqs.SplitAt(s, e);
    }
  }

  /** Whether inline code is open after the parts. */
  function InlineAfter(parts: seq<string>): bool {
    if parts == [] then false
    else InlineAfter(parts[..|parts| - 1]) != IsTicks(parts[|parts| - 1])
  }

  function PartOut(part: string, inCode: bool): string {
    if IsTicks(part) || inCode then part else SizeImages(part)
  }

  /** `processed_parts.join` for the first parts. */
  function PartsText(parts: seq<string>): string {
    if parts == [] then []
    else
      var init := parts[..|parts| - 1];
      PartsText(init) + PartOut(parts[|parts| - 1], InlineAfter(init))
  }

  function PartsOriginal(parts: seq<string>): string {
    if parts == [] then [] else PartsOriginal(parts[..|parts| - 1]) + parts[|parts| - 1]
  }

  /** Backtick runs and the parts inside inline code come out as they went in,
      so only the parts outside code can differ. */
  lemma {:induction false} PartsOutsideCode(parts: seq<string>)
    requires OutsideUnchanged(parts)
    ensures PartsText(parts) == PartsOriginal(parts)
  {
    if parts != [] {
      var n := |parts| - 1;
      var init := parts[..n];
      OutsideUnchangedInit(parts);
      PartsOutsideCode(init);
      OutsideUnchangedLast(parts);
    }
  }

  /** Every part outside inline code is left alone by the sizing rewrite. */
  predicate OutsideUnchanged(parts: seq<string>) {
    forall i :: 0 <= i < |parts| && !IsTicks(parts[i]) && !InlineAfter(parts[..i]) ==>
      SizeImages(parts[i]) == parts[i]
  }

  lemma OutsideUnchangedInit(parts: seq<string>)
    requires parts != [] && OutsideUnchanged(parts)
    ensures OutsideUnchanged(parts[..|parts| - 1])
  {
    var init := parts[..|parts| - 1];
    forall i | 0 <= i < |init| && !IsTicks(init[i]) && !InlineAfter(init[..i])
      ensures SizeImages(init[i]) == init[i]
    {
      assert init[..i] == parts[..i];
    }
  }

  lemma OutsideUnchangedLast(parts: seq<string>)
    requires parts != [] && OutsideUnchanged(parts)
    ensures PartsText(parts) == PartsText(parts[..|parts| - 1]) + parts[|parts| - 1]
    ensures PartsOriginal(parts) == PartsOriginal(parts[..|parts| - 1]) + parts[|parts| - 1]
  {
    var n := |parts| - 1;
    var init, last := parts[..n], parts[n];
    assert PartsText(parts) == PartsText(init) + PartOut(last, InlineAfter(init));
    if !IsTicks(last) && !InlineAfter(init) {
      assert SizeImages(parts[n]) == parts[n];
    }
    assert PartOut(last, InlineAfter(init)) == last;
  }

  /** The rewrite of a line outside a fence. */
  function LineText(line: string): string {
    PartsText(TickParts(line))
  }

  /** Whether a fence is open after the lines. */
  function FenceAfter(lines: seq<string>): bool {
    if lines == [] then false
    else FenceAfter(lines[..|lines| - 1]) != IsFence(lines[|lines| - 1])
  }

  function LineOut(line: string, inFence: bool): string {
    if IsFence(line) || inFence then line else LineText(line)
  }

  /** `processed_lines` for the first lines. */
  function LinesOut(lines: seq<string>): (r: seq<string>)
    ensures |r| == |lines|
  {
    if lines == [] then []
    else
      var init := lines[..|lines| - 1];
      LinesOut(init) + [LineOut(lines[|lines| - 1], FenceAfter(init))]
  }

  /** Each line comes out as the fence state before it decides. */
  lemma {:induction false} LinesOutAt(lines: seq<string>, i: nat)
    requires i < |lines|
    ensures LinesOut(lines)[i] == LineOut(lines[i], FenceAfter(lines[..i]))
  {
    var n := |lines| - 1;
    var init := lines[..n];
    assert LinesOut(lines) == LinesOut(init) + [LineOut(lines[n], FenceAfter(init))];
    if i < n {
      assert LinesOut(lines)[i] == LinesOut(init)[i];
      assert init[..i] == lines[..i] && init[i] == lines[i];
      LinesOutAt(init, i);
    } else {
      assert lines[..i] == init;
    }
  }

  /** Fence lines and every line inside a fence come out unchanged. */
  lemma FencedLinesUnchanged(lines: seq<string>, i: nat)
    requires i < |lines| && (IsFence(lines[i]) || FenceAfter(lines[..i]))
    ensures LinesOut(lines)[i] == lines[i]
  {
    LinesOutAt(lines, i);
  }

  /** Outside a fence a line is rewritten part by part. */
  lemma OpenLinesRewritten(lines: seq<string>, i: nat)
    requires i < |lines| && !IsFence(lines[i]) && !FenceAfter(lines[..i])
    ensures LinesOut(lines)[i] == LineText(lines[i])
  {
    LinesOutAt(lines, i);
  }

  // ---------------------------------------------------------------------
  // The pre-render hook

  /** `.*?` positions: no line break between `i` and `j`. */
  predicate OneLine(s: string, i: nat, j: nat)
    requires i <= j <= |s|
  {
    forall k :: i <= k < j ==> s[k] != '\n'
  }

  /** `/!\[.*?\]\(.*?\s+=.*?\)/` matches with `![` at `i`, `](` at `j`, the
      spaces from `k` to `l`, `=` at `l` and `)` at `m`. */
  predicate SizingAt(s: string, i: nat, j: nat, k: nat, l: nat, m: nat) {
    && i + 2 <= j && j + 2 <= k < l < m < |s|
    && s[i] == '!' && s[i + 1] == '[' && OneLine(s, i + 2, j)
    && s[j] == ']' && s[j + 1] == '(' && OneLine(s, j + 2, k)
    && (forall p :: k <= p < l ==> IsSpace(s[p]))
    && s[l] == '=' && OneLine(s, l + 1, m) && s[m] == ')'
  }

  predicate HasSizingSyntax(s: string) {
    exists i, j, k, l, m | 0 <= i < j < k < l < m < |s| :: SizingAt(s, i, j, k, l, m)
  }

  /** The content the pre-render hook leaves. */
  function PreRendered(content: string): (r: string)
    ensures !HasSizingSyntax(content) ==> r == content
  {
    if !HasSizingSyntax(content) then content
    else Join(LinesOut(SplitRuby(content, '\n')), "\n")
  }

  /** The part of a post the hooks read and write. */
  class Post {
    var content: string
    var output: string

    constructor (content: string, output: string)
      ensures this.content == content && this.output == output
    {
      this.content := content;
      this.output := output;
    }
  }

  /** The inline-code loop over the parts of one line. */
  method ProcessLine(line: string) returns (r: string)
    ensures r == LineText(line)
  {
    var parts := TickParts(line);
    var inCode := false;
    r := "";
    for i := 0 to |parts|
      invariant inCode == InlineAfter(parts[..i])
      invariant r == PartsText(parts[..i])
    {
      Seqs.PrefixSnoc(parts, i);
      var part := parts[i];
      assert PartsText(parts[..i + 1]) == r + PartOut(part, inCode);
      assert InlineAfter(parts[..i + 1]) == (inCode != IsTicks(part));
      if IsTicks(part) {
        inCode := !inCode;
        r := r + part;
      } else if inCode {
        r := r + part;
      } else {
        r := r + SizeImages(part);
      }
    }
    Seqs.Whole(parts);
  }

  /** The fence loop over the lines. */
  method ProcessLines(lines: seq<string>) returns (out: seq<string>)
    ensures out == LinesOut(lines)
  {
    var inFence := false;
    out := [];
    for i := 0 to |lines|
      invariant inFence == FenceAfter(lines[..i])
      invariant out == LinesOut(lines[..i])
    {
      Seqs.PrefixSnoc(lines, i);
      var line := lines[i];
      if IsFence(line) {
        inFence := !inFence;
        out := out + [line];
      } else if inFence {
        out := out + [line];
      } else {
        var processed := ProcessLine(line);
        out := out + [processed];
      }
    }
    Seqs.Whole(lines);
  }

  /** The `:posts, :pre_render` hook. */
  method PreRender(post: Post)
    modifies post
    ensures post.content == PreRendered(old(post.content))
    ensures post.output == old(post.output)
  {
    if !HasSizingSyntax(post.content) {
      return;
    }
    var lines := SplitRuby(post.content, '\n');
    var processed := ProcessLines(lines);
    post.content := Join(processed, "\n");
  }

  // ---------------------------------------------------------------------
  // The marker  (<p>)?<img\s+([^>]*)><!-- IMG_SIZE:([^:]+):([^\s]+) -->(<\/p>)?

  /** One match: pOpen "<img" gap attrs ">" MarkerOpen width ":" height MarkerClose pClose */
  datatype SizedImg = SizedImg(pOpen: string, gap: string, attrs: string, width: string, height: string, pClose: string)
  {
    function Text(): string {
      Tag() + Comment()
    }

    /** The image tag, with the paragraph tag before it. */
    function Tag(): string {
      pOpen + "<img" + gap + attrs + ">"
    }

    /** The marker, with the paragraph end tag after it. */
    function Comment(): string {
      MarkerOpen + width + ":" + height + MarkerClose + pClose
    }

    /** `"#{p_open}<img #{new_attrs}>#{p_close}"` */
    function Rewritten(): string {
      pOpen + "<img " + attrs + SizeAttr("width", width) + SizeAttr("height", height) + ">" + pClose
    }
  }

  /** ` NAME="V"`, or nothing for `auto`. */
  function SizeAttr(name: string, v: string): string {
    if v == "auto" then "" else " " + name + "=\"" + v + "\""
  }

  predicate SizedCaptured(m: SizedImg) {
    && (m.pOpen == "" || m.pOpen == "<p>")
    && m.gap != [] && AllSpace(m.gap)
    && NoChar(m.attrs, '>')
    && m.width != [] && NoChar(m.width, ':')
    && m.height != [] && (forall i :: 0 <= i < |m.height| ==> !IsSpace(m.height[i]))
    && (m.pClose == "" || m.pClose == "</p>")
  }

  /** The first whitespace at or after `from`, or `|s|`. */
  function SpaceAt(s: string, from: nat): (r: nat)
    requires from <= |s|
    ensures from <= r <= |s|
    ensures r < |s| ==> IsSpace(s[r])
    ensures forall k :: from <= k < r ==> !IsSpace(s[k])
    decreases |s| - from
  {
    if from == |s| || IsSpace(s[from]) then from else SpaceAt(s, from + 1)
  }

  /** Cut points of a match starting at `r` (after an optional `<p>`): the
      spaces after `<img` end at `k`, `>` is at `g`, the width ends at `c`,
      the height at `e`, and the match (with `</p>` when present) at `z`. */
  datatype MarkCut = MarkCut(r: nat, k: nat, g: nat, c: nat, e: nat, z: nat)

  /** The cut points are in order and inside `s`. */
  predicate MarkCutOrdered(s: string, x: MarkCut) {
    x.r + 4 < x.k <= x.g && x.g + 15 < x.c && x.c + 1 < x.e && x.e + 4 <= x.z <= |s|
  }

  predicate MarkCutFits(s: string, x: MarkCut) {
    && MarkCutOrdered(s, x)
    && (x.r == 0 || (x.r == 3 && s[..3] == "<p>"))
    && s[x.r..x.r + 4] == "<img"
    && (forall i :: x.r + 4 <= i < x.k ==> IsSpace(s[i]))
    && (forall i :: x.k <= i < x.g ==> s[i] != '>')
    && s[x.g] == '>'
    && s[x.g + 1..x.g + 15] == MarkerOpen
    && (forall i :: x.g + 15 <= i < x.c ==> s[i] != ':')
    && s[x.c] == ':'
    && (forall i :: x.c + 1 <= i < x.e ==> !IsSpace(s[i]))
    && s[x.e..x.e + 4] == MarkerClose
    && (x.z == x.e + 4 || (x.z == x.e + 8 && s[x.e + 4..x.z] == "</p>"))
  }

  /** The rest of the pattern from `<img` at `r`.  Every group is forced:
      the attributes run to the first `>`, the width to the first `:`, the
      height to the first space; `</p>` is taken when it follows. */
  function MarkCutFrom(s: string, r: nat): (x: Option<MarkCut>)
    ensures x.Some? ==> x.value.r == r
  {
    if !(r + 5 <= |s| && s[r..r + 4] == "<img" && IsSpace(s[r + 4])) then None
    else
      var k := SkipSpaces(s, r + 4);
      MarkCutMarker(s, r, k, IndexOf(s, '>', k))
  }

  /** From the `>` at `g`: the marker opening, then the width up to `:`. */
  function MarkCutMarker(s: string, r: nat, k: nat, g: nat): (x: Option<MarkCut>)
    ensures x.Some? ==> x.value.r == r && x.value.k == k && x.value.g == g
  {
    if !(g + 15 <= |s| && s[g + 1..g + 15] == MarkerOpen) then None
    else
      var c := IndexOf(s, ':', g + 15);
      if !(g + 15 < c < |s|) then None
      else MarkCutClose(s, r, k, g, c, SpaceAt(s, c + 1))
  }

  /** From the end `e` of the height: the marker close and the optional `</p>`. */
  function MarkCutClose(s: string, r: nat, k: nat, g: nat, c: nat, e: nat): (x: Option<MarkCut>)
    ensures x.Some? ==> x.value == MarkCut(r, k, g, c, e, x.value.z)
  {
    if !(c + 1 < e && e + 4 <= |s| && s[e..e + 4] == MarkerClose) then None
    else
      var z := if e + 8 <= |s| && s[e + 4..e + 8] == "</p>" then e + 8 else e + 4;
      Some(MarkCut(r, k, g, c, e, z))
  }

  /** The greedy `(<p>)?`: with the paragraph tag when the text starts with
      it, without otherwise. */
  function MarkCutAt(s: string): (x: Option<MarkCut>)
    ensures x.Some? ==> MarkCutFits(s, x.value)
  {
    var r := if StartsWith(s, "<p>") then 3 else 0;
    var x := MarkCutFrom(s, r);
    if x.Some? then
      MarkCutFromFits(s, r);
      x
    else x
  }

  lemma MarkCutFromFits(s: string, r: nat)
    requires r == 0 || (r == 3 && StartsWith(s, "<p>"))
    requires MarkCutFrom(s, r).Some?
    ensures MarkCutFits(s, MarkCutFrom(s, r).value)
  {
    var x := MarkCutFrom(s, r).value;
    assert s[x.r..x.r + 4] == "<img";
    assert s[x.g + 1..x.g + 15] == MarkerOpen;
    assert s[x.e..x.e + 4] == MarkerClose;
  }

  function SizedOf(s: string, x: MarkCut): SizedImg
    requires MarkCutOrdered(s, x)
  {
    SizedImg(s[..x.r], s[x.r + 4..x.k], s[x.k..x.g], s[x.g + 15..x.c], s[x.c + 1..x.e], s[x.e + 4..x.z])
  }

  lemma SizedSound(s: string, x: MarkCut)
    requires MarkCutFits(s, x)
    ensures s[..x.z] == SizedOf(s, x).Text()
    ensures SizedCaptured(SizedOf(s, x))
  {
    var m := SizedOf(s, x);
    SizedTag(s, x);
    SizedComment(s, x);
    TagScan.Chain(s, 0, x.g + 1, x.z, m.Tag(), m.Comment());
    assert s[..x.z] == s[0..x.z];
    SizedGroups(s, x);
  }

  lemma SizedGroups(s: string, x: MarkCut)
    requires MarkCutFits(s, x)
    ensures SizedCaptured(SizedOf(s, x))
  {
    var m := SizedOf(s, x);
    assert m.pOpen == s[..x.r];
    assert m.pClose == s[x.e + 4..x.z];
    TagScan.SliceAllSpace(s, x.r + 4, x.k);
    TagScan.SliceNoChar(s, x.k, x.g, '>');
    TagScan.SliceNoChar(s, x.g + 15, x.c, ':');
    forall i | 0 <= i < |m.height| ensures !IsSpace(m.height[i]) {
      assert m.height[i] == s[x.c + 1 + i];
    }
  }

  lemma SizedTag(s: string, x: MarkCut)
    requires MarkCutFits(s, x)
    ensures s[0..x.g + 1] == SizedOf(s, x).Tag()
  {
    var m := SizedOf(s, x);
    assert s[..x.r] == s[0..x.r];
    var t1 := m.pOpen + "<img";
    TagScan.Chain(s, 0, x.r, x.r + 4, m.pOpen, "<img");
    var t2 := t1 + m.gap;
    TagScan.Chain(s, 0, x.r + 4, x.k, t1, m.gap);
    var t3 := t2 + m.attrs;
    TagScan.Chain(s, 0, x.k, x.g, t2, m.attrs);
    TagScan.Chain(s, 0, x.g, x.g + 1, t3, ">");
  }

  lemma SizedComment(s: string, x: MarkCut)
    requires MarkCutFits(s, x)
    ensures s[x.g + 1..x.z] == SizedOf(s, x).Comment()
  {
    var m := SizedOf(s, x);
    var g := x.g + 1;
    var t1 := MarkerOpen + m.width;
    TagScan.Chain(s, g, x.g + 15, x.c, MarkerOpen, m.width);
    var t2 := t1 + ":";
    TagScan.Chain(s, g, x.c, x.c + 1, t1, ":");
    var t3 := t2 + m.height;
    TagScan.Chain(s, g, x.c + 1, x.e, t2, m.height);
    var t4 := t3 + MarkerClose;
    TagScan.Chain(s, g, x.e, x.e + 4, t3, MarkerClose);
    TagScan.Chain(s, g, x.e + 4, x.z, t4, m.pClose);
  }

  /** The cut points of a match `m` at the start of `m.Text() + rest`. */
  function CutOf(m: SizedImg): MarkCut {
    var r := |m.pOpen|;
    var k := r + 4 + |m.gap|;
    var g := k + |m.attrs|;
    var c := g + 15 + |m.width|;
    var e := c + 1 + |m.height|;
    MarkCut(r, k, g, c, e, e + 4 + |m.pClose|)
  }

  /** The marker of `m` followed by `rest`, nested to the right so that it
      can be read one piece at a time. */
  function CommentThen(m: SizedImg, rest: string): string {
    MarkerOpen + (m.width + (":" + (m.height + (MarkerClose + (m.pClose + rest)))))
  }

  /** The tag of `m` followed by `u`, nested to the right. */
  function TagThen(m: SizedImg, u: string): string {
    m.pOpen + ("<img" + (m.gap + (m.attrs + (">" + u))))
  }

  lemma TextThen(m: SizedImg, rest: string)
    ensures m.Text() + rest == TagThen(m, CommentThen(m, rest))
  {
    var u := m.Comment() + rest;
    assert m.Text() + rest == m.Tag() + u;
    assert u == CommentThen(m, rest);
    assert m.Tag() + u == TagThen(m, u);
  }

  /** When `s` from `i` on is `p` then `tail`, `p` sits from `i` to `j`. */
  lemma Peel(s: string, i: nat, j: nat, p: string, tail: string)
    requires i <= |s| && j == i + |p| && s[i..] == p + tail
    ensures j <= |s| && s[i..j] == p && s[j..] == tail
  {
    assert s[i..][..|p|] == p;
    assert s[i..][|p|..] == tail;
  }

  /** Where the groups of `m` sit in `m.Text() + rest`: the tag half. */
  lemma SizedTagSlices(m: SizedImg, rest: string)
    ensures var s, x := m.Text() + rest, CutOf(m);
      && x.g < |s|
      && s[..x.r] == m.pOpen && s[x.r..x.r + 4] == "<img" && s[x.r + 4..x.k] == m.gap
      && s[x.k..x.g] == m.attrs && s[x.g] == '>' && s[x.g + 1..] == CommentThen(m, rest)
  {
    var s, x := m.Text() + rest, CutOf(m);
    var u := CommentThen(m, rest);
    var t4 := ">" + u;
    var t3 := m.attrs + t4;
    var t2 := m.gap + t3;
    var t1 := "<img" + t2;
    TextThen(m, rest);
    assert s[0..] == m.pOpen + t1;
    Peel(s, 0, x.r, m.pOpen, t1);
    Peel(s, x.r, x.r + 4, "<img", t2);
    Peel(s, x.r + 4, x.k, m.gap, t3);
    Peel(s, x.k, x.g, m.attrs, t4);
    Peel(s, x.g, x.g + 1, ">", u);
    assert s[x.g] == s[x.g..x.g + 1][0];
  }

  /** Reading the marker of `m` where it starts, after the `>` at `x.g`. */
  lemma CommentSlicesAt(s: string, x: MarkCut, m: SizedImg, rest: string)
    requires x.g + 1 <= |s| && s[x.g + 1..] == CommentThen(m, rest)
    requires x.c == x.g + 15 + |m.width| && x.e == x.c + 1 + |m.height| && x.z == x.e + 4 + |m.pClose|
    ensures && x.z <= |s|
      && s[x.g + 1..x.g + 15] == MarkerOpen && s[x.g + 15..x.c] == m.width && s[x.c] == ':'
      && s[x.c + 1..x.e] == m.height && s[x.e..x.e + 4] == MarkerClose
      && s[x.e + 4..x.z] == m.pClose && s[x.z..] == rest
  {
    var t10 := m.pClose + rest;
    var t9 := MarkerClose + t10;
    var t8 := m.height + t9;
    var t7 := ":" + t8;
    var t6 := m.width + t7;
    Peel(s, x.g + 1, x.g + 15, MarkerOpen, t6);
    Peel(s, x.g + 15, x.c, m.width, t7);
    Peel(s, x.c, x.c + 1, ":", t8);
    Peel(s, x.c + 1, x.e, m.height, t9);
    Peel(s, x.e, x.e + 4, MarkerClose, t10);
    Peel(s, x.e + 4, x.z, m.pClose, rest);
    assert s[x.c] == s[x.c..x.c + 1][0];
  }

  /** Where the groups of `m` sit in `m.Text() + rest`: the marker half. */
  lemma SizedCommentSlices(m: SizedImg, rest: string)
    ensures var s, x := m.Text() + rest, CutOf(m);
      && x.z <= |s|
      && s[x.g + 1..x.g + 15] == MarkerOpen && s[x.g + 15..x.c] == m.width && s[x.c] == ':'
      && s[x.c + 1..x.e] == m.height && s[x.e..x.e + 4] == MarkerClose
      && s[x.e + 4..x.z] == m.pClose && s[x.z..] == rest
  {
    SizedTagSlices(m, rest);
    CommentSlicesAt(m.Text() + rest, CutOf(m), m, rest);
  }

  /** A slice without `c` followed by `c` ends at the first `c`. */
  lemma IndexOfSlice(s: string, i: nat, j: nat, t: string, c: char)
    requires i <= j < |s| && s[i..j] == t && NoChar(t, c) && s[j] == c
    ensures IndexOf(s, c, i) == j
  {
    forall k | i <= k < j ensures s[k] != c { assert s[k] == t[k - i]; }
  }

  /** A run of whitespace followed by something else ends where `SkipSpaces` stops. */
  lemma SkipSpacesSlice(s: string, i: nat, j: nat, t: string)
    requires i <= j < |s| && s[i..j] == t && AllSpace(t) && !IsSpace(s[j])
    ensures SkipSpaces(s, i) == j
  {
    forall k | i <= k < j ensures IsSpace(s[k]) { assert s[k] == t[k - i]; }
  }

  /** A slice without whitespace followed by whitespace ends where `SpaceAt` stops. */
  lemma SpaceAtSlice(s: string, i: nat, j: nat, t: string)
    requires i <= j < |s| && s[i..j] == t && (forall k :: 0 <= k < |t| ==> !IsSpace(t[k])) && IsSpace(s[j])
    ensures SpaceAt(s, i) == j
  {
    forall k | i <= k < j ensures !IsSpace(s[k]) { assert s[k] == t[k - i]; }
  }

  /** The tag part of the post-render pattern stops at the cut points `x`. */
  predicate TagAt(s: string, x: MarkCut)
  {
    x.r + 4 < x.k <= x.g < |s| && s[x.r..x.r + 4] == "<img" && IsSpace(s[x.r + 4]) &&
    SkipSpaces(s, x.r + 4) == x.k && IndexOf(s, '>', x.k) == x.g
  }

  /** The marker part of the post-render pattern stops at the cut points `x`. */
  predicate CommentAt(s: string, x: MarkCut)
  {
    x.g + 15 < x.c < |s| && x.c + 1 < x.e && x.e + 4 <= |s| &&
    s[x.g + 1..x.g + 15] == MarkerOpen && IndexOf(s, ':', x.g + 15) == x.c &&
    SpaceAt(s, x.c + 1) == x.e && s[x.e..x.e + 4] == MarkerClose
  }

  /** The optional `</p>` of the post-render pattern ends at `x.z`. */
  predicate CloseAt(s: string, x: MarkCut)
  {
    x.e + 4 <= |s| &&
    x.z == if x.e + 8 <= |s| && s[x.e + 4..x.e + 8] == "</p>" then x.e + 8 else x.e + 4
  }

  /** `MarkCutFrom` read off at given positions: each group ends where the
      pattern's scan for it stops. */
  lemma MarkCutFromParts(s: string, x: MarkCut)
    requires TagAt(s, x) && CommentAt(s, x) && CloseAt(s, x)
    ensures MarkCutFrom(s, x.r) == Some(x)
  {
    CloseFrom(s, x.r, x.k, x.g, x.c, x.e, x.z);
    MarkerFrom(s, x.r, x.k, x.g, x.c, x.e, x.z);
    TagFrom(s, x.r, x.k, x.g, MarkCut(x.r, x.k, x.g, x.c, x.e, x.z));
  }

  lemma CloseFrom(s: string, r: nat, k: nat, g: nat, c: nat, e: nat, z: nat)
    requires c + 1 < e && e + 4 <= |s| && s[e..e + 4] == MarkerClose
    requires z == if e + 8 <= |s| && s[e + 4..e + 8] == "</p>" then e + 8 else e + 4
    ensures MarkCutClose(s, r, k, g, c, e) == Some(MarkCut(r, k, g, c, e, z))
  {
  }

  lemma MarkerFrom(s: string, r: nat, k: nat, g: nat, c: nat, e: nat, z: nat)
    requires g + 15 < c < |s| && s[g + 1..g + 15] == MarkerOpen && IndexOf(s, ':', g + 15) == c
    requires SpaceAt(s, c + 1) == e && MarkCutClose(s, r, k, g, c, e) == Some(MarkCut(r, k, g, c, e, z))
    ensures MarkCutMarker(s, r, k, g) == Some(MarkCut(r, k, g, c, e, z))
  {
  }

  lemma TagFrom(s: string, r: nat, k: nat, g: nat, x: MarkCut)
    requires r + 5 <= |s| && s[r..r + 4] == "<img" && IsSpace(s[r + 4])
    requires SkipSpaces(s, r + 4) == k && IndexOf(s, '>', k) == g
    requires MarkCutMarker(s, r, k, g) == Some(x)
    ensures MarkCutFrom(s, r) == Some(x)
  {
  }

  /** The end of a match: `</p>` is taken exactly when `m` has it. */
  lemma MarkCloseAt(m: SizedImg, rest: string)
    requires m.pClose == "" || m.pClose == "</p>"
    requires m.pClose == "" ==> !StartsWith(rest, "</p>")
    ensures CloseAt(m.Text() + rest, CutOf(m))
  {
    var s, x := m.Text() + rest, CutOf(m);
    SizedCommentSlices(m, rest);
    if m.pClose == "" && x.e + 8 <= |s| {
      assert s[x.e + 4..x.e + 8] == rest[..4];
    }
  }

  /** Where the `<img` of `m` starts, the tag part of the pattern stops at the
      cut points of `m`. */
  lemma MarkTagPositions(m: SizedImg, rest: string)
    requires SizedCaptured(m) && (m.attrs == [] || !IsSpace(m.attrs[0]))
    ensures TagAt(m.Text() + rest, CutOf(m))
  {
    var s := m.Text() + rest;
    var x := CutOf(m);
    SizedTagSlices(m, rest);
    assert IsSpace(s[x.r + 4]) by { assert s[x.r + 4] == m.gap[0]; }
    assert !IsSpace(s[x.k]) by { if x.k < x.g { assert s[x.k] == m.attrs[0]; } }
    SkipSpacesSlice(s, x.r + 4, x.k, m.gap);
    IndexOfSlice(s, x.k, x.g, m.attrs, '>');
  }

  /** After the marker opening, the scan for `:` stops at the end of the width. */
  lemma MarkWidthEnd(m: SizedImg, rest: string)
    requires m.width != [] && NoChar(m.width, ':')
    ensures var s, x := m.Text() + rest, CutOf(m);
      x.g + 15 < x.c < |s| && IndexOf(s, ':', x.g + 15) == x.c
  {
    SizedCommentSlices(m, rest);
    IndexOfSlice(m.Text() + rest, CutOf(m).g + 15, CutOf(m).c, m.width, ':');
  }

  /** After the `:`, the scan for whitespace stops at the end of the height. */
  lemma MarkHeightEnd(m: SizedImg, rest: string)
    requires m.height != [] && forall i :: 0 <= i < |m.height| ==> !IsSpace(m.height[i])
    ensures var s, x := m.Text() + rest, CutOf(m);
      x.c + 1 < x.e && x.e + 4 <= |s| && SpaceAt(s, x.c + 1) == x.e && s[x.e..x.e + 4] == MarkerClose
  {
    var s, x := m.Text() + rest, CutOf(m);
    SizedCommentSlices(m, rest);
    assert IsSpace(s[x.e]) by { assert s[x.e] == s[x.e..x.e + 4][0]; }
    SpaceAtSlice(s, x.c + 1, x.e, m.height);
  }

  /** After the `>` of `m`, the marker part of the pattern stops at the cut
      points of `m`. */
  lemma MarkCommentPositions(m: SizedImg, rest: string)
    requires SizedCaptured(m)
    ensures CommentAt(m.Text() + rest, CutOf(m))
  {
    SizedCommentSlices(m, rest);
    MarkWidthEnd(m, rest);
    MarkHeightEnd(m, rest);
  }

  lemma MarkCutFromText(m: SizedImg, rest: string)
    requires SizedCaptured(m) && (m.attrs == [] || !IsSpace(m.attrs[0]))
    requires m.pClose == "" ==> !StartsWith(rest, "</p>")
    ensures MarkCutFrom(m.Text() + rest, |m.pOpen|) == Some(CutOf(m))
  {
    MarkTagPositions(m, rest);
    MarkCommentPositions(m, rest);
    MarkCloseAt(m, rest);
    MarkCutFromParts(m.Text() + rest, CutOf(m));
  }

  /** The post-render pattern, applied where a match `m` starts, finds the cut
      points of `m`.  The attributes may not start with whitespace (the gap
      would take it), and without `</p>` in `m` the text after it must not
      start with `</p>` (the pattern would take it). */
  lemma MarkCutOfText(m: SizedImg, rest: string)
    requires SizedCaptured(m) && (m.attrs == [] || !IsSpace(m.attrs[0]))
    requires m.pClose == "" ==> !StartsWith(rest, "</p>")
    ensures MarkCutAt(m.Text() + rest) == Some(CutOf(m))
  {
    var s := m.Text() + rest;
    SizedTagSlices(m, rest);
    assert StartsWith(s, "<p>") <==> m.pOpen == "<p>" by {
      if m.pOpen == "" { assert s[1] == "<img"[1]; }
    }
    MarkCutFromText(m, rest);
  }

  /** The groups read at the cut points of `m` are the fields of `m`. */
  lemma SizedOfText(m: SizedImg, rest: string)
    requires m.gap != [] && m.width != [] && m.height != []
    ensures MarkCutOrdered(m.Text() + rest, CutOf(m))
    ensures SizedOf(m.Text() + rest, CutOf(m)) == m
    ensures CutOf(m).z == |m.Text()|
  {
    var s, x := m.Text() + rest, CutOf(m);
    SizedTagSlices(m, rest);
    SizedCommentSlices(m, rest);
    var pOpen, gap, attrs := s[..x.r], s[x.r + 4..x.k], s[x.k..x.g];
    var width, height, pClose := s[x.g + 15..x.c], s[x.c + 1..x.e], s[x.e + 4..x.z];
    assert pOpen == m.pOpen && gap == m.gap && attrs == m.attrs;
    assert width == m.width && height == m.height && pClose == m.pClose;
    assert SizedOf(s, x) == SizedImg(pOpen, gap, attrs, width, height, pClose);
  }

  /** The post-render pattern, applied where a match `m` starts, takes exactly
      `m`: the paragraph tags, the whitespace after `<img`, the attributes, the
      width and the height are the ones `m` holds. */
  lemma MarkStepRecognizes(m: SizedImg, rest: string)
    requires SizedCaptured(m) && (m.attrs == [] || !IsSpace(m.attrs[0]))
    requires m.pClose == "" ==> !StartsWith(rest, "</p>")
    ensures MarkStep(m.Text() + rest) == (Sized(m), |m.Text()|)
  {
    MarkCutOfText(m, rest);
    SizedOfText(m, rest);
  }

  /** The marker the pre-render pass writes after an image is consumed by the
      post-render pass: an `<img>` tag followed by `Marker(dims)` is one match,
      rewritten to the tag with the recorded sides as attributes (none for
      `auto`), the paragraph tags around it kept. */
  lemma MarkerConsumed(pOpen: string, attrs: string, dims: (Option<string>, Option<string>), pClose: string, rest: string)
    requires pOpen == "" || pOpen == "<p>"
    requires pClose == "" || pClose == "</p>"
    requires NoChar(attrs, '>') && (attrs == [] || !IsSpace(attrs[0]))
    requires Side(dims.0) != [] && NoChar(Side(dims.0), ':')
    requires Side(dims.1) != [] && forall i :: 0 <= i < |Side(dims.1)| ==> !IsSpace(Side(dims.1)[i])
    requires pClose == "" ==> !StartsWith(rest, "</p>")
    ensures var t := pOpen + "<img " + attrs + ">" + Marker(dims) + pClose;
      var m := SizedImg(pOpen, " ", attrs, Side(dims.0), Side(dims.1), pClose);
      && MarkStep(t + rest) == (Sized(m), |t|)
      && m.Rewritten() ==
         pOpen + "<img " + attrs + SizeAttr("width", Side(dims.0)) + SizeAttr("height", Side(dims.1)) + ">" + pClose
  {
    var m := SizedImg(pOpen, " ", attrs, Side(dims.0), Side(dims.1), pClose);
    assert AllSpace(m.gap) by { assert m.gap[0] == ' '; }
    MarkedText(m, dims);
    MarkStepRecognizes(m, rest);
  }

  /** An image tag with one space after `<img`, followed by the marker. */
  lemma MarkedText(m: SizedImg, dims: (Option<string>, Option<string>))
    requires m.gap == " " && m.width == Side(dims.0) && m.height == Side(dims.1)
    ensures m.Text() == m.pOpen + "<img " + m.attrs + ">" + Marker(dims) + m.pClose
  {
    var tag := m.pOpen + "<img " + m.attrs + ">";
    assert m.pOpen + "<img" + " " == m.pOpen + "<img ";
    assert m.Tag() == tag;
    assert m.Comment() == Marker(dims) + m.pClose;
    assert tag + (Marker(dims) + m.pClose) == tag + Marker(dims) + m.pClose;
  }

  datatype MarkPiece = Char(c: char) | Sized(m: SizedImg)

  function MarkStep(s: string): (r: (MarkPiece, nat))
    requires s != []
    ensures 0 < r.1 <= |s|
    ensures r.0.Char? ==> s[..r.1] == [r.0.c]
    ensures r.0.Sized? ==> s[..r.1] == r.0.m.Text() && SizedCaptured(r.0.m)
  {
    match MarkCutAt(s)
    case Some(x) =>
      SizedSound(s, x);
      (Sized(SizedOf(s, x)), x.z)
    case None => (Char(s[0]), 1)
  }

  function MarkScan(s: string): seq<MarkPiece>
    decreases |s|
  {
    if s == [] then []
    else
      var (p, n) := MarkStep(s);
      [p] + MarkScan(s[n..])
  }

  function MarkOriginal(ps: seq<MarkPiece>): string {
    if ps == [] then []
    else (match ps[0] case Char(c) => [c] case Sized(m) => m.Text()) + MarkOriginal(ps[1..])
  }

  function MarkRewritten(ps: seq<MarkPiece>): string {
    if ps == [] then []
    else (match ps[0] case Char(c) => [c] case Sized(m) => m.Rewritten()) + MarkRewritten(ps[1..])
  }

  lemma {:induction false} MarkScanOriginal(s: string)
    ensures MarkOriginal(MarkScan(s)) == s
    decreases |s|
  {
    if s != [] {
      var (p, n) := MarkStep(s);
      MarkScanOriginal(s[n..]);
      assert MarkScan(s) == [p] + MarkScan(s[n..]);
      assert ([p] + MarkScan(s[n..]))[1..] == MarkScan(s[n..]);
      Seqs.SplitAt(s, n);
    }
  }

  /** The output the post-render hook leaves. */
  function PostRendered(output: string): (r: string)
    ensures !Contains(output, MarkerOpen) ==> r == output
  {
    if !Contains(output, MarkerOpen) then output else MarkRewritten(MarkScan(output))
  }

  /** The `:posts, :post_render` hook. */
  method PostRender(post: Post)
    modifies post
    ensures post.output == PostRendered(old(post.output))
    ensures post.content == old(post.content)
  {
    if !Contains(post.output, MarkerOpen) {
      return;
    }
    post.output := MarkRewritten(MarkScan(post.output));
  }
}
