/** The post-render pass that resolves relative image paths: every `<img src>`
    and every `<a href>` pointing at an image is resolved against the
    document's directory (without `_posts` and leading underscores) and
    prefixed with the CDN base when one is configured. */
module ImagePaths {
  import opened Wrappers
  import opened Strings
  import opened TagScan
  import Seqs

  // ---------------------------------------------------------------------
  // relative_directory

  function DropTrailingSlashes(s: string): (r: string)
    ensures |r| <= |s| && r == s[..|r|]
    ensures r == [] || r[|r| - 1] != '/'
    ensures forall k :: |r| <= k < |s| ==> s[k] == '/'
  {
    if s != [] && s[|s| - 1] == '/' then DropTrailingSlashes(s[..|s| - 1]) else s
  }

  /** The position of the last `/`, or -1. */
  function LastSlash(s: string): (r: int)
    ensures -1 <= r < |s|
    ensures r >= 0 ==> s[r] == '/'
    ensures forall k :: r < k < |s| ==> s[k] != '/'
  {
    if s == [] then -1
    else if s[|s| - 1] == '/' then |s| - 1
    else LastSlash(s[..|s| - 1])
  }

  /** `File.dirname`: trailing slashes are ignored, the last component is
      dropped, `.` when there is no directory part and `/` for the root. */
  function Dirname(path: string): (r: string)
    ensures r != []
  {
    var t := DropTrailingSlashes(path);
    if t == [] then (if path == [] then "." else "/")
    else
      var i := LastSlash(t);
      if i < 0 then "."
      else
        var d := DropTrailingSlashes(t[..i]);
        if d == [] then "/" else d
  }

  /** The directory of `dir/file` is `dir`. */
  lemma DirnameJoin(dir: string, file: string)
    requires dir != [] && dir[|dir| - 1] != '/'
    requires file != [] && NoChar(file, '/')
    ensures Dirname(dir + "/" + file) == dir
  {
    var s := dir + "/" + file;
    assert s[|s| - 1] == file[|file| - 1];
    assert DropTrailingSlashes(s) == s;
    assert s[|dir|] == '/';
    forall k | |dir| < k < |s| ensures s[k] != '/' {
      assert s[k] == file[k - |dir| - 1];
    }
    assert LastSlash(s) == |dir|;
    assert s[..|dir|] == dir;
  }

  function NonEmpty(parts: seq<string>): (r: seq<string>)
    ensures forall k :: 0 <= k < |r| ==> r[k] != []
    ensures forall x :: x in r <==> x in parts && x != []
  {
    if parts == [] then []
    else
      var last := parts[|parts| - 1];
      assert parts == parts[..|parts| - 1] + [last];
      NonEmpty(parts[..|parts| - 1]) + (if last == [] then [] else [last])
  }

  /** `dir.split('/').reject(&:empty?)` */
  function Segments(dir: string): (r: seq<string>)
    ensures forall k :: 0 <= k < |r| ==> r[k] != [] && NoChar(r[k], '/')
  {
    var parts := SplitAll(dir, '/');
    var r := NonEmpty(parts);
    forall k | 0 <= k < |r| ensures NoChar(r[k], '/') {
      assert r[k] in parts;
      var j :| 0 <= j < |parts| && parts[j] == r[k];
    }
    r
  }

  /** `segment.sub(/^_/, '')`: the first underscore that starts a line is
      removed; `atLineStart` says whether the text follows a line start. */
  function UnscoreFrom(seg: string, atLineStart: bool): (r: string)
    ensures forall k :: 0 <= k < |r| ==> r[k] in seg
    ensures |r| <= |seg| <= |r| + 1
  {
    if seg == [] then []
    else if atLineStart && seg[0] == '_' then seg[1..]
    else [seg[0]] + UnscoreFrom(seg[1..], seg[0] == '\n')
  }

  function Unscore(seg: string): (r: string)
    ensures NoChar(seg, '\n') ==> r == if |seg| > 0 && seg[0] == '_' then seg[1..] else seg
  {
    if seg != [] && !(seg[0] == '_') && NoChar(seg, '\n') then
      assert seg[0] != '\n';
      UnscoreOneLine(seg[1..]);
      UnscoreFrom(seg, true)
    else UnscoreFrom(seg, true)
  }

  /** Within one line after its start, there is nothing to remove. */
  lemma {:induction false} UnscoreOneLine(seg: string)
    requires NoChar(seg, '\n')
    ensures UnscoreFrom(seg, false) == seg
  {
    if seg != [] {
      assert seg[0] != '\n';
      assert NoChar(seg[1..], '\n') by {
        forall k | 0 <= k < |seg[1..]| ensures seg[1..][k] != '\n' {
          assert seg[1..][k] == seg[k + 1];
        }
      }
      UnscoreOneLine(seg[1..]);
      assert seg == [seg[0]] + seg[1..];
    }
  }

  /** `_posts` segments dropped, one leading underscore removed from the others. */
  function Sanitize(segs: seq<string>): (r: seq<string>)
    ensures |r| <= |segs|
  {
    if segs == [] then []
    else
      var last := segs[|segs| - 1];
      Sanitize(segs[..|segs| - 1]) + (if last == "_posts" then [] else [Unscore(last)])
  }

  lemma {:induction false} SanitizeMember(segs: seq<string>, x: string)
    ensures x in Sanitize(segs) <==> exists seg :: seg in segs && seg != "_posts" && x == Unscore(seg)
  {
    if segs != [] {
      var init, last := segs[..|segs| - 1], segs[|segs| - 1];
      Seqs.InitLast(segs);
      SanitizeMember(init, x);
      if exists seg :: seg in segs && seg != "_posts" && x == Unscore(seg) {
        var seg :| seg in segs && seg != "_posts" && x == Unscore(seg);
        if seg != last {
          assert seg in init;
        }
      }
    }
  }

  lemma {:induction false} SanitizeNoSlash(segs: seq<string>)
    requires forall k :: 0 <= k < |segs| ==> NoChar(segs[k], '/')
    ensures forall k :: 0 <= k < |Sanitize(segs)| ==> NoChar(Sanitize(segs)[k], '/')
  {
    if segs != [] {
      var init := segs[..|segs| - 1];
      SanitizeNoSlash(init);
      var last := segs[|segs| - 1];
      assert NoChar(last, '/');
      var u := Unscore(last);
      forall k | 0 <= k < |u| ensures u[k] != '/' {
        assert u[k] in last;
      }
    }
  }

  /** `relative_directory`: `""` without a relative path or without a directory part. */
  function RelativeDirectory(relativePath: Option<string>): (r: string)
    ensures relativePath.None? ==> r == ""
    ensures relativePath.Some? && Dirname(relativePath.value) == "." ==> r == ""
  {
    if relativePath.None? then ""
    else
      var dir := Dirname(relativePath.value);
      if dir == "." then "" else Join(Sanitize(Segments(dir)), "/")
  }

  /** The directory is the sanitized segments joined by `/`, and splitting it
      at `/` gives them back: every segment is a source segment other than
      `_posts`, with one leading underscore removed. */
  lemma RelativeDirectorySegments(path: string, x: string)
    requires Dirname(path) != "." && Sanitize(Segments(Dirname(path))) != []
    ensures SplitAll(RelativeDirectory(Some(path)), '/') == Sanitize(Segments(Dirname(path)))
    ensures x in SplitAll(RelativeDirectory(Some(path)), '/') <==>
      exists seg :: seg in Segments(Dirname(path)) && seg != "_posts" && x == Unscore(seg)
  {
    var segs := Segments(Dirname(path));
    SanitizeNoSlash(segs);
    SplitAllJoin(Sanitize(segs), '/');
    SanitizeMember(segs, x);
  }

  /** A `_posts` directory contributes nothing: `blog/2020/_posts` gives the
      same segments as `blog/2020`. */
  lemma SanitizeDropsPosts(segs: seq<string>)
    ensures Sanitize(segs + ["_posts"]) == Sanitize(segs)
  {
    Seqs.SnocInit(segs, "_posts");
    Seqs.AppendEmpty(Sanitize(segs));
  }

  /** A post under `blog/record/_posts` resolves against `blog/record`:
      a `_posts` directory is never part of the relative directory. */
  lemma PostsDirectoryIgnored(dir: string, file: string)
    requires dir != [] && dir[|dir| - 1] != '/' && dir != "."
    requires file != [] && NoChar(file, '/')
    ensures RelativeDirectory(Some(dir + "/_posts/" + file)) == RelativeDirectory(Some(dir + "/" + file))
  {
    var posts := dir + "/" + "_posts";
    assert dir + "/_posts/" + file == posts + "/" + file;
    DirnameJoin(posts, file);
    DirnameJoin(dir, file);
    RelativeDirectoryOf(posts + "/" + file, posts);
    RelativeDirectoryOf(dir + "/" + file, dir);
    PostsSegmentPlain();
    SegmentsSnoc(dir, "_posts");
    SanitizeDropsPosts(Segments(dir));
  }

  lemma PostsSegmentPlain()
    ensures NoChar("_posts", '/')
  {
    forall i | 0 <= i < 6 ensures "_posts"[i] != '/' {
    }
  }

  lemma RelativeDirectoryOf(path: string, dir: string)
    requires Dirname(path) == dir && dir != "."
    ensures RelativeDirectory(Some(path)) == Join(Sanitize(Segments(dir)), "/")
  {
  }

  /** A non-empty last component adds one segment. */
  lemma SegmentsSnoc(dir: string, seg: string)
    requires seg != [] && NoChar(seg, '/')
    ensures Segments(dir + "/" + seg) == Segments(dir) + [seg]
  {
    assert dir + "/" + seg == dir + ['/'] + seg;
    SplitAllSnoc(dir, seg, '/');
    var parts := SplitAll(dir, '/');
    assert (parts + [seg])[..|parts|] == parts;
  }

  /** A post at the top level, `_posts/NAME`, resolves against the site root. */
  lemma TopLevelPostAtRoot(name: string, src: string)
    requires name != [] && NoChar(name, '/')
    requires !IsAbsolute(src)
    ensures RelativeDirectory(Some("_posts/" + name)) == ""
    ensures ProcessImagePath(src, RelativeDirectory(Some("_posts/" + name)), "") == "/" + StripLineSlashes(src, true)
  {
    assert "_posts/" + name == "_posts" + "/" + name;
    DirnameJoin("_posts", name);
    assert IndexOf("_posts", '/', 0) == 6;
    assert SplitAll("_posts", '/') == ["_posts"];
    assert Segments("_posts") == ["_posts"];
    assert Sanitize(["_posts"]) == [] by {
      assert ["_posts"][..0] == [];
    }
  }

  // ---------------------------------------------------------------------
  // build_relative_src, image_path?, process_image_path

  /** `src.gsub(%r{^/+}, '')`: the slashes at the start of every line removed. */
  function StripLineSlashes(s: string, atLineStart: bool): (r: string)
    ensures atLineStart ==> r == [] || r[0] != '/'
    ensures |r| <= |s|
  {
    if s == [] then []
    else if atLineStart && s[0] == '/' then StripLineSlashes(s[1..], true)
    else [s[0]] + StripLineSlashes(s[1..], s[0] == '\n')
  }

  function LeadingSlashes(s: string): (n: nat)
    ensures n <= |s| && forall k :: 0 <= k < n ==> s[k] == '/'
    ensures n == |s| || s[n] != '/'
  {
    if s != [] && s[0] == '/' then 1 + LeadingSlashes(s[1..]) else 0
  }

  /** On a single line, only the leading slashes go. */
  lemma {:induction false} StripOneLine(s: string, atLineStart: bool)
    requires NoChar(s, '\n')
    ensures StripLineSlashes(s, atLineStart) == if atLineStart then s[LeadingSlashes(s)..] else s
  {
    if s != [] {
      assert NoChar(s[1..], '\n') by {
        forall k | 0 <= k < |s[1..]| ensures s[1..][k] != '\n' {
          assert s[1..][k] == s[k + 1];
        }
      }
      StripOneLine(s[1..], atLineStart && s[0] == '/');
      if !(atLineStart && s[0] == '/') {
        assert s[0] != '\n';
        StripOneLine(s[1..], false);
        if atLineStart {
          assert LeadingSlashes(s) == 0;
        }
        assert s == [s[0]] + s[1..];
      }
    }
  }

  /** `build_relative_src`: always absolute, ending in the cleaned source. */
  function BuildRelativeSrc(dir: Option<string>, src: string): (r: string)
    ensures |r| > 0 && r[0] == '/'
    ensures EndsWith(r, StripLineSlashes(src, true))
    ensures dir.None? || dir.value == "" ==> r == "/" + StripLineSlashes(src, true)
    ensures dir.Some? && dir.value != "" ==> StartsWith(r, "/" + dir.value + "/")
  {
    var clean := StripLineSlashes(src, true);
    if dir.None? || dir.value == "" then "/" + clean
    else
      var r := "/" + dir.value + "/" + clean;
      assert r[..|"/" + dir.value + "/"|] == "/" + dir.value + "/";
      assert r[|r| - |clean|..] == clean;
      r
  }

  /** The `start_with?` test: an absolute path or a URL. */
  predicate IsAbsolute(p: string) {
    StartsWith(p, "/") || StartsWith(p, "http://") || StartsWith(p, "https://") || StartsWith(p, "//")
  }

  /** `process_image_path`: absolute paths and URLs unchanged; relative paths
      resolved and prefixed with the CDN base when it is non-empty. */
  function ProcessImagePath(path: string, dir: string, cdn: string): (r: string)
    ensures IsAbsolute(path) ==> r == path
    ensures !IsAbsolute(path) && cdn == "" ==> r == BuildRelativeSrc(Some(dir), path)
    ensures !IsAbsolute(path) && cdn != "" ==> r == cdn + BuildRelativeSrc(Some(dir), path)
  {
    if IsAbsolute(path) then path
    else
      var built := BuildRelativeSrc(Some(dir), path);
      if cdn != "" then cdn + built else built
  }

  lemma StartsWithAppend(a: string, b: string, p: string)
    requires StartsWith(a, p)
    ensures StartsWith(a + b, p)
  {
    assert (a + b)[..|p|] == a[..|p|];
  }

  /** With no CDN base, or an absolute one, the result is absolute, so a
      second application changes nothing. */
  lemma ProcessImagePathIdempotent(path: string, dir: string, cdn: string)
    requires cdn == "" || IsAbsolute(cdn)
    ensures IsAbsolute(ProcessImagePath(path, dir, cdn))
    ensures ProcessImagePath(ProcessImagePath(path, dir, cdn), dir, cdn) == ProcessImagePath(path, dir, cdn)
  {
    if !IsAbsolute(path) {
      var built := BuildRelativeSrc(Some(dir), path);
      assert StartsWith(built, "/");
      if cdn != "" {
        if StartsWith(cdn, "/") {
          StartsWithAppend(cdn, built, "/");
        } else if StartsWith(cdn, "http://") {
          StartsWithAppend(cdn, built, "http://");
        } else if StartsWith(cdn, "https://") {
          StartsWithAppend(cdn, built, "https://");
        } else {
          StartsWithAppend(cdn, built, "//");
        }
      }
    }
  }

  const Extensions: seq<string> := ["jpg", "jpeg", "png", "gif", "webp", "svg", "bmp", "ico"]

  /** A match of `\.(EXT)(\?.*)?$` starting at `p`: a dot, the extension in
      any case, then the end of a line or a `?`. */
  predicate ExtensionAt(s: string, p: nat, ext: string) {
    var q := p + 1 + |ext|;
    q <= |s| && s[p] == '.' && LowerStr(s[p + 1..q]) == ext && (q == |s| || s[q] == '\n' || s[q] == '?')
  }

  /** `image_path?` */
  predicate ImagePath(s: string) {
    exists p, i | 0 <= p < |s| && 0 <= i < |Extensions| :: ExtensionAt(s, p, Extensions[i])
  }

  /** The text ends with `.` and the extension, in any case. */
  predicate EndsWithExtension(t: string, ext: string) {
    |ext| < |t| && t[|t| - |ext| - 1] == '.' && LowerStr(t[|t| - |ext|..]) == ext
  }

  predicate HasImageExtension(t: string) {
    exists i | 0 <= i < |Extensions| :: EndsWithExtension(t, Extensions[i])
  }

  lemma ExtensionAtEnds(s: string, p: nat, ext: string)
    requires ExtensionAt(s, p, ext)
    ensures EndsWithExtension(s[..p + 1 + |ext|], ext)
  {
    var t := s[..p + 1 + |ext|];
    assert t[|t| - |ext|..] == s[p + 1..p + 1 + |ext|];
  }

  lemma EndsExtensionAt(s: string, q: nat, ext: string)
    requires q <= |s| && (q == |s| || s[q] == '?') && EndsWithExtension(s[..q], ext)
    ensures ExtensionAt(s, q - |ext| - 1, ext)
  {
    var t := s[..q];
    assert s[q - |ext|..q] == t[|t| - |ext|..];
  }

  /** A match of `image_path?` ends at the end of the path or at a `?`,
      and the part before it ends in an image extension. */
  lemma ImagePathHasExtension(s: string)
    requires NoChar(s, '\n') && ImagePath(s)
    ensures exists q :: 0 <= q <= |s| && (q == |s| || s[q] == '?') && HasImageExtension(s[..q])
  {
    var p, i :| 0 <= p < |s| && 0 <= i < |Extensions| && ExtensionAt(s, p, Extensions[i]);
    var ext := Extensions[i];
    ExtensionAtEnds(s, p, ext);
    var q := p + 1 + |ext|;
    var t := s[..q];
    assert EndsWithExtension(t, Extensions[i]);
    assert HasImageExtension(t);
    assert q == |s| || s[q] == '?' by {
      if q < |s| {
        assert s[q] != '\n';
      }
    }
  }

  /** Conversely, a path whose part before the end or a `?` ends in an image
      extension satisfies `image_path?`. */
  lemma ExtensionIsImagePath(s: string, q: nat)
    requires q <= |s| && (q == |s| || s[q] == '?') && HasImageExtension(s[..q])
    ensures ImagePath(s)
  {
    var i :| 0 <= i < |Extensions| && EndsWithExtension(s[..q], Extensions[i]);
    EndsExtensionAt(s, q, Extensions[i]);
  }

  /** `ENV['ASSET_HOST'] || config.dig('image_paths', 'base_url') || ''` */
  function CdnBase(assetHost: Option<string>, baseUrl: Option<string>): (r: string)
    ensures assetHost.Some? ==> r == assetHost.value
    ensures assetHost.None? && baseUrl.Some? ==> r == baseUrl.value
    ensures assetHost.None? && baseUrl.None? ==> r == ""
  {
    assetHost.GetOr(baseUrl.GetOr(""))
  }

  // ---------------------------------------------------------------------
  // process_document

  /** `"<img #{before}src=#{quote}#{new}#{quote}#{after}>"` */
  function RebuildImg(m: TagMatch, v: string): TagMatch {
    TagMatch("img", " ", m.before, Tail("src", "", "", m.tail.quote, v, m.tail.after))
  }

  /** `"<a #{before}href=#{quote}#{new}#{quote}#{after}>"` */
  function RebuildA(m: TagMatch, v: string): TagMatch {
    TagMatch("a", " ", m.before, Tail("href", "", "", m.tail.quote, v, m.tail.after))
  }

  /** The two `gsub` passes: every `<img src>`, then `<a href>` to an image. */
  datatype Pass = ImgPass | AnchorPass

  function PieceOut(pass: Pass, p: Piece, dir: string, cdn: string): string {
    match p
    case Plain(c) => [c]
    case Tag(m) =>
      match pass
      case ImgPass => RebuildImg(m, ProcessImagePath(m.tail.value, dir, cdn)).Text()
      case AnchorPass =>
        if ImagePath(m.tail.value) then RebuildA(m, ProcessImagePath(m.tail.value, dir, cdn)).Text()
        else m.Text()
  }

  function PiecesOut(pass: Pass, ps: seq<Piece>, dir: string, cdn: string): string {
    if ps == [] then []
    else PiecesOut(pass, ps[..|ps| - 1], dir, cdn) + PieceOut(pass, ps[|ps| - 1], dir, cdn)
  }

  function PassOf(pass: Pass, s: string, dir: string, cdn: string): string {
    match pass
    case ImgPass => PiecesOut(pass, Scan(s, "img", "src"), dir, cdn)
    case AnchorPass => PiecesOut(pass, Scan(s, "a", "href"), dir, cdn)
  }

  /** The output `process_document` writes for output `s`. */
  function Rewrite(s: string, dir: string, cdn: string): string {
    if !Contains(s, "<img") then s
    else PassOf(AnchorPass, PassOf(ImgPass, s, dir, cdn), dir, cdn)
  }

  function RewriteOutput(out: Option<string>, relativePath: Option<string>, cdn: string): Option<string> {
    match out
    case None => None
    case Some(s) => Some(Rewrite(s, RelativeDirectory(relativePath), cdn))
  }

  lemma PiecesOutSnoc(pass: Pass, ps: seq<Piece>, i: nat, dir: string, cdn: string)
    requires i < |ps|
    ensures PiecesOut(pass, ps[..i + 1], dir, cdn) == PiecesOut(pass, ps[..i], dir, cdn) + PieceOut(pass, ps[i], dir, cdn)
  {
    Seqs.PrefixSnoc(ps, i);
  }

  /** Pieces that come out as they were scanned put the text back together. */
  lemma {:induction false} PiecesOutRender(pass: Pass, ps: seq<Piece>, dir: string, cdn: string)
    requires forall i :: 0 <= i < |ps| && ps[i].Tag? ==> PieceOut(pass, ps[i], dir, cdn) == ps[i].m.Text()
    ensures PiecesOut(pass, ps, dir, cdn) == Render(ps)
  {
    if ps != [] {
      var init, last := ps[..|ps| - 1], ps[|ps| - 1];
      assert forall i :: 0 <= i < |init| ==> init[i] == ps[i];
      PiecesOutRender(pass, init, dir, cdn);
      Seqs.InitLast(ps);
      RenderAppend(init, [last]);
      assert Render([last]) == PieceText(last) by {
        assert [last][1..] == [];
      }
    }
  }

  /** Output without `<img` is untouched. */
  lemma RewriteWithoutImg(s: string, dir: string, cdn: string)
    requires !Contains(s, "<img")
    ensures Rewrite(s, dir, cdn) == s
  {
  }

  /** The anchor pass returns anchors whose href is not an image path
      verbatim, so text whose anchors all point elsewhere passes unchanged. */
  lemma AnchorPassVerbatim(s: string, dir: string, cdn: string)
    requires forall i :: 0 <= i < |Scan(s, "a", "href")| && Scan(s, "a", "href")[i].Tag? ==>
      !ImagePath(Scan(s, "a", "href")[i].m.tail.value)
    ensures PassOf(AnchorPass, s, dir, cdn) == s
  {
    PiecesOutRender(AnchorPass, Scan(s, "a", "href"), dir, cdn);
    ScanRender(s, "a", "href");
  }

  /** A tag the first run rewrote is left as it is by a second run when the
      CDN base is empty or absolute. */
  lemma RewrittenTagStable(m: TagMatch, dir: string, cdn: string)
    requires cdn == "" || IsAbsolute(cdn)
    ensures var n := RebuildImg(m, ProcessImagePath(m.tail.value, dir, cdn));
      PieceOut(ImgPass, Tag(n), dir, cdn) == n.Text()
    ensures var n := RebuildA(m, ProcessImagePath(m.tail.value, dir, cdn));
      PieceOut(AnchorPass, Tag(n), dir, cdn) == n.Text()
  {
    ProcessImagePathIdempotent(m.tail.value, dir, cdn);
  }

  /** The part of a document the pass reads and writes. */
  class Document {
    var output: Option<string>
    const relativePath: Option<string>

    constructor (output: Option<string>, relativePath: Option<string>)
      ensures this.output == output && this.relativePath == relativePath
    {
      this.output := output;
      this.relativePath := relativePath;
    }
  }

  /** One `gsub` pass over the scanned pieces. */
  method RunPass(pass: Pass, ps: seq<Piece>, dir: string, cdn: string) returns (out: string)
    ensures out == PiecesOut(pass, ps, dir, cdn)
  {
    out := "";
    for i := 0 to |ps|
      invariant out == PiecesOut(pass, ps[..i], dir, cdn)
    {
      PiecesOutSnoc(pass, ps, i, dir, cdn);
      match ps[i] {
        case Plain(c) =>
          out := out + [c];
        case Tag(m) =>
          if pass.ImgPass? {
            var v := ProcessImagePath(m.tail.value, dir, cdn);
            out := out + RebuildImg(m, v).Text();
          } else if ImagePath(m.tail.value) {
            var v := ProcessImagePath(m.tail.value, dir, cdn);
            out := out + RebuildA(m, v).Text();
          } else {
            out := out + m.Text();
          }
      }
    }
    Seqs.Whole(ps);
  }

  /** `process_document` */
  method ProcessDocument(doc: Document, assetHost: Option<string>, baseUrl: Option<string>)
    modifies doc
    ensures doc.output == RewriteOutput(old(doc.output), doc.relativePath, CdnBase(assetHost, baseUrl))
  {
    if doc.output.None? {
      return;
    }
    var s := doc.output.value;
    if !Contains(s, "<img") {
      return;
    }
    var dir := RelativeDirectory(doc.relativePath);
    var cdn := CdnBase(assetHost, baseUrl);
    var s1 := RunPass(ImgPass, Scan(s, "img", "src"), dir, cdn);
    var s2 := RunPass(AnchorPass, Scan(s1, "a", "href"), dir, cdn);
    doc.output := Some(s2);
  }
}
