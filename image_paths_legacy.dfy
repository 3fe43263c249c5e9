/** The older revision of the image path resolver: a single post-render hook
    on posts.  It takes the post directory from the relative path by cutting
    off `/_posts/...`, and rewrites double-quoted `src` attributes of `<img>`
    tags three ways: URLs untouched, rooted paths prefixed with the CDN base,
    relative paths resolved against the post directory. */
module LegacyImagePaths {
  import opened Wrappers
  import opened Strings
  import Seqs
  import TagScan
  import ImagePaths

  // ---------------------------------------------------------------------
  // The post directory

  const PostsMarker: string := "/_posts/"

  /** The first occurrence of `/_posts/` at or after `from`, or `|s|`. */
  function FindPosts(s: string, from: nat): (r: nat)
    requires from <= |s|
    ensures from <= r <= |s|
    ensures r < |s| ==> OccursAt(s, PostsMarker, r)
    ensures forall i :: from <= i < r ==> !OccursAt(s, PostsMarker, i)
    decreases |s| - from
  {
    if from == |s| || OccursAt(s, PostsMarker, from) then from else FindPosts(s, from + 1)
  }

  /** `relative_path.sub(/\/_posts\/.*$/, '')`: from the first `/_posts/` to
      the end of its line is removed. */
  function PostDir(rel: string): (r: string)
    ensures FindPosts(rel, 0) == |rel| ==> r == rel
    ensures |r| <= |rel|
  {
    var p := FindPosts(rel, 0);
    if p == |rel| then rel
    else rel[..p] + rel[IndexOf(rel, '\n', p + |PostsMarker|)..]
  }

  lemma FindPostsContains(rel: string)
    ensures FindPosts(rel, 0) < |rel| ==> Contains(rel, PostsMarker)
  {
    var p := FindPosts(rel, 0);
    if p < |rel| {
      assert OccursAt(rel, PostsMarker, p);
    }
  }

  /** Without `/_posts/` the relative path is kept whole. */
  lemma PostDirWithoutMarker(rel: string)
    requires !Contains(rel, PostsMarker)
    ensures PostDir(rel) == rel
  {
    FindPostsContains(rel);
  }

  /** On one line, the directory is what precedes the first `/_posts/`. */
  lemma PostDirCut(rel: string, p: nat)
    requires NoChar(rel, '\n')
    requires OccursAt(rel, PostsMarker, p) && forall i :: 0 <= i < p ==> !OccursAt(rel, PostsMarker, i)
    ensures PostDir(rel) == rel[..p]
  {
    assert FindPosts(rel, 0) == p;
    assert IndexOf(rel, '\n', p + |PostsMarker|) == |rel|;
  }

  // ---------------------------------------------------------------------
  // The three-way rewrite

  /** The new `src`, or `None` when the tag is returned as it was matched. */
  function LegacySrc(src: string, dir: string, cdn: string): (r: Option<string>)
    ensures StartsWith(src, "http://") || StartsWith(src, "https://") || StartsWith(src, "//") ==> r.None?
    ensures StartsWith(src, "/") && !StartsWith(src, "//") ==>
      (r.Some? <==> cdn != "") && (r.Some? ==> r.value == cdn + src)
    ensures !StartsWith(src, "/") && !StartsWith(src, "http://") && !StartsWith(src, "https://") ==>
      r.Some? && EndsWith(r.value, "/" + dir + "/" + src) && StartsWith(r.value, cdn)
  {
    if StartsWith(src, "http://") || StartsWith(src, "https://") || StartsWith(src, "//") then
      assert StartsWith(src, "//") ==> src[..1] == src[..2][..1];
      assert StartsWith(src, "http://") || StartsWith(src, "https://") ==> src[0] == 'h';
      None
    else if StartsWith(src, "/") then (if cdn != "" then Some(cdn + src) else None)
    else
      var built := "/" + dir + "/" + src;
      var v := if cdn != "" then cdn + built else built;
      assert v[|v| - |built|..] == built;
      assert v[..|cdn|] == cdn;
      Some(v)
  }

  /** A rooted `src` gets the CDN base in front on every run, so a second run
      puts it there twice: the pass is not idempotent. */
  lemma RootedSrcPrefixedAgain(src: string, dir: string, cdn: string)
    requires StartsWith(src, "/") && !StartsWith(src, "//")
    requires |cdn| >= 2 && StartsWith(cdn, "/") && !StartsWith(cdn, "//")
    ensures LegacySrc(src, dir, cdn) == Some(cdn + src)
    ensures LegacySrc(cdn + src, dir, cdn) == Some(cdn + cdn + src)
    ensures cdn + cdn + src != cdn + src
  {
    assert !StartsWith(src, "http://") && !StartsWith(src, "https://") by {
      FirstDiffers(src, "http://");
      FirstDiffers(src, "https://");
    }
    var t := cdn + src;
    assert t[..1] == cdn[..1];
    assert t[..2] == cdn[..2];
    FirstDiffers(t, "http://");
    FirstDiffers(t, "https://");
    assert StartsWith(t, "/") && !StartsWith(t, "//");
    assert !StartsWith(t, "http://") && !StartsWith(t, "https://");
    assert LegacySrc(t, dir, cdn) == Some(cdn + t);
    assert cdn + t == cdn + cdn + src;
    assert |cdn + cdn + src| != |cdn + src|;
  }

  lemma FirstDiffers(s: string, p: string)
    requires s != [] && p != [] && s[0] == '/' && p[0] != '/'
    ensures !StartsWith(s, p)
  {
    if |p| <= |s| {
      assert s[..|p|][0] != p[0];
    }
  }

  /** Where both revisions resolve a relative `src` (no leading slash, one
      line, a non-empty directory), they give the same result. */
  lemma AgreesWithCurrent(src: string, dir: string, cdn: string)
    requires !StartsWith(src, "/") && !StartsWith(src, "http://") && !StartsWith(src, "https://")
    requires NoChar(src, '\n') && dir != ""
    ensures LegacySrc(src, dir, cdn) == Some(ImagePaths.ProcessImagePath(src, dir, cdn))
  {
    ImagePaths.StripOneLine(src, true);
    assert src == [] || src[0] != '/';
    assert ImagePaths.LeadingSlashes(src) == 0;
    assert !ImagePaths.IsAbsolute(src);
  }

  /** A post at the top level, `_posts/NAME`, has no `/_posts/` in its path,
      so the whole path, file name included, becomes the directory. */
  lemma TopLevelPostKeepsFileName(name: string, src: string)
    requires NoChar(name, '/')
    requires !StartsWith(src, "/") && !StartsWith(src, "http://") && !StartsWith(src, "https://")
    ensures LegacySrc(src, PostDir("_posts/" + name), "") == Some("/_posts/" + name + "/" + src)
  {
    var rel := "_posts/" + name;
    forall i: nat | i <= |rel| ensures !OccursAt(rel, PostsMarker, i) {
      if i + 8 <= |rel| {
        if i == 6 {
          assert rel[i..i + 8][7] == name[6];
        } else if i < 6 {
          assert rel[i..i + 8][0] == "_posts/"[i];
        } else {
          assert rel[i..i + 8][0] == name[i - 7];
        }
      }
    }
    PostDirWithoutMarker(rel);
    assert "/" + rel + "/" + src == "/_posts/" + name + "/" + src;
  }

  // ---------------------------------------------------------------------
  // The scan for <img\s+([^>]*)src="([^"]*)"([^>]*)>  (case-insensitive)

  /** One match: "<" name gap before key src '"' after ">". */
  datatype ImgMatch = ImgMatch(name: string, gap: string, before: string, key: string, src: string, after: string)
  {
    function Text(): (t: string)
      ensures |t| >= 3 && t[0] == '<' && t[|t| - 1] == '>'
    {
      "<" + name + gap + before + key + src + "\"" + after + ">"
    }
  }

  /** What the pattern guarantees about the groups of a match. */
  predicate Captured(m: ImgMatch) {
    && LowerStr(m.name) == "img"
    && m.gap != [] && AllSpace(m.gap)
    && NoChar(m.before, '>')
    && LowerStr(m.key) == "src=\""
    && NoChar(m.src, '"')
    && NoChar(m.after, '>')
  }

  /** Cut points for a match at the start of the text: the whitespace after
      the name ends at `k`, `src="` starts at `e`, the closing quote is at
      `v` and the closing `>` at `gt`. */
  datatype Cut = Cut(k: nat, e: nat, v: nat, gt: nat)

  /** `src="([^"]*)"([^>]*)>` from `e`. */
  predicate KeyFits(s: string, e: nat) {
    && e + 5 <= |s| && LowerStr(s[e..e + 5]) == "src=\""
    && IndexOf(s, '"', e + 5) < |s|
    && IndexOf(s, '>', IndexOf(s, '"', e + 5) + 1) < |s|
  }

  /** The greedy `([^>]*)`: the last `e` in `lo..e` where the rest matches. */
  function LastKey(s: string, lo: nat, e: nat): (r: Option<nat>)
    requires lo <= e
    ensures r.Some? ==> lo <= r.value <= e && KeyFits(s, r.value)
    decreases e - lo
  {
    if KeyFits(s, e) then Some(e)
    else if e == lo then None
    else LastKey(s, lo, e - 1)
  }

  /** No later position fits: the match takes the last `src="` it can. */
  lemma {:induction false} LastKeyGreatest(s: string, lo: nat, e: nat, i: nat)
    requires lo <= e && lo <= i <= e
    ensures LastKey(s, lo, e).Some? && LastKey(s, lo, e).value < i ==> !KeyFits(s, i)
    ensures LastKey(s, lo, e).None? ==> !KeyFits(s, i)
    decreases e - lo
  {
    if !KeyFits(s, e) && e != lo && i < e {
      LastKeyGreatest(s, lo, e - 1, i);
    }
  }

  predicate CutFits(s: string, c: Cut) {
    && 4 < c.k <= c.e && c.e + 5 <= c.v && c.v < c.gt < |s|
    && s[0] == '<' && LowerStr(s[1..4]) == "img"
    && (forall i :: 4 <= i < c.k ==> IsSpace(s[i]))
    && (forall i :: c.k <= i < c.e ==> s[i] != '>')
    && LowerStr(s[c.e..c.e + 5]) == "src=\""
    && (forall i :: c.e + 5 <= i < c.v ==> s[i] != '"')
    && s[c.v] == '"'
    && (forall i :: c.v + 1 <= i < c.gt ==> s[i] != '>')
    && s[c.gt] == '>'
  }

  /** The match at the very start of `s`, if the pattern matches there. */
  function MatchCut(s: string): (c: Option<Cut>)
    ensures c.Some? ==> CutFits(s, c.value)
  {
    if !(5 <= |s| && s[0] == '<' && LowerStr(s[1..4]) == "img") then None
    else
      var k := SkipSpaces(s, 4);
      if k == 4 then None
      else
        var g := IndexOf(s, '>', k);
        match LastKey(s, k, g)
        case None => None
        case Some(e) =>
          KeyCutFits(s, k, e);
          Some(KeyCut(s, k, e))
  }

  function KeyCut(s: string, k: nat, e: nat): Cut
    requires KeyFits(s, e)
  {
    var v := IndexOf(s, '"', e + 5);
    Cut(k, e, v, IndexOf(s, '>', v + 1))
  }

  lemma KeyCutFits(s: string, k: nat, e: nat)
    requires 5 <= |s| && s[0] == '<' && LowerStr(s[1..4]) == "img"
    requires 4 < k <= e && k <= |s| && forall i :: 4 <= i < k ==> IsSpace(s[i])
    requires e <= IndexOf(s, '>', k) && KeyFits(s, e)
    ensures CutFits(s, KeyCut(s, k, e))
  {
  }

  function MatchOf(s: string, c: Cut): ImgMatch
    requires CutFits(s, c)
  {
    ImgMatch(s[1..4], s[4..c.k], s[c.k..c.e], s[c.e..c.e + 5], s[c.e + 5..c.v], s[c.v + 1..c.gt])
  }

  /** The match is a prefix of the text and has the shape the pattern demands. */
  lemma MatchSound(s: string, c: Cut)
    requires CutFits(s, c)
    ensures s[..c.gt + 1] == MatchOf(s, c).Text()
    ensures Captured(MatchOf(s, c))
  {
    var m := MatchOf(s, c);
    TagScan.Chain(s, 0, 1, 4, "<", m.name);
    TagScan.Chain(s, 0, 4, c.k, "<" + m.name, m.gap);
    TagScan.Chain(s, 0, c.k, c.e, "<" + m.name + m.gap, m.before);
    TagScan.Chain(s, 0, c.e, c.e + 5, "<" + m.name + m.gap + m.before, m.key);
    TagScan.Chain(s, 0, c.e + 5, c.v, "<" + m.name + m.gap + m.before + m.key, m.src);
    TagScan.Chain(s, 0, c.v, c.v + 1, "<" + m.name + m.gap + m.before + m.key + m.src, "\"");
    TagScan.Chain(s, 0, c.v + 1, c.gt, "<" + m.name + m.gap + m.before + m.key + m.src + "\"", m.after);
    TagScan.Chain(s, 0, c.gt, c.gt + 1, "<" + m.name + m.gap + m.before + m.key + m.src + "\"" + m.after, ">");
    assert s[..c.gt + 1] == s[0..c.gt + 1];
    TagScan.SliceAllSpace(s, 4, c.k);
    TagScan.SliceNoChar(s, c.k, c.e, '>');
    TagScan.SliceNoChar(s, c.e + 5, c.v, '"');
    TagScan.SliceNoChar(s, c.v + 1, c.gt, '>');
  }

  datatype Piece = Plain(c: char) | Tag(m: ImgMatch)

  function PieceText(p: Piece): string {
    match p
    case Plain(c) => [c]
    case Tag(m) => m.Text()
  }

  function Render(ps: seq<Piece>): string {
    if ps == [] then [] else PieceText(ps[0]) + Render(ps[1..])
  }

  lemma RenderCons(p: Piece, ps: seq<Piece>)
    ensures Render([p] + ps) == PieceText(p) + Render(ps)
  {
    assert ([p] + ps)[1..] == ps;
  }

  lemma RenderAppend(a: seq<Piece>, b: seq<Piece>)
    ensures Render(a + b) == Render(a) + Render(b)
  {
    if a == [] {
      assert a + b == b;
    } else {
      assert (a + b)[1..] == a[1..] + b;
      RenderAppend(a[1..], b);
    }
  }

  /** One step of `gsub`: a match at the start, or the first character. */
  function Step(s: string): (r: (Piece, nat))
    requires s != []
    ensures 0 < r.1 <= |s|
    ensures s[..r.1] == PieceText(r.0)
    ensures r.0.Tag? ==> Captured(r.0.m)
  {
    match MatchCut(s)
    case Some(c) =>
      MatchSound(s, c);
      (Tag(MatchOf(s, c)), c.gt + 1)
    case None => (Plain(s[0]), 1)
  }

  function Scan(s: string): seq<Piece>
    decreases |s|
  {
    if s == [] then []
    else
      var (p, n) := Step(s);
      [p] + Scan(s[n..])
  }

  /** Scanning loses nothing: the pieces put back together give the input. */
  lemma {:induction false} ScanRender(s: string)
    ensures Render(Scan(s)) == s
    decreases |s|
  {
    if s != [] {
      var (p, n) := Step(s);
      ScanRender(s[n..]);
      RenderCons(p, Scan(s[n..]));
      Seqs.SplitAt(s, n);
    }
  }

  /** Only double-quoted `src` attributes are matched: every match starts its
      value after `src="` and the value holds no double quote. */
  lemma {:induction false} ScanDoubleQuoted(s: string, i: nat)
    requires i < |Scan(s)| && Scan(s)[i].Tag?
    ensures Captured(Scan(s)[i].m)
    decreases |s|
  {
    var (p, n) := Step(s);
    assert Scan(s) == [p] + Scan(s[n..]);
    if i > 0 {
      ScanDoubleQuoted(s[n..], i - 1);
    }
  }

  // ---------------------------------------------------------------------
  // The hook

  /** `"<img #{before_src}src=\"#{new_src}\"#{after_src}>"` */
  function Rebuilt(m: ImgMatch, v: string): ImgMatch {
    ImgMatch("img", " ", m.before, "src=\"", v, m.after)
  }

  function PieceOut(p: Piece, dir: string, cdn: string): string {
    match p
    case Plain(c) => [c]
    case Tag(m) =>
      match LegacySrc(m.src, dir, cdn)
      case None => m.Text()
      case Some(v) => Rebuilt(m, v).Text()
  }

  function PiecesOut(ps: seq<Piece>, dir: string, cdn: string): string {
    if ps == [] then []
    else PiecesOut(ps[..|ps| - 1], dir, cdn) + PieceOut(ps[|ps| - 1], dir, cdn)
  }

  /** The output the hook leaves for output `s` of a post at `rel`. */
  function Rewrite(s: string, rel: string, cdn: string): string {
    if !Contains(s, "<img") then s else PiecesOut(Scan(s), PostDir(rel), cdn)
  }

  /** Output without `<img` is untouched. */
  lemma RewriteWithoutImg(s: string, rel: string, cdn: string)
    requires !Contains(s, "<img")
    ensures Rewrite(s, rel, cdn) == s
  {
  }

  /** Pieces returned as matched put the text back together. */
  lemma {:induction false} PiecesOutRender(ps: seq<Piece>, dir: string, cdn: string)
    requires forall i :: 0 <= i < |ps| && ps[i].Tag? ==> LegacySrc(ps[i].m.src, dir, cdn).None?
    ensures PiecesOut(ps, dir, cdn) == Render(ps)
  {
    if ps != [] {
      var init, last := ps[..|ps| - 1], ps[|ps| - 1];
      assert forall i :: 0 <= i < |init| ==> init[i] == ps[i];
      PiecesOutRender(init, dir, cdn);
      Seqs.InitLast(ps);
      RenderAppend(init, [last]);
      assert Render([last]) == PieceText(last) by {
        assert [last][1..] == [];
      }
    }
  }

  /** Without a CDN base, a post whose images all have rooted or URL sources
      comes out unchanged. */
  lemma RootedSourcesUntouched(s: string, rel: string)
    requires forall i :: 0 <= i < |Scan(s)| && Scan(s)[i].Tag? ==> StartsWith(Scan(s)[i].m.src, "/")
    ensures Rewrite(s, rel, "") == s
  {
    var ps := Scan(s);
    forall i | 0 <= i < |ps| && ps[i].Tag? ensures LegacySrc(ps[i].m.src, PostDir(rel), "").None? {
    }
    PiecesOutRender(ps, PostDir(rel), "");
    ScanRender(s);
  }

  lemma PiecesOutSnoc(ps: seq<Piece>, i: nat, dir: string, cdn: string)
    requires i < |ps|
    ensures PiecesOut(ps[..i + 1], dir, cdn) == PiecesOut(ps[..i], dir, cdn) + PieceOut(ps[i], dir, cdn)
  {
    Seqs.PrefixSnoc(ps, i);
  }

  /** The part of a post the hook reads and writes. */
  class Post {
    var output: string
    const relativePath: string

    constructor (output: string, relativePath: string)
      ensures this.output == output && this.relativePath == relativePath
    {
      this.output := output;
      this.relativePath := relativePath;
    }
  }

  method RewritePieces(ps: seq<Piece>, dir: string, cdn: string) returns (out: string)
    ensures out == PiecesOut(ps, dir, cdn)
  {
    out := "";
    for i := 0 to |ps|
      invariant out == PiecesOut(ps[..i], dir, cdn)
    {
      PiecesOutSnoc(ps, i, dir, cdn);
      match ps[i] {
        case Plain(c) =>
          out := out + [c];
        case Tag(m) =>
          var v := LegacySrc(m.src, dir, cdn);
          if v.Some? {
            out := out + Rebuilt(m, v.value).Text();
          } else {
            out := out + m.Text();
          }
      }
    }
    Seqs.Whole(ps);
  }

  /** The `:posts, :post_render` hook. */
  method PostRender(post: Post, assetHost: Option<string>, baseUrl: Option<string>)
    modifies post
    ensures post.output == Rewrite(old(post.output), post.relativePath, ImagePaths.CdnBase(assetHost, baseUrl))
  {
    if !Contains(post.output, "<img") {
      return;
    }
    var dir := PostDir(post.relativePath);
    var cdn := ImagePaths.CdnBase(assetHost, baseUrl);
    post.output := RewritePieces(Scan(post.output), dir, cdn);
  }
}
