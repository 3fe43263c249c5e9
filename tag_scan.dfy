/** The tag scanner behind the plugins' `gsub` passes over rendered HTML.
    It reproduces what Ruby's regex engine does with the pattern

        <NAME\s+([^>]*?)ATTR\s*=\s*(["'])(.*?)\2([^>]*)>        (case-insensitive)

    scanning left to right, trying a match at each position and resuming after
    the end of every match.  The pattern is deterministic enough to compute
    directly: the lazy `([^>]*?)` takes the first ATTR position (before the
    first `>`) from which the rest matches, the lazy `(.*?)` stops at the first
    closing quote on the same line, and `([^>]*)>` runs to the next `>`. */
module TagScan {
  import opened Wrappers
  import opened Strings
  import Seqs

  /** The part of a match from ATTR on:
        attr sp1 "=" sp2 quote value quote after ">" */
  datatype Tail = Tail(attr: string, sp1: string, sp2: string, quote: char, value: string, after: string)
  {
    function Text(): (t: string)
      ensures |t| >= 4 && t[|t| - 1] == '>'
    {
      Left() + Right()
    }

    /** From ATTR to the opening quote. */
    function Left(): string {
      attr + sp1 + "=" + sp2 + [quote]
    }

    /** From the value to the closing `>`. */
    function Right(): string {
      value + [quote] + after + ">"
    }
  }

  /** What the regex guarantees about the groups from ATTR on. */
  predicate TailCaptured(t: Tail, attr: string) {
    && LowerStr(t.attr) == attr
    && AllSpace(t.sp1) && AllSpace(t.sp2)
    && (t.quote == '"' || t.quote == '\'')
    && NoChar(t.value, t.quote) && NoChar(t.value, '\n')
    && NoChar(t.after, '>')
  }

  /** One match, split into the pieces of text the pattern consumes:
        "<" name gap before tail */
  datatype TagMatch = TagMatch(name: string, gap: string, before: string, tail: Tail)
  {
    function Text(): (t: string)
      ensures |t| >= 5 && t[0] == '<' && t[|t| - 1] == '>'
    {
      "<" + name + gap + before + tail.Text()
    }
  }

  /** What the regex guarantees about the groups of a match of NAME/ATTR. */
  predicate Captured(m: TagMatch, name: string, attr: string) {
    && LowerStr(m.name) == name
    && m.gap != [] && AllSpace(m.gap)
    && NoChar(m.before, '>')
    && TailCaptured(m.tail, attr)
  }

  /** The scanned text: single characters the pattern skipped over, and matches. */
  datatype Piece = Plain(c: char) | Tag(m: TagMatch)

  function PieceText(p: Piece): string {
    match p
    case Plain(c) => [c]
    case Tag(m) => m.Text()
  }

  function Render(ps: seq<Piece>): string {
    if ps == [] then [] else PieceText(ps[0]) + Render(ps[1..])
  }

  lemma RenderAppend(a: seq<Piece>, b: seq<Piece>)
    ensures Render(a + b) == Render(a) + Render(b)
  {
    if a == [] {
      assert a + b == b;
    } else {
      assert (a + b)[1..] == a[1..] + b;
      RenderAppend(a[1..], b);
    }
  }

  lemma RenderCons(p: Piece, ps: seq<Piece>)
    ensures Render([p] + ps) == PieceText(p) + Render(ps)
  {
    assert ([p] + ps)[1..] == ps;
  }

  /** Two adjacent slices of `s` with known contents make up the slice spanning both. */
  lemma Chain(s: string, a: nat, b: nat, c: nat, x: string, y: string)
    requires a <= b <= c <= |s| && s[a..b] == x && s[b..c] == y
    ensures s[a..c] == x + y
  {
    assert s[a..c] == s[a..b] + s[b..c];
  }

  lemma SliceAllSpace(s: string, i: nat, j: nat)
    requires i <= j <= |s| && forall k :: i <= k < j ==> IsSpace(s[k])
    ensures AllSpace(s[i..j])
  {
    forall k | 0 <= k < j - i ensures IsSpace(s[i..j][k]) {
      assert s[i..j][k] == s[i + k];
    }
  }

  lemma SliceNoChar(s: string, i: nat, j: nat, c: char)
    requires i <= j <= |s| && forall k :: i <= k < j ==> s[k] != c
    ensures NoChar(s[i..j], c)
  {
    forall k | 0 <= k < j - i ensures s[i..j][k] != c {
      assert s[i..j][k] == s[i + k];
    }
  }

  /** The first index at or after `from` holding `a` or `b`, or `|s|`. */
  function IndexOfEither(s: string, a: char, b: char, from: nat): (r: nat)
    requires from <= |s|
    ensures from <= r <= |s|
    ensures r < |s| ==> s[r] == a || s[r] == b
    ensures forall k :: from <= k < r ==> s[k] != a && s[k] != b
    decreases |s| - from
  {
    if from == |s| || s[from] == a || s[from] == b then from else IndexOfEither(s, a, b, from + 1)
  }

  /** Where the groups of `ATTR\s*=\s*(["'])(.*?)\2([^>]*)>` end, for a match at `p`:
      ATTR ends at `a`, `=` is at `q`, the quotes at `r` and `v`, `>` at `gt`. */
  datatype Cut = Cut(a: nat, q: nat, r: nat, v: nat, gt: nat)

  /** What the regex demands of the text between the cut points. */
  predicate CutFits(s: string, attr: string, p: nat, c: Cut) {
    && p <= c.a <= c.q && c.q < c.r && c.r < c.v && c.v < c.gt < |s|
    && LowerStr(s[p..c.a]) == attr
    && (forall k :: c.a <= k < c.q ==> IsSpace(s[k]))
    && s[c.q] == '='
    && (forall k :: c.q + 1 <= k < c.r ==> IsSpace(s[k]))
    && (s[c.r] == '"' || s[c.r] == '\'')
    && (forall k :: c.r + 1 <= k < c.v ==> s[k] != s[c.r] && s[k] != '\n')
    && s[c.v] == s[c.r]
    && (forall k :: c.v + 1 <= k < c.gt ==> s[k] != '>')
    && s[c.gt] == '>'
  }

  /** The leftmost way the tail of the pattern matches at `p`, if any. */
  function TailCut(s: string, attr: string, p: nat): (c: Option<Cut>)
    requires p <= |s|
    ensures c.Some? ==> CutFits(s, attr, p, c.value)
  {
    if !(p + |attr| <= |s| && LowerStr(s[p..p + |attr|]) == attr) then None
    else
      var q := SkipSpaces(s, p + |attr|);
      if !(q < |s| && s[q] == '=') then None
      else
        var r := SkipSpaces(s, q + 1);
        if !(r < |s| && (s[r] == '"' || s[r] == '\'')) then None
        else
          var v := IndexOfEither(s, s[r], '\n', r + 1);
          if !(v < |s| && s[v] == s[r]) then None
          else
            var gt := IndexOf(s, '>', v + 1);
            if gt == |s| then None else Some(Cut(p + |attr|, q, r, v, gt))
  }

  function TailOf(s: string, p: nat, c: Cut): Tail
    requires p <= c.a <= c.q && c.q < c.r && c.r < c.v && c.v < c.gt < |s|
  {
    Tail(s[p..c.a], s[c.a..c.q], s[c.q + 1..c.r], s[c.r], s[c.r + 1..c.v], s[c.v + 1..c.gt])
  }

  predicate TailFits(s: string, p: nat, t: Tail) {
    p + |t.Text()| <= |s| && s[p..p + |t.Text()|] == t.Text()
  }

  /** The text between the cut points is the text of the tail they cut out. */
  lemma TailText(s: string, p: nat, c: Cut)
    requires p <= c.a <= c.q && c.q < c.r && c.r < c.v && c.v < c.gt < |s|
    requires s[c.q] == '=' && s[c.v] == s[c.r] && s[c.gt] == '>'
    ensures s[p..c.gt + 1] == TailOf(s, p, c).Text()
  {
    var t := TailOf(s, p, c);
    TailLeft(s, p, c);
    TailRight(s, p, c);
    Chain(s, p, c.r + 1, c.gt + 1, t.Left(), t.Right());
  }

  lemma TailLeft(s: string, p: nat, c: Cut)
    requires p <= c.a <= c.q && c.q < c.r && c.r < c.v && c.v < c.gt < |s|
    requires s[c.q] == '='
    ensures s[p..c.r + 1] == TailOf(s, p, c).Left()
  {
    var a, q, r := c.a, c.q, c.r;
    Chain(s, p, a, q, s[p..a], s[a..q]);
    Chain(s, p, q, q + 1, s[p..a] + s[a..q], "=");
    Chain(s, p, q + 1, r, s[p..a] + s[a..q] + "=", s[q + 1..r]);
    Chain(s, p, r, r + 1, s[p..a] + s[a..q] + "=" + s[q + 1..r], [s[r]]);
  }

  lemma TailRight(s: string, p: nat, c: Cut)
    requires p <= c.a <= c.q && c.q < c.r && c.r < c.v && c.v < c.gt < |s|
    requires s[c.v] == s[c.r] && s[c.gt] == '>'
    ensures s[c.r + 1..c.gt + 1] == TailOf(s, p, c).Right()
  {
    var r, v, gt := c.r, c.v, c.gt;
    Chain(s, r + 1, v, v + 1, s[r + 1..v], [s[r]]);
    Chain(s, r + 1, v + 1, gt, s[r + 1..v] + [s[r]], s[v + 1..gt]);
    Chain(s, r + 1, gt, gt + 1, s[r + 1..v] + [s[r]] + s[v + 1..gt], ">");
  }

  lemma CutFitsText(s: string, attr: string, p: nat, c: Cut)
    requires CutFits(s, attr, p, c)
    ensures TailFits(s, p, TailOf(s, p, c)) && |TailOf(s, p, c).Text()| == c.gt + 1 - p
  {
    TailText(s, p, c);
    var t := TailOf(s, p, c).Text();
    assert |t| == |s[p..c.gt + 1]|;
  }

  lemma CutFitsCaptured(s: string, attr: string, p: nat, c: Cut)
    requires CutFits(s, attr, p, c)
    ensures TailCaptured(TailOf(s, p, c), attr)
  {
    SliceAllSpace(s, c.a, c.q);
    SliceAllSpace(s, c.q + 1, c.r);
    SliceNoChar(s, c.r + 1, c.v, s[c.r]);
    SliceNoChar(s, c.r + 1, c.v, '\n');
    SliceNoChar(s, c.v + 1, c.gt, '>');
  }

  /** The lazy `([^>]*?)`: the first `p` in `p..g` (g is the first `>`) where the tail matches. */
  function FindTail(s: string, attr: string, p: nat, g: nat): (r: Option<(nat, Cut)>)
    requires p <= |s| && g <= |s|
    ensures r.Some? ==> p <= r.value.0 <= g && CutFits(s, attr, r.value.0, r.value.1)
    decreases |s| - p
  {
    if p > g then None
    else match TailCut(s, attr, p)
      case Some(c) => Some((p, c))
      case None => if p == |s| || p == g then None else FindTail(s, attr, p + 1, g)
  }

  /** Where the tail does not match at `p`, the lazy group moves on by one. */
  lemma FindTailStep(s: string, attr: string, p: nat, g: nat)
    requires p < g <= |s| && TailCut(s, attr, p).None?
    ensures FindTail(s, attr, p, g) == FindTail(s, attr, p + 1, g)
  {
  }

  /** Where the tail matches at `p`, the lazy group stops there. */
  lemma FindTailHit(s: string, attr: string, p: nat, g: nat)
    requires p <= g <= |s| && TailCut(s, attr, p).Some?
    ensures FindTail(s, attr, p, g) == Some((p, TailCut(s, attr, p).value))
  {
  }

  /** The lazy group takes as little as it can: the tail matches at no
      position between `p` and the one `FindTail` reports. */
  lemma {:induction false} FindTailFirst(s: string, attr: string, p: nat, g: nat, e: nat, c: Cut)
    requires p <= |s| && g <= |s| && FindTail(s, attr, p, g) == Some((e, c))
    ensures forall i :: p <= i < e ==> TailCut(s, attr, i).None?
    decreases |s| - p
  {
    var here := TailCut(s, attr, p);
    if here.Some? {
      FindTailHit(s, attr, p, g);
    } else if p < e {
      FindTailStep(s, attr, p, g);
      FindTailFirst(s, attr, p + 1, g, e, c);
      forall i | p <= i < e ensures TailCut(s, attr, i).None? {
        if i == p { assert TailCut(s, attr, i) == here; }
      }
    }
  }

  /** Where `FindTail` reports nothing, the tail matches nowhere from `p` up to `g`. */
  lemma {:induction false} FindTailNone(s: string, attr: string, p: nat, g: nat)
    requires p <= |s| && g <= |s| && FindTail(s, attr, p, g).None?
    ensures forall i :: p <= i <= g ==> TailCut(s, attr, i).None?
    decreases |s| - p
  {
    if p <= g {
      var here := TailCut(s, attr, p);
      if here.Some? {
        FindTailHit(s, attr, p, g);
      } else if p < g {
        FindTailStep(s, attr, p, g);
        FindTailNone(s, attr, p + 1, g);
        forall i | p <= i <= g ensures TailCut(s, attr, i).None? {
          if i == p { assert TailCut(s, attr, i) == here; }
        }
      }
    }
  }

  /** Where a whole match at the start of the text is cut: the whitespace
      after the name ends at `k`, the text before ATTR at `e`. */
  datatype Head = Head(k: nat, e: nat, c: Cut)

  predicate HeadFits(s: string, name: string, attr: string, h: Head) {
    && 1 + |name| < h.k <= h.e <= |s|
    && s[0] == '<' && LowerStr(s[1..1 + |name|]) == name
    && (forall i :: 1 + |name| <= i < h.k ==> IsSpace(s[i]))
    && (forall i :: h.k <= i < h.e ==> s[i] != '>')
    && CutFits(s, attr, h.e, h.c)
  }

  /** `<NAME\s+([^>]*?)` followed by the tail, at the very start of `s`. */
  function MatchHead(s: string, name: string, attr: string): (h: Option<Head>)
    ensures h.Some? ==> HeadFits(s, name, attr, h.value)
  {
    var j := 1 + |name|;
    if !(j <= |s| && s[0] == '<' && LowerStr(s[1..j]) == name) then None
    else
      var k := SkipSpaces(s, j);
      if k == j then None
      else
        match FindTail(s, attr, k, IndexOf(s, '>', k))
        case None => None
        case Some((e, c)) => Some(Head(k, e, c))
  }

  /** The text before ATTR is the shortest that lets the rest match: after the
      whitespace following the name, the tail matches at no earlier position,
      and where no match is reported it matches nowhere before the first `>`. */
  lemma MatchHeadLeftmost(s: string, name: string, attr: string)
    ensures MatchHead(s, name, attr).Some? ==>
      var h := MatchHead(s, name, attr).value;
      forall i :: h.k <= i < h.e ==> TailCut(s, attr, i).None?
    ensures var j := 1 + |name|;
      j <= |s| && s[0] == '<' && LowerStr(s[1..j]) == name && SkipSpaces(s, j) > j &&
      MatchHead(s, name, attr).None? ==>
      forall i :: SkipSpaces(s, j) <= i <= IndexOf(s, '>', SkipSpaces(s, j)) ==> TailCut(s, attr, i).None?
  {
    var j := 1 + |name|;
    if j <= |s| && s[0] == '<' && LowerStr(s[1..j]) == name {
      var k := SkipSpaces(s, j);
      var g := IndexOf(s, '>', k);
      match FindTail(s, attr, k, g)
      case Some((e, c)) => FindTailFirst(s, attr, k, g, e, c);
      case None => FindTailNone(s, attr, k, g);
    }
  }

  function MatchOf(s: string, name: string, attr: string, h: Head): TagMatch
    requires HeadFits(s, name, attr, h)
  {
    TagMatch(s[1..1 + |name|], s[1 + |name|..h.k], s[h.k..h.e], TailOf(s, h.e, h.c))
  }

  /** A match of the pattern at the very start of `s`. */
  function MatchPrefix(s: string, name: string, attr: string): Option<TagMatch> {
    match MatchHead(s, name, attr)
    case None => None
    case Some(h) => Some(MatchOf(s, name, attr, h))
  }

  /** The match is a prefix of the text and has the shape the pattern demands. */
  lemma HeadSound(s: string, name: string, attr: string, h: Head)
    requires HeadFits(s, name, attr, h)
    ensures StartsWith(s, MatchOf(s, name, attr, h).Text())
    ensures Captured(MatchOf(s, name, attr, h), name, attr)
  {
    var j, k, e := 1 + |name|, h.k, h.e;
    var t := TailOf(s, e, h.c);
    CutFitsText(s, attr, e, h.c);
    CutFitsCaptured(s, attr, e, h.c);
    var n := e + |t.Text()|;
    Chain(s, 0, 1, j, "<", s[1..j]);
    Chain(s, 0, j, k, "<" + s[1..j], s[j..k]);
    Chain(s, 0, k, e, "<" + s[1..j] + s[j..k], s[k..e]);
    Chain(s, 0, e, n, "<" + s[1..j] + s[j..k] + s[k..e], t.Text());
    SliceAllSpace(s, j, k);
    SliceNoChar(s, k, e, '>');
  }

  /** A match is a prefix of the text. */
  lemma MatchPrefixText(s: string, name: string, attr: string)
    requires MatchPrefix(s, name, attr).Some?
    ensures StartsWith(s, MatchPrefix(s, name, attr).value.Text())
  {
    HeadSound(s, name, attr, MatchHead(s, name, attr).value);
  }

  lemma MatchPrefixLength(s: string, name: string, attr: string)
    requires MatchPrefix(s, name, attr).Some?
    ensures |MatchPrefix(s, name, attr).value.Text()| <= |s|
  {
    MatchPrefixText(s, name, attr);
  }

  /** A match has the shape the pattern demands. */
  lemma MatchPrefixCaptured(s: string, name: string, attr: string)
    requires MatchPrefix(s, name, attr).Some?
    ensures Captured(MatchPrefix(s, name, attr).value, name, attr)
  {
    HeadSound(s, name, attr, MatchHead(s, name, attr).value);
  }

  /** One step of `gsub`: the match at the start of `s` when there is one,
      otherwise the first character, which the scan then skips. */
  function Step(s: string, name: string, attr: string): (r: (Piece, nat))
    requires s != []
    ensures 0 < r.1 <= |s|
  {
    var mp := MatchPrefix(s, name, attr);
    if mp.Some? then
      MatchPrefixLength(s, name, attr);
      (Tag(mp.value), |mp.value.Text()|)
    else (Plain(s[0]), 1)
  }

  /** A step consumes exactly the text of its piece, and a match it reports is
      the pattern's match at that position. */
  lemma StepSound(s: string, name: string, attr: string)
    requires s != []
    ensures s[..Step(s, name, attr).1] == PieceText(Step(s, name, attr).0)
    ensures Step(s, name, attr).0.Tag? <==> MatchPrefix(s, name, attr).Some?
    ensures Step(s, name, attr).0.Tag? ==>
      Step(s, name, attr).0.m == MatchPrefix(s, name, attr).value && Captured(Step(s, name, attr).0.m, name, attr)
  {
    if MatchPrefix(s, name, attr).Some? {
      MatchPrefixText(s, name, attr);
      MatchPrefixCaptured(s, name, attr);
    }
  }

  /** `gsub`'s view of `s`: matches where the pattern matches, single characters elsewhere. */
  function Scan(s: string, name: string, attr: string): seq<Piece>
    decreases |s|
  {
    if s == [] then []
    else
      var (p, n) := Step(s, name, attr);
      [p] + Scan(s[n..], name, attr)
  }

  predicate AllCaptured(ps: seq<Piece>, name: string, attr: string) {
    forall i :: 0 <= i < |ps| && ps[i].Tag? ==> Captured(ps[i].m, name, attr)
  }

  /** Scanning loses nothing: the pieces put back together give the input. */
  lemma {:induction false} ScanRender(s: string, name: string, attr: string)
    ensures Render(Scan(s, name, attr)) == s
    decreases |s|
  {
    if s != [] {
      var st := Step(s, name, attr);
      var rest := Scan(s[st.1..], name, attr);
      calc {
        Render(Scan(s, name, attr));
        Render([st.0] + rest);
        { RenderCons(st.0, rest); }
        PieceText(st.0) + Render(rest);
        { ScanRender(s[st.1..], name, attr); StepSound(s, name, attr); }
        s[..st.1] + s[st.1..];
        { Seqs.SplitAt(s, st.1); }
        s;
      }
    }
  }

  /** Every match the scanner reports has the shape the pattern demands. */
  lemma {:induction false} ScanCaptured(s: string, name: string, attr: string)
    ensures AllCaptured(Scan(s, name, attr), name, attr)
    decreases |s|
  {
    if s != [] {
      var (p, n) := Step(s, name, attr);
      StepSound(s, name, attr);
      ScanCaptured(s[n..], name, attr);
      assert Scan(s, name, attr) == [p] + Scan(s[n..], name, attr);
    }
  }
}
