/** The `{% linkcard URL [title] %}` Liquid tag: a block quote linking to the
    URL, with an optional heading and an optional link to an archived copy.
    Evaluating Liquid expressions and querying the archive service are
    parameters of the model. */
module LinkCard {
  import opened Wrappers
  import opened Strings
  import Html

  const RequiresUrl := "linkcard tag requires a URL"

  // ---------------------------------------------------------------------
  // split_markup

  /** The first index at or after `from` holding `\s` whitespace, or `|s|`. */
  function FirstSpace(s: string, from: nat): (r: nat)
    requires from <= |s|
    ensures from <= r <= |s|
    ensures r < |s| ==> IsSpace(s[r])
    ensures forall k :: from <= k < r ==> !IsSpace(s[k])
    decreases |s| - from
  {
    if from == |s| || IsSpace(s[from]) then from else FirstSpace(s, from + 1)
  }

  /** The URL token up to the first whitespace run, and what follows the run
      (empty when there is none). */
  function SplitAtSpace(s: string): (string, string) {
    var i := FirstSpace(s, 0);
    if i == |s| then (s, "") else (s[..i], s[SkipSpaces(s, i)..])
  }

  /** `split_markup` */
  function SplitMarkup(markup: string): (r: Result<(string, string), string>)
    ensures r.Err? <==> IsBlank(markup)
    ensures r.Err? ==> r.error == RequiresUrl
  {
    StripEmpty(markup);
    if Strip(markup) == [] then Err(RequiresUrl) else Ok(SplitAtSpace(Strip(markup)))
  }

  /** For a text that neither starts nor ends with whitespace: the URL token is
      non-empty and has no whitespace, the text is the token, a whitespace run
      and the title source, and the title source is empty exactly when the
      text has no whitespace. */
  lemma SplitAtSpaceParts(s: string)
    requires s != [] && !IsSpace(s[0]) && !IsSpace(s[|s| - 1])
    ensures var (url, title) := SplitAtSpace(s);
      && url != [] && url[0] == s[0]
      && (forall k :: 0 <= k < |url| ==> !IsSpace(url[k]))
      && (exists sep :: AllSpace(sep) && s == url + sep + title && (sep == [] <==> title == []))
      && (title == [] <==> forall k :: 0 <= k < |s| ==> !IsSpace(s[k]))
  {
    var i := FirstSpace(s, 0);
    if i == |s| {
      assert s == s + [] + [];
    } else {
      var j := SkipSpaces(s, i);
      assert j < |s|;
      var sep := s[i..j];
      assert s == s[..i] + sep + s[j..];
      assert s[..i][0] == s[0];
    }
  }

  /** `split_markup` on markup that is not blank: the parts of the stripped markup. */
  lemma SplitMarkupParts(markup: string)
    requires !IsBlank(markup)
    ensures SplitMarkup(markup) == Ok(SplitAtSpace(Strip(markup)))
    ensures var (url, title) := SplitAtSpace(Strip(markup));
      && url != [] && !IsStripSpace(url[0])
      && exists sep :: AllSpace(sep) && Strip(markup) == url + sep + title
  {
    StripEmpty(markup);
    SplitAtSpaceParts(Strip(markup));
  }

  // ---------------------------------------------------------------------
  // strip_outer_quotes

  predicate IsQuote(c: char) {
    c == '"' || c == '\''
  }

  /** A trimmed text that starts with a quote and ends with the same quote. */
  predicate Quoted(s: string) {
    s != [] && IsQuote(s[0]) && s[|s| - 1] == s[0]
  }

  function Unquote(s: string): (r: string)
    ensures Quoted(s) && |s| >= 2 ==> s == [s[0]] + r + [s[0]]
    ensures Quoted(s) && |s| == 1 ==> r == []
    ensures !Quoted(s) ==> r == s
  {
    if Quoted(s) then
      if |s| >= 2 then
        assert s == [s[0]] + s[1..|s| - 1] + [s[0]];
        s[1..|s| - 1]
      else []
    else s
  }

  /** `strip_outer_quotes`: trims, then drops a matching pair of outer quotes. */
  function StripOuterQuotes(v: string): (r: string)
    ensures !Quoted(Strip(v)) ==> r == Strip(v)
    ensures Quoted(Strip(v)) && |Strip(v)| >= 2 ==> Strip(v) == [Strip(v)[0]] + r + [Strip(v)[0]]
    ensures Quoted(Strip(v)) && |Strip(v)| == 1 ==> r == []
  {
    Unquote(Strip(v))
  }

  /** A trimmed value without a matching pair of outer quotes comes back as it is. */
  lemma StripQuotesPlain(x: string)
    requires x != [] && !IsStripSpace(x[0]) && !IsStripSpace(x[|x| - 1])
    requires !IsQuote(x[0]) || x[|x| - 1] != x[0]
    ensures StripOuterQuotes(x) == x
  {
    StripKeeps(x);
  }

  /** Quoting a value and stripping the quotes again gives the value back. */
  lemma StripQuotesRoundTrip(x: string, q: char)
    requires IsQuote(q)
    ensures StripOuterQuotes([q] + x + [q]) == x
  {
    var s := [q] + x + [q];
    StripKeeps(s);
    assert s[1..|s| - 1] == x;
  }

  // ---------------------------------------------------------------------
  // render

  /** The URL as shown: one leading `http://` or `https://` removed. */
  function DisplayUrl(url: string): (r: string)
    ensures StartsWith(url, "http://") ==> url == "http://" + r
    ensures StartsWith(url, "https://") ==> url == "https://" + r
    ensures !StartsWith(url, "http://") && !StartsWith(url, "https://") ==> r == url
  {
    if StartsWith(url, "http://") then
      assert url[..7][4] == ':';
      assert url == url[..7] + url[7..];
      url[7..]
    else if StartsWith(url, "https://") then
      assert url[..8][4] == 's';
      assert url == url[..8] + url[8..];
      url[8..]
    else url
  }

  /** The scheme is dropped once, and whatever follows it is kept. */
  lemma DisplayUrlScheme(rest: string)
    ensures DisplayUrl("https://" + rest) == rest
    ensures DisplayUrl("http://" + rest) == rest
  {
    assert ("https://" + rest)[..8] == "https://";
    assert ("http://" + rest)[..7] == "http://";
    assert ("https://" + rest)[..7] != "http://" by {
      assert ("https://" + rest)[4] == 's';
    }
  }

  /** `title_block` */
  function TitleBlock(title: Option<string>): (r: string)
    ensures title.None? <==> r == []
  {
    if title.None? then "" else "<h1>" + Html.Escape(title.value) + "</h1>"
  }

  /** The heading holds the title escaped, and unescaping it gives the title back. */
  lemma TitleBlockRecovers(t: string)
    ensures TitleBlock(Some(t)) == "<h1>" + Html.Escape(t) + "</h1>"
    ensures Html.Unescape(TitleBlock(Some(t))[4..|TitleBlock(Some(t))| - 5]) == t
  {
    var e := Html.Escape(t);
    assert ("<h1>" + e + "</h1>")[4..|e| + 4] == e;
    Html.UnescapeEscape(t);
  }

  /** `resolve_url`: the evaluated value, which must not be nil or blank. */
  function ResolveUrl(value: Option<string>): (r: Result<string, string>)
    ensures r.Ok? <==> value.Some? && !IsBlank(value.value)
    ensures r.Ok? ==> r.value == value.value
    ensures r.Err? ==> r.error == RequiresUrl
  {
    if value.None? then Err(RequiresUrl)
    else
      StripEmpty(value.value);
      if Strip(value.value) == [] then Err(RequiresUrl) else Ok(value.value)
  }

  /** `resolve_title`: nothing for a blank source, else the evaluated source. */
  function ResolveTitle(source: string, evaluate: string -> Option<string>): (r: Option<string>)
    ensures IsBlank(source) ==> r.None?
  {
    StripEmpty(source);
    if Strip(source) == [] then None else evaluate(Strip(source))
  }

  /** `archive_enabled?`: `LINKCARD_ARCHIVE` is `"1"`, or saving is enabled. */
  function ArchiveEnabled(archiveEnv: Option<string>, saveEnv: Option<string>): (r: bool)
    ensures saveEnv == Some("1") ==> r
    ensures archiveEnv == Some("1") ==> r
    ensures archiveEnv != Some("1") && saveEnv != Some("1") ==> !r
  {
    archiveEnv == Some("1") || saveEnv == Some("1")
  }

  /** The archive link for a resolved archive URL: nothing when archiving is
      off or the URL is blank. */
  function ArchiveLine(enabled: bool, archiveUrl: string): (r: string)
    ensures !enabled || IsBlank(archiveUrl) <==> r == []
  {
    StripEmpty(archiveUrl);
    if !enabled || Strip(archiveUrl) == [] then ""
    else
      "<small style=\"position: absolute; right: 0.75rem; bottom: 0.5rem;\">(<a href=\"" +
      Html.Escape(archiveUrl) + "\" target=\"_blank\" rel=\"noopener\">archive</a>)</small>"
  }

  /** What the archive lookup computes for a URL the cache does not hold:
      the looked-up snapshot or `""`, overridden by a submitted snapshot when
      saving is enabled and the submission gives one. */
  function Fetched(url: string, lookup: string -> Option<string>, submit: string -> Option<string>, save: bool): (r: string)
    ensures save && submit(url).Some? ==> r == submit(url).value
    ensures (!save || submit(url).None?) && lookup(url).Some? ==> r == lookup(url).value
    ensures (!save || submit(url).None?) && lookup(url).None? ==> r == ""
  {
    var found := lookup(url).GetOr("");
    if save then submit(url).GetOr(found) else found
  }

  /** The archive URL `archive_url_for` answers with a cache `entries`. */
  function CachedArchive(entries: map<string, string>, url: string, lookup: string -> Option<string>,
                         submit: string -> Option<string>, save: bool): string {
    if url in entries then entries[url] else Fetched(url, lookup, submit, save)
  }

  /** The cache after `archive_url_for` has answered for `url`. */
  function CacheAfter(entries: map<string, string>, url: string, lookup: string -> Option<string>,
                      submit: string -> Option<string>, save: bool): (r: map<string, string>)
    ensures url in r && r[url] == CachedArchive(entries, url, lookup, submit, save)
    ensures forall u :: u in entries ==> u in r && r[u] == entries[u]
    ensures forall u :: u in r ==> u in entries || u == url
  {
    if url in entries then entries else entries[url := Fetched(url, lookup, submit, save)]
  }

  /** Once a URL is cached, later answers for it come from the cache, whatever
      the archive would say then. */
  lemma MemoStable(entries: map<string, string>, url: string, lookup: string -> Option<string>,
                   submit: string -> Option<string>, save: bool,
                   lookup2: string -> Option<string>, submit2: string -> Option<string>, save2: bool)
    ensures var e := CacheAfter(entries, url, lookup, submit, save);
      && CachedArchive(e, url, lookup2, submit2, save2) == CachedArchive(entries, url, lookup, submit, save)
      && CacheAfter(e, url, lookup2, submit2, save2) == e
  {
  }

  /** The block quote the tag renders. */
  function Card(url: string, title: Option<string>, archiveLine: string): string {
    "<blockquote class=\"link-card\" style=\"text-align: center; position: relative; padding-bottom: 1.75rem;\">\n" +
    "\t" + TitleBlock(title) + "\n" +
    "\t<a href=\"" + Html.Escape(url) + "\" target=\"_blank\" rel=\"noopener\">" + Html.Escape(DisplayUrl(url)) + "</a>\n" +
    "\t" + archiveLine + "\n" +
    "</blockquote>\n"
  }

  /** The archive URLs found so far, shared by every link card of the build. */
  class ArchiveCache {
    var entries: map<string, string>

    constructor ()
      ensures entries == map[]
    {
      entries := map[];
    }

    /** `archive_url_for`: a cached URL is answered from the cache; otherwise
        the archive is consulted once and the answer is cached. */
    method ArchiveUrlFor(url: string, lookup: string -> Option<string>, submit: string -> Option<string>, save: bool)
      returns (r: string)
      modifies this
      ensures url in old(entries) ==> r == old(entries)[url] && entries == old(entries)
      ensures url !in old(entries) ==> r == Fetched(url, lookup, submit, save) && entries == old(entries)[url := r]
    {
      if url in entries {
        r := entries[url];
      } else {
        var found := lookup(url).GetOr("");
        if save {
          found := submit(url).GetOr(found);
        }
        r := found;
        entries := entries[url := r];
      }
    }

    /** `archive_block`: consults the archive only when archiving is enabled. */
    method ArchiveBlock(url: string, enabled: bool, lookup: string -> Option<string>, submit: string -> Option<string>,
                        save: bool) returns (r: string)
      modifies this
      ensures !enabled ==> r == [] && entries == old(entries)
      ensures enabled ==> r == ArchiveLine(true, CachedArchive(old(entries), url, lookup, submit, save))
      ensures enabled ==> entries == CacheAfter(old(entries), url, lookup, submit, save)
    {
      if !enabled {
        return "";
      }
      var archiveUrl := ArchiveUrlFor(url, lookup, submit, save);
      r := ArchiveLine(true, archiveUrl);
    }

    /** `render`: the URL is resolved first, and a missing or blank URL is an
        error.  `evalUrl` and `evalTitle` stand for the Liquid evaluation of the
        URL token (nil not allowed) and of the title source (nil allowed). */
    method Render(markup: string, evalUrl: string -> Option<string>, evalTitle: string -> Option<string>,
                  archiveEnv: Option<string>, saveEnv: Option<string>,
                  lookup: string -> Option<string>, submit: string -> Option<string>)
      returns (r: Result<string, string>)
      modifies this
      ensures SplitMarkup(markup).Err? ==> r == Err(RequiresUrl) && entries == old(entries)
      ensures SplitMarkup(markup).Ok? && ResolveUrl(evalUrl(SplitMarkup(markup).value.0)).Err? ==>
        r == Err(RequiresUrl) && entries == old(entries)
      ensures SplitMarkup(markup).Ok? && ResolveUrl(evalUrl(SplitMarkup(markup).value.0)).Ok? ==>
        var url := ResolveUrl(evalUrl(SplitMarkup(markup).value.0)).value;
        var title := ResolveTitle(SplitMarkup(markup).value.1, evalTitle);
        var save := saveEnv == Some("1");
        if ArchiveEnabled(archiveEnv, saveEnv) then
          && r == Ok(Card(url, title, ArchiveLine(true, CachedArchive(old(entries), url, lookup, submit, save))))
          && entries == CacheAfter(old(entries), url, lookup, submit, save)
        else r == Ok(Card(url, title, "")) && entries == old(entries)
    {
      var parts := SplitMarkup(markup);
      if parts.Err? {
        return Err(parts.error);
      }
      var (token, titleSource) := parts.value;
      var url := ResolveUrl(evalUrl(token));
      if url.Err? {
        return Err(url.error);
      }
      var title := ResolveTitle(titleSource, evalTitle);
      var enabled := ArchiveEnabled(archiveEnv, saveEnv);
      var line := ArchiveBlock(url.value, enabled, lookup, submit, saveEnv == Some("1"));
      r := Ok(Card(url.value, title, line));
    }
  }
}
