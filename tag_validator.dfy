/** The tag validator run at the start of the build: every post, page and
    collection document is checked once (by path) for tags containing a space,
    and the build fails with one report listing every offending document. */
module TagValidator {
  import opened Wrappers
  import opened Strings
  import Seqs

  /** The `tags` front-matter value: absent, a list, or a single tag, each tag
      in its string form. */
  datatype Tags = NoTags | TagList(items: seq<string>) | OneTag(tag: string)

  datatype Doc = Doc(relativePath: Option<string>, path: Option<string>, tags: Tags)

  datatype TagError = TagError(path: string, tags: seq<string>)

  /** The key a document is validated under: `relative_path || path`. */
  function Key(d: Doc): Option<string> {
    if d.relativePath.Some? then d.relativePath else d.path
  }

  /** The path an error reports: `relative_path || path || "unknown"`. */
  function ErrorPath(d: Doc): (r: string)
    ensures d.relativePath.Some? ==> r == d.relativePath.value
    ensures d.relativePath.None? && d.path.Some? ==> r == d.path.value
    ensures d.relativePath.None? && d.path.None? ==> r == "unknown"
  {
    match Key(d)
    case Some(p) => p
    case None => "unknown"
  }

  /** A single tag is treated as a one-element list. */
  function TagsArray(t: Tags): (r: seq<string>)
    ensures t.OneTag? ==> r == [t.tag]
    ensures t.TagList? ==> r == t.items
    ensures t.NoTags? ==> r == []
  {
    match t
    case NoTags => []
    case TagList(items) => items
    case OneTag(tag) => [tag]
  }

  predicate HasSpace(t: string) {
    exists i :: 0 <= i < |t| && t[i] == ' '
  }

  /** The tags containing a space, in order. */
  function InvalidTags(ts: seq<string>): (r: seq<string>)
    ensures |r| <= |ts|
    ensures forall x :: x in r <==> x in ts && HasSpace(x)
  {
    if ts == [] then []
    else
      var init := InvalidTags(ts[..|ts| - 1]);
      var last := ts[|ts| - 1];
      assert ts == ts[..|ts| - 1] + [last];
      if HasSpace(last) then init + [last] else init
  }

  /** `select` keeps the tags with a space in their order: one tag is kept
      exactly when it has a space, and a list splits into its parts. */
  lemma {:induction false} InvalidTagsFilter(a: seq<string>, b: seq<string>, t: string)
    ensures InvalidTags([t]) == if HasSpace(t) then [t] else []
    ensures InvalidTags(a + b) == InvalidTags(a) + InvalidTags(b)
    decreases |b|
  {
    assert [t][..0] == [];
    if b == [] {
      assert a + b == a;
    } else {
      var init, last := b[..|b| - 1], b[|b| - 1];
      assert (a + b)[..|a + b| - 1] == a + init;
      InvalidTagsFilter(a, init, t);
    }
  }

  /** `tags.nil? || tags.empty?` */
  predicate NoTagsGiven(t: Tags) {
    t.NoTags? || t == TagList([]) || t == OneTag("")
  }

  /** What `validate_tags` appends for one document: nothing, or one record
      with the document's path and its invalid tags. */
  function Check(d: Doc): (r: Option<TagError>)
    ensures NoTagsGiven(d.tags) ==> r.None?
    ensures r.Some? <==> !NoTagsGiven(d.tags) && exists t :: t in TagsArray(d.tags) && HasSpace(t)
    ensures r.Some? ==> r.value == TagError(ErrorPath(d), InvalidTags(TagsArray(d.tags)))
  {
    if NoTagsGiven(d.tags) then None
    else
      var invalid := InvalidTags(TagsArray(d.tags));
      if invalid == [] then
        assert forall t :: t in TagsArray(d.tags) ==> !HasSpace(t) by {
          forall t | t in TagsArray(d.tags) ensures !HasSpace(t) { }
        }
        None
      else
        assert invalid[0] in TagsArray(d.tags);
        Some(TagError(ErrorPath(d), invalid))
  }

  function ToSeq(o: Option<TagError>): seq<TagError> {
    if o.Some? then [o.value] else []
  }

  // ---------------------------------------------------------------------
  // The documents validated, and the errors collected

  function Keys(docs: seq<Doc>): (r: set<Option<string>>)
    ensures forall i :: 0 <= i < |docs| ==> Key(docs[i]) in r
    ensures forall k :: k in r ==> exists i :: 0 <= i < |docs| && Key(docs[i]) == k
  {
    set i | 0 <= i < |docs| :: Key(docs[i])
  }

  /** The documents in order, each kept only when no earlier document has its key. */
  function Dedup(docs: seq<Doc>): seq<Doc> {
    if docs == [] then []
    else
      var init := docs[..|docs| - 1];
      Dedup(init) + (if Key(docs[|docs| - 1]) in Keys(init) then [] else [docs[|docs| - 1]])
  }

  function ErrorsOf(docs: seq<Doc>): seq<TagError> {
    if docs == [] then [] else ErrorsOf(docs[..|docs| - 1]) + ToSeq(Check(docs[|docs| - 1]))
  }

  lemma KeysSnoc(docs: seq<Doc>, d: Doc)
    ensures Keys(docs + [d]) == Keys(docs) + {Key(d)}
  {
    var a := docs + [d];
    assert forall i :: 0 <= i < |docs| ==> a[i] == docs[i];
    assert a[|docs|] == d;
  }

  lemma DedupSnoc(docs: seq<Doc>, d: Doc)
    ensures Dedup(docs + [d]) == Dedup(docs) + (if Key(d) in Keys(docs) then [] else [d])
  {
    assert (docs + [d])[..|docs|] == docs;
  }

  /** No error is collected exactly when every document passes. */
  lemma {:induction false} ErrorsOfEmpty(docs: seq<Doc>)
    ensures ErrorsOf(docs) == [] <==> forall d :: d in docs ==> Check(d).None?
  {
    if docs != [] {
      var init, last := docs[..|docs| - 1], docs[|docs| - 1];
      Seqs.InitLast(docs);
      ErrorsOfEmpty(init);
      assert forall d :: d in docs <==> d in init || d == last;
    }
  }

  /** Every error collected is the check of one of the documents. */
  lemma {:induction false} ErrorsOfMembers(docs: seq<Doc>, e: TagError)
    requires e in ErrorsOf(docs)
    ensures exists d :: d in docs && Check(d) == Some(e)
  {
    var init, last := docs[..|docs| - 1], docs[|docs| - 1];
    if e in ErrorsOf(init) {
      ErrorsOfMembers(init, e);
      var d :| d in init && Check(d) == Some(e);
      assert d in docs;
    } else {
      assert last in docs;
    }
  }

  /** Conversely, every document that fails its check has its error collected. */
  lemma {:induction false} ErrorsOfCollects(docs: seq<Doc>, d: Doc)
    requires d in docs && Check(d).Some?
    ensures Check(d).value in ErrorsOf(docs)
  {
    var init, last := docs[..|docs| - 1], docs[|docs| - 1];
    Seqs.InitLast(docs);
    if d == last {
      assert ToSeq(Check(d)) == [Check(d).value];
    } else {
      assert d in init;
      ErrorsOfCollects(init, d);
    }
  }

  lemma ErrorsOfSnoc(docs: seq<Doc>, d: Doc)
    ensures ErrorsOf(docs + [d]) == ErrorsOf(docs) + ToSeq(Check(d))
  {
    Seqs.SnocInit(docs, d);
  }

  predicate DistinctKeys(ds: seq<Doc>) {
    forall i, j :: 0 <= i < j < |ds| ==> Key(ds[i]) != Key(ds[j])
  }

  /** Every key of the input is kept. */
  lemma {:induction false} DedupKeys(docs: seq<Doc>)
    ensures Keys(Dedup(docs)) == Keys(docs)
  {
    if docs != [] {
      var init, last := docs[..|docs| - 1], docs[|docs| - 1];
      Seqs.InitLast(docs);
      DedupKeys(init);
      KeysSnoc(init, last);
      DedupSnoc(init, last);
      if Key(last) !in Keys(init) {
        KeysSnoc(Dedup(init), last);
        calc {
          Keys(Dedup(docs));
          Keys(Dedup(init) + [last]);
          Keys(Dedup(init)) + {Key(last)};
          Keys(init + [last]);
        }
      } else {
        Seqs.AppendEmpty(Dedup(init));
        calc {
          Keys(Dedup(docs));
          Keys(Dedup(init));
          Keys(init) + {Key(last)};
          Keys(init + [last]);
        }
      }
    }
  }

  /** The documents kept have pairwise different keys. */
  lemma {:induction false} DedupDistinct(docs: seq<Doc>)
    ensures DistinctKeys(Dedup(docs))
  {
    if docs != [] {
      var init, last := docs[..|docs| - 1], docs[|docs| - 1];
      Seqs.InitLast(docs);
      DedupDistinct(init);
      DedupSnoc(init, last);
      if Key(last) !in Keys(init) {
        DedupKeys(init);
        var ds := Dedup(init) + [last];
        forall i, j | 0 <= i < j < |ds| ensures Key(ds[i]) != Key(ds[j]) {
          if j == |ds| - 1 {
            assert Key(ds[i]) in Keys(Dedup(init));
          }
        }
      }
    }
  }

  /** Every document kept is the first document with its key. */
  lemma {:induction false} DedupFirst(docs: seq<Doc>, j: nat)
    requires j < |Dedup(docs)|
    ensures exists i :: 0 <= i < |docs| && docs[i] == Dedup(docs)[j] && Key(docs[i]) !in Keys(docs[..i])
  {
    var init, last := docs[..|docs| - 1], docs[|docs| - 1];
    assert docs == init + [last];
    DedupSnoc(init, last);
    if j < |Dedup(init)| {
      DedupFirst(init, j);
      var i :| 0 <= i < |init| && init[i] == Dedup(init)[j] && Key(init[i]) !in Keys(init[..i]);
      assert docs[..i] == init[..i];
      assert docs[i] == init[i];
    } else {
      assert docs[..|docs| - 1] == init;
    }
  }

  // ---------------------------------------------------------------------
  // The report

  function PathLine(e: TagError): string {
    "  - " + e.path + "\n"
  }

  function TagsLine(e: TagError): string {
    "    Invalid tags: " + Join(e.tags, ", ") + "\n\n"
  }

  /** One document's part of the report. */
  function Entry(e: TagError): string {
    PathLine(e) + TagsLine(e)
  }

  function FoundLine(n: nat): string {
    "Found " + NatToString(n) + " document(s) with invalid tags:\n\n"
  }

  function Header(n: nat): string {
    "Tag validation failed: tags cannot contain spaces\n\n" + FoundLine(n)
  }

  const Footer := "Please replace spaces with hyphens (e.g., 'vintage web' -> 'vintage-web').\n"

  function Entries(errors: seq<TagError>): string {
    if errors == [] then [] else Entries(errors[..|errors| - 1]) + Entry(errors[|errors| - 1])
  }

  function Message(errors: seq<TagError>): string {
    Header(|errors|) + Entries(errors) + Footer
  }

  /** The build fails exactly when some error was collected. */
  function Outcome(errors: seq<TagError>): (r: Result<(), string>)
    ensures r.Ok? <==> errors == []
    ensures r.Err? ==> r.error == Message(errors)
  {
    if errors == [] then Ok(()) else Err(Message(errors))
  }

  lemma {:induction false} EntriesContains(errors: seq<TagError>, i: nat)
    requires i < |errors|
    ensures Contains(Entries(errors), Entry(errors[i]))
  {
    var init, last := errors[..|errors| - 1], errors[|errors| - 1];
    if i == |errors| - 1 {
      ContainsSelf(Entry(last));
      ContainsRight(Entries(init), Entry(last), Entry(last));
    } else {
      EntriesContains(init, i);
      ContainsLeft(Entries(init), Entry(last), Entry(errors[i]));
    }
  }

  /** The report states the number of documents and lists every offending
      path with its invalid tags. */
  lemma MessageLists(errors: seq<TagError>, i: nat)
    requires i < |errors|
    ensures Contains(Message(errors), FoundLine(|errors|))
    ensures Contains(Message(errors), Entry(errors[i]))
    ensures Contains(Message(errors), PathLine(errors[i]))
  {
    var h := Header(|errors|);
    var es := Entries(errors);
    ContainsSelf(FoundLine(|errors|));
    ContainsRight("Tag validation failed: tags cannot contain spaces\n\n", FoundLine(|errors|), FoundLine(|errors|));
    ContainsLeft(h, es, FoundLine(|errors|));
    ContainsLeft(h + es, Footer, FoundLine(|errors|));
    EntriesContains(errors, i);
    ContainsRight(h, es, Entry(errors[i]));
    ContainsLeft(h + es, Footer, Entry(errors[i]));
    ContainsSelf(PathLine(errors[i]));
    ContainsLeft(PathLine(errors[i]), TagsLine(errors[i]), PathLine(errors[i]));
    ContainsTrans(Message(errors), Entry(errors[i]), PathLine(errors[i]));
  }

  // ---------------------------------------------------------------------
  // generate

  function Flatten(colls: seq<seq<Doc>>): seq<Doc> {
    if colls == [] then [] else Flatten(colls[..|colls| - 1]) + colls[|colls| - 1]
  }

  /** Visiting one more document moves the state from `docs` to `docs + [d]`. */
  lemma VisitStep(docs: seq<Doc>, d: Doc)
    ensures Keys(docs + [d]) == Keys(docs) + {Key(d)}
    ensures ErrorsOf(Dedup(docs + [d]))
         == ErrorsOf(Dedup(docs)) + (if Key(d) in Keys(docs) then [] else ToSeq(Check(d)))
  {
    KeysSnoc(docs, d);
    DedupSnoc(docs, d);
    if Key(d) in Keys(docs) {
      Seqs.AppendEmpty(Dedup(docs));
    } else {
      ErrorsOfSnoc(Dedup(docs), d);
    }
  }

  /** The state `generate` builds: the errors and the paths validated so far. */
  class Validator {
    var errors: seq<TagError>
    var validated: set<Option<string>>

    constructor ()
      ensures errors == [] && validated == {}
    {
      errors := [];
      validated := {};
    }

    /** The state after visiting `docs` from the start. */
    predicate After(docs: seq<Doc>)
      reads this
    {
      validated == Keys(docs) && errors == ErrorsOf(Dedup(docs))
    }

    /** `validate_tags`: appends the document's error record, if any. */
    method ValidateTags(d: Doc)
      modifies this
      ensures errors == old(errors) + ToSeq(Check(d)) && validated == old(validated)
    {
      var c := Check(d);
      if c.Some? {
        errors := errors + [c.value];
      }
    }

    /** One of the loops of `generate`: visits `docs` in order. */
    method VisitAll(base: seq<Doc>, docs: seq<Doc>)
      requires After(base)
      modifies this
      ensures After(base + docs)
    {
      assert docs[..0] == [];
      Seqs.AppendEmpty(base);
      for k := 0 to |docs|
        invariant After(base + docs[..k])
      {
        VisitStep(base + docs[..k], docs[k]);
        Visit(docs[k]);
        Seqs.PrefixSnoc(docs, k);
        Seqs.Assoc(base, docs[..k], [docs[k]]);
      }
      Seqs.Whole(docs);
    }

    /** The last loop of `generate`: visits every collection's documents. */
    method VisitCollections(base: seq<Doc>, collections: seq<seq<Doc>>)
      requires After(base)
      modifies this
      ensures After(base + Flatten(collections))
    {
      assert Flatten(collections[..0]) == [];
      Seqs.AppendEmpty(base);
      for c := 0 to |collections|
        invariant After(base + Flatten(collections[..c]))
      {
        VisitAll(base + Flatten(collections[..c]), collections[c]);
        assert collections[..c + 1][..c] == collections[..c];
        Seqs.Assoc(base, Flatten(collections[..c]), collections[c]);
      }
      Seqs.Whole(collections);
    }

    /** One step of a loop in `generate`: a document whose path was validated
        before is skipped; otherwise its path is recorded and it is validated. */
    method Visit(d: Doc)
      modifies this
      ensures validated == old(validated) + {Key(d)}
      ensures errors == old(errors) + (if Key(d) in old(validated) then [] else ToSeq(Check(d)))
    {
      if Key(d) in validated {
        return;
      }
      validated := validated + {Key(d)};
      ValidateTags(d);
    }
  }

  /** The report `generate` raises, built entry by entry. */
  method BuildMessage(errors: seq<TagError>) returns (m: string)
    ensures m == Message(errors)
  {
    m := Header(|errors|);
    for i := 0 to |errors|
      invariant m == Header(|errors|) + Entries(errors[..i])
    {
      ghost var before := m;
      m := m + PathLine(errors[i]);
      m := m + TagsLine(errors[i]);
      Seqs.Assoc(before, PathLine(errors[i]), TagsLine(errors[i]));
      Seqs.PrefixSnoc(errors, i);
      assert Entries(errors[..i + 1]) == Entries(errors[..i]) + Entry(errors[i]);
      Seqs.Assoc(Header(|errors|), Entries(errors[..i]), Entry(errors[i]));
    }
    Seqs.Whole(errors);
    m := m + Footer;
  }

  /** `generate`: posts, then pages, then the documents of every collection. */
  method Generate(posts: seq<Doc>, pages: seq<Doc>, collections: seq<seq<Doc>>) returns (r: Result<(), string>)
    ensures r == Outcome(ErrorsOf(Dedup(posts + pages + Flatten(collections))))
  {
    var v := new Validator();
    assert v.After([]);
    v.VisitAll([], posts);
    assert [] + posts == posts;
    v.VisitAll(posts, pages);
    v.VisitCollections(posts + pages, collections);
    assert v.errors == ErrorsOf(Dedup(posts + pages + Flatten(collections)));
    if v.errors == [] {
      r := Ok(());
    } else {
      var m := BuildMessage(v.errors);
      r := Err(m);
    }
  }
}
