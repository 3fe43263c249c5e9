/** Terms, grouping and sorting for the collection archives: documents are
    grouped by each non-blank tag or category they carry, in the order the
    terms are first seen, and each archive lists its documents by lower-cased
    title. */
module GardenTerms {
  import opened Wrappers
  import opened Strings
  import Seqs

  /** A front-matter value that is absent, a list, or a single value. */
  datatype Field = Absent | Many(items: seq<string>) | One(item: string)

  datatype Doc = Doc(title: Option<string>, tags: Field, categories: Field, category: Field)

  /** `Array(value)`: absent is the empty list, a single value a one-element list. */
  function AsArray(f: Field): (r: seq<string>)
    ensures f.Absent? <==> r == [] && !f.Many?
    ensures f.One? ==> r == [f.item]
  {
    match f
    case Absent => []
    case Many(items) => items
    case One(item) => [item]
  }

  /** The keys of `SUPPORTED_TYPES`. */
  predicate IsSupported(kind: string) {
    kind == "tags" || kind == "categories"
  }

  /** `terms_for`: the tags, or the categories falling back to the single
      `category` when `categories` is absent. */
  function TermsFor(d: Doc, kind: string): (r: seq<string>)
    requires IsSupported(kind)
    ensures kind == "categories" && d.categories.Absent? && d.category.One? ==> r == [d.category.item]
    ensures kind == "categories" && d.categories.Absent? && d.category.Absent? ==> r == []
  {
    if kind == "tags" then AsArray(d.tags)
    else if d.categories.Absent? then AsArray(d.category)
    else AsArray(d.categories)
  }

  /** `term.to_s.strip.empty?` */
  predicate Blank(t: string) {
    Strip(t) == []
  }

  // ---------------------------------------------------------------------
  // The (term, document) pairs the nested loops visit

  /** The pairs one document contributes: each non-blank term, in order. */
  function TermPairs(terms: seq<string>, d: Doc): seq<(string, Doc)> {
    if terms == [] then []
    else
      var last := terms[|terms| - 1];
      TermPairs(terms[..|terms| - 1], d) + (if Blank(last) then [] else [(last, d)])
  }

  function Pairs(docs: seq<Doc>, kind: string): seq<(string, Doc)>
    requires IsSupported(kind)
  {
    if docs == [] then []
    else
      var last := docs[|docs| - 1];
      Pairs(docs[..|docs| - 1], kind) + TermPairs(TermsFor(last, kind), last)
  }

  lemma {:induction false} TermPairsMember(terms: seq<string>, d: Doc, t: string, e: Doc)
    ensures (t, e) in TermPairs(terms, d) <==> e == d && t in terms && !Blank(t)
  {
    if terms != [] {
      var init, last := terms[..|terms| - 1], terms[|terms| - 1];
      Seqs.InitLast(terms);
      TermPairsMember(init, d, t, e);
    }
  }

  /** A pair is visited exactly when the document is in the list and carries
      the term, and the term is not blank. */
  lemma {:induction false} PairsMember(docs: seq<Doc>, kind: string, t: string, e: Doc)
    requires IsSupported(kind)
    ensures (t, e) in Pairs(docs, kind) <==> e in docs && t in TermsFor(e, kind) && !Blank(t)
  {
    if docs != [] {
      var init, last := docs[..|docs| - 1], docs[|docs| - 1];
      Seqs.InitLast(docs);
      PairsMember(init, kind, t, e);
      TermPairsMember(TermsFor(last, kind), last, t, e);
    }
  }

  // ---------------------------------------------------------------------
  // The insertion-ordered hash of groups

  datatype Grouping = Grouping(order: seq<string>, groups: map<string, seq<Doc>>)

  predicate Distinct(s: seq<string>) {
    forall i, j :: 0 <= i < j < |s| ==> s[i] != s[j]
  }

  /** The keys in insertion order are exactly the keys of the hash, once each. */
  ghost predicate WellFormed(g: Grouping) {
    Distinct(g.order) && forall t :: t in g.groups <==> t in g.order
  }

  /** `hash[term] << doc` on a hash whose default value is a fresh empty list. */
  function AddPair(g: Grouping, t: string, d: Doc): (r: Grouping)
    ensures WellFormed(g) ==> WellFormed(r)
    ensures t in r.groups && r.groups[t] == (if t in g.groups then g.groups[t] else []) + [d]
    ensures forall u :: u != t ==> (u in r.groups <==> u in g.groups)
    ensures forall u :: u != t && u in g.groups ==> u in r.groups && r.groups[u] == g.groups[u]
  {
    if t in g.groups then Grouping(g.order, g.groups[t := g.groups[t] + [d]])
    else Grouping(g.order + [t], g.groups[t := [d]])
  }

  function Grouped(pairs: seq<(string, Doc)>): (g: Grouping)
    ensures WellFormed(g)
  {
    if pairs == [] then Grouping([], map[])
    else
      var last := pairs[|pairs| - 1];
      AddPair(Grouped(pairs[..|pairs| - 1]), last.0, last.1)
  }

  lemma GroupedSnoc(pairs: seq<(string, Doc)>, p: (string, Doc))
    ensures Grouped(pairs + [p]) == AddPair(Grouped(pairs), p.0, p.1)
  {
    Seqs.SnocInit(pairs, p);
  }

  /** A term has a group exactly when some pair carries it. */
  lemma {:induction false} GroupedKeys(pairs: seq<(string, Doc)>, t: string)
    ensures t in Grouped(pairs).groups <==> exists d :: (t, d) in pairs
  {
    if pairs != [] {
      var init, last := pairs[..|pairs| - 1], pairs[|pairs| - 1];
      Seqs.InitLast(pairs);
      GroupedKeys(init, t);
      if t == last.0 {
        assert (t, last.1) in pairs;
      } else if exists d :: (t, d) in pairs {
        var d :| (t, d) in pairs;
        assert (t, d) in init;
      }
    }
  }

  /** A term's group holds exactly the documents paired with it. */
  lemma {:induction false} GroupedDocs(pairs: seq<(string, Doc)>, t: string, d: Doc)
    requires t in Grouped(pairs).groups
    ensures d in Grouped(pairs).groups[t] <==> (t, d) in pairs
  {
    var init, last := pairs[..|pairs| - 1], pairs[|pairs| - 1];
    Seqs.InitLast(pairs);
    if t in Grouped(init).groups {
      GroupedDocs(init, t, d);
    } else {
      GroupedKeys(init, t);
    }
  }

  /** One group per distinct non-blank term, and each document is in the
      group of every term it carries. */
  lemma GroupsByTerm(docs: seq<Doc>, kind: string, t: string, d: Doc)
    requires IsSupported(kind)
    ensures t in Grouped(Pairs(docs, kind)).groups
        <==> !Blank(t) && exists e :: e in docs && t in TermsFor(e, kind)
    ensures t in Grouped(Pairs(docs, kind)).groups ==>
              (d in Grouped(Pairs(docs, kind)).groups[t] <==> d in docs && t in TermsFor(d, kind))
  {
    var ps := Pairs(docs, kind);
    GroupedKeys(ps, t);
    if t in Grouped(ps).groups {
      var e :| (t, e) in ps;
      PairsMember(docs, kind, t, e);
      GroupedDocs(ps, t, d);
      PairsMember(docs, kind, t, d);
    } else if !Blank(t) && exists e :: e in docs && t in TermsFor(e, kind) {
      var e :| e in docs && t in TermsFor(e, kind);
      PairsMember(docs, kind, t, e);
    }
  }

  // ---------------------------------------------------------------------
  // Sorting by lower-cased title

  /** `doc.data["title"].to_s.downcase`; a missing title sorts as "". */
  function TitleKey(d: Doc): string {
    LowerStr(d.title.GetOr(""))
  }

  /** String comparison by character code, a proper prefix first. */
  predicate LexLe(a: string, b: string) {
    a == [] || (b != [] && (a[0] < b[0] || (a[0] == b[0] && LexLe(a[1..], b[1..]))))
  }

  lemma {:induction false} LexTotal(a: string, b: string)
    ensures LexLe(a, b) || LexLe(b, a)
  {
    if a != [] && b != [] && a[0] == b[0] {
      LexTotal(a[1..], b[1..]);
    }
  }

  predicate SortedByTitle(ds: seq<Doc>) {
    forall i :: 0 < i < |ds| ==> LexLe(TitleKey(ds[i - 1]), TitleKey(ds[i]))
  }

  function Insert(d: Doc, ds: seq<Doc>): (r: seq<Doc>)
    requires SortedByTitle(ds)
    ensures SortedByTitle(r)
    ensures multiset(r) == multiset(ds) + multiset{d}
    ensures |r| == |ds| + 1 && r[0] in {d} + (if ds == [] then {} else {ds[0]})
  {
    if ds == [] || LexLe(TitleKey(d), TitleKey(ds[0])) then [d] + ds
    else
      LexTotal(TitleKey(d), TitleKey(ds[0]));
      var rest := Insert(d, ds[1..]);
      assert ds == [ds[0]] + ds[1..];
      [ds[0]] + rest
  }

  /** `sort_by { |doc| title.downcase }`: a sorted permutation. Ruby's sort is
      not stable, so the order among equal titles is not specified; this one
      is a valid choice. */
  function SortByTitle(ds: seq<Doc>): (r: seq<Doc>)
    ensures SortedByTitle(r)
    ensures multiset(r) == multiset(ds)
  {
    if ds == [] then []
    else
      assert ds == [ds[0]] + ds[1..];
      Insert(ds[0], SortByTitle(ds[1..]))
  }

  // ---------------------------------------------------------------------
  // Archives

  datatype Archive = Archive(term: string, typeKey: string, docs: seq<Doc>)

  /** The groups as an ordered list of (term, documents), as a Ruby hash
      converted to a plain one. */
  function Ordered(g: Grouping): seq<(string, seq<Doc>)>
    requires WellFormed(g)
  {
    seq(|g.order|, i requires 0 <= i < |g.order| => (g.order[i], g.groups[g.order[i]]))
  }

  /** `build_archives`: one archive per group, its documents sorted. */
  function ArchivesOf(docs: seq<Doc>, kind: string, typeKey: string): seq<Archive>
    requires IsSupported(kind)
  {
    var g := Grouped(Pairs(docs, kind));
    seq(|g.order|, i requires 0 <= i < |g.order| => Archive(g.order[i], typeKey, SortByTitle(g.groups[g.order[i]])))
  }

  /** Each archive is for a distinct non-blank term, holds exactly the
      documents carrying that term, sorted by title. */
  lemma ArchiveContents(docs: seq<Doc>, kind: string, typeKey: string, i: nat, d: Doc)
    requires IsSupported(kind) && i < |ArchivesOf(docs, kind, typeKey)|
    ensures var a := ArchivesOf(docs, kind, typeKey)[i];
      && a.typeKey == typeKey
      && !Blank(a.term)
      && SortedByTitle(a.docs)
      && (d in a.docs <==> d in docs && a.term in TermsFor(d, kind))
    ensures forall j :: 0 <= j < |ArchivesOf(docs, kind, typeKey)| && j != i ==>
      ArchivesOf(docs, kind, typeKey)[j].term != ArchivesOf(docs, kind, typeKey)[i].term
  {
    var g := Grouped(Pairs(docs, kind));
    var t := g.order[i];
    GroupsByTerm(docs, kind, t, d);
    assert d in g.groups[t] <==> d in multiset(g.groups[t]);
  }

  lemma ArchivesKey(docs: seq<Doc>, kind: string, typeKey: string, a: Archive)
    requires IsSupported(kind) && a in ArchivesOf(docs, kind, typeKey)
    ensures a.typeKey == typeKey
  {
    var i :| 0 <= i < |ArchivesOf(docs, kind, typeKey)| && ArchivesOf(docs, kind, typeKey)[i] == a;
  }

  /** Every non-blank term a document carries has an archive listing it. */
  lemma ArchiveCovers(docs: seq<Doc>, kind: string, typeKey: string, d: Doc, t: string)
    requires IsSupported(kind) && d in docs && t in TermsFor(d, kind) && !Blank(t)
    ensures exists i :: (0 <= i < |ArchivesOf(docs, kind, typeKey)|
      && ArchivesOf(docs, kind, typeKey)[i].term == t && d in ArchivesOf(docs, kind, typeKey)[i].docs)
  {
    var g := Grouped(Pairs(docs, kind));
    GroupsByTerm(docs, kind, t, d);
    var i :| 0 <= i < |g.order| && g.order[i] == t;
    assert d in multiset(g.groups[t]);
    assert ArchivesOf(docs, kind, typeKey)[i].term == t;
  }

  /** The hash built by the nested loops, with a fresh empty list as the
      default value of a missing term. */
  class TermIndex {
    var order: seq<string>
    var groups: map<string, seq<Doc>>

    constructor ()
      ensures State() == Grouped([])
    {
      order := [];
      groups := map[];
    }

    function State(): Grouping
      reads this
    {
      Grouping(order, groups)
    }

    /** `hash[term] << doc` */
    method Append(t: string, d: Doc)
      modifies this
      ensures State() == AddPair(old(State()), t, d)
    {
      if t in groups {
        groups := groups[t := groups[t] + [d]];
      } else {
        order := order + [t];
        groups := groups[t := [d]];
      }
    }

    /** The inner loop: every non-blank term of `d` files `d` under it. */
    method AddDoc(ghost base: seq<(string, Doc)>, d: Doc, kind: string)
      requires IsSupported(kind) && State() == Grouped(base)
      modifies this
      ensures State() == Grouped(base + TermPairs(TermsFor(d, kind), d))
    {
      var terms := TermsFor(d, kind);
      assert terms[..0] == [];
      Seqs.AppendEmpty(base);
      for j := 0 to |terms|
        invariant State() == Grouped(base + TermPairs(terms[..j], d))
      {
        ghost var before := base + TermPairs(terms[..j], d);
        Seqs.PrefixSnoc(terms, j);
        assert terms[..j + 1][..j] == terms[..j];
        if Blank(terms[j]) {
          Seqs.AppendEmpty(TermPairs(terms[..j], d));
          continue;
        }
        Append(terms[j], d);
        GroupedSnoc(before, (terms[j], d));
        Seqs.Assoc(base, TermPairs(terms[..j], d), [(terms[j], d)]);
      }
      Seqs.Whole(terms);
    }
  }

  /** The outer loop over the documents. */
  method GroupDocs(idx: TermIndex, docs: seq<Doc>, kind: string)
    requires IsSupported(kind) && idx.State() == Grouped([])
    modifies idx
    ensures idx.State() == Grouped(Pairs(docs, kind))
  {
    for i := 0 to |docs|
      invariant idx.State() == Grouped(Pairs(docs[..i], kind))
    {
      idx.AddDoc(Pairs(docs[..i], kind), docs[i], kind);
      Seqs.PrefixSnoc(docs, i);
    }
    Seqs.Whole(docs);
  }

  /** `build_archives` */
  method BuildArchives(docs: seq<Doc>, kind: string, typeKey: string) returns (r: seq<Archive>)
    requires IsSupported(kind)
    ensures r == ArchivesOf(docs, kind, typeKey)
  {
    var idx := new TermIndex();
    GroupDocs(idx, docs, kind);
    var g := idx.State();
    r := seq(|g.order|, i requires 0 <= i < |g.order| => Archive(g.order[i], typeKey, SortByTitle(g.groups[g.order[i]])));
  }
}
