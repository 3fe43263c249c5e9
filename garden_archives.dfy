/** The collection archive generator: for every collection configured under
    `jekyll-archives`, publishes its tag and category maps in the site data,
    fills in the layout and permalink for each enabled archive type when they
    are not set, and adds one archive page per term. */
module GardenArchives {
  import opened Wrappers
  import opened Strings
  import opened GardenTerms
  import Seqs

  /** `TYPE_SUFFIX` */
  function Suffix(kind: string): string
    requires IsSupported(kind)
  {
    if kind == "tags" then "tag" else "category"
  }

  /** `type_key`: `"<collection>_tag"` or `"<collection>_category"`. */
  function TypeKey(name: string, kind: string): (r: string)
    requires IsSupported(kind)
    ensures kind == "tags" ==> r == name + "_tag"
    ensures kind == "categories" ==> r == name + "_category"
    ensures StartsWith(r, name + "_")
  {
    name + ("_" + Suffix(kind))
  }

  /** The two archive types of one collection never share a key, and two
      collections never share a key for the same type. */
  lemma TypeKeyDistinct(name: string, other: string, kind: string)
    requires IsSupported(kind)
    ensures TypeKey(name, "tags") != TypeKey(name, "categories")
    ensures TypeKey(name, kind) == TypeKey(other, kind) ==> name == other
  {
    assert |TypeKey(name, "tags")| != |TypeKey(name, "categories")|;
    if TypeKey(name, kind) == TypeKey(other, kind) {
      assert TypeKey(name, kind)[..|name|] == name;
      assert TypeKey(other, kind)[..|other|] == other;
    }
  }

  /** A type key is never itself a type name, so filling it in never reads
      back what it wrote. */
  lemma TypeKeyNotKind(name: string, kind: string, other: string)
    requires IsSupported(kind) && IsSupported(other)
    ensures TypeKey(name, kind) != other
  {
    var k := TypeKey(name, kind);
    assert k[|name|] == '_';
    if |k| == |other| {
      assert other[|name|] != '_';
    }
  }

  /** `enabled_types`: the `enabled` entry as a list, empty when absent. */
  function EnabledTypes(enabled: Field): (r: seq<string>)
    ensures enabled.Absent? ==> r == []
    ensures enabled.One? ==> r == [enabled.item]
  {
    AsArray(enabled)
  }

  /** A collection's own settings under `jekyll-archives.collections`. */
  datatype CollectionConfig = CollectionConfig(enabled: Field, layouts: map<string, string>, permalinks: map<string, string>)

  /** `collection_config.dig(section, key)` */
  function Dig(m: map<string, string>, key: string): Option<string> {
    if key in m then Some(m[key]) else None
  }

  // ---------------------------------------------------------------------
  // Fill-if-absent defaults

  /** A section of the archives configuration (`layouts` or `permalinks`):
      absent, or a map whose values may be nil. */
  type Section = Option<map<string, Option<string>>>

  /** The section after `section ||= {}` and `section[typeKey] ||= own || section[kind]`. */
  function Fill(stored: Section, kind: string, typeKey: string, own: Option<string>): (r: map<string, Option<string>>)
    ensures typeKey in r
  {
    var m := stored.GetOr(map[]);
    if typeKey in m && m[typeKey].Some? then m
    else m[typeKey := if own.Some? then own else if kind in m then m[kind] else None]
  }

  /** A value already set is kept, and nothing else is touched. */
  lemma FillKeeps(stored: Section, kind: string, typeKey: string, own: Option<string>, k: string)
    ensures stored.Some? && typeKey in stored.value && stored.value[typeKey].Some? ==>
      Fill(stored, kind, typeKey, own) == stored.value
    ensures k != typeKey && stored.Some? ==>
      (k in Fill(stored, kind, typeKey, own) <==> k in stored.value)
    ensures k != typeKey && stored.Some? && k in stored.value ==>
      Fill(stored, kind, typeKey, own)[k] == stored.value[k]
  {
  }

  /** A missing value comes from the collection's own setting, else from the
      global setting for the type, else is nil. */
  lemma FillDefault(stored: Section, kind: string, typeKey: string, own: Option<string>)
    requires !(stored.Some? && typeKey in stored.value && stored.value[typeKey].Some?)
    ensures own.Some? ==> Fill(stored, kind, typeKey, own)[typeKey] == own
    ensures own.None? && stored.Some? && kind in stored.value ==>
      Fill(stored, kind, typeKey, own)[typeKey] == stored.value[kind]
    ensures own.None? && !(stored.Some? && kind in stored.value) ==>
      Fill(stored, kind, typeKey, own)[typeKey] == None
  {
  }

  /** Filling twice is the same as filling once. */
  lemma FillIdempotent(stored: Section, kind: string, typeKey: string, own: Option<string>)
    requires kind != typeKey
    ensures Fill(Some(Fill(stored, kind, typeKey, own)), kind, typeKey, own) == Fill(stored, kind, typeKey, own)
  {
    var r := Fill(stored, kind, typeKey, own);
    if r[typeKey].None? {
      assert own.None?;
      assert r == r[typeKey := None];
    }
  }

  /** The mutable `jekyll-archives` configuration. */
  class ArchivesConfig {
    var layouts: Section
    var permalinks: Section

    constructor (layouts: Section, permalinks: Section)
      ensures this.layouts == layouts && this.permalinks == permalinks
    {
      this.layouts := layouts;
      this.permalinks := permalinks;
    }

    /** `ensure_layout!`: the layout stored for `typeKey` afterwards. */
    method EnsureLayout(cc: CollectionConfig, kind: string, typeKey: string) returns (v: Option<string>)
      requires IsSupported(kind)
      modifies this
      ensures layouts == Some(Fill(old(layouts), kind, typeKey, Dig(cc.layouts, Suffix(kind))))
      ensures permalinks == old(permalinks)
      ensures v == layouts.value[typeKey]
    {
      if layouts.None? {
        layouts := Some(map[]);
      }
      var m := layouts.value;
      if !(typeKey in m && m[typeKey].Some?) {
        var own := Dig(cc.layouts, Suffix(kind));
        m := m[typeKey := if own.Some? then own else if kind in m then m[kind] else None];
        layouts := Some(m);
      }
      v := m[typeKey];
    }

    /** `ensure_permalink!`: the permalink stored for `typeKey` afterwards. */
    method EnsurePermalink(cc: CollectionConfig, kind: string, typeKey: string) returns (v: Option<string>)
      requires IsSupported(kind)
      modifies this
      ensures permalinks == Some(Fill(old(permalinks), kind, typeKey, Dig(cc.permalinks, Suffix(kind))))
      ensures layouts == old(layouts)
      ensures v == permalinks.value[typeKey]
    {
      if permalinks.None? {
        permalinks := Some(map[]);
      }
      var m := permalinks.value;
      if !(typeKey in m && m[typeKey].Some?) {
        var own := Dig(cc.permalinks, Suffix(kind));
        m := m[typeKey := if own.Some? then own else if kind in m then m[kind] else None];
        permalinks := Some(m);
      }
      v := m[typeKey];
    }
  }

  // ---------------------------------------------------------------------
  // process_collection

  datatype Settings = Settings(layouts: Section, permalinks: Section)

  /** One enabled type: unsupported types are skipped; the layout is filled
      in, and only when it is set is the permalink filled in; only when both
      are set are the archives built. */
  function Step(s: Settings, name: string, cc: CollectionConfig, kind: string, docs: seq<Doc>): (Settings, seq<Archive>) {
    if !IsSupported(kind) then (s, [])
    else
      var key := TypeKey(name, kind);
      var l := Fill(s.layouts, kind, key, Dig(cc.layouts, Suffix(kind)));
      var s1 := s.(layouts := Some(l));
      if l[key].None? then (s1, [])
      else
        var p := Fill(s1.permalinks, kind, key, Dig(cc.permalinks, Suffix(kind)));
        var s2 := s1.(permalinks := Some(p));
        if p[key].None? then (s2, []) else (s2, ArchivesOf(docs, kind, key))
  }

  function Steps(s: Settings, name: string, cc: CollectionConfig, kinds: seq<string>, docs: seq<Doc>): (Settings, seq<Archive>) {
    if kinds == [] then (s, [])
    else
      var before := Steps(s, name, cc, kinds[..|kinds| - 1], docs);
      var last := Step(before.0, name, cc, kinds[|kinds| - 1], docs);
      (last.0, before.1 + last.1)
  }

  /** A layout or permalink that is set stays as it is. */
  predicate Keeps(s: Settings, t: Settings, key: string) {
    (s.layouts.Some? && key in s.layouts.value && s.layouts.value[key].Some? ==>
       t.layouts.Some? && key in t.layouts.value && t.layouts.value[key] == s.layouts.value[key])
    && (s.permalinks.Some? && key in s.permalinks.value && s.permalinks.value[key].Some? ==>
       t.permalinks.Some? && key in t.permalinks.value && t.permalinks.value[key] == s.permalinks.value[key])
  }

  /** A key whose layout and permalink are both set. */
  predicate Resolved(s: Settings, key: string) {
    s.layouts.Some? && key in s.layouts.value && s.layouts.value[key].Some?
    && s.permalinks.Some? && key in s.permalinks.value && s.permalinks.value[key].Some?
  }

  lemma StepKeeps(s: Settings, name: string, cc: CollectionConfig, kind: string, docs: seq<Doc>, key: string)
    ensures Keeps(s, Step(s, name, cc, kind, docs).0, key)
  {
    if IsSupported(kind) {
      var k := TypeKey(name, kind);
      FillKeeps(s.layouts, kind, k, Dig(cc.layouts, Suffix(kind)), key);
      FillKeeps(s.permalinks, kind, k, Dig(cc.permalinks, Suffix(kind)), key);
    }
  }

  /** Existing layouts and permalinks are never overwritten. */
  lemma {:induction false} StepsKeep(s: Settings, name: string, cc: CollectionConfig, kinds: seq<string>, docs: seq<Doc>, key: string)
    ensures Keeps(s, Steps(s, name, cc, kinds, docs).0, key)
  {
    if kinds != [] {
      var init := kinds[..|kinds| - 1];
      StepsKeep(s, name, cc, init, docs, key);
      StepKeeps(Steps(s, name, cc, init, docs).0, name, cc, kinds[|kinds| - 1], docs, key);
    }
  }

  /** The archives one step adds are for a supported type whose layout and
      permalink are set. */
  lemma StepArchives(s: Settings, name: string, cc: CollectionConfig, kind: string, docs: seq<Doc>, a: Archive)
    requires a in Step(s, name, cc, kind, docs).1
    ensures IsSupported(kind) && a.typeKey == TypeKey(name, kind)
    ensures Resolved(Step(s, name, cc, kind, docs).0, a.typeKey)
  {
    var key := TypeKey(name, kind);
    var l := Fill(s.layouts, kind, key, Dig(cc.layouts, Suffix(kind)));
    var s1 := s.(layouts := Some(l));
    var p := Fill(s1.permalinks, kind, key, Dig(cc.permalinks, Suffix(kind)));
    assert Step(s, name, cc, kind, docs) == (s1.(permalinks := Some(p)), ArchivesOf(docs, kind, key));
    ArchivesKey(docs, kind, key, a);
  }

  /** Every archive page added is for an enabled, supported type of this
      collection whose layout and permalink are set in the final settings. */
  lemma {:induction false} StepsArchives(s: Settings, name: string, cc: CollectionConfig, kinds: seq<string>, docs: seq<Doc>, a: Archive)
    requires a in Steps(s, name, cc, kinds, docs).1
    ensures exists kind :: kind in kinds && IsSupported(kind) && a.typeKey == TypeKey(name, kind)
    ensures Resolved(Steps(s, name, cc, kinds, docs).0, a.typeKey)
  {
    var init, last := kinds[..|kinds| - 1], kinds[|kinds| - 1];
    var before := Steps(s, name, cc, init, docs);
    Seqs.InitLast(kinds);
    if a in before.1 {
      StepsArchives(s, name, cc, init, docs, a);
      var kind :| kind in init && IsSupported(kind) && a.typeKey == TypeKey(name, kind);
      assert kind in kinds;
      StepKeeps(before.0, name, cc, last, docs, a.typeKey);
    } else {
      StepArchives(before.0, name, cc, last, docs, a);
    }
  }

  /** Conversely, a supported type whose layout and permalink are set after
      its step gets its archives built. */
  lemma StepBuilds(s: Settings, name: string, cc: CollectionConfig, kind: string, docs: seq<Doc>)
    requires IsSupported(kind)
    ensures Resolved(Step(s, name, cc, kind, docs).0, TypeKey(name, kind)) ==>
      Step(s, name, cc, kind, docs).1 == ArchivesOf(docs, kind, TypeKey(name, kind))
    ensures Resolved(s, TypeKey(name, kind)) ==>
      Step(s, name, cc, kind, docs).1 == ArchivesOf(docs, kind, TypeKey(name, kind))
  {
    var key := TypeKey(name, kind);
    var l := Fill(s.layouts, kind, key, Dig(cc.layouts, Suffix(kind)));
    var s1 := s.(layouts := Some(l));
    var p := Fill(s1.permalinks, kind, key, Dig(cc.permalinks, Suffix(kind)));
    FillKeeps(s.layouts, kind, key, Dig(cc.layouts, Suffix(kind)), key);
    FillKeeps(s1.permalinks, kind, key, Dig(cc.permalinks, Suffix(kind)), key);
    if l[key].Some? && p[key].Some? {
      assert Step(s, name, cc, kind, docs) == (s1.(permalinks := Some(p)), ArchivesOf(docs, kind, key));
    }
  }

  /** Every enabled, supported type whose layout and permalink are configured
      before the run gets all of its archive pages. */
  lemma {:induction false} StepsBuilds(s: Settings, name: string, cc: CollectionConfig, kinds: seq<string>,
                                       docs: seq<Doc>, kind: string, a: Archive)
    requires kind in kinds && IsSupported(kind) && Resolved(s, TypeKey(name, kind))
    requires a in ArchivesOf(docs, kind, TypeKey(name, kind))
    ensures a in Steps(s, name, cc, kinds, docs).1
  {
    var init, last := kinds[..|kinds| - 1], kinds[|kinds| - 1];
    var before := Steps(s, name, cc, init, docs);
    Seqs.InitLast(kinds);
    if kind in init {
      StepsBuilds(s, name, cc, init, docs, kind, a);
    } else {
      assert kind == last;
      StepsKeep(s, name, cc, init, docs, TypeKey(name, kind));
      StepBuilds(before.0, name, cc, kind, docs);
    }
  }

  // ---------------------------------------------------------------------
  // Taxonomy maps

  function Taxonomy(docs: seq<Doc>, kind: string): seq<(string, seq<Doc>)>
    requires IsSupported(kind)
  {
    Ordered(Grouped(Pairs(docs, kind)))
  }

  /** `build_taxonomy_hashes`: each map is published only when non-empty. */
  function Publish(data: map<string, seq<(string, seq<Doc>)>>, name: string, docs: seq<Doc>): map<string, seq<(string, seq<Doc>)>> {
    PublishOrdered(data, name, Taxonomy(docs, "tags"), Taxonomy(docs, "categories"))
  }

  function PublishOrdered(data: map<string, seq<(string, seq<Doc>)>>, name: string, tags: seq<(string, seq<Doc>)>, cats: seq<(string, seq<Doc>)>): map<string, seq<(string, seq<Doc>)>> {
    var d1 := if tags == [] then data else data[name + "_tags" := tags];
    if cats == [] then d1 else d1[name + "_categories" := cats]
  }

  /** A taxonomy map is empty exactly when every term of every document is blank. */
  lemma TaxonomyEmpty(docs: seq<Doc>, kind: string)
    requires IsSupported(kind)
    ensures Taxonomy(docs, kind) == [] <==>
      forall d, t :: d in docs && t in TermsFor(d, kind) ==> Blank(t)
  {
    var g := Grouped(Pairs(docs, kind));
    if Taxonomy(docs, kind) == [] {
      forall d, t | d in docs && t in TermsFor(d, kind) ensures Blank(t) {
        GroupsByTerm(docs, kind, t, d);
      }
    } else {
      var t := g.order[0];
      GroupsByTerm(docs, kind, t, Doc(None, Absent, Absent, Absent));
    }
  }

  /** Each entry of a taxonomy map lists exactly the documents carrying its term. */
  lemma TaxonomyEntry(docs: seq<Doc>, kind: string, i: nat, d: Doc)
    requires IsSupported(kind) && i < |Taxonomy(docs, kind)|
    ensures !Blank(Taxonomy(docs, kind)[i].0)
    ensures d in Taxonomy(docs, kind)[i].1 <==> d in docs && Taxonomy(docs, kind)[i].0 in TermsFor(d, kind)
  {
    var g := Grouped(Pairs(docs, kind));
    GroupsByTerm(docs, kind, g.order[i], d);
  }

  /** The tag map is stored under `<collection>_tags` when non-empty; nothing
      else but the category map's key changes. */
  lemma PublishKeys(data: map<string, seq<(string, seq<Doc>)>>, name: string, docs: seq<Doc>, k: string)
    ensures Taxonomy(docs, "tags") != [] ==>
      name + "_tags" in Publish(data, name, docs) && Publish(data, name, docs)[name + "_tags"] == Taxonomy(docs, "tags")
    ensures Taxonomy(docs, "categories") != [] ==>
      name + "_categories" in Publish(data, name, docs)
      && Publish(data, name, docs)[name + "_categories"] == Taxonomy(docs, "categories")
    ensures k != name + "_tags" && k != name + "_categories" ==>
      (k in Publish(data, name, docs) <==> k in data)
    ensures k != name + "_tags" && k != name + "_categories" && k in data ==>
      Publish(data, name, docs)[k] == data[k]
    ensures Taxonomy(docs, "tags") == [] && Taxonomy(docs, "categories") == [] ==> Publish(data, name, docs) == data
  {
    assert |name + "_tags"| != |name + "_categories"|;
  }

  /** The site state the generator changes. */
  class Site {
    var pages: seq<Archive>
    var data: map<string, seq<(string, seq<Doc>)>>

    constructor (pages: seq<Archive>, data: map<string, seq<(string, seq<Doc>)>>)
      ensures this.pages == pages && this.data == data
    {
      this.pages := pages;
      this.data := data;
    }
  }

  /** `build_taxonomy_hashes`: one pass over the documents fills both maps. */
  method BuildTaxonomyHashes(site: Site, name: string, docs: seq<Doc>)
    modifies site
    ensures site.data == Publish(old(site.data), name, docs)
    ensures site.pages == old(site.pages)
  {
    if docs == [] {
      assert Pairs(docs, "tags") == [] && Pairs(docs, "categories") == [];
      return;
    }
    var tags := new TermIndex();
    var cats := new TermIndex();
    GroupBoth(tags, cats, docs);
    PublishMaps(site, name, tags.State(), cats.State());
  }

  /** The loop of `build_taxonomy_hashes`: each document is filed under its
      tags in one hash and under its categories in the other. */
  method GroupBoth(tags: TermIndex, cats: TermIndex, docs: seq<Doc>)
    requires tags != cats
    requires tags.State() == Grouped([]) && cats.State() == Grouped([])
    modifies tags, cats
    ensures tags.State() == Grouped(Pairs(docs, "tags"))
    ensures cats.State() == Grouped(Pairs(docs, "categories"))
  {
    for i := 0 to |docs|
      invariant tags.State() == Grouped(Pairs(docs[..i], "tags"))
      invariant cats.State() == Grouped(Pairs(docs[..i], "categories"))
    {
      tags.AddDoc(Pairs(docs[..i], "tags"), docs[i], "tags");
      cats.AddDoc(Pairs(docs[..i], "categories"), docs[i], "categories");
      Seqs.PrefixSnoc(docs, i);
    }
    Seqs.Whole(docs);
  }

  /** The end of `build_taxonomy_hashes`: each non-empty map is stored. */
  method PublishMaps(site: Site, name: string, tags: Grouping, cats: Grouping)
    requires WellFormed(tags) && WellFormed(cats)
    modifies site
    ensures site.data == PublishOrdered(old(site.data), name, Ordered(tags), Ordered(cats))
    ensures site.pages == old(site.pages)
  {
    if tags.order != [] {
      site.data := site.data[name + "_tags" := Ordered(tags)];
    }
    if cats.order != [] {
      site.data := site.data[name + "_categories" := Ordered(cats)];
    }
  }

  /** `process_collection` */
  method ProcessCollection(site: Site, config: ArchivesConfig, name: string, cc: CollectionConfig, docs: seq<Doc>)
    modifies site, config
    ensures docs == [] ==> (config.layouts == old(config.layouts) && config.permalinks == old(config.permalinks)
      && site.pages == old(site.pages))
    ensures docs != [] ==> (
      var (s, ps) := Steps(Settings(old(config.layouts), old(config.permalinks)), name, cc, EnabledTypes(cc.enabled), docs);
      Settings(config.layouts, config.permalinks) == s && site.pages == old(site.pages) + ps)
    ensures site.data == old(site.data)
  {
    if docs == [] {
      return;
    }
    ghost var s0 := Settings(config.layouts, config.permalinks);
    ghost var pages0 := site.pages;
    var kinds := EnabledTypes(cc.enabled);
    assert kinds[..0] == [];
    for i := 0 to |kinds|
      invariant Settings(config.layouts, config.permalinks) == Steps(s0, name, cc, kinds[..i], docs).0
      invariant site.pages == pages0 + Steps(s0, name, cc, kinds[..i], docs).1
      invariant site.data == old(site.data)
    {
      Seqs.PrefixSnoc(kinds, i);
      ghost var before := Steps(s0, name, cc, kinds[..i], docs);
      ghost var step := Step(before.0, name, cc, kinds[i], docs);
      assert Steps(s0, name, cc, kinds[..i + 1], docs) == (step.0, before.1 + step.1);
      Seqs.Assoc(pages0, before.1, step.1);
      var kind := kinds[i];
      if !IsSupported(kind) {
        Seqs.AppendEmpty(site.pages);
        continue;
      }
      var key := TypeKey(name, kind);
      var layout := config.EnsureLayout(cc, kind, key);
      if layout.None? {
        Seqs.AppendEmpty(site.pages);
        continue;
      }
      var permalink := config.EnsurePermalink(cc, kind, key);
      if permalink.None? {
        Seqs.AppendEmpty(site.pages);
        continue;
      }
      var archives := BuildArchives(docs, kind, key);
      site.pages := site.pages + archives;
    }
    Seqs.Whole(kinds);
  }

  // ---------------------------------------------------------------------
  // generate

  /** `docs_for`: a missing collection has no documents. */
  function DocsFor(collections: map<string, seq<Doc>>, name: string): seq<Doc> {
    if name in collections then collections[name] else []
  }

  predicate Configured(configs: seq<(string, CollectionConfig)>, name: string) {
    exists i :: 0 <= i < |configs| && configs[i].0 == name
  }

  datatype SiteState = SiteState(settings: Settings, pages: seq<Archive>, data: map<string, seq<(string, seq<Doc>)>>)

  /** One configured collection: its taxonomy maps, then its archives. */
  function CollectionStep(st: SiteState, name: string, cc: CollectionConfig, docs: seq<Doc>): SiteState {
    var data := Publish(st.data, name, docs);
    if docs == [] then st.(data := data)
    else
      var (s, ps) := Steps(st.settings, name, cc, EnabledTypes(cc.enabled), docs);
      SiteState(s, st.pages + ps, data)
  }

  function CollectionSteps(st: SiteState, configs: seq<(string, CollectionConfig)>, collections: map<string, seq<Doc>>): SiteState {
    if configs == [] then st
    else
      var last := configs[|configs| - 1];
      CollectionStep(CollectionSteps(st, configs[..|configs| - 1], collections), last.0, last.1, DocsFor(collections, last.0))
  }

  /** What `generate` does to the site and the configuration. */
  function Generated(st: SiteState, configs: seq<(string, CollectionConfig)>, collections: map<string, seq<Doc>>): SiteState {
    var after := CollectionSteps(st, configs, collections);
    if "garden" in collections && !Configured(configs, "garden") then
      after.(data := Publish(after.data, "garden", collections["garden"]))
    else after
  }

  /** The garden's tag map is published even when the garden collection has
      no archive configuration. */
  lemma GardenTagsPublished(st: SiteState, configs: seq<(string, CollectionConfig)>, collections: map<string, seq<Doc>>)
    requires "garden" in collections && !Configured(configs, "garden")
    requires Taxonomy(collections["garden"], "tags") != []
    ensures var data := Generated(st, configs, collections).data;
      "garden" + "_tags" in data && data["garden" + "_tags"] == Taxonomy(collections["garden"], "tags")
  {
    var after := CollectionSteps(st, configs, collections);
    PublishKeys(after.data, "garden", collections["garden"], "");
  }

  /** Every archive page added is for an enabled, supported type of a
      configured collection, keyed by its type key. */
  lemma {:induction false} GeneratedPages(st: SiteState, configs: seq<(string, CollectionConfig)>, collections: map<string, seq<Doc>>, a: Archive)
    requires a in CollectionSteps(st, configs, collections).pages && a !in st.pages
    ensures exists i, kind :: (0 <= i < |configs| && kind in EnabledTypes(configs[i].1.enabled)
      && IsSupported(kind) && a.typeKey == TypeKey(configs[i].0, kind))
  {
    var init, last := configs[..|configs| - 1], configs[|configs| - 1];
    var before := CollectionSteps(st, init, collections);
    var docs := DocsFor(collections, last.0);
    if a in before.pages {
      GeneratedPages(st, init, collections, a);
      var i, kind :| 0 <= i < |init| && kind in EnabledTypes(init[i].1.enabled)
        && IsSupported(kind) && a.typeKey == TypeKey(init[i].0, kind);
      assert configs[i] == init[i];
    } else {
      var steps := Steps(before.settings, last.0, last.1, EnabledTypes(last.1.enabled), docs);
      assert a in steps.1;
      StepsArchives(before.settings, last.0, last.1, EnabledTypes(last.1.enabled), docs, a);
      var kind :| kind in EnabledTypes(last.1.enabled) && IsSupported(kind) && a.typeKey == TypeKey(last.0, kind);
      assert configs[|configs| - 1] == last;
    }
  }

  function StateOf(site: Site, config: ArchivesConfig): SiteState
    reads site, config
  {
    SiteState(Settings(config.layouts, config.permalinks), site.pages, site.data)
  }

  /** `generate` */
  method Generate(site: Site, config: ArchivesConfig, configs: seq<(string, CollectionConfig)>, collections: map<string, seq<Doc>>)
    modifies site, config
    ensures StateOf(site, config) == Generated(old(StateOf(site, config)), configs, collections)
  {
    ghost var st0 := StateOf(site, config);
    for i := 0 to |configs|
      invariant StateOf(site, config) == CollectionSteps(st0, configs[..i], collections)
    {
      var (name, cc) := configs[i];
      var docs := DocsFor(collections, name);
      Seqs.PrefixSnoc(configs, i);
      BuildTaxonomyHashes(site, name, docs);
      ProcessCollection(site, config, name, cc, docs);
    }
    Seqs.Whole(configs);
    if "garden" in collections && !Configured(configs, "garden") {
      BuildTaxonomyHashes(site, "garden", collections["garden"]);
    }
  }
}
