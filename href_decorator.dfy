/** The link attribute decorator: a post-render pass that adds configured HTML
    attributes to every `<a ...>` whose href matches a configured pattern,
    leaving alone the attributes a tag already has.

    Configuration values come from YAML.  Booleans and nil are kept apart;
    every other scalar is kept as the string its `to_s` gives, which is all
    the decorator ever does with it.  Ruby hashes keep insertion order, and
    the order decides the order of the attributes written, so a hash is a
    sequence of key/value pairs. */
module HrefDecorator {
  import opened Wrappers
  import opened Strings
  import Html
  import opened TagScan
  import Seqs

  datatype Value = Bool(b: bool) | Nil | Str(s: string)

  /** `value == false || value == 'false'`: the value that switches an inherited attribute off. */
  predicate IsFalse(v: Value) {
    v == Bool(false) || v == Str("false")
  }

  predicate IsNil(v: Value) {
    v == Nil || v == Str("nil")
  }

  predicate IsTrue(v: Value) {
    v == Bool(true) || v == Str("true")
  }

  /** A value that is written into a tag: neither false nor nil. */
  predicate Renderable(v: Value) {
    !IsFalse(v) && !IsNil(v)
  }

  // ---------------------------------------------------------------------
  // Ordered hashes with string keys

  type Pairs = seq<(string, Value)>

  /** A hash: no key occurs twice. */
  predicate Distinct(h: Pairs) {
    forall i, j :: 0 <= i < j < |h| ==> h[i].0 != h[j].0
  }

  predicate HasKey(h: Pairs, k: string) {
    exists i :: 0 <= i < |h| && h[i].0 == k
  }

  /** Where the last pair with key `k` sits; in a hash, the only one. */
  function KeyAt(h: Pairs, k: string): (r: Option<nat>)
    ensures r.None? <==> !HasKey(h, k)
    ensures r.Some? ==> r.value < |h| && h[r.value].0 == k && forall j :: r.value < j < |h| ==> h[j].0 != k
  {
    if h == [] then None
    else if h[|h| - 1].0 == k then Some(|h| - 1)
    else
      var r := KeyAt(h[..|h| - 1], k);
      assert r.None? <==> !HasKey(h, k) by {
        if HasKey(h, k) {
          var i :| 0 <= i < |h| && h[i].0 == k;
          assert h[..|h| - 1][i].0 == k;
        }
      }
      r
  }

  /** `h[k]`: the value of the pair with key `k`. */
  function Lookup(h: Pairs, k: string): (r: Option<Value>)
    ensures r.None? <==> !HasKey(h, k)
  {
    match KeyAt(h, k)
    case None => None
    case Some(i) => Some(h[i].1)
  }

  lemma LookupAt(h: Pairs, i: nat, k: string)
    requires i < |h| && h[i].0 == k && forall j :: i < j < |h| ==> h[j].0 != k
    ensures KeyAt(h, k) == Some(i) && Lookup(h, k) == Some(h[i].1)
  {
  }

  lemma LookupSnoc(h: Pairs, p: (string, Value), k: string)
    ensures Lookup(h + [p], k) == if p.0 == k then Some(p.1) else Lookup(h, k)
  {
    var r := h + [p];
    if p.0 == k {
      LookupAt(r, |h|, k);
    } else if HasKey(h, k) {
      var i := KeyAt(h, k).value;
      LookupAt(r, i, k);
      LookupAt(h, i, k);
    } else {
      assert !HasKey(r, k) by {
        forall j | 0 <= j < |r| ensures r[j].0 != k {
          if j < |h| { assert r[j] == h[j]; }
        }
      }
    }
  }

  /** Storing under the last position of `k` changes the value of `k` and nothing else. */
  lemma UpdateLookup(h: Pairs, i: nat, k: string, v: Value, k': string)
    requires KeyAt(h, k) == Some(i)
    ensures Lookup(h[i := (k, v)], k') == if k' == k then Some(v) else Lookup(h, k')
  {
    var r := h[i := (k, v)];
    if k' == k {
      LookupAt(r, i, k);
    } else if HasKey(h, k') {
      var i' := KeyAt(h, k').value;
      LookupAt(h, i', k');
      LookupAt(r, i', k');
    } else {
      assert !HasKey(r, k') by {
        forall j | 0 <= j < |r| ensures r[j].0 != k' {
          if j != i { assert r[j] == h[j]; }
        }
      }
    }
  }

  /** `h[k] = v`: an existing key keeps its place, a new one goes last. */
  function Put(h: Pairs, k: string, v: Value): (r: Pairs)
    ensures Lookup(r, k) == Some(v)
    ensures forall k' :: k' != k ==> Lookup(r, k') == Lookup(h, k')
    ensures Distinct(h) ==> Distinct(r)
    ensures HasKey(h, k) ==> |r| == |h| && forall i :: 0 <= i < |h| ==> r[i].0 == h[i].0
    ensures !HasKey(h, k) ==> r == h + [(k, v)]
  {
    match KeyAt(h, k)
    case None =>
      var r := h + [(k, v)];
      forall k' ensures Lookup(r, k') == if k' == k then Some(v) else Lookup(h, k') {
        LookupSnoc(h, (k, v), k');
      }
      assert Distinct(h) ==> Distinct(r) by {
        if Distinct(h) {
          forall i, j | 0 <= i < j < |r| ensures r[i].0 != r[j].0 {
            if j == |h| {
              assert r[i] == h[i];
            }
          }
        }
      }
      r
    case Some(i) =>
      var r := h[i := (k, v)];
      forall k' ensures Lookup(r, k') == if k' == k then Some(v) else Lookup(h, k') {
        UpdateLookup(h, i, k, v, k');
      }
      r
  }

  /** `h.delete(k)` */
  function Delete(h: Pairs, k: string): (r: Pairs)
    ensures !HasKey(r, k)
    ensures forall k' :: k' != k ==> Lookup(r, k') == Lookup(h, k')
    ensures Distinct(h) ==> Distinct(r)
  {
    if h == [] then []
    else
      var init, last := h[..|h| - 1], h[|h| - 1];
      assert h == init + [last];
      var d := Delete(init, k);
      var r := if last.0 == k then d else d + [last];
      forall k' | k' != k ensures Lookup(r, k') == Lookup(h, k') {
        LookupSnoc(init, last, k');
        if last.0 != k { LookupSnoc(d, last, k'); }
      }
      assert !HasKey(r, k) by {
        if last.0 != k {
          LookupSnoc(d, last, k);
        }
      }
      assert Distinct(h) ==> Distinct(r) by {
        if Distinct(h) && last.0 != k {
          assert Distinct(init) by {
            forall i, j | 0 <= i < j < |init| ensures init[i].0 != init[j].0 {
              assert init[i] == h[i] && init[j] == h[j];
            }
          }
          assert !HasKey(init, last.0);
          assert Lookup(d, last.0) == Lookup(init, last.0);
        }
      }
      r
  }

  // ---------------------------------------------------------------------
  // properties_array_to_hash

  /** One element of a configured property list: a hash, or anything else. */
  datatype Entry = EntryHash(pairs: Pairs) | EntryOther

  /** A configured property list: an array, or anything else (nil included). */
  datatype PropList = PropArray(entries: seq<Entry>) | PropOther

  /** Every pair of `pairs` stored into `h` in turn. */
  function PutAll(h: Pairs, pairs: Pairs): Pairs {
    if pairs == [] then h
    else
      var last := pairs[|pairs| - 1];
      Put(PutAll(h, pairs[..|pairs| - 1]), last.0, last.1)
  }

  function PutEntries(h: Pairs, es: seq<Entry>): Pairs {
    if es == [] then h
    else
      var h' := PutEntries(h, es[..|es| - 1]);
      match es[|es| - 1]
      case EntryHash(pairs) => PutAll(h', pairs)
      case EntryOther => h'
  }

  /** What `properties_array_to_hash` returns. */
  function PropsOf(l: PropList): Pairs {
    match l
    case PropOther => []
    case PropArray(es) => PutEntries([], es)
  }

  /** Reference: the pairs of the hash entries, in order, non-hash entries skipped. */
  function HashPairs(es: seq<Entry>): Pairs {
    if es == [] then []
    else
      HashPairs(es[..|es| - 1]) + match es[|es| - 1]
        case EntryHash(pairs) => pairs
        case EntryOther => []
  }

  method PropertiesArrayToHash(l: PropList) returns (result: Pairs)
    ensures result == PropsOf(l)
  {
    result := [];
    if l.PropOther? {
      return;
    }
    var es := l.entries;
    var i := 0;
    while i < |es|
      invariant i <= |es|
      invariant result == PutEntries([], es[..i])
    {
      Seqs.PrefixSnoc(es, i);
      match es[i] {
        case EntryOther =>
        case EntryHash(pairs) =>
          result := StorePairs(result, pairs);
      }
      i := i + 1;
    }
    Seqs.Whole(es);
  }

  /** `prop_hash.each { |key, value| result[key.to_s] = value }` */
  method StorePairs(h: Pairs, pairs: Pairs) returns (result: Pairs)
    ensures result == PutAll(h, pairs)
  {
    result := h;
    var j := 0;
    while j < |pairs|
      invariant j <= |pairs|
      invariant result == PutAll(h, pairs[..j])
    {
      Seqs.PrefixSnoc(pairs, j);
      result := Put(result, pairs[j].0, pairs[j].1);
      j := j + 1;
    }
    Seqs.Whole(pairs);
  }

  lemma {:induction false} PutAllLookup(h: Pairs, pairs: Pairs, k: string)
    ensures Lookup(PutAll(h, pairs), k) == if HasKey(pairs, k) then Lookup(pairs, k) else Lookup(h, k)
    ensures Distinct(h) ==> Distinct(PutAll(h, pairs))
    decreases |pairs|
  {
    if pairs != [] {
      var init, last := pairs[..|pairs| - 1], pairs[|pairs| - 1];
      assert pairs == init + [last];
      PutAllLookup(h, init, k);
      LookupSnoc(init, last, k);
    }
  }

  lemma {:induction false} PutEntriesLookup(es: seq<Entry>, k: string)
    ensures Lookup(PutEntries([], es), k) == Lookup(HashPairs(es), k)
    ensures Distinct(PutEntries([], es))
    decreases |es|
  {
    if es != [] {
      var init := es[..|es| - 1];
      PutEntriesLookup(init, k);
      match es[|es| - 1]
      case EntryOther =>
        assert PutEntries([], es) == PutEntries([], init);
        assert HashPairs(es) == HashPairs(init) + [] == HashPairs(init);
      case EntryHash(pairs) =>
        PutAllLookup(PutEntries([], init), pairs, k);
        LookupAppend(HashPairs(init), pairs, k);
    }
  }

  lemma {:induction false} LookupAppend(a: Pairs, b: Pairs, k: string)
    ensures Lookup(a + b, k) == if HasKey(b, k) then Lookup(b, k) else Lookup(a, k)
    decreases |b|
  {
    if b == [] {
      Seqs.AppendEmpty(a);
    } else {
      var init, last := b[..|b| - 1], b[|b| - 1];
      Seqs.AppendInitLast(a, b);
      LookupSnoc(a + init, last, k);
      LookupSnoc(init, last, k);
      LookupAppend(a, init, k);
    }
  }

  /** The hash built from a property list is a hash, gives nothing for a
      non-array, skips non-hash entries, and lets the last entry naming a key
      decide its value. */
  lemma PropsOfSpec(l: PropList, k: string)
    ensures Distinct(PropsOf(l))
    ensures l.PropOther? ==> PropsOf(l) == []
    ensures l.PropArray? ==> Lookup(PropsOf(l), k) == Lookup(HashPairs(l.entries), k)
  {
    if l.PropArray? {
      PutEntriesLookup(l.entries, k);
    }
  }

  // ---------------------------------------------------------------------
  // merge_properties

  /** What `merge_properties(global, pattern)` returns. */
  function Merge(global: Pairs, pattern: Pairs): Pairs {
    if pattern == [] then global
    else
      var h := Merge(global, pattern[..|pattern| - 1]);
      var (k, v) := pattern[|pattern| - 1];
      if IsFalse(v) then Delete(h, k) else Put(h, k, v)
  }

  method MergeProperties(global: Pairs, pattern: Pairs) returns (merged: Pairs)
    ensures merged == Merge(global, pattern)
  {
    merged := global;
    var i := 0;
    while i < |pattern|
      invariant i <= |pattern|
      invariant merged == Merge(global, pattern[..i])
    {
      Seqs.PrefixSnoc(pattern, i);
      var (k, v) := pattern[i];
      if v == Bool(false) || v == Str("false") {
        merged := Delete(merged, k);
      } else {
        merged := Put(merged, k, v);
      }
      i := i + 1;
    }
    Seqs.Whole(pattern);
  }

  /** The value a pattern's own properties give a key after merging: none
      when it is switched off. */
  function Override(v: Value): Option<Value> {
    if IsFalse(v) then None else Some(v)
  }

  /** A key the pattern names takes the pattern's value, or disappears when
      that value is false; every other key keeps its global value. */
  lemma {:induction false} MergeLookup(global: Pairs, pattern: Pairs, k: string)
    ensures Lookup(Merge(global, pattern), k) ==
      if HasKey(pattern, k) then Override(Lookup(pattern, k).value) else Lookup(global, k)
    ensures Distinct(global) ==> Distinct(Merge(global, pattern))
    decreases |pattern|
  {
    if pattern != [] {
      var init, last := pattern[..|pattern| - 1], pattern[|pattern| - 1];
      assert pattern == init + [last];
      MergeLookup(global, init, k);
      LookupSnoc(init, last, k);
    }
  }

  // ---------------------------------------------------------------------
  // find_matching_pattern_properties

  /** The configuration under one pattern: a hash whose `properties` entry is
      a property list (absent reads as nil), or anything else. */
  datatype RuleConfig = RuleHash(properties: PropList) | RuleOther

  /** One element of the patterns array: a hash from pattern to configuration, or anything else. */
  datatype PatternEntry = PatternHash(rules: seq<(string, RuleConfig)>) | PatternOther

  datatype PatternList = PatternArray(entries: seq<PatternEntry>) | PatternsOther

  /** `properties_array_to_hash` of the rule's `properties`; a non-hash configuration reads as nil. */
  function RuleProps(c: RuleConfig): Pairs {
    match c
    case RuleHash(l) => PropsOf(l)
    case RuleOther => PropsOf(PropOther)
  }

  /** The configurations of the rules whose pattern matches `href`, in order. */
  function MatchedRules(href: string, rules: seq<(string, RuleConfig)>, matches: (string, string) -> bool): seq<RuleConfig> {
    if rules == [] then []
    else
      var (pattern, c) := rules[|rules| - 1];
      MatchedRules(href, rules[..|rules| - 1], matches) + if matches(pattern, href) then [c] else []
  }

  function MatchedEntries(href: string, es: seq<PatternEntry>, matches: (string, string) -> bool): seq<RuleConfig> {
    if es == [] then []
    else
      MatchedEntries(href, es[..|es| - 1], matches) + match es[|es| - 1]
        case PatternHash(rules) => MatchedRules(href, rules, matches)
        case PatternOther => []
  }

  /** The global properties with every matched configuration merged over them in turn. */
  function MergeAll(global: Pairs, cs: seq<RuleConfig>): Pairs {
    if cs == [] then global else Merge(MergeAll(global, cs[..|cs| - 1]), RuleProps(cs[|cs| - 1]))
  }

  /** What `find_matching_pattern_properties` returns. */
  function FindProps(href: string, patterns: PatternList, global: Pairs, matches: (string, string) -> bool): Option<Pairs> {
    match patterns
    case PatternsOther => None
    case PatternArray(es) =>
      var cs := MatchedEntries(href, es, matches);
      if cs == [] then None else Some(MergeAll(global, cs))
  }

  method FindMatchingPatternProperties(href: string, patterns: PatternList, global: Pairs, matches: (string, string) -> bool)
    returns (r: Option<Pairs>)
    ensures r == FindProps(href, patterns, global, matches)
  {
    if patterns.PatternsOther? {
      return None;
    }
    var es := patterns.entries;
    var merged := global;
    var matched := false;
    var i := 0;
    while i < |es|
      invariant i <= |es|
      invariant matched == (MatchedEntries(href, es[..i], matches) != [])
      invariant merged == MergeAll(global, MatchedEntries(href, es[..i], matches))
    {
      ghost var done := MatchedEntries(href, es[..i], matches);
      MatchedEntriesSnoc(href, es, i, matches);
      match es[i] {
        case PatternOther =>
          assert done + [] == done;
        case PatternHash(rules) =>
          merged, matched := MergeMatchingRules(href, rules, matches, global, done, merged, matched);
      }
      i := i + 1;
    }
    Seqs.Whole(es);
    r := if matched then Some(merged) else None;
  }

  lemma MergeAllSnoc(global: Pairs, cs: seq<RuleConfig>, c: RuleConfig)
    ensures MergeAll(global, cs + [c]) == Merge(MergeAll(global, cs), RuleProps(c))
  {
    Seqs.SnocInit(cs, c);
  }

  lemma MatchedEntriesSnoc(href: string, es: seq<PatternEntry>, i: nat, matches: (string, string) -> bool)
    requires i < |es|
    ensures MatchedEntries(href, es[..i + 1], matches) ==
      MatchedEntries(href, es[..i], matches) + match es[i]
        case PatternHash(rules) => MatchedRules(href, rules, matches)
        case PatternOther => []
  {
    Seqs.PrefixSnoc(es, i);
  }

  lemma MatchedRulesSnoc(href: string, rules: seq<(string, RuleConfig)>, j: nat, matches: (string, string) -> bool)
    requires j < |rules|
    ensures MatchedRules(href, rules[..j + 1], matches) ==
      MatchedRules(href, rules[..j], matches) + if matches(rules[j].0, href) then [rules[j].1] else []
  {
    Seqs.PrefixSnoc(rules, j);
  }

  /** The inner loop of `find_matching_pattern_properties`, over the rules of one pattern hash. */
  method MergeMatchingRules(href: string, rules: seq<(string, RuleConfig)>, matches: (string, string) -> bool,
                            ghost global: Pairs, ghost done: seq<RuleConfig>, merged0: Pairs, matched0: bool)
    returns (merged: Pairs, matched: bool)
    requires matched0 == (done != []) && merged0 == MergeAll(global, done)
    ensures matched == (done + MatchedRules(href, rules, matches) != [])
    ensures merged == MergeAll(global, done + MatchedRules(href, rules, matches))
  {
    merged, matched := merged0, matched0;
    var j := 0;
    assert done + MatchedRules(href, rules[..0], matches) == done;
    while j < |rules|
      invariant j <= |rules|
      invariant matched == (done + MatchedRules(href, rules[..j], matches) != [])
      invariant merged == MergeAll(global, done + MatchedRules(href, rules[..j], matches))
    {
      ghost var sofar := done + MatchedRules(href, rules[..j], matches);
      var hit := matches(rules[j].0, href);
      MatchedRulesStep(href, rules, j, matches, done);
      MergeAllStep(global, sofar, rules[j].1, hit);
      if hit {
        matched := true;
        var c := rules[j].1;
        var props := PropertiesArrayToHash(if c.RuleHash? then c.properties else PropOther);
        merged := MergeProperties(merged, props);
      }
      j := j + 1;
    }
    Seqs.Whole(rules);
  }

  lemma MatchedRulesStep(href: string, rules: seq<(string, RuleConfig)>, j: nat, matches: (string, string) -> bool,
                         done: seq<RuleConfig>)
    requires j < |rules|
    ensures done + MatchedRules(href, rules[..j + 1], matches) ==
      (done + MatchedRules(href, rules[..j], matches)) + if matches(rules[j].0, href) then [rules[j].1] else []
  {
    MatchedRulesSnoc(href, rules, j, matches);
  }

  lemma MergeAllStep(global: Pairs, cs: seq<RuleConfig>, c: RuleConfig, hit: bool)
    ensures MergeAll(global, cs + if hit then [c] else []) ==
      if hit then Merge(MergeAll(global, cs), RuleProps(c)) else MergeAll(global, cs)
    ensures (cs + if hit then [c] else []) != [] <==> cs != [] || hit
  {
    if hit {
      MergeAllSnoc(global, cs, c);
    } else {
      assert cs + [] == cs;
    }
  }

  /** No rule of any hash entry matches `href`. */
  predicate NoneMatch(href: string, es: seq<PatternEntry>, matches: (string, string) -> bool) {
    forall i, j :: 0 <= i < |es| && es[i].PatternHash? && 0 <= j < |es[i].rules| ==> !matches(es[i].rules[j].0, href)
  }

  lemma {:induction false} MatchedRulesEmpty(href: string, rules: seq<(string, RuleConfig)>, matches: (string, string) -> bool)
    ensures MatchedRules(href, rules, matches) == [] <==> forall j :: 0 <= j < |rules| ==> !matches(rules[j].0, href)
    decreases |rules|
  {
    if rules != [] {
      var init := rules[..|rules| - 1];
      MatchedRulesEmpty(href, init, matches);
      assert forall j :: 0 <= j < |init| ==> init[j] == rules[j];
    }
  }

  lemma {:induction false} MatchedEntriesEmpty(href: string, es: seq<PatternEntry>, matches: (string, string) -> bool)
    ensures MatchedEntries(href, es, matches) == [] <==> NoneMatch(href, es, matches)
    decreases |es|
  {
    if es != [] {
      var init := es[..|es| - 1];
      MatchedEntriesEmpty(href, init, matches);
      assert forall i :: 0 <= i < |init| ==> init[i] == es[i];
      if es[|es| - 1].PatternHash? {
        MatchedRulesEmpty(href, es[|es| - 1].rules, matches);
      }
    }
  }

  /** No properties come back exactly when the patterns are not an array or none of them matches. */
  lemma FindPropsNone(href: string, patterns: PatternList, global: Pairs, matches: (string, string) -> bool)
    ensures FindProps(href, patterns, global, matches).None? <==>
      patterns.PatternsOther? || NoneMatch(href, patterns.entries, matches)
  {
    if patterns.PatternArray? {
      MatchedEntriesEmpty(href, patterns.entries, matches);
    }
  }

  /** Reference for the merged value of a key: what the last matched
      configuration naming the key says about it. */
  function LastSay(cs: seq<RuleConfig>, k: string): Option<Value> {
    if cs == [] then None
    else if HasKey(RuleProps(cs[|cs| - 1]), k) then Lookup(RuleProps(cs[|cs| - 1]), k)
    else LastSay(cs[..|cs| - 1], k)
  }

  /** Later patterns win: a key takes the value of the last matching pattern
      that names it (none when that value is false), and keeps its global
      value when no matching pattern names it. */
  lemma {:induction false} MergeAllLookup(global: Pairs, cs: seq<RuleConfig>, k: string)
    ensures Lookup(MergeAll(global, cs), k) ==
      match LastSay(cs, k)
      case None => Lookup(global, k)
      case Some(v) => Override(v)
    ensures Distinct(global) ==> Distinct(MergeAll(global, cs))
    decreases |cs|
  {
    if cs != [] {
      var init := cs[..|cs| - 1];
      MergeAllLookup(global, init, k);
      MergeLookup(MergeAll(global, init), RuleProps(cs[|cs| - 1]), k);
    }
  }

  // ---------------------------------------------------------------------
  // build_attributes_string

  /** `value.to_s` */
  function ValueText(v: Value): string {
    match v
    case Str(s) => s
    case Bool(b) => if b then "true" else "false"
    case Nil => ""
  }

  /** What one property contributes: nothing for false and nil, the bare
      name for true, and `name="escaped value"` otherwise. */
  function AttrText(k: string, v: Value): (r: string)
    ensures r != [] ==> r[0] == ' '
  {
    if !Renderable(v) then ""
    else if IsTrue(v) then " " + k
    else " " + k + "=\"" + Html.Escape(ValueText(v)) + "\""
  }

  /** What `build_attributes_string` returns. */
  function BuildAttributes(h: Pairs): (r: string)
    ensures r != [] ==> r[0] == ' '
  {
    if h == [] then []
    else
      var b, t := BuildAttributes(h[..|h| - 1]), AttrText(h[|h| - 1].0, h[|h| - 1].1);
      assert b == [] ==> b + t == t;
      b + t
  }

  /** The attribute string is empty exactly when no property is renderable. */
  lemma {:induction false} BuildAttributesEmpty(h: Pairs)
    ensures BuildAttributes(h) == [] <==> forall i :: 0 <= i < |h| ==> !Renderable(h[i].1)
    decreases |h|
  {
    if h != [] {
      var init := h[..|h| - 1];
      BuildAttributesEmpty(init);
      assert forall i :: 0 <= i < |init| ==> init[i] == h[i];
    }
  }

  lemma BuildAttributesSnoc(h: Pairs, k: string, v: Value)
    ensures BuildAttributes(h + [(k, v)]) == BuildAttributes(h) + AttrText(k, v)
  {
    assert (h + [(k, v)])[..|h|] == h;
  }

  /** An attribute name the decorator can write and find again: it starts
      with a word character and holds no whitespace, `=`, `>` or quote. */
  predicate KeyOk(k: string) {
    && k != [] && IsWord(k[0])
    && forall i :: 0 <= i < |k| ==> !IsSpace(k[i]) && k[i] != '=' && k[i] != '>' && k[i] != '"' && k[i] != '\''
  }

  /** The attribute text never closes the tag early. */
  lemma {:induction false} BuildAttributesNoGt(h: Pairs)
    requires forall i :: 0 <= i < |h| ==> KeyOk(h[i].0)
    ensures NoChar(BuildAttributes(h), '>')
    decreases |h|
  {
    if h != [] {
      var init, last := h[..|h| - 1], h[|h| - 1];
      assert forall i :: 0 <= i < |init| ==> KeyOk(init[i].0) by {
        forall i | 0 <= i < |init| ensures KeyOk(init[i].0) {
          assert init[i] == h[i];
        }
      }
      BuildAttributesNoGt(init);
      AttrTextNoGt(last.0, last.1);
      NoCharAppend(BuildAttributes(init), AttrText(last.0, last.1), '>');
    }
  }

  lemma AttrTextNoGt(k: string, v: Value)
    requires KeyOk(k)
    ensures NoChar(AttrText(k, v), '>')
  {
    var t := AttrText(k, v);
    var e := Html.Escape(ValueText(v));
    forall i | 0 <= i < |t| ensures t[i] != '>' {
      if Renderable(v) && !IsTrue(v) {
        assert t == " " + k + "=\"" + e + "\"";
        if 1 <= i < 1 + |k| {
          assert t[i] == k[i - 1];
        } else if 3 + |k| <= i < 3 + |k| + |e| {
          assert t[i] == e[i - 3 - |k|];
        }
      } else if Renderable(v) && 1 <= i {
        assert t[i] == k[i - 1];
      }
    }
  }

  // ---------------------------------------------------------------------
  // has_attribute?

  /** `\b` at position `p`: a word character on exactly one side. */
  predicate Boundary(s: string, p: nat)
    requires p <= |s|
  {
    (p > 0 && IsWord(s[p - 1])) != (p < |s| && IsWord(s[p]))
  }

  /** `\bNAME`, ASCII case ignored, at position `p`. */
  predicate NameAt(s: string, name: string, p: nat) {
    p + |name| <= |s| && Boundary(s, p) && LowerStr(s[p..p + |name|]) == LowerStr(name)
  }

  /** `\bNAME\s*=` at position `p`. */
  predicate AssignAt(s: string, name: string, p: nat) {
    NameAt(s, name, p) && var q := SkipSpaces(s, p + |name|); q < |s| && s[q] == '='
  }

  /** `has_attribute?`: the tag text matches `/\bNAME\s*=/i`. */
  predicate HasAttribute(s: string, name: string) {
    exists p: nat | p <= |s| :: AssignAt(s, name, p)
  }

  /** The name written as a bare boolean attribute at `p`: followed by
      whitespace, `>` or the end of the text. */
  predicate BareAt(s: string, name: string, p: nat) {
    NameAt(s, name, p) && (p + |name| == |s| || IsSpace(s[p + |name|]) || s[p + |name|] == '>')
  }

  /** The presence test the decorator needs: an assignment, or a bare name. */
  predicate HasAttributeFixed(s: string, name: string) {
    exists p: nat | p <= |s| :: AssignAt(s, name, p) || BareAt(s, name, p)
  }

  // ---------------------------------------------------------------------
  // The per-tag rewrite of process_document

  /** The properties still to add to a tag: renderable, and not found in the
      tag text by `present`. */
  function Missing(h: Pairs, text: string, present: (string, string) -> bool): Pairs {
    if h == [] then []
    else
      var m := Missing(h[..|h| - 1], text, present);
      var (k, v) := h[|h| - 1];
      if Renderable(v) && !present(text, k) then Put(m, k, v) else m
  }

  method MissingProperties(h: Pairs, text: string, present: (string, string) -> bool) returns (missing: Pairs)
    ensures missing == Missing(h, text, present)
  {
    missing := [];
    var i := 0;
    while i < |h|
      invariant i <= |h|
      invariant missing == Missing(h[..i], text, present)
    {
      MissingSnoc(h, i, text, present);
      if Renderable(h[i].1) && !present(text, h[i].0) {
        missing := Put(missing, h[i].0, h[i].1);
      }
      i := i + 1;
    }
    Seqs.Whole(h);
  }

  lemma MissingSnoc(h: Pairs, i: nat, text: string, present: (string, string) -> bool)
    requires i < |h|
    ensures Missing(h[..i + 1], text, present) ==
      if Renderable(h[i].1) && !present(text, h[i].0) then Put(Missing(h[..i], text, present), h[i].0, h[i].1)
      else Missing(h[..i], text, present)
  {
    Seqs.PrefixSnoc(h, i);
  }

  /** Existing attributes win: a key is added exactly when the properties
      give it a renderable value and the tag does not have it yet. */
  lemma {:induction false} MissingLookup(h: Pairs, text: string, present: (string, string) -> bool, k: string)
    requires Distinct(h)
    ensures Distinct(Missing(h, text, present))
    ensures Lookup(Missing(h, text, present), k) ==
      if HasKey(h, k) && Renderable(Lookup(h, k).value) && !present(text, k) then Lookup(h, k) else None
    decreases |h|
  {
    if h != [] {
      var init, last := h[..|h| - 1], h[|h| - 1];
      assert h == init + [last];
      assert Distinct(init) by {
        forall i, j | 0 <= i < j < |init| ensures init[i].0 != init[j].0 {
          assert init[i] == h[i] && init[j] == h[j];
        }
      }
      MissingLookup(init, text, present, k);
      LookupSnoc(init, last, k);
      if last.0 == k {
        assert !HasKey(init, k);
      }
    }
  }

  /** In a hash, the missing properties are exactly the renderable pairs
      the tag lacks, kept in order. */
  lemma {:induction false} MissingFilter(h: Pairs, text: string, present: (string, string) -> bool)
    requires Distinct(h)
    ensures h != [] ==>
              Missing(h, text, present) == Missing(h[..|h| - 1], text, present) +
                (if Renderable(h[|h| - 1].1) && !present(text, h[|h| - 1].0) then [h[|h| - 1]] else [])
  {
    if h != [] {
      var init, last := h[..|h| - 1], h[|h| - 1];
      assert h == init + [last];
      assert Distinct(init) by {
        forall i, j | 0 <= i < j < |init| ensures init[i].0 != init[j].0 {
          assert init[i] == h[i] && init[j] == h[j];
        }
      }
      assert !HasKey(init, last.0);
      MissingLookup(init, text, present, last.0);
    }
  }

  /** Nothing is missing exactly when every renderable property is already
      present, and whatever is missing is renderable and absent. */
  lemma {:induction false} MissingEmpty(h: Pairs, text: string, present: (string, string) -> bool)
    requires Distinct(h)
    ensures Missing(h, text, present) == [] <==>
      forall i :: 0 <= i < |h| && Renderable(h[i].1) ==> present(text, h[i].0)
    ensures forall i :: 0 <= i < |Missing(h, text, present)| ==>
      Renderable(Missing(h, text, present)[i].1) && !present(text, Missing(h, text, present)[i].0)
    decreases |h|
  {
    if h != [] {
      var init, last := h[..|h| - 1], h[|h| - 1];
      assert forall i :: 0 <= i < |init| ==> init[i] == h[i];
      assert Distinct(init);
      MissingEmpty(init, text, present);
      MissingFilter(h, text, present);
      var mi := Missing(init, text, present);
      var extra := if Renderable(last.1) && !present(text, last.0) then [last] else [];
      var r := mi + extra;
      assert Missing(h, text, present) == r;
      forall i | 0 <= i < |r| ensures Renderable(r[i].1) && !present(text, r[i].0) {
        if i < |mi| {
          assert r[i] == mi[i];
        } else {
          assert r[i] == last;
        }
      }
      if forall i :: 0 <= i < |h| && Renderable(h[i].1) ==> present(text, h[i].0) {
        assert forall i :: 0 <= i < |init| && Renderable(init[i].1) ==> present(text, init[i].0);
        assert mi == [] && extra == [];
      } else {
        var i :| 0 <= i < |h| && Renderable(h[i].1) && !present(text, h[i].0);
        if i < |init| {
          assert init[i] == h[i];
          assert mi != [];
        } else {
          assert extra == [last];
        }
      }
    }
  }

  /** The text the rewrite writes for a tag that lacks some attributes: the
      tag name, the whitespace after it and the spelling of `href=` are
      normalised, and the new attributes go just before `>`. */
  function Rebuilt(m: TagMatch, attrs: string): string {
    RebuiltFront(m) + attrs + ">"
  }

  function RebuiltFront(m: TagMatch): string {
    "<a " + m.before + "href=" + [m.tail.quote] + m.tail.value + [m.tail.quote] + m.tail.after
  }

  /** The match a rebuilt tag consists of. */
  function Normalized(m: TagMatch, attrs: string): TagMatch {
    TagMatch("a", " ", m.before, Tail("href", "", "", m.tail.quote, m.tail.value, m.tail.after + attrs))
  }

  /** A rebuilt tag is again a link of the shape the pattern matches, with the
      same text before `href`, the same quote and href, and the old text after
      the href followed by the new attributes. */
  lemma RebuiltShape(m: TagMatch, attrs: string)
    requires Captured(m, "a", "href") && NoChar(attrs, '>')
    ensures Rebuilt(m, attrs) == Normalized(m, attrs).Text()
    ensures Captured(Normalized(m, attrs), "a", "href")
  {
    RebuiltText(m, attrs);
    NoCharAppend(m.tail.after, attrs, '>');
    assert LowerStr("href") == "href";
    assert LowerStr("a") == "a";
  }

  lemma RebuiltText(m: TagMatch, attrs: string)
    ensures Rebuilt(m, attrs) == Normalized(m, attrs).Text()
  {
    var q, v, b, a := [m.tail.quote], m.tail.value, m.tail.after, attrs;
    var t := Normalized(m, attrs).tail;
    assert t.Left() == "href=" + q;
    assert t.Right() == v + q + (b + a) + ">";
    calc {
      Normalized(m, attrs).Text();
      "<" + "a" + " " + m.before + (t.Left() + t.Right());
      { assert "<" + "a" + " " == "<a "; }
      "<a " + m.before + (("href=" + q) + (v + q + (b + a) + ">"));
      { Seqs.Assoc("<a " + m.before, "href=" + q, v + q + (b + a) + ">"); }
      "<a " + m.before + "href=" + q + (v + q + (b + a) + ">");
      { RightRegroup("<a " + m.before + "href=" + q, v + q, b, a); }
      "<a " + m.before + "href=" + q + v + q + b + a + ">";
    }
  }

  lemma RightRegroup(x: string, y: string, b: string, a: string)
    ensures x + (y + (b + a) + ">") == x + y + b + a + ">"
  {
  }

  /** The gsub block of `process_document` for one match, given what
      `find_matching_pattern_properties` returned for its href. */
  function DecorateTag(m: TagMatch, final: Option<Pairs>, present: (string, string) -> bool): string {
    if final.None? || final.value == [] then m.Text()
    else
      var missing := Missing(final.value, m.Text(), present);
      if missing == [] then m.Text() else Rebuilt(m, BuildAttributes(missing))
  }

  method RewriteTag(m: TagMatch, patterns: PatternList, global: Pairs,
                    matches: (string, string) -> bool, present: (string, string) -> bool)
    returns (text: string)
    ensures text == DecorateTag(m, FindProps(m.tail.value, patterns, global, matches), present)
  {
    var final := FindMatchingPatternProperties(m.tail.value, patterns, global, matches);
    if final.Some? && final.value != [] {
      var missing := MissingProperties(final.value, m.Text(), present);
      if missing == [] {
        text := m.Text();
      } else {
        var attrs := BuildAttributes(missing);
        text := Rebuilt(m, attrs);
      }
    } else {
      text := m.Text();
    }
  }

  /** A tag that already has every renderable property is left exactly as it
      was; otherwise it is rebuilt with exactly the missing ones. */
  lemma DecorateTagSpec(m: TagMatch, h: Pairs, present: (string, string) -> bool)
    requires Distinct(h)
    ensures (forall i :: 0 <= i < |h| && Renderable(h[i].1) ==> present(m.Text(), h[i].0)) ==>
      DecorateTag(m, Some(h), present) == m.Text()
    ensures (exists i :: 0 <= i < |h| && Renderable(h[i].1) && !present(m.Text(), h[i].0)) ==>
      DecorateTag(m, Some(h), present) == Rebuilt(m, BuildAttributes(Missing(h, m.Text(), present)))
  {
    MissingEmpty(h, m.Text(), present);
  }

  lemma {:induction false} BuildAttributesAppend(a: Pairs, b: Pairs)
    ensures BuildAttributes(a + b) == BuildAttributes(a) + BuildAttributes(b)
    decreases |b|
  {
    if b == [] {
      Seqs.AppendEmpty(a);
      Seqs.AppendEmpty(BuildAttributes(a));
    } else {
      var init, last := b[..|b| - 1], b[|b| - 1];
      var t := AttrText(last.0, last.1);
      Seqs.AppendInitLast(a, b);
      calc {
        BuildAttributes(a + b);
        { BuildAttributesSnoc(a + init, last.0, last.1); }
        BuildAttributes(a + init) + t;
        { BuildAttributesAppend(a, init); }
        (BuildAttributes(a) + BuildAttributes(init)) + t;
        { Seqs.Assoc(BuildAttributes(a), BuildAttributes(init), t); }
        BuildAttributes(a) + (BuildAttributes(init) + t);
        { BuildAttributesSnoc(init, last.0, last.1); }
        BuildAttributes(a) + BuildAttributes(b);
      }
    }
  }

  /** A name standing after a space is found by the tests according to the
      character that follows it. */
  lemma FoundAt(s: string, k: string, p: nat)
    requires KeyOk(k) && 1 <= p && p + |k| < |s| && s[p - 1] == ' ' && s[p..p + |k|] == k
    ensures s[p + |k|] == '=' ==> AssignAt(s, k, p)
    ensures IsSpace(s[p + |k|]) || s[p + |k|] == '>' ==> BareAt(s, k, p)
  {
    assert s[p] == s[p..p + |k|][0];
  }

  lemma LayoutChars(s: string, pre: string, k: string, rest: string, post: string)
    requires s == pre + (" " + k + rest) + post && rest + post != []
    ensures |pre| + 1 + |k| < |s| && s[|pre|] == ' ' && s[|pre| + 1..|pre| + 1 + |k|] == k
    ensures s[|pre| + 1 + |k|] == (rest + post)[0]
  {
    var p := |pre| + 1;
    assert s[|pre|] == ' ';
    forall i | 0 <= i < |k| ensures s[p + i] == k[i] {
      assert s[p + i] == (" " + k + rest)[1 + i];
    }
    assert s[p..p + |k|] == k;
    if rest != [] {
      assert s[p + |k|] == (" " + k + rest)[1 + |k|];
    }
  }

  /** The text after the name that `AttrText` writes. */
  function AttrRest(v: Value): string {
    if IsTrue(v) then "" else "=\"" + Html.Escape(ValueText(v)) + "\""
  }

  /** A written attribute, followed by whitespace or `>`, is found again: an
      assignment by both tests, a bare name by the corrected one. */
  lemma FoundInLayout(s: string, pre: string, k: string, v: Value, post: string)
    requires KeyOk(k) && Renderable(v) && post != [] && (IsSpace(post[0]) || post[0] == '>')
    requires s == pre + AttrText(k, v) + post
    ensures !IsTrue(v) ==> HasAttribute(s, k)
    ensures HasAttributeFixed(s, k)
  {
    var p := |pre| + 1;
    WrittenName(s, pre, k, v, post);
    FoundAt(s, k, p);
    if !IsTrue(v) {
      AssignFound(s, k, p);
    }
    FixedFound(s, k, p);
  }

  /** Where a written attribute's name sits, and what follows it. */
  lemma WrittenName(s: string, pre: string, k: string, v: Value, post: string)
    requires Renderable(v) && post != []
    requires s == pre + AttrText(k, v) + post
    ensures |pre| + 1 + |k| < |s| && s[|pre|] == ' ' && s[|pre| + 1..|pre| + 1 + |k|] == k
    ensures s[|pre| + 1 + |k|] == if IsTrue(v) then post[0] else '='
  {
    var rest := AttrRest(v);
    assert AttrText(k, v) == " " + k + rest;
    LayoutChars(s, pre, k, rest, post);
  }

  lemma AssignFound(s: string, k: string, p: nat)
    requires AssignAt(s, k, p)
    ensures HasAttribute(s, k)
  {
  }

  lemma FixedFound(s: string, k: string, p: nat)
    requires AssignAt(s, k, p) || BareAt(s, k, p)
    ensures HasAttributeFixed(s, k)
  {
  }

  lemma RebuiltLayout(m: TagMatch, missing: Pairs, i: nat)
    requires i < |missing|
    ensures Rebuilt(m, BuildAttributes(missing)) ==
      (RebuiltFront(m) + BuildAttributes(missing[..i])) + AttrText(missing[i].0, missing[i].1) +
      (BuildAttributes(missing[i + 1..]) + ">")
    ensures var post := BuildAttributes(missing[i + 1..]) + ">";
      post != [] && (post[0] == ' ' || post[0] == '>')
  {
    BuildAttributesAt(missing, i);
    Regroup(RebuiltFront(m), BuildAttributes(missing[..i]), AttrText(missing[i].0, missing[i].1),
            BuildAttributes(missing[i + 1..]), ">");
  }

  /** Every attribute the rewrite adds is found in the rebuilt tag by the
      corrected test; the valued ones also by `has_attribute?` as written. */
  lemma AddedAttributeFound(m: TagMatch, missing: Pairs, i: nat)
    requires i < |missing| && KeyOk(missing[i].0) && Renderable(missing[i].1)
    ensures HasAttributeFixed(Rebuilt(m, BuildAttributes(missing)), missing[i].0)
    ensures !IsTrue(missing[i].1) ==> HasAttribute(Rebuilt(m, BuildAttributes(missing)), missing[i].0)
  {
    RebuiltLayout(m, missing, i);
    FoundInLayout(Rebuilt(m, BuildAttributes(missing)), RebuiltFront(m) + BuildAttributes(missing[..i]),
                  missing[i].0, missing[i].1, BuildAttributes(missing[i + 1..]) + ">");
  }

  lemma BuildAttributesAt(h: Pairs, i: nat)
    requires i < |h|
    ensures BuildAttributes(h) == BuildAttributes(h[..i]) + AttrText(h[i].0, h[i].1) + BuildAttributes(h[i + 1..])
  {
    var a, b := h[..i + 1], h[i + 1..];
    Seqs.SplitAt(h, i + 1);
    Seqs.PrefixSnoc(h, i);
    BuildAttributesAppend(a, b);
    BuildAttributesSnoc(h[..i], h[i].0, h[i].1);
  }

  lemma Regroup(a: string, b: string, c: string, d: string, e: string)
    ensures a + (b + c + d) + e == (a + b) + c + (d + e)
  {
  }

  // ---------------------------------------------------------------------
  // process_document

  /** The decorator's configuration section.  An absent `properties` or
      `patterns` entry reads as the empty array (`|| []`). */
  datatype Config = Config(properties: PropList, patterns: PatternList)

  /** What the gsub writes for one scanned piece: text the pattern skipped is
      copied, a match is replaced by the block's value. */
  function PieceOut(p: Piece, global: Pairs, patterns: PatternList,
                    matches: (string, string) -> bool, present: (string, string) -> bool): string {
    match p
    case Plain(c) => [c]
    case Tag(m) => DecorateTag(m, FindProps(m.tail.value, patterns, global, matches), present)
  }

  function DecoratePieces(ps: seq<Piece>, global: Pairs, patterns: PatternList,
                          matches: (string, string) -> bool, present: (string, string) -> bool): string {
    if ps == [] then []
    else DecoratePieces(ps[..|ps| - 1], global, patterns, matches, present) + PieceOut(ps[|ps| - 1], global, patterns, matches, present)
  }

  /** The output `process_document` writes for output `s`. */
  function Decorate(s: string, cfg: Config, matches: (string, string) -> bool, present: (string, string) -> bool): string {
    if !Contains(s, "<a") || cfg.patterns == PatternArray([]) then s
    else DecoratePieces(Scan(s, "a", "href"), PropsOf(cfg.properties), cfg.patterns, matches, present)
  }

  /** A document without output is left alone. */
  function DecorateOutput(out: Option<string>, cfg: Config, matches: (string, string) -> bool,
                          present: (string, string) -> bool): Option<string> {
    match out
    case None => None
    case Some(s) => Some(Decorate(s, cfg, matches, present))
  }

  /** The part of a document the decorator reads and writes. */
  class Document {
    var output: Option<string>

    constructor (output: Option<string>)
      ensures this.output == output
    {
      this.output := output;
    }
  }

  /** `process_document`.  `present` is the presence test: `HasAttribute` is
      `has_attribute?` as written, `HasAttributeFixed` the corrected test that
      also sees bare attributes. */
  method ProcessDocument(doc: Document, cfg: Config, matches: (string, string) -> bool,
                         present: (string, string) -> bool)
    modifies doc
    ensures doc.output == DecorateOutput(old(doc.output), cfg, matches, present)
  {
    if doc.output.None? {
      return;
    }
    var s := doc.output.value;
    if !Contains(s, "<a") || cfg.patterns == PatternArray([]) {
      return;
    }
    var global := PropertiesArrayToHash(cfg.properties);
    var ps := Scan(s, "a", "href");
    var out := "";
    var i := 0;
    while i < |ps|
      invariant i <= |ps|
      invariant out == DecoratePieces(ps[..i], global, cfg.patterns, matches, present)
    {
      DecoratePiecesSnoc(ps, i, global, cfg.patterns, matches, present);
      match ps[i] {
        case Plain(c) =>
          out := out + [c];
        case Tag(m) =>
          var t := RewriteTag(m, cfg.patterns, global, matches, present);
          out := out + t;
      }
      i := i + 1;
    }
    Seqs.Whole(ps);
    doc.output := Some(out);
  }

  lemma DecoratePiecesSnoc(ps: seq<Piece>, i: nat, global: Pairs, patterns: PatternList,
                           matches: (string, string) -> bool, present: (string, string) -> bool)
    requires i < |ps|
    ensures DecoratePieces(ps[..i + 1], global, patterns, matches, present) ==
      DecoratePieces(ps[..i], global, patterns, matches, present) + PieceOut(ps[i], global, patterns, matches, present)
  {
    Seqs.PrefixSnoc(ps, i);
  }

  /** Pieces whose matches are all left as they are come out as the text they were scanned from. */
  lemma {:induction false} DecoratePiecesRender(ps: seq<Piece>, global: Pairs, patterns: PatternList,
                                                matches: (string, string) -> bool, present: (string, string) -> bool)
    requires forall i :: 0 <= i < |ps| && ps[i].Tag? ==> PieceOut(ps[i], global, patterns, matches, present) == ps[i].m.Text()
    ensures DecoratePieces(ps, global, patterns, matches, present) == Render(ps)
    decreases |ps|
  {
    if ps != [] {
      var init, last := ps[..|ps| - 1], ps[|ps| - 1];
      assert forall i :: 0 <= i < |init| ==> init[i] == ps[i];
      DecoratePiecesRender(init, global, patterns, matches, present);
      Seqs.InitLast(ps);
      RenderAppend(init, [last]);
      assert Render([last]) == PieceText(last) by {
        assert [last][1..] == [];
      }
    }
  }

  /** The output is untouched when it has no `<a`, when no patterns are
      configured, when the patterns are not an array, or when no pattern
      matches any href. */
  lemma DecorateUnchanged(s: string, cfg: Config, matches: (string, string) -> bool, present: (string, string) -> bool)
    requires !Contains(s, "<a") || cfg.patterns == PatternArray([]) || cfg.patterns.PatternsOther? ||
             forall href :: NoneMatch(href, cfg.patterns.entries, matches)
    ensures Decorate(s, cfg, matches, present) == s
  {
    if Contains(s, "<a") && cfg.patterns != PatternArray([]) {
      var global := PropsOf(cfg.properties);
      var ps := Scan(s, "a", "href");
      forall i | 0 <= i < |ps| && ps[i].Tag?
        ensures PieceOut(ps[i], global, cfg.patterns, matches, present) == ps[i].m.Text()
      {
        FindPropsNone(ps[i].m.tail.value, cfg.patterns, global, matches);
      }
      DecoratePiecesRender(ps, global, cfg.patterns, matches, present);
      ScanRender(s, "a", "href");
    }
  }

  // ---------------------------------------------------------------------
  // Running the decorator twice

  /** The keys of the missing properties are keys of the properties. */
  lemma MissingKeys(h: Pairs, text: string, present: (string, string) -> bool, i: nat)
    requires Distinct(h) && i < |Missing(h, text, present)|
    ensures HasKey(h, Missing(h, text, present)[i].0)
    ensures Renderable(Missing(h, text, present)[i].1)
  {
    var missing := Missing(h, text, present);
    var k := missing[i].0;
    MissingLookup(h, text, present, k);
    MissingEmpty(h, text, present);
    assert HasKey(missing, k);
  }

  /** With the corrected presence test, a second run finds every attribute the
      first run added: the rebuilt tag is again a match of the link pattern,
      and none of the added properties is missing from it. */
  lemma SecondRunFindsAdded(m: TagMatch, h: Pairs)
    requires Captured(m, "a", "href") && Distinct(h)
    requires forall i :: 0 <= i < |h| ==> KeyOk(h[i].0)
    requires Missing(h, m.Text(), HasAttributeFixed) != []
    ensures var n := Normalized(m, BuildAttributes(Missing(h, m.Text(), HasAttributeFixed)));
      && DecorateTag(m, Some(h), HasAttributeFixed) == n.Text()
      && Captured(n, "a", "href")
      && forall i :: 0 <= i < |Missing(h, m.Text(), HasAttributeFixed)| ==>
           HasAttributeFixed(n.Text(), Missing(h, m.Text(), HasAttributeFixed)[i].0)
  {
    var missing := Missing(h, m.Text(), HasAttributeFixed);
    var attrs := BuildAttributes(missing);
    forall i | 0 <= i < |missing| ensures KeyOk(missing[i].0) && Renderable(missing[i].1) {
      MissingKeys(h, m.Text(), HasAttributeFixed, i);
      var j :| 0 <= j < |h| && h[j].0 == missing[i].0;
    }
    BuildAttributesNoGt(missing);
    RebuiltShape(m, attrs);
    forall i | 0 <= i < |missing| ensures HasAttributeFixed(Rebuilt(m, attrs), missing[i].0) {
      AddedAttributeFound(m, missing, i);
    }
  }

  // ---------------------------------------------------------------------
  // A second pass over a decorated link

  /** An assignment or a bare name at `p`. */
  predicate HitAt(s: string, k: string, p: nat) {
    AssignAt(s, k, p) || BareAt(s, k, p)
  }

  /** A character no attribute name of the decorator contains. */
  predicate EndsName(c: char) {
    IsSpace(c) || c == '=' || c == '>'
  }

  /** Whether a name found at `p` is an attribute depends only on the
      character after it. */
  lemma HitLocal(s: string, k: string, p: nat)
    requires NameAt(s, k, p)
    ensures HitAt(s, k, p) <==> p + |k| == |s| || EndsName(s[p + |k|])
  {
    var e := p + |k|;
    if e < |s| && !IsSpace(s[e]) {
      assert SkipSpaces(s, e) == e;
    }
  }

  /** A hit followed by more text is followed by a character ending a name. */
  lemma HitEnds(s: string, k: string, p: nat, e: nat)
    requires HitAt(s, k, p) && e == p + |k| < |s|
    ensures EndsName(s[e])
  {
    HitLocal(s, k, p);
  }

  /** A name followed by a character ending a name is a hit. */
  lemma HitFromEnd(t: string, k: string, p: nat, e: nat)
    requires NameAt(t, k, p) && e == p + |k| < |t| && EndsName(t[e])
    ensures HitAt(t, k, p)
  {
    HitLocal(t, k, p);
  }

  lemma LowerSame(c: char, d: char)
    requires Lower(c) == Lower(d)
    ensures IsWord(c) == IsWord(d) && EndsName(c) == EndsName(d)
  {
  }

  lemma MidChar(x: string, y: string, z: string, i: nat)
    requires i < |y|
    ensures (x + y + z)[|x| + i] == y[i]
  {
  }

  lemma MidSlice(x: string, y: string, z: string, i: nat, j: nat)
    requires i <= j <= |y|
    ensures (x + y + z)[|x| + i..|x| + j] == y[i..j]
  {
    assert (x + y + z)[|x|..|x| + |y|] == y;
  }

  lemma LowerStrSlice(y: string, i: nat, j: nat)
    requires i <= j <= |y|
    ensures LowerStr(y[i..j]) == LowerStr(y)[i..j]
  {
  }

  lemma LowerAt(y: string, y': string, i: nat)
    requires LowerStr(y) == LowerStr(y') && i < |y|
    ensures Lower(y[i]) == Lower(y'[i])
  {
    assert LowerStr(y)[i] == LowerStr(y')[i];
  }

  /** Stretches of the parts `y` and `y'` at the same offset agree up to case. */
  lemma MidLower(s: string, t: string, x: string, y: string, z: string, x': string, y': string, z': string,
                 p: nat, p': nat, n: nat)
    requires s == x + y + z && t == x' + y' + z' && LowerStr(y) == LowerStr(y')
    requires |x| <= p && p - |x| == p' - |x'| && |x'| <= p' && p + n <= |x| + |y|
    ensures p + n <= |s| && p' + n <= |t|
    ensures LowerStr(s[p..p + n]) == LowerStr(t[p'..p' + n])
  {
    var o := p - |x|;
    MidSlice(x, y, z, o, o + n);
    MidSlice(x', y', z', o, o + n);
    LowerStrSlice(y, o, o + n);
    LowerStrSlice(y', o, o + n);
  }

  /** Characters of the parts `y` and `y'` at the same offset agree up to case. */
  lemma MidLowerAt(s: string, t: string, x: string, y: string, z: string, x': string, y': string, z': string,
                   i: nat, i': nat)
    requires s == x + y + z && t == x' + y' + z' && LowerStr(y) == LowerStr(y')
    requires |x| <= i < |x| + |y| && i - |x| == i' - |x'| && |x'| <= i'
    ensures i < |s| && i' < |t|
    ensures IsWord(s[i]) == IsWord(t[i'])
    ensures EndsName(s[i]) == EndsName(t[i'])
  {
    MidChar(x, y, z, i - |x|);
    MidChar(x', y', z', i - |x|);
    LowerAt(y, y', i - |x|);
    LowerSame(y[i - |x|], y'[i - |x|]);
  }

  /** A name found at `p` in `s` is found at `p'` in `t` when the texts there
      agree up to case and the characters before them are of the same kind. */
  lemma NameMoves(s: string, t: string, k: string, p: nat, p': nat)
    requires NameAt(s, k, p) && k != [] && p' + |k| <= |t|
    requires LowerStr(s[p..p + |k|]) == LowerStr(t[p'..p' + |k|])
    requires p < |s| && IsWord(s[p]) == IsWord(t[p'])
    requires (p > 0 && IsWord(s[p - 1])) == (p' > 0 && IsWord(t[p' - 1]))
    ensures NameAt(t, k, p')
  {
  }

  /** A name found in the part `y` of `x + y + z` ends inside `y` when `z`
      starts with a character no name contains. */
  lemma NameInside(s: string, x: string, y: string, z: string, k: string, p: nat)
    requires s == x + y + z && KeyOk(k) && NameAt(s, k, p)
    requires |x| <= p < |x| + |y| && z != [] && EndsName(z[0])
    ensures p + |k| <= |x| + |y|
  {
    if p + |k| > |x| + |y| {
      var j := |x| + |y| - p;
      assert s[p..p + |k|][j] == s[|x| + |y|] == z[0];
      assert LowerStr(s[p..p + |k|])[j] == LowerStr(k)[j];
      LowerSame(z[0], k[j]);
    }
  }

  /** The character before the offset keeps its kind. */
  lemma PrevTransfer(s: string, t: string, x: string, y: string, z: string, x': string, y': string, z': string,
                     p: nat, p': nat)
    requires s == x + y + z && t == x' + y' + z' && p' == p - |x| + |x'|
    requires LowerStr(y) == LowerStr(y') && |x| <= p < |x| + |y|
    requires p == |x| ==> x != [] && x' != [] && IsWord(x[|x| - 1]) == IsWord(x'[|x'| - 1])
    ensures p <= |s| && p' <= |t|
    ensures (p > 0 && IsWord(s[p - 1])) == (p' > 0 && IsWord(t[p' - 1]))
  {
    if p > |x| {
      MidLowerAt(s, t, x, y, z, x', y', z', p - 1, p' - 1);
    } else {
      assert t[p' - 1] == x'[|x'| - 1] && s[p - 1] == x[|x| - 1];
    }
  }

  /** The name of a hit in the part `y` of `s == x + y + z`, when it ends
      inside `y`, is found at the same offset of `y'` in `t == x' + y' + z'`. */
  lemma NameTransfer(s: string, t: string, x: string, y: string, z: string, x': string, y': string, z': string,
                     k: string, p: nat, p': nat)
    requires s == x + y + z && t == x' + y' + z' && p' == p - |x| + |x'|
    requires k != [] && LowerStr(y) == LowerStr(y')
    requires |x| <= p && p + |k| <= |x| + |y| && NameAt(s, k, p)
    requires p == |x| ==> x != [] && x' != [] && IsWord(x[|x| - 1]) == IsWord(x'[|x'| - 1])
    ensures NameAt(t, k, p')
  {
    MidLower(s, t, x, y, z, x', y', z', p, p', |k|);
    MidLowerAt(s, t, x, y, z, x', y', z', p, p');
    PrevTransfer(s, t, x, y, z, x', y', z', p, p');
    NameMoves(s, t, k, p, p');
  }

  /** What follows the name keeps its kind. */
  lemma EndTransfer(s: string, t: string, x: string, y: string, z: string, x': string, y': string, z': string,
                    e: nat, e': nat)
    requires s == x + y + z && t == x' + y' + z' && e' == e - |x| + |x'|
    requires LowerStr(y) == LowerStr(y')
    requires |x| <= e <= |x| + |y|
    requires z' != [] && EndsName(z'[0])
    ensures e < |s| ==> e' < |t|
    ensures e < |s| && EndsName(s[e]) ==> EndsName(t[e'])
  {
    if e < |x| + |y| {
      MidLowerAt(s, t, x, y, z, x', y', z', e, e');
    } else {
      assert t[e'] == z'[0];
    }
  }

  /** A hit whose name lies in the part `y` of `x + y + z` survives replacing
      the parts by `x'`, `y'`, `z'`, when `y'` equals `y` up to case, the
      character before the part keeps its kind, and both `z` and `z'` start
      with a character that ends a name. */
  lemma HitTransfer(s: string, t: string, x: string, y: string, z: string, x': string, y': string, z': string,
                    k: string, p: nat, p': nat)
    requires s == x + y + z && t == x' + y' + z' && p' == p - |x| + |x'|
    requires KeyOk(k) && LowerStr(y) == LowerStr(y')
    requires |x| <= p < |x| + |y| && HitAt(s, k, p)
    requires p == |x| ==> x != [] && x' != [] && IsWord(x[|x| - 1]) == IsWord(x'[|x'| - 1])
    requires z != [] && EndsName(z[0])
    requires z' != [] && EndsName(z'[0])
    ensures p' + |k| <= |t|
    ensures HitAt(t, k, p')
  {
    var e, e' := p + |k|, p' + |k|;
    NameInside(s, x, y, z, k, p);
    NameTransfer(s, t, x, y, z, x', y', z', k, p, p');
    HitEnds(s, k, p, e);
    EndTransfer(s, t, x, y, z, x', y', z', e, e');
    HitFromEnd(t, k, p', e');
  }

  /** A name starts with a word character, so none starts at any other. */
  lemma NoNameAt(s: string, k: string, p: nat)
    requires KeyOk(k) && p < |s| && !IsWord(s[p])
    ensures !NameAt(s, k, p)
  {
    if NameAt(s, k, p) {
      assert LowerStr(s[p..p + |k|])[0] == Lower(k[0]);
      LowerSame(s[p], k[0]);
    }
  }

  /** The link text cut around the tag name. */
  lemma NameCut(m: TagMatch)
    ensures m.Text() == "<" + m.name + (m.gap + m.before + m.tail.Text())
  {
  }

  /** The link text cut around `before` + ATTR. */
  lemma AttrsCut(m: TagMatch)
    ensures m.Text() == ("<" + m.name + m.gap) + (m.before + m.tail.attr)
                        + (m.tail.sp1 + "=" + m.tail.sp2 + [m.tail.quote] + m.tail.Right())
  {
    var tl := m.tail;
    assert tl.Text() == tl.attr + (tl.sp1 + "=" + tl.sp2 + [tl.quote] + tl.Right());
  }

  /** The link text cut around the quoted value and what follows it. */
  lemma ValueCut(m: TagMatch)
    ensures m.Text() == ("<" + m.name + m.gap + m.before + m.tail.attr + m.tail.sp1 + "=" + m.tail.sp2 + [m.tail.quote])
                        + (m.tail.value + [m.tail.quote] + m.tail.after) + ">"
  {
    var tl := m.tail;
    assert tl.Text() == tl.Left() + (tl.value + [tl.quote] + tl.after) + ">";
  }

  /** The rebuilt link cut the same three ways. */
  lemma RebuiltCuts(m: TagMatch, attrs: string)
    ensures Rebuilt(m, attrs) == "<" + "a" + (" " + m.before + "href=" + [m.tail.quote] + m.tail.value + [m.tail.quote] + m.tail.after + attrs + ">")
    ensures Rebuilt(m, attrs) == "<a " + (m.before + "href")
                                 + ("=" + [m.tail.quote] + m.tail.value + [m.tail.quote] + m.tail.after + attrs + ">")
    ensures Rebuilt(m, attrs) == ("<a " + m.before + "href=" + [m.tail.quote])
                                 + (m.tail.value + [m.tail.quote] + m.tail.after) + (attrs + ">")
  {
  }

  /** A hit inside the tag name. */
  lemma HitInName(m: TagMatch, attrs: string, k: string, p: nat)
    requires Captured(m, "a", "href") && KeyOk(k) && (attrs == [] || attrs[0] == ' ')
    requires 1 <= p < 1 + |m.name| && HitAt(m.Text(), k, p)
    ensures HitAt(Rebuilt(m, attrs), k, p)
  {
    var z := m.gap + m.before + m.tail.Text();
    var z' := " " + m.before + "href=" + [m.tail.quote] + m.tail.value + [m.tail.quote] + m.tail.after + attrs + ">";
    NameCut(m);
    RebuiltCuts(m, attrs);
    assert LowerStr("a") == "a";
    assert z[0] == m.gap[0];
    HitTransfer(m.Text(), Rebuilt(m, attrs), "<", m.name, z, "<", "a", z', k, p, p);
  }

  /** A hit inside `before` or ATTR. */
  lemma HitInAttrs(m: TagMatch, attrs: string, k: string, p: nat)
    requires Captured(m, "a", "href") && KeyOk(k) && (attrs == [] || attrs[0] == ' ')
    requires 1 + |m.name| + |m.gap| <= p < 1 + |m.name| + |m.gap| + |m.before| + |m.tail.attr|
    requires HitAt(m.Text(), k, p)
    ensures HitAt(Rebuilt(m, attrs), k, p - (1 + |m.name| + |m.gap|) + 3)
  {
    var tl := m.tail;
    var x, y, z := "<" + m.name + m.gap, m.before + tl.attr, tl.sp1 + "=" + tl.sp2 + [tl.quote] + tl.Right();
    var y', z' := m.before + "href", "=" + [tl.quote] + tl.value + [tl.quote] + tl.after + attrs + ">";
    AttrsCut(m);
    RebuiltCuts(m, attrs);
    LowerStrAppend(m.before, tl.attr);
    LowerStrAppend(m.before, "href");
    assert x[|x| - 1] == m.gap[|m.gap| - 1];
    assert z[0] == (if tl.sp1 == [] then '=' else tl.sp1[0]);
    HitTransfer(m.Text(), Rebuilt(m, attrs), x, y, z, "<a ", y', z', k, p, p - |x| + 3);
  }

  /** A hit inside the quoted value or what follows it. */
  lemma HitInValue(m: TagMatch, attrs: string, k: string, p: nat, p': nat)
    requires Captured(m, "a", "href") && KeyOk(k) && (attrs == [] || attrs[0] == ' ')
    requires var tl := m.tail;
      var c := 1 + |m.name| + |m.gap| + |m.before| + |tl.attr| + |tl.sp1| + |tl.sp2| + 2;
      c <= p < c + |tl.value| + 1 + |tl.after|
    requires p' == p - (|m.name| + |m.gap| + |m.tail.attr| + |m.tail.sp1| + |m.tail.sp2|) + 6
    requires HitAt(m.Text(), k, p)
    ensures HitAt(Rebuilt(m, attrs), k, p')
  {
    var tl := m.tail;
    var x := "<" + m.name + m.gap + m.before + tl.attr + tl.sp1 + "=" + tl.sp2 + [tl.quote];
    var x' := "<a " + m.before + "href=" + [tl.quote];
    var y := tl.value + [tl.quote] + tl.after;
    ValueCut(m);
    RebuiltCuts(m, attrs);
    assert x[|x| - 1] == tl.quote && x'[|x'| - 1] == tl.quote;
    assert |x| == |m.name| + |m.gap| + |m.before| + |tl.attr| + |tl.sp1| + |tl.sp2| + 3;
    assert |x'| == |m.before| + 9;
    HitTransfer(m.Text(), Rebuilt(m, attrs), x, y, ">", x', y, attrs + ">", k, p, p');
  }

  /** Outside those three parts the link holds only `<`, whitespace, `=`,
      quotes and `>`, where no name starts. */
  lemma NoHitElsewhere(m: TagMatch, k: string, p: nat)
    requires Captured(m, "a", "href") && KeyOk(k) && p <= |m.Text()|
    requires var tl := m.tail;
      var a := 1 + |m.name|;
      var b := a + |m.gap|;
      var c := b + |m.before| + |tl.attr|;
      var d := c + |tl.sp1| + |tl.sp2| + 2;
      p < 1 || a <= p < b || c <= p < d || d + |tl.value| + 1 + |tl.after| <= p
    ensures !NameAt(m.Text(), k, p)
  {
    var s, tl := m.Text(), m.tail;
    var a := 1 + |m.name|;
    var b := a + |m.gap|;
    var c := b + |m.before| + |tl.attr|;
    NameCut(m);
    AttrsCut(m);
    ValueCut(m);
    if p == |s| {
      return;
    } else if p < 1 {
      assert s[p] == '<';
    } else if a <= p < b {
      assert s[p] == m.gap[p - a];
    } else if c <= p < c + |tl.sp1| + |tl.sp2| + 2 {
      var mid := tl.sp1 + "=" + tl.sp2 + [tl.quote];
      assert s[p] == mid[p - c];
      assert !IsWord(mid[p - c]);
    } else {
      assert s[p] == '>';
    }
    NoNameAt(s, k, p);
  }

  /** A name the corrected test finds in a link is still found after the link
      is rebuilt with more attributes. */
  lemma RebuiltKeepsHits(m: TagMatch, attrs: string, k: string)
    requires Captured(m, "a", "href") && KeyOk(k)
    requires attrs == [] || attrs[0] == ' '
    requires HasAttributeFixed(m.Text(), k)
    ensures HasAttributeFixed(Rebuilt(m, attrs), k)
  {
    var s, tl := m.Text(), m.tail;
    var p: nat :| p <= |s| && (AssignAt(s, k, p) || BareAt(s, k, p));
    assert HitAt(s, k, p);
    var a := 1 + |m.name|;
    var b := a + |m.gap|;
    var c := b + |m.before| + |tl.attr|;
    var d := c + |tl.sp1| + |tl.sp2| + 2;
    if 1 <= p < a {
      HitInName(m, attrs, k, p);
    } else if b <= p < c {
      HitInAttrs(m, attrs, k, p);
    } else if d <= p < d + |tl.value| + 1 + |tl.after| {
      HitInValue(m, attrs, k, p, p - (|m.name| + |m.gap| + |tl.attr| + |tl.sp1| + |tl.sp2|) + 6);
    } else {
      NoHitElsewhere(m, k, p);
    }
  }

  /** The link a decorated link ends up as. */
  function DecoratedMatch(m: TagMatch, h: Pairs): TagMatch {
    var missing := Missing(h, m.Text(), HasAttributeFixed);
    if missing == [] then m else Normalized(m, BuildAttributes(missing))
  }

  /** With the corrected presence test, decorating a link twice is decorating
      it once: the decorated text is again a link match, and a second pass
      leaves it as it is. */
  lemma DecorateTagIdempotent(m: TagMatch, h: Pairs)
    requires Captured(m, "a", "href") && Distinct(h)
    requires forall i :: 0 <= i < |h| ==> KeyOk(h[i].0)
    ensures DecorateTag(m, Some(h), HasAttributeFixed) == DecoratedMatch(m, h).Text()
    ensures Captured(DecoratedMatch(m, h), "a", "href")
    ensures DecorateTag(DecoratedMatch(m, h), Some(h), HasAttributeFixed) == DecoratedMatch(m, h).Text()
  {
    var missing := Missing(h, m.Text(), HasAttributeFixed);
    if missing == [] {
      MissingEmpty(h, m.Text(), HasAttributeFixed);
      DecorateTagSpec(m, h, HasAttributeFixed);
    } else {
      SecondRunFindsAdded(m, h);
      var attrs := BuildAttributes(missing);
      var n := Normalized(m, attrs);
      assert n.Text() == Rebuilt(m, attrs) by {
        RebuiltText(m, attrs);
      }
      forall i | 0 <= i < |h| && Renderable(h[i].1) ensures HasAttributeFixed(n.Text(), h[i].0) {
        var k := h[i].0;
        if HasAttributeFixed(m.Text(), k) {
          RebuiltKeepsHits(m, attrs, k);
        } else {
          LookupAt(h, i, k);
          MissingLookup(h, m.Text(), HasAttributeFixed, k);
          var j := KeyAt(missing, k).value;
        }
      }
      DecorateTagSpec(n, h, HasAttributeFixed);
    }
  }

  /** `<a href="/f.pdf">`, with the decorator configured to add `download: true`. */
  const PdfLink := TagMatch("a", " ", "", Tail("href", "", "", '"', "/f.pdf", ""))
  const AddDownload: Pairs := [("download", Bool(true))]
  const PdfText := "<a href=\"/f.pdf\">"
  const PdfOnce := "<a href=\"/f.pdf\" download>"
  const PdfTwice := "<a href=\"/f.pdf\" download download>"

  lemma PdfTextOf()
    ensures PdfLink.Text() == PdfText
  {
    PdfTextTail(PdfLink.tail);
    PdfTextJoin();
  }

  lemma PdfTextTail(t: Tail)
    requires t == PdfLink.tail
    ensures t.Text() == "href=\"" + "/f.pdf\">"
  {
    assert t.Left() == "href=\"";
    assert t.Right() == "/f.pdf\">";
  }

  lemma PdfTextJoin()
    ensures "<" + "a" + " " + "" + ("href=\"" + "/f.pdf\">") == PdfText
  {
    assert "<" + "a" + " " + "" == "<a ";
  }

  lemma PdfOnceOf()
    ensures Normalized(PdfLink, " download").Text() == PdfOnce
  {
    var t := Normalized(PdfLink, " download").tail;
    PdfOnceTail(t);
    PdfOnceJoin();
  }

  lemma PdfOnceTail(t: Tail)
    requires t == Normalized(PdfLink, " download").tail
    ensures t.Text() == "href=\"" + "/f.pdf\" download>"
  {
    assert t.Left() == "href=\"";
    assert t.Right() == "/f.pdf\" download>";
  }

  lemma PdfOnceJoin()
    ensures "<" + "a" + " " + "" + ("href=\"" + "/f.pdf\" download>") == PdfOnce
  {
    assert "<" + "a" + " " + "" == "<a ";
    assert "<a href=\"" + "/f.pdf\" download>" == PdfOnce;
    assert "<a " + ("href=\"" + "/f.pdf\" download>") == "<a href=\"" + "/f.pdf\" download>";
  }

  lemma PdfRebuiltOnce()
    ensures Rebuilt(PdfLink, " download") == PdfOnce
  {
    assert RebuiltFront(PdfLink) == "<a href=\"/f.pdf\"";
  }

  lemma PdfRebuiltTwice()
    ensures Rebuilt(Normalized(PdfLink, " download"), " download") == PdfTwice
  {
    assert RebuiltFront(Normalized(PdfLink, " download")) == "<a href=\"/f.pdf\" download";
  }

  lemma NameAtDo(t: string, p: nat)
    requires NameAt(t, "download", p)
    ensures p + 8 <= |t| && Lower(t[p]) == 'd' && Lower(t[p + 1]) == 'o'
  {
    assert LowerStr(t[p..p + 8])[0] == Lower(t[p]);
    assert LowerStr(t[p..p + 8])[1] == Lower(t[p + 1]);
  }

  lemma NotNamedInPdfText(p: nat)
    ensures !NameAt(PdfText, "download", p)
  {
    if NameAt(PdfText, "download", p) {
      NameAtDo(PdfText, p);
    }
  }

  lemma NameInPdfOnce(p: nat)
    requires NameAt(PdfOnce, "download", p)
    ensures p == 17
  {
    NameAtDo(PdfOnce, p);
  }

  lemma NoAssignInPdfOnce(p: nat)
    ensures !AssignAt(PdfOnce, "download", p)
  {
    if NameAt(PdfOnce, "download", p) {
      NameInPdfOnce(p);
      assert SkipSpaces(PdfOnce, 25) == 25;
    }
  }

  lemma DownloadBareInPdfOnce()
    ensures BareAt(PdfOnce, "download", 17)
  {
    assert PdfOnce[17..25] == "download";
    assert LowerStr("download") == "download";
  }

  lemma PdfPresence()
    ensures !HasAttribute(PdfText, "download") && !HasAttributeFixed(PdfText, "download")
    ensures !HasAttribute(PdfOnce, "download") && HasAttributeFixed(PdfOnce, "download")
  {
    forall p: nat | p <= |PdfText| ensures !AssignAt(PdfText, "download", p) && !BareAt(PdfText, "download", p) {
      NotNamedInPdfText(p);
    }
    forall p: nat | p <= |PdfOnce| ensures !AssignAt(PdfOnce, "download", p) {
      NoAssignInPdfOnce(p);
    }
    DownloadBareInPdfOnce();
  }

  lemma MissingDownload(text: string, present: (string, string) -> bool)
    ensures !present(text, "download") ==> Missing(AddDownload, text, present) == AddDownload
    ensures present(text, "download") ==> Missing(AddDownload, text, present) == []
  {
    assert AddDownload[..0] == [];
  }

  lemma DownloadAttributes()
    ensures BuildAttributes(AddDownload) == " download"
  {
    assert AddDownload[..0] == [];
    assert AttrText("download", Bool(true)) == " " + "download";
    assert [] + (" " + "download") == " download";
  }

  /** As written, a bare boolean attribute is added again on every run:
      `has_attribute?` looks only for `name=`. */
  lemma DuplicatedBareAttribute()
    ensures DecorateTag(PdfLink, Some(AddDownload), HasAttribute) == PdfOnce
    ensures Normalized(PdfLink, " download").Text() == PdfOnce
    ensures DecorateTag(Normalized(PdfLink, " download"), Some(AddDownload), HasAttribute) == PdfTwice
  {
    PdfTextOf();
    PdfOnceOf();
    PdfRebuiltOnce();
    PdfRebuiltTwice();
    PdfPresence();
    MissingDownload(PdfText, HasAttribute);
    MissingDownload(PdfOnce, HasAttribute);
    DownloadAttributes();
  }

  /** With the corrected test the second run leaves the tag alone. */
  lemma BareAttributeKept()
    ensures DecorateTag(PdfLink, Some(AddDownload), HasAttributeFixed) == PdfOnce
    ensures DecorateTag(Normalized(PdfLink, " download"), Some(AddDownload), HasAttributeFixed) == PdfOnce
  {
    PdfTextOf();
    PdfOnceOf();
    PdfRebuiltOnce();
    PdfPresence();
    MissingDownload(PdfText, HasAttributeFixed);
    MissingDownload(PdfOnce, HasAttributeFixed);
    DownloadAttributes();
  }
}
