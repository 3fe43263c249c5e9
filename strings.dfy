/** Character and string helpers shared by the plugin models.  Strings are
    sequences of Unicode scalar values; case folding is ASCII only. */
module Strings {

  /** Whitespace as the regular-expression class `\s` sees it. */
  predicate IsSpace(c: char) {
    c == ' ' || c == '\t' || c == '\n' || c == '\r' || c as int == 0x0B || c as int == 0x0C
  }

  /** Whitespace as `String#strip` removes it: `\s` plus NUL. */
  predicate IsStripSpace(c: char) {
    IsSpace(c) || c == '\0'
  }

  /** Word characters of `\w` and `\b`. */
  predicate IsWord(c: char) {
    ('a' <= c <= 'z') || ('A' <= c <= 'Z') || ('0' <= c <= '9') || c == '_'
  }

  predicate IsAsciiLetter(c: char) {
    ('a' <= c <= 'z') || ('A' <= c <= 'Z')
  }

  function Lower(c: char): (r: char)
    ensures IsWord(r) == IsWord(c) && IsSpace(r) == IsSpace(c)
    ensures ('A' <= c <= 'Z') ==> r as int == c as int + 32
    ensures !('A' <= c <= 'Z') ==> r == c
  {
    if 'A' <= c <= 'Z' then (c as int + 32) as char else c
  }

  function LowerStr(s: string): (r: string)
    ensures |r| == |s| && forall i :: 0 <= i < |s| ==> r[i] == Lower(s[i])
  {
    seq(|s|, i requires 0 <= i < |s| => Lower(s[i]))
  }

  lemma LowerStrAppend(a: string, b: string)
    ensures LowerStr(a + b) == LowerStr(a) + LowerStr(b)
  {
  }

  predicate StartsWith(s: string, p: string) {
    |p| <= |s| && s[..|p|] == p
  }

  predicate EndsWith(s: string, p: string) {
    |p| <= |s| && s[|s| - |p|..] == p
  }

  predicate OccursAt(s: string, t: string, i: nat) {
    i + |t| <= |s| && s[i..i + |t|] == t
  }

  /** `s.include?(t)` */
  predicate Contains(s: string, t: string) {
    exists i: nat | i <= |s| :: OccursAt(s, t, i)
  }

  lemma ContainsLeft(a: string, b: string, t: string)
    requires Contains(a, t)
    ensures Contains(a + b, t)
  {
    var i: nat :| i <= |a| && OccursAt(a, t, i);
    assert (a + b)[i..i + |t|] == a[i..i + |t|];
    assert OccursAt(a + b, t, i);
  }

  lemma ContainsRight(a: string, b: string, t: string)
    requires Contains(b, t)
    ensures Contains(a + b, t)
  {
    var i: nat :| i <= |b| && OccursAt(b, t, i);
    assert (a + b)[|a| + i..|a| + i + |t|] == b[i..i + |t|];
    assert OccursAt(a + b, t, |a| + i);
  }

  lemma ContainsTrans(m: string, e: string, p: string)
    requires Contains(m, e) && Contains(e, p)
    ensures Contains(m, p)
  {
    var i: nat :| i <= |m| && OccursAt(m, e, i);
    var j: nat :| j <= |e| && OccursAt(e, p, j);
    forall k | 0 <= k < |p| ensures m[i + j + k] == p[k] {
      assert m[i..i + |e|][j + k] == e[j + k];
      assert e[j..j + |p|][k] == p[k];
    }
    assert m[i + j..i + j + |p|] == p;
    assert OccursAt(m, p, i + j);
  }

  lemma ContainsSelf(t: string)
    ensures Contains(t, t)
  {
    assert t[0..|t|] == t;
    assert OccursAt(t, t, 0);
  }

  predicate NoChar(s: string, c: char) {
    forall i :: 0 <= i < |s| ==> s[i] != c
  }

  lemma NoCharAppend(a: string, b: string, c: char)
    requires NoChar(a, c) && NoChar(b, c)
    ensures NoChar(a + b, c)
  {
    forall i | 0 <= i < |a + b| ensures (a + b)[i] != c {
      if i >= |a| { assert (a + b)[i] == b[i - |a|]; }
    }
  }

  predicate AllSpace(s: string) {
    forall i :: 0 <= i < |s| ==> IsSpace(s[i])
  }

  predicate IsBlank(s: string) {
    forall i :: 0 <= i < |s| ==> IsStripSpace(s[i])
  }

  /** The first index at or after `from` holding `c`, or `|s|` when there is none. */
  function IndexOf(s: string, c: char, from: nat): (r: nat)
    requires from <= |s|
    ensures from <= r <= |s|
    ensures r < |s| ==> s[r] == c
    ensures forall k :: from <= k < r ==> s[k] != c
    decreases |s| - from
  {
    if from == |s| || s[from] == c then from else IndexOf(s, c, from + 1)
  }

  /** The first index at or after `from` that is not `\s` whitespace. */
  function SkipSpaces(s: string, from: nat): (r: nat)
    requires from <= |s|
    ensures from <= r <= |s|
    ensures r < |s| ==> !IsSpace(s[r])
    ensures forall k :: from <= k < r ==> IsSpace(s[k])
    decreases |s| - from
  {
    if from == |s| || !IsSpace(s[from]) then from else SkipSpaces(s, from + 1)
  }

  function TrimStart(s: string): (r: string)
    ensures |r| <= |s| && r == s[|s| - |r|..]
    ensures r != [] ==> !IsStripSpace(r[0])
    ensures IsBlank(s[..|s| - |r|])
  {
    if s == [] || !IsStripSpace(s[0]) then s
    else
      var r := TrimStart(s[1..]);
      assert s[1..][..|s| - 1 - |r|] == s[1..|s| - |r|];
      r
  }

  function TrimEnd(s: string): (r: string)
    ensures |r| <= |s| && r == s[..|r|]
    ensures r != [] ==> !IsStripSpace(r[|r| - 1])
    ensures IsBlank(s[|r|..])
  {
    if s == [] || !IsStripSpace(s[|s| - 1]) then s
    else TrimEnd(s[..|s| - 1])
  }

  lemma TrimStartBlank(s: string)
    requires IsBlank(s)
    ensures TrimStart(s) == []
  {
    if s != [] { TrimStartBlank(s[1..]); }
  }

  lemma TrimStartKeeps(s: string)
    requires s != [] && !IsStripSpace(s[0])
    ensures TrimStart(s) == s
  {
  }

  lemma TrimEndKeeps(s: string)
    requires s != [] && !IsStripSpace(s[|s| - 1])
    ensures TrimEnd(s) == s
  {
  }

  /** `String#strip` */
  function Strip(s: string): (r: string)
    ensures r != [] ==> !IsStripSpace(r[0]) && !IsStripSpace(r[|r| - 1])
  {
    TrimEnd(TrimStart(s))
  }

  /** `strip` leaves nothing exactly when the string is all whitespace. */
  lemma StripEmpty(s: string)
    ensures Strip(s) == [] <==> IsBlank(s)
  {
    var t := TrimStart(s);
    var i := |s| - |t|;
    if TrimEnd(t) == [] {
      assert t == [] by {
        assert t[0..] == t;
      }
      forall k | 0 <= k < |s| ensures IsStripSpace(s[k]) {
        assert s[..i][k] == s[k];
      }
    }
    if IsBlank(s) {
      TrimStartBlank(s);
    }
  }

  lemma StripKeeps(s: string)
    requires s != [] && !IsStripSpace(s[0]) && !IsStripSpace(s[|s| - 1])
    ensures Strip(s) == s
  {
    TrimStartKeeps(s);
    TrimEndKeeps(s);
  }

  /** Joins `parts` with `sep` between neighbours, as `Array#join(sep)`. */
  function Join(parts: seq<string>, sep: string): string {
    if parts == [] then []
    else if |parts| == 1 then parts[0]
    else parts[0] + sep + Join(parts[1..], sep)
  }

  function Concat(parts: seq<string>): string {
    if parts == [] then [] else parts[0] + Concat(parts[1..])
  }

  lemma ConcatAppend(a: seq<string>, b: seq<string>)
    ensures Concat(a + b) == Concat(a) + Concat(b)
  {
    if a != [] {
      assert (a + b)[1..] == a[1..] + b;
      ConcatAppend(a[1..], b);
      calc {
        Concat(a + b);
        (a + b)[0] + Concat((a + b)[1..]);
        a[0] + (Concat(a[1..]) + Concat(b));
      }
    } else {
      assert a + b == b;
    }
  }

  /** Every field between occurrences of `c`, empty ones included, as
      `String#split(c, -1)` gives them. */
  function SplitAll(s: string, c: char): (r: seq<string>)
    ensures |r| >= 1
    ensures forall k :: 0 <= k < |r| ==> NoChar(r[k], c)
    decreases |s|
  {
    var i := IndexOf(s, c, 0);
    if i == |s| then [s] else [s[..i]] + SplitAll(s[i + 1..], c)
  }

  lemma {:induction false} JoinSplitAll(s: string, c: char)
    ensures Join(SplitAll(s, c), [c]) == s
    decreases |s|
  {
    var i := IndexOf(s, c, 0);
    if i < |s| {
      JoinSplitAll(s[i + 1..], c);
      var rest := SplitAll(s[i + 1..], c);
      assert SplitAll(s, c) == [s[..i]] + rest;
      assert ([s[..i]] + rest)[1..] == rest;
      assert s == s[..i] + [c] + s[i + 1..];
    }
  }

  lemma {:induction false} SplitAllJoin(parts: seq<string>, c: char)
    requires |parts| >= 1
    requires forall k :: 0 <= k < |parts| ==> NoChar(parts[k], c)
    ensures SplitAll(Join(parts, [c]), c) == parts
  {
    if |parts| == 1 {
      assert IndexOf(parts[0], c, 0) == |parts[0]|;
    } else {
      var s := Join(parts, [c]);
      var rest := Join(parts[1..], [c]);
      assert s == parts[0] + [c] + rest;
      assert IndexOf(s, c, 0) == |parts[0]| by {
        assert s[|parts[0]|] == c;
        assert forall k :: 0 <= k < |parts[0]| ==> s[k] == parts[0][k];
        IndexOfFirst(s, c, |parts[0]|);
      }
      assert s[|parts[0]| + 1..] == rest;
      assert s[..|parts[0]|] == parts[0];
      SplitAllJoin(parts[1..], c);
    }
  }

  /** A last field added after a separator becomes the last field. */
  lemma {:induction false} SplitAllSnoc(a: string, b: string, c: char)
    requires NoChar(b, c)
    ensures SplitAll(a + [c] + b, c) == SplitAll(a, c) + [b]
    decreases |a|
  {
    var s := a + [c] + b;
    var i := IndexOf(a, c, 0);
    assert forall k :: 0 <= k < |a| ==> s[k] == a[k];
    if i == |a| {
      IndexOfFirst(s, c, |a|);
      assert s[..|a|] == a && s[|a| + 1..] == b;
      assert SplitAll(s, c) == [a] + SplitAll(b, c);
      assert IndexOf(b, c, 0) == |b|;
      assert SplitAll(a, c) == [a];
    } else {
      IndexOfFirst(s, c, i);
      var rest := a[i + 1..];
      assert s[..i] == a[..i];
      assert s[i + 1..] == rest + [c] + b;
      assert SplitAll(s, c) == [a[..i]] + SplitAll(rest + [c] + b, c);
      SplitAllSnoc(rest, b, c);
      assert SplitAll(a, c) == [a[..i]] + SplitAll(rest, c);
    }
  }

  /** The first field is a prefix without the separator. */
  lemma SplitAllFirst(s: string, c: char)
    ensures StartsWith(s, SplitAll(s, c)[0]) && NoChar(SplitAll(s, c)[0], c)
  {
    var i := IndexOf(s, c, 0);
    if i == |s| {
      assert s[..|s|] == s;
    }
  }

  /** When there are more fields, the separator follows the first one and the
      rest of the fields split what comes after it. */
  lemma SplitAllNext(s: string, c: char)
    requires |SplitAll(s, c)| > 1
    ensures |SplitAll(s, c)[0]| < |s| && s[|SplitAll(s, c)[0]|] == c
    ensures SplitAll(s[|SplitAll(s, c)[0]| + 1..], c) == SplitAll(s, c)[1..]
  {
    var i := IndexOf(s, c, 0);
    var rest := SplitAll(s[i + 1..], c);
    assert SplitAll(s, c) == [s[..i]] + rest;
  }

  /** With two fields or more, the text begins with the first two and the separator between them. */
  lemma SplitAllTwo(s: string, c: char)
    requires |SplitAll(s, c)| > 1
    ensures StartsWith(s, SplitAll(s, c)[0] + [c] + SplitAll(s, c)[1])
  {
    var f0 := SplitAll(s, c)[0];
    SplitAllFirst(s, c);
    SplitAllNext(s, c);
    var rest := s[|f0| + 1..];
    SplitAllFirst(rest, c);
    var f1 := SplitAll(rest, c)[0];
    assert s[..|f0| + 1 + |f1|] == f0 + [c] + f1 by {
      assert s[..|f0|] == f0;
      assert rest[..|f1|] == f1;
      assert s[..|f0| + 1 + |f1|] == s[..|f0|] + [s[|f0|]] + rest[..|f1|];
    }
  }

  lemma IndexOfFirst(s: string, c: char, i: nat)
    requires i < |s| && s[i] == c
    requires forall k :: 0 <= k < i ==> s[k] != c
    ensures IndexOf(s, c, 0) == i
  {
  }

  /** Ruby's `String#split(c)` with no limit: trailing empty fields are dropped. */
  function DropTrailingEmpty(fields: seq<string>): (r: seq<string>)
    ensures |r| <= |fields| && r == fields[..|r|]
    ensures r != [] ==> r[|r| - 1] != []
    ensures forall k :: |r| <= k < |fields| ==> fields[k] == []
  {
    if fields == [] || fields[|fields| - 1] != [] then fields
    else DropTrailingEmpty(fields[..|fields| - 1])
  }

  function SplitRuby(s: string, c: char): seq<string> {
    DropTrailingEmpty(SplitAll(s, c))
  }

  /** The number of occurrences of `c` in `s`. */
  function Count(s: string, c: char): nat {
    if s == [] then 0 else (if s[0] == c then 1 else 0) + Count(s[1..], c)
  }

  lemma CountAppend(a: string, b: string, c: char)
    ensures Count(a + b, c) == Count(a, c) + Count(b, c)
  {
    if a != [] {
      assert (a + b)[1..] == a[1..] + b;
      assert (a + b)[0] == a[0];
      CountAppend(a[1..], b, c);
    } else {
      assert a + b == b;
    }
  }

  lemma CountNone(s: string, c: char)
    requires NoChar(s, c)
    ensures Count(s, c) == 0
  {
    if s != [] { CountNone(s[1..], c); }
  }

  /** Decimal digits of a natural number, as `Integer#to_s`. */
  function NatToString(n: nat): (r: string)
    ensures r != []
    ensures forall i :: 0 <= i < |r| ==> '0' <= r[i] <= '9'
  {
    var d := ['0' + (n % 10) as char];
    if n < 10 then d else NatToString(n / 10) + d
  }
}
