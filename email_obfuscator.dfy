/** The `{% email %}` Liquid tag.  The address is split into the chunks
    `mailto`, user, domain base and top-level domain.  Each chunk is ROT-N
    encoded with N taken from the length of one part of the random class names.
    A style/script block is added the first time the tag renders in a context. */
module EmailObfuscator {
  import opened Wrappers
  import opened Strings
  import Seqs

  // ---------------------------------------------------------------------
  // rot_n_encode / rot_n_decode

  /** One character shifted by `n` within its own ASCII case, modulo 26.
      Every other character is left as it is. */
  function Shift(c: char, n: int): (r: char)
    ensures IsAsciiLetter(r) == IsAsciiLetter(c)
    ensures ('A' <= r <= 'Z') == ('A' <= c <= 'Z')
    ensures !IsAsciiLetter(c) ==> r == c
  {
    if 'A' <= c <= 'Z' then ((c as int - 65 + n) % 26 + 65) as char
    else if 'a' <= c <= 'z' then ((c as int - 97 + n) % 26 + 97) as char
    else c
  }

  /** `rot_n_encode(text, n)` */
  function RotEncode(s: string, n: int): (r: string)
    ensures |r| == |s|
    ensures forall i :: 0 <= i < |s| ==> r[i] == Shift(s[i], n)
  {
    seq(|s|, i requires 0 <= i < |s| => Shift(s[i], n))
  }

  /** `rot_n_decode(text, n)`: the shift by `-n`. */
  function RotDecode(s: string, n: int): (r: string)
    ensures |r| == |s|
    ensures forall i :: 0 <= i < |s| ==> r[i] == Shift(s[i], -n)
  {
    seq(|s|, i requires 0 <= i < |s| => Shift(s[i], -n))
  }

  /** JavaScript's `%` on a positive divisor: the remainder takes the sign of
      the dividend. */
  function JsRem(a: int, b: int): (r: int)
    requires b > 0
    ensures a >= 0 ==> r == a % b
    ensures -b < r < b
  {
    if a >= 0 then a % b else -((-a) % b)
  }

  /** The character code the page script appends for `c` when decoding with
      shift `n`: `(c-65-n+26)%26+65` for upper case, `(c-97-n+26)%26+97` for
      lower case, `c` itself otherwise. */
  function ScriptShift(c: char, n: int): int {
    if 'A' <= c <= 'Z' then JsRem(c as int - 65 - n + 26, 26) + 65
    else if 'a' <= c <= 'z' then JsRem(c as int - 97 - n + 26, 26) + 97
    else c as int
  }

  /** For shifts up to 26 the script decodes each character as `rot_n_decode`
      does; the class-name parts that give the shifts are 4 to 17 characters long. */
  lemma ScriptShiftAgrees(c: char, n: int)
    requires 0 <= n <= 26
    ensures ScriptShift(c, n) == Shift(c, -n) as int
  {
    if 'A' <= c <= 'Z' {
      ModShift((c as int - 65 - n) % 26, 1);
      ModShift((c as int - 65 - n) % 26, (c as int - 65 - n) / 26);
    } else if 'a' <= c <= 'z' {
      ModShift((c as int - 97 - n) % 26, 1);
      ModShift((c as int - 97 - n) % 26, (c as int - 97 - n) / 26);
    }
  }

  /** `(x + n) % 26` lands back on `x` after subtracting `n`, modulo 26. */
  lemma ModBack(x: int, n: int)
    requires 0 <= x < 26
    ensures ((x + n) % 26 - n) % 26 == x
  {
    var q := (x + n) / 26;
    assert (x + n) % 26 - n == x - 26 * q;
    ModShift(x, -q);
  }

  lemma ModShift(x: int, k: int)
    requires 0 <= x < 26
    ensures (x + 26 * k) % 26 == x
  {
    var y := x + 26 * k;
    var q, r := y / 26, y % 26;
    assert y == 26 * q + r && 0 <= r < 26;
    assert 26 * (q - k) == x - r;
    assert -26 < x - r < 26;
    assert q == k;
  }

  lemma ShiftBack(c: char, n: int)
    ensures Shift(Shift(c, n), -n) == c
    ensures Shift(Shift(c, -n), n) == c
  {
    if 'A' <= c <= 'Z' {
      ModBack(c as int - 65, n);
      ModBack(c as int - 65, -n);
    } else if 'a' <= c <= 'z' {
      ModBack(c as int - 97, n);
      ModBack(c as int - 97, -n);
    }
  }

  lemma ShiftPeriod(c: char, n: int)
    ensures Shift(c, n + 26) == Shift(c, n)
  {
    if 'A' <= c <= 'Z' {
      var x := c as int - 65 + n;
      ModShift(x % 26, x / 26 + 1);
    } else if 'a' <= c <= 'z' {
      var x := c as int - 97 + n;
      ModShift(x % 26, x / 26 + 1);
    }
  }

  /** Decoding undoes encoding, and the other way round, for every text and shift. */
  lemma DecodeEncode(s: string, n: int)
    ensures RotDecode(RotEncode(s, n), n) == s
    ensures RotEncode(RotDecode(s, n), n) == s
  {
    forall i | 0 <= i < |s| ensures RotDecode(RotEncode(s, n), n)[i] == s[i] && RotEncode(RotDecode(s, n), n)[i] == s[i] {
      ShiftBack(s[i], n);
    }
  }

  /** The shift is taken modulo 26. */
  lemma EncodePeriod(s: string, n: int)
    ensures RotEncode(s, n + 26) == RotEncode(s, n)
  {
    forall i | 0 <= i < |s| ensures RotEncode(s, n + 26)[i] == RotEncode(s, n)[i] {
      ShiftPeriod(s[i], n);
    }
  }

  // ---------------------------------------------------------------------
  // Splitting and validating the address

  datatype EmailParts = EmailParts(user: string, domainBase: string, tld: string)

  /** `domain.split(".", 2)` */
  function SplitFirstDot(d: string): (r: seq<string>)
    ensures 1 <= |r| <= 2
    ensures |r| == 1 <==> NoChar(d, '.')
    ensures |r| == 1 ==> r[0] == d
    ensures |r| == 2 ==> d == r[0] + "." + r[1] && NoChar(r[0], '.')
  {
    var i := IndexOf(d, '.', 0);
    if i == |d| then [d]
    else
      assert d == d[..i] + "." + d[i + 1..];
      [d[..i], d[i + 1..]]
  }

  /** The domain check: a non-empty base before the first `.`, and a
      non-empty rest after it. */
  function SplitDomain(user: string, domain: string): (r: Result<EmailParts, string>)
    ensures r.Ok? ==> r.value.user == user && domain == r.value.domainBase + "." + r.value.tld
    ensures r.Ok? ==> r.value.domainBase != [] && r.value.tld != [] && NoChar(r.value.domainBase, '.')
    ensures r.Err? ==> r.error == "Invalid email domain format: " + domain
  {
    var parts := SplitFirstDot(domain);
    if |parts| < 2 || parts[0] == [] || parts[1] == [] then Err("Invalid email domain format: " + domain)
    else Ok(EmailParts(user, parts[0], parts[1]))
  }

  /** The domain is accepted exactly when its first `.` has something on both sides. */
  lemma SplitDomainOk(user: string, domain: string)
    ensures SplitDomain(user, domain).Ok? <==>
      exists i :: 0 < i < |domain| - 1 && domain[i] == '.' && NoChar(domain[..i], '.')
  {
    var parts := SplitFirstDot(domain);
    if |parts| == 2 {
      var n := |parts[0]|;
      assert domain[n] == '.';
      assert domain[..n] == parts[0];
      forall i | 0 < i < |domain| - 1 && domain[i] == '.' && NoChar(domain[..i], '.') ensures i == n {
      }
    } else {
      forall i | 0 < i < |domain| - 1 && domain[i] == '.' ensures false {
      }
    }
  }

  /** The address check as written: `email.split("@")` must give exactly two
      non-empty parts.  Ruby's `split` drops trailing empty fields, so an
      address ending in `@` still gives two. */
  function SplitEmail(email: string): (r: Result<EmailParts, string>)
    ensures r.Ok? ==> r.value.user != [] && r.value.domainBase != [] && r.value.tld != []
  {
    var values := SplitRuby(email, '@');
    if |values| != 2 || values[0] == [] || values[1] == [] then Err("Invalid email format: " + email)
    else SplitDomain(values[0], values[1])
  }

  /** An accepted address begins with `user@base.tld`, and the user part has no `@`. */
  lemma SplitEmailPrefix(email: string)
    requires SplitEmail(email).Ok?
    ensures var p := SplitEmail(email).value;
      StartsWith(email, p.user + "@" + p.domainBase + "." + p.tld) && NoChar(p.user, '@')
  {
    var p := SplitEmail(email).value;
    var f := SplitAll(email, '@');
    assert f[..2] == SplitRuby(email, '@');
    SplitAllTwo(email, '@');
    var d := f[1];
    assert d == p.domainBase + "." + p.tld;
    assert f[0] + "@" + d == p.user + "@" + p.domainBase + "." + p.tld;
  }

  /** An address without `@` is rejected. */
  lemma SplitEmailNoAt(email: string)
    requires !Contains(email, "@")
    ensures SplitEmail(email) == Err("Invalid email format: " + email)
  {
    NoAtOneField(email);
  }

  lemma NoAtOneField(email: string)
    requires !Contains(email, "@")
    ensures SplitRuby(email, '@') == [] || |SplitRuby(email, '@')| == 1
  {
    var i := IndexOf(email, '@', 0);
    if i < |email| {
      assert OccursAt(email, "@", i) by {
        assert email[i..i + 1] == [email[i]];
      }
    }
  }

  /** The address check as intended: exactly one `@`, with a non-empty part on each side. */
  function SplitEmailStrict(email: string): (r: Result<EmailParts, string>)
    ensures r.Ok? ==> email == r.value.user + "@" + r.value.domainBase + "." + r.value.tld
    ensures r.Ok? ==> NoChar(r.value.user, '@') && NoChar(r.value.domainBase + "." + r.value.tld, '@')
  {
    var values := SplitAll(email, '@');
    if |values| != 2 || values[0] == [] || values[1] == [] then Err("Invalid email format: " + email)
    else
      JoinSplitAll(email, '@');
      assert Join(values, "@") == values[0] + "@" + values[1] by {
        assert values[1..] == [values[1]];
      }
      SplitDomain(values[0], values[1])
  }

  /** The intended check accepts exactly the addresses `user@base.tld` with no
      other `@`, no `.` in the base, and all three parts non-empty. */
  lemma SplitEmailStrictBuilds(u: string, b: string, t: string)
    requires u != [] && b != [] && t != []
    requires NoChar(u, '@') && NoChar(b + "." + t, '@') && NoChar(b, '.')
    ensures SplitEmailStrict(u + "@" + b + "." + t) == Ok(EmailParts(u, b, t))
  {
    var d := b + "." + t;
    TwoFields(u, d);
    DomainBuilds(u, b, t);
    assert u + "@" + b + "." + t == u + "@" + d by {
      Seqs.Assoc(u + "@", b, ".");
      Seqs.Assoc(u + "@", b + ".", t);
    }
  }

  /** Where the intended check accepts, the check as written accepts too,
      with the same parts: the two checks differ only on addresses the
      intended one rejects. */
  lemma SplitEmailAgrees(email: string)
    requires SplitEmailStrict(email).Ok?
    ensures SplitEmail(email) == SplitEmailStrict(email)
  {
    var values := SplitAll(email, '@');
    assert |values| == 2 && values[1] != [];
    assert SplitRuby(email, '@') == values;
  }

  /** The check as written accepts every address `user@base.tld` with one
      `@`, no `.` in the base and all three parts non-empty, with its own parts. */
  lemma SplitEmailBuilds(u: string, b: string, t: string)
    requires u != [] && b != [] && t != []
    requires NoChar(u, '@') && NoChar(b + "." + t, '@') && NoChar(b, '.')
    ensures SplitEmail(u + "@" + b + "." + t) == Ok(EmailParts(u, b, t))
  {
    SplitEmailStrictBuilds(u, b, t);
    SplitEmailAgrees(u + "@" + b + "." + t);
  }

  lemma TwoFields(u: string, d: string)
    requires NoChar(u, '@') && NoChar(d, '@')
    ensures SplitAll(u + "@" + d, '@') == [u, d]
  {
    SplitAllJoin([u, d], '@');
    assert Join([u, d], "@") == u + "@" + d by {
      assert [u, d][1..] == [d];
    }
  }

  lemma DomainBuilds(u: string, b: string, t: string)
    requires b != [] && t != [] && NoChar(b, '.')
    ensures SplitDomain(u, b + "." + t) == Ok(EmailParts(u, b, t))
  {
    var d := b + "." + t;
    assert d[..|b|] == b;
    assert d[|b| + 1..] == t;
    assert IndexOf(d, '.', 0) == |b| by {
      assert d[|b|] == '.';
      assert forall k :: 0 <= k < |b| ==> d[k] == b[k];
      IndexOfFirst(d, '.', |b|);
    }
  }

  /** The fields of `"a@b.c@"` before Ruby drops the trailing empty one. */
  lemma TrailingAtFields()
    ensures SplitAll("a@b.c@", '@') == ["a", "b.c", ""]
  {
    var e := "a@b.c@";
    assert IndexOf(e, '@', 0) == 1;
    var rest := e[2..];
    assert rest == "b.c@";
    IndexOfFirst(rest, '@', 3);
    assert rest[4..] == [];
    assert SplitAll(rest, '@') == ["b.c", ""] by {
      assert rest[..3] == "b.c";
      assert SplitAll(rest[4..], '@') == [""];
    }
    assert e[..1] == "a";
  }

  /** Ruby's split of `"a@b.c@"` at `@` drops the trailing empty field. */
  lemma TrailingAtSplit()
    ensures SplitRuby("a@b.c@", '@') == ["a", "b.c"]
  {
    TrailingAtFields();
    assert ["a", "b.c", ""][..2] == ["a", "b.c"];
  }

  /** The domain `"b.c"` splits into `"b"` and `"c"`. */
  lemma DomainBC()
    ensures SplitDomain("a", "b.c") == Ok(EmailParts("a", "b", "c"))
  {
    var d := "b.c";
    assert IndexOf(d, '.', 0) == 1;
    assert d[..1] == "b" && d[2..] == "c";
  }

  /** `"a@b.c@"`: as written the trailing `@` passes the two-part check. */
  lemma TrailingAtAccepted()
    ensures SplitEmail("a@b.c@") == Ok(EmailParts("a", "b", "c"))
  {
    TrailingAtSplit();
    DomainBC();
  }

  /** The intended check rejects `"a@b.c@"`: it has three `@`-separated fields. */
  lemma TrailingAtRejected()
    ensures SplitEmailStrict("a@b.c@").Err?
  {
    TrailingAtFields();
  }

  // ---------------------------------------------------------------------
  // render

  /** The random names fixed once per build: the two parts of the span class and
      of the link class, and the four data attributes of the chunks. */
  datatype Names = Names(spanPart1: string, spanPart2: string, linkPart1: string, linkPart2: string,
                         mailtoAttr: string, userAttr: string, baseAttr: string, tldAttr: string)
  {
    function SpanClass(): string { spanPart1 + "-" + spanPart2 }
    function LinkClass(): string { linkPart1 + "-" + linkPart2 }
  }

  /** The four chunks as they are stored in the data attributes. */
  function Chunks(names: Names, p: EmailParts): (r: seq<string>)
    ensures |r| == 4
    ensures RotDecode(r[0], |names.spanPart1|) == "mailto"
    ensures RotDecode(r[1], |names.spanPart2|) == p.user
    ensures RotDecode(r[2], |names.linkPart1|) == p.domainBase
    ensures RotDecode(r[3], |names.linkPart2|) == p.tld
  {
    DecodeEncode("mailto", |names.spanPart1|);
    DecodeEncode(p.user, |names.spanPart2|);
    DecodeEncode(p.domainBase, |names.linkPart1|);
    DecodeEncode(p.tld, |names.linkPart2|);
    [RotEncode("mailto", |names.spanPart1|), RotEncode(p.user, |names.spanPart2|),
     RotEncode(p.domainBase, |names.linkPart1|), RotEncode(p.tld, |names.linkPart2|)]
  }

  /** The link with the encoded chunks and the placeholder text. */
  function EmailLink(names: Names, p: EmailParts): string {
    var c := Chunks(names, p);
    "<a href=\"#\" class=\"" + names.LinkClass() + "\">" +
    "<span class=\"" + names.SpanClass() + "\" " +
    names.mailtoAttr + "=\"" + c[0] + "\" " +
    names.userAttr + "=\"" + c[1] + "\" " +
    names.baseAttr + "=\"" + c[2] + "\" " +
    names.tldAttr + "=\"" + c[3] + "\">XXXXXXXXXXXXXXXX</span>" +
    "</a>"
  }

  /** What `get_css_js` returns, around its generated style and script text. */
  function CssJs(css: string, js: string): (r: string)
    ensures r != []
  {
    "<style>" + css + "</style>" + js
  }

  /** The page is Markdown when its path ends in `.md` or `.markdown`. */
  predicate IsMarkdown(page: Option<string>) {
    page.Some? && (EndsWith(page.value, ".md") || EndsWith(page.value, ".markdown"))
  }

  /** The address: the tag's markup, or the Liquid variable it names, stripped. */
  function Address(markup: string, resolved: Option<string>): string {
    if resolved.None? then Strip(markup) else Strip(resolved.value)
  }

  /** The block before the link, and the link. */
  function Assemble(block: string, markdown: bool, link: string): (r: string)
    ensures block == [] ==> r == link
    ensures block != [] && markdown ==> r == "{::nomarkdown}" + block + "{:/nomarkdown}" + link
    ensures block != [] && !markdown ==> r == block + link
  {
    if block == [] then link
    else if markdown then "{::nomarkdown}" + block + "{:/nomarkdown}" + link
    else block + link
  }

  /** The address check a render uses: `split("@")` as written, or the
      corrected check that also rejects a second `@` (`strict`). */
  function SplitWith(strict: bool, email: string): (r: Result<EmailParts, string>)
    ensures strict && r.Ok? ==> email == r.value.user + "@" + r.value.domainBase + "." + r.value.tld
    ensures !strict && r.Ok? ==> StartsWith(email, r.value.user + "@" + r.value.domainBase + "." + r.value.tld)
    ensures !Contains(email, "@") ==> r == Err("Invalid email format: " + email)
  {
    if strict then
      NoAtStrict(email);
      SplitEmailStrict(email)
    else
      SplitEmailAsWritten(email);
      SplitEmail(email)
  }

  /** Either check accepts a well-formed address `user@base.tld` (one `@`, no
      `.` in the base, all parts non-empty) with its own parts. */
  lemma SplitWithBuilds(strict: bool, u: string, b: string, t: string)
    requires u != [] && b != [] && t != []
    requires NoChar(u, '@') && NoChar(b + "." + t, '@') && NoChar(b, '.')
    ensures SplitWith(strict, u + "@" + b + "." + t) == Ok(EmailParts(u, b, t))
  {
    if strict {
      SplitEmailStrictBuilds(u, b, t);
    } else {
      SplitEmailBuilds(u, b, t);
    }
  }

  lemma NoAtStrict(email: string)
    ensures !Contains(email, "@") ==> SplitEmailStrict(email) == Err("Invalid email format: " + email)
  {
    if !Contains(email, "@") {
      NoAtOneField(email);
    }
  }

  lemma SplitEmailAsWritten(email: string)
    ensures !Contains(email, "@") ==> SplitEmail(email) == Err("Invalid email format: " + email)
    ensures SplitEmail(email).Ok? ==>
      var p := SplitEmail(email).value; StartsWith(email, p.user + "@" + p.domainBase + "." + p.tld)
  {
    if !Contains(email, "@") {
      SplitEmailNoAt(email);
    }
    if SplitEmail(email).Ok? {
      SplitEmailPrefix(email);
    }
  }

  /** What one render produces, given whether the block was already injected:
      the error of the address check, or the link after the block. */
  function RenderResult(strict: bool, injected: bool, markup: string, resolved: Option<string>,
                        page: Option<string>, names: Names, block: string): Result<string, string> {
    var parts := SplitWith(strict, Address(markup, resolved));
    if parts.Err? then Err(parts.error)
    else Ok(Assemble(if injected then "" else block, IsMarkdown(page), EmailLink(names, parts.value)))
  }

  /** The style/script block goes out only on the first render in a context;
      later renders give the bare link, and a rejected address is the same
      error either way. */
  lemma InjectOnce(strict: bool, markup: string, resolved: Option<string>, page: Option<string>,
                   names: Names, css: string, js: string)
    ensures var parts := SplitWith(strict, Address(markup, resolved));
      parts.Err? ==>
        && RenderResult(strict, true, markup, resolved, page, names, CssJs(css, js)) == Err(parts.error)
        && RenderResult(strict, false, markup, resolved, page, names, CssJs(css, js)) == Err(parts.error)
    ensures var parts := SplitWith(strict, Address(markup, resolved));
      parts.Ok? ==>
        var link := EmailLink(names, parts.value);
        && RenderResult(strict, true, markup, resolved, page, names, CssJs(css, js)) == Ok(link)
        && RenderResult(strict, false, markup, resolved, page, names, CssJs(css, js)) ==
             Ok(if IsMarkdown(page) then "{::nomarkdown}" + CssJs(css, js) + "{:/nomarkdown}" + link
                else CssJs(css, js) + link)
  {
  }

  /** As written, `a@b.c@` renders the link for `a@b.c`. */
  lemma TrailingAtRendered(names: Names)
    ensures RenderResult(false, true, "a@b.c@", None, None, names, "") ==
            Ok(EmailLink(names, EmailParts("a", "b", "c")))
  {
    TrailingAtAccepted();
    StripKeeps("a@b.c@");
  }

  /** Decoding each chunk with its class part's length and joining the pieces as
      the script does gives `mailto:` and the accepted address, which is the
      whole address under the corrected check and a prefix of it as written. */
  lemma AddressRecovered(strict: bool, markup: string, resolved: Option<string>, names: Names)
    requires SplitWith(strict, Address(markup, resolved)).Ok?
    ensures var p := SplitWith(strict, Address(markup, resolved)).value;
      var c := Chunks(names, p);
      var joined := RotDecode(c[0], |names.spanPart1|) + ":" + RotDecode(c[1], |names.spanPart2|) + "@" +
        RotDecode(c[2], |names.linkPart1|) + "." + RotDecode(c[3], |names.linkPart2|);
      && joined == "mailto:" + (p.user + "@" + p.domainBase + "." + p.tld)
      && StartsWith("mailto:" + Address(markup, resolved), joined)
      && (strict ==> joined == "mailto:" + Address(markup, resolved))
  {
    var p := SplitWith(strict, Address(markup, resolved)).value;
    var c := Chunks(names, p);
    MailtoJoin(p.user, p.domainBase, p.tld);
    StartsWithPrepend("mailto:", Address(markup, resolved), p.user + "@" + p.domainBase + "." + p.tld);
  }

  lemma StartsWithPrepend(a: string, s: string, p: string)
    requires StartsWith(s, p)
    ensures StartsWith(a + s, a + p)
  {
    assert (a + s)[..|a + p|] == a + p;
  }

  lemma MailtoJoin(u: string, b: string, t: string)
    ensures "mailto" + ":" + u + "@" + b + "." + t == "mailto:" + (u + "@" + b + "." + t)
  {
    assert "mailto" + ":" == "mailto:";
    Seqs.Assoc("mailto:", u, "@");
    Seqs.Assoc("mailto:", u + "@", b);
    Seqs.Assoc("mailto:", u + "@" + b, ".");
    Seqs.Assoc("mailto:", u + "@" + b + ".", t);
  }

  /** The Liquid context's flag under the injection key. */
  class RenderContext {
    var injected: bool

    constructor (injected: bool)
      ensures this.injected == injected
    {
      this.injected := injected;
    }
  }

  /** `render`: the flag is set before the address is checked, so it is set
      even when the address is rejected. `strict == false` is the check as
      written; `strict == true` is the corrected one. */
  method Render(ctx: RenderContext, strict: bool, markup: string, resolved: Option<string>, page: Option<string>,
                names: Names, css: string, js: string) returns (r: Result<string, string>)
    modifies ctx
    ensures ctx.injected
    ensures r == RenderResult(strict, old(ctx.injected), markup, resolved, page, names, CssJs(css, js))
  {
    var block := "";
    if !ctx.injected {
      ctx.injected := true;
      block := CssJs(css, js);
    }
    var email := Address(markup, resolved);
    var parts := SplitWith(strict, email);
    if parts.Err? {
      return Err(parts.error);
    }
    var link := EmailLink(names, parts.value);
    r := Ok(Assemble(block, IsMarkdown(page), link));
  }
}
