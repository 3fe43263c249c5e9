# Jekyll site plugins, modelled in Dafny

This project models the Ruby plugins of a Jekyll site and proves properties
of the model.

- `href_decorator.rb` adds configured attributes to matching `<a>` tags.
- `00_image_paths.rb` and its older counterpart `image_paths.rb` rewrite
  relative image paths against the document's directory and an optional CDN
  base.
- `image_sizing.rb` turns `![alt](src =WxH)` into sized `<img>` tags:
  - before rendering it leaves a marker comment;
  - after rendering it turns the marker into `width`/`height` attributes.
- `email_obfuscator.rb` renders an e-mail address as ROT-encoded pieces that
  a script reassembles.
- `tag_validator.rb` stops the build when a tag contains a space.
- `link_card_tag.rb` renders a link card, optionally with a Wayback Machine
  link.
- `garden_archives.rb` builds per-collection taxonomy hashes and archive
  pages.

## How it is modelled

There is one module per plugin, plus four shared modules:
- `Wrappers`: `Option` and `Result`;
- `Strings`: Ruby's `split` and `strip`, and ASCII case folding;
- `Html`: `CGI.escapeHTML`;
- `TagScan`: the `<tag ... attr=... >` pattern.

Several plugins rewrite text with `gsub` and a regular expression. Each such
regex is modelled as a deterministic scanner:
- a `Step` function finds the leftmost match at the current position, or
  emits one character;
- a `Scan` function repeats `Step` over the text;
- `Render` puts the pieces back together.

A lemma proves that rendering the scanned pieces unchanged gives back the
input. A block that changes matches therefore changes only the matched
text.

Objects whose fields the source updates are Dafny classes. Their methods
carry `modifies` clauses: the document whose `output` is reassigned, the
link-card archive cache, the validator's error list and visited set, and
the archives configuration and site. The loops of the source are methods
proved against specification functions, and the lemmas about those
functions state what the source promises.

Where a finding below concerns an operation the source runs, that operation
takes the behaviour in question as a parameter. The model thus covers both
the code as written and the correction:
- the presence test of `process_document`;
- the address check of the e-mail tag.

## Model

| member | source | states |
|---|---|---|
| HrefDecorator.Put | _plugins/href_decorator.rb:58 | After `h[k] = v` the key maps to `v` and every other key keeps its value. An existing key keeps its place; a new key goes at the end. Distinct keys stay distinct. |
| HrefDecorator.Delete | _plugins/href_decorator.rb:55 | After `delete(k)` the key is absent and every other key keeps its value. |
| HrefDecorator.PropertiesArrayToHash | _plugins/href_decorator.rb:30-40 | The loop builds the hash `PropsOf(l)` of every pair of every hash in the array, in order. |
| HrefDecorator.PropsOfSpec | _plugins/href_decorator.rb:30-40 | A non-array gives `{}`. Keys are distinct. A key's value is the one from its last occurrence in the array. |
| HrefDecorator.StorePairs | _plugins/href_decorator.rb:36-38 | Storing a hash's pairs one by one gives `PutAll(h, pairs)`. |
| HrefDecorator.PutAllLookup | _plugins/href_decorator.rb:36-38 | After storing, a key has its value from the stored pairs if it is there, else its old value. |
| HrefDecorator.MergeProperties | _plugins/href_decorator.rb:47-63 | The loop over the pattern properties computes `Merge(global, pattern)`. |
| HrefDecorator.MergeLookup | _plugins/href_decorator.rb:47-63 | A key the pattern sets takes the pattern's value, or is removed when that value is `false`/`'false'`. Other keys keep their global value. |
| HrefDecorator.MergeMatchingRules | _plugins/href_decorator.rb:83-96 | The inner loop over one pattern hash. `matched` is true exactly when some rule matched so far. `merged` is the global hash merged with every matching rule, in order. |
| HrefDecorator.FindMatchingPatternProperties | _plugins/href_decorator.rb:72-100 | The loops compute `FindProps`: nil, or the global properties merged with the matching rules. |
| HrefDecorator.FindPropsNone | _plugins/href_decorator.rb:72-100 | The result is nil exactly when the configuration is not an array or no rule matches the href. |
| HrefDecorator.MergeAllLookup | _plugins/href_decorator.rb:72-100 | A key's final value comes from the last matching rule that mentions it (removed if `false`), else from the global properties. |
| HrefDecorator.BuildAttributesEmpty | _plugins/href_decorator.rb:106-123 | The attribute string is empty exactly when no value is renderable: `false`, `'false'`, nil and `'nil'` are skipped. |
| HrefDecorator.BuildAttributesSnoc | _plugins/href_decorator.rb:109-122 | Attributes are written in hash order, one ` key` or ` key="escaped"` per renderable entry. |
| HrefDecorator.BuildAttributesNoGt | _plugins/href_decorator.rb:106-123 | With keys free of `>`, the attribute string contains no `>`, so the rebuilt tag is still one tag. |
| HrefDecorator.WrittenName | _plugins/href_decorator.rb:116-120 | An attribute is written as a space and its name. The name is followed by `=` for a valued attribute, and by what comes next for a `true` one. |
| HrefDecorator.MissingProperties | _plugins/href_decorator.rb:172-182 | The loop computes `Missing(h, match, present)`. |
| HrefDecorator.MissingLookup | _plugins/href_decorator.rb:172-182 | A key is missing exactly when it is in the final properties with a renderable value and the tag does not already have it. It keeps its value. |
| HrefDecorator.MissingEmpty | _plugins/href_decorator.rb:172-186 | Nothing is missing exactly when every renderable property is already present. Each missing entry is renderable and absent from the tag. |
| HrefDecorator.DecorateTagSpec | _plugins/href_decorator.rb:170-191 | A tag that has every property is returned as it is. Otherwise it is rebuilt with the missing attributes before `>`. |
| HrefDecorator.RewriteTag | _plugins/href_decorator.rb:161-196 | The gsub block returns `DecorateTag` of the match and its merged properties. |
| HrefDecorator.RebuiltShape | _plugins/href_decorator.rb:189-190 | The rebuilt tag is again a match of the anchor pattern, with the same href. |
| HrefDecorator.AddedAttributeFound | _plugins/href_decorator.rb:130-132 | Every attribute added to a tag is detected in the rebuilt tag by the corrected presence test. Valued attributes are also detected by the original test. |
| HrefDecorator.SecondRunFindsAdded | _plugins/href_decorator.rb:172-190 | After a tag is rebuilt, the corrected test finds every added attribute in it, so a second pass adds none of them again. |
| HrefDecorator.RebuiltKeepsHits | _plugins/href_decorator.rb:186-190 | Every attribute name the corrected test finds in a link is still found after the link is rebuilt with added attributes. |
| HrefDecorator.DecorateTagIdempotent | _plugins/href_decorator.rb:170-191 | With the corrected test, the decorated link is again a match of the anchor pattern, and decorating it again returns it unchanged. |
| HrefDecorator.DecoratePiecesRender | _plugins/href_decorator.rb:161-196 | When the block returns every match unchanged, the gsub returns its input. |
| HrefDecorator.DecorateUnchanged | _plugins/href_decorator.rb:146-197 | The output is unchanged when it has no `<a`, when no patterns are configured, or when no rule matches any href. |
| HrefDecorator.ProcessDocument | _plugins/href_decorator.rb:146-197 | `document.output` becomes `DecorateOutput` of its old value. The presence test is a parameter: `HasAttribute` is `has_attribute?` as written, `HasAttributeFixed` the corrected test. |
| HrefDecorator.PdfPresence | _plugins/href_decorator.rb:130-132 | In `<a href="/f.pdf" download>`, `has_attribute?` does not see the bare `download`; the corrected test does. |
| HrefDecorator.DuplicatedBareAttribute | _plugins/href_decorator.rb:130-132 | With `has_attribute?` as written, a second pass turns `<a href="/f.pdf" download>` into `<a href="/f.pdf" download download>`. |
| HrefDecorator.BareAttributeKept | _plugins/href_decorator.rb:130-132 | With the corrected test, the second pass leaves `<a href="/f.pdf" download>` as it is. |
| Html.Escape | _plugins/href_decorator.rb:120 | `CGI.escapeHTML` leaves none of `<`, `>`, `"` and `'`, and never shortens the text. |
| Html.UnescapeEscape | _plugins/link_card_tag.rb:62 | Unescaping undoes escaping, so no text is lost. |
| TagScan.StepSound | _plugins/href_decorator.rb:161 | One gsub step consumes either the match `MatchPrefix` finds at that position, whose groups satisfy the pattern, or one character. It consumes a match exactly when `MatchPrefix` finds one; that this is the match the lazy group picks is `MatchHeadLeftmost`. |
| TagScan.FindTailFirst | _plugins/href_decorator.rb:161 | The lazy `([^>]*?)` stops at the first position from which the rest of the pattern matches: at no earlier position does the rest match. |
| TagScan.FindTailNone | _plugins/href_decorator.rb:161 | When the lazy group finds no position, the rest of the pattern matches at no position up to the first `>`. |
| TagScan.MatchHeadLeftmost | _plugins/href_decorator.rb:161 | A reported match has the shortest text before ATTR that lets the rest match; when `<NAME` and whitespace are there but no match is reported, the rest matches at no position before the first `>`. |
| TagScan.HeadSound | _plugins/href_decorator.rb:161 | The matched text begins the input and its groups satisfy the pattern. |
| TagScan.ScanRender | _plugins/href_decorator.rb:161 | The scanned pieces put back together are the input. |
| TagScan.ScanCaptured | _plugins/00_image_paths.rb:112 | Every match the scan finds satisfies the pattern's group constraints. |
| EmailObfuscator.Shift | _plugins/email_obfuscator.rb:114-120 | A letter stays a letter of the same case. Any other character is kept. |
| EmailObfuscator.RotEncode | _plugins/email_obfuscator.rb:112-122 | Same length; each character shifted by `n`. |
| EmailObfuscator.RotDecode | _plugins/email_obfuscator.rb:124-134 | Same length; each character shifted by `-n`. |
| EmailObfuscator.JsRem | _plugins/email_obfuscator.rb:163-164 | JavaScript's `%` by a positive divisor: the Euclidean remainder for a non-negative dividend, and always strictly between minus and plus the divisor. |
| EmailObfuscator.ScriptShiftAgrees | _plugins/email_obfuscator.rb:163-164 | For every shift from 0 to 26, the page script decodes a character to the same code as `rot_n_decode`. The shifts used are the lengths of the class-name parts (lines 19-23), which are 4 to 17. |
| EmailObfuscator.ShiftBack | _plugins/email_obfuscator.rb:117 | Shifting by `n` and then `-n` (either order) gives the character back. |
| EmailObfuscator.DecodeEncode | _plugins/email_obfuscator.rb:112-134 | `rot_n_decode(rot_n_encode(s, n), n) == s`, and the other way round. |
| EmailObfuscator.EncodePeriod | _plugins/email_obfuscator.rb:112-122 | Shifts `n` and `n + 26` encode alike. |
| EmailObfuscator.SplitFirstDot | _plugins/email_obfuscator.rb:69 | `split(".", 2)`: one field exactly when there is no dot. Otherwise the fields are the text before the first dot and the rest. |
| EmailObfuscator.SplitDomain | _plugins/email_obfuscator.rb:69-74 | On success `domain == base + "." + tld`, both non-empty and `base` without a dot. The error carries the domain. |
| EmailObfuscator.SplitDomainOk | _plugins/email_obfuscator.rb:69-72 | The domain is accepted exactly when its first dot is neither first nor last. |
| EmailObfuscator.SplitEmail | _plugins/email_obfuscator.rb:61-74 | As written, an accepted address has non-empty user, base and tld. That it accepts every well-formed address is SplitEmailBuilds. |
| EmailObfuscator.SplitEmailAgrees | _plugins/email_obfuscator.rb:61-74 | Wherever the corrected check accepts an address, the check as written accepts it too, with the same user, base and tld. |
| EmailObfuscator.SplitEmailBuilds | _plugins/email_obfuscator.rb:61-74 | As written, every `user@base.tld` with one `@`, no `.` in the base and three non-empty parts is accepted, with its own parts. |
| EmailObfuscator.SplitEmailPrefix | _plugins/email_obfuscator.rb:61-66 | As written, an accepted address only starts with `user@base.tld`; trailing text can be lost. |
| EmailObfuscator.SplitEmailNoAt | _plugins/email_obfuscator.rb:61-64 | A text without `@` is rejected with `Invalid email format: ...`. |
| EmailObfuscator.TrailingAtAccepted | _plugins/email_obfuscator.rb:61-62 | As written, `"a@b.c@"` is accepted as `a@b.c`. |
| EmailObfuscator.SplitEmailStrict | _plugins/email_obfuscator.rb:61-74 | Corrected: an accepted address is exactly `user@base.tld`, with one `@`. |
| EmailObfuscator.SplitEmailStrictBuilds | _plugins/email_obfuscator.rb:61-74 | Corrected: every well-formed `user@base.tld` is accepted, with its own parts. |
| EmailObfuscator.TrailingAtRejected | _plugins/email_obfuscator.rb:61-62 | Corrected: `"a@b.c@"` is rejected. |
| EmailObfuscator.Chunks | _plugins/email_obfuscator.rb:78-84 | The four encoded pieces decode back to `mailto`, the user, the base and the tld under the lengths of the random class names. |
| EmailObfuscator.SplitWith | _plugins/email_obfuscator.rb:61-74 | The address check `Render` uses. As written (`strict` false), an accepted address starts with `user@base.tld`. Corrected, it is exactly that. Either way a text without `@` is the `Invalid email format` error. |
| EmailObfuscator.SplitWithBuilds | _plugins/email_obfuscator.rb:61-74 | Both checks accept every well-formed `user@base.tld` with its own parts. |
| EmailObfuscator.AddressRecovered | _plugins/email_obfuscator.rb:159-180 | For an accepted address, the script's decoded pieces joined with `:`, `@` and `.` are `mailto:` plus `user@base.tld`. That is a prefix of `mailto:` plus the address, and all of it under the corrected check. The script's decoding is taken to be `RotDecode`; `ScriptShiftAgrees` shows that the script's truncating `%` gives the same characters for the shifts used. |
| EmailObfuscator.CssJs | _plugins/email_obfuscator.rb:136-205 | The injected style-and-script block is never empty. |
| EmailObfuscator.Assemble | _plugins/email_obfuscator.rb:103-109 | Link only when nothing is injected. Otherwise the block precedes the link, wrapped in `{::nomarkdown}` on Markdown pages. |
| EmailObfuscator.InjectOnce | _plugins/email_obfuscator.rb:45-110 | For every address and either check: a rejected address gives the same error on the first and on later renders. An accepted one gives the CSS/JS block before the link on the first render (inside `{::nomarkdown}` on Markdown pages) and the link alone afterwards. |
| EmailObfuscator.TrailingAtRendered | _plugins/email_obfuscator.rb:45-110 | As written, the tag renders `a@b.c@` as the link for `a@b.c`. |
| EmailObfuscator.Render | _plugins/email_obfuscator.rb:45-110 | Marks the context as injected and returns `RenderResult` for the flag it had before. `strict` false checks the address as written; `strict` true uses the corrected check. |
| LinkCard.SplitMarkup | _plugins/link_card_tag.rb:267-275 | A blank markup is the error `linkcard tag requires a URL`; any other markup is split. |
| LinkCard.SplitMarkupParts | _plugins/link_card_tag.rb:267-275 | The URL token is the non-empty first word. The title source is what follows the first run of whitespace. |
| LinkCard.StripOuterQuotes | _plugins/link_card_tag.rb:253-260 | The value is trimmed. A trimmed text with the same quote at both ends loses exactly those two characters (a lone quote gives `""`). Any other trimmed text comes back whole. |
| LinkCard.StripQuotesPlain | _plugins/link_card_tag.rb:253-260 | A trimmed text without a matching pair of outer quotes is returned as it is. |
| LinkCard.StripQuotesRoundTrip | _plugins/link_card_tag.rb:253-260 | Stripping the outer quotes of a quoted text gives the text inside. |
| LinkCard.DisplayUrl | _plugins/link_card_tag.rb:37 | Only a leading `http://` or `https://` is removed. |
| LinkCard.DisplayUrlScheme | _plugins/link_card_tag.rb:37 | The displayed URL of `https://x` or `http://x` is `x`. |
| LinkCard.TitleBlock | _plugins/link_card_tag.rb:59-64 | Empty exactly when there is no title. |
| LinkCard.TitleBlockRecovers | _plugins/link_card_tag.rb:59-64 | The block is `<h1>` + escaped title + `</h1>`, and unescaping its inside gives the title back. |
| LinkCard.ResolveUrl | _plugins/link_card_tag.rb:72-76 | Succeeds exactly when the evaluated value is present and not blank, and returns that value. Otherwise it fails with `linkcard tag requires a URL`. |
| LinkCard.ResolveTitle | _plugins/link_card_tag.rb:83-90 | A blank title source gives no title. |
| LinkCard.ArchiveEnabled | _plugins/link_card_tag.rb:211-220 | Archiving is on exactly when `LINKCARD_ARCHIVE` or `LINKCARD_ARCHIVE_SAVE` is `1`. |
| LinkCard.ArchiveLine | _plugins/link_card_tag.rb:119-127 | No archive line exactly when archiving is off or the archive URL is blank. |
| LinkCard.Fetched | _plugins/link_card_tag.rb:133-148 | When saving, the SavePageNow result wins if there is one. Otherwise the CDX lookup's result is used, else `""`. |
| LinkCard.CacheAfter | _plugins/link_card_tag.rb:133-148 | The cache after answering for a URL maps it to the cached or fetched archive URL, keeps every earlier entry and adds no other key. |
| LinkCard.MemoStable | _plugins/link_card_tag.rb:133-148 | Once a URL is cached, later answers for it equal the first one whatever the archive says then, and the cache stays as it is. |
| LinkCard.ArchiveCache.ArchiveUrlFor | _plugins/link_card_tag.rb:133-148 | `||=` memoisation: a cached URL is returned and the cache is unchanged. Otherwise the fetched URL is returned and stored. |
| LinkCard.ArchiveCache.ArchiveBlock | _plugins/link_card_tag.rb:119-127 | Empty, with the cache untouched, when archiving is off. Otherwise the line for the cached archive URL, or for the fetched one on a miss, and the cache becomes `CacheAfter` of the old one. |
| LinkCard.ArchiveCache.Render | _plugins/link_card_tag.rb:30-51 | A blank markup or URL gives the URL error and leaves the cache alone. A non-blank markup whose URL resolves gives `Ok` of the card with the URL, the title and the archive line. The cache becomes `CacheAfter` of the old one when archiving is on, and is unchanged when it is off. |
| TagValidator.ErrorPath | _plugins/tag_validator.rb:79 | The path is `relative_path || path || 'unknown'`. |
| TagValidator.TagsArray | _plugins/tag_validator.rb:72 | A single tag becomes a one-element list. |
| TagValidator.InvalidTags | _plugins/tag_validator.rb:75 | Exactly the tags that contain a space. |
| TagValidator.InvalidTagsFilter | _plugins/tag_validator.rb:75 | `select` keeps the tags with a space in order, duplicates included. One tag is kept exactly when it has a space, and a concatenation's result is the concatenation of the results. |
| TagValidator.Check | _plugins/tag_validator.rb:67-83 | A document has an error exactly when it has tags and one of them contains a space. The error holds its path and invalid tags. |
| TagValidator.DedupKeys | _plugins/tag_validator.rb:23-46 | Skipping already-validated paths keeps every path. |
| TagValidator.DedupDistinct | _plugins/tag_validator.rb:23-46 | Each path is validated at most once. |
| TagValidator.DedupFirst | _plugins/tag_validator.rb:23-46 | Each validated document is the first one with its path. |
| TagValidator.ErrorsOfEmpty | _plugins/tag_validator.rb:49 | No errors exactly when every document passes. |
| TagValidator.ErrorsOfMembers | _plugins/tag_validator.rb:67-83 | Every error comes from a checked document. |
| TagValidator.ErrorsOfCollects | _plugins/tag_validator.rb:67-83 | Every document that fails its check has its error collected. |
| TagValidator.VisitStep | _plugins/tag_validator.rb:24-27 | A visit adds the path; it adds the document's error only when the path is new. |
| TagValidator.Validator.ValidateTags | _plugins/tag_validator.rb:67-83 | Appends the document's error, if any. |
| TagValidator.Validator.Visit | _plugins/tag_validator.rb:24-27 | A seen path changes nothing; a new one is recorded and validated. |
| TagValidator.Validator.VisitAll | _plugins/tag_validator.rb:23-36 | After the loop the state is the one for all documents visited so far. |
| TagValidator.Validator.VisitCollections | _plugins/tag_validator.rb:39-46 | The same across all collections. |
| TagValidator.Outcome | _plugins/tag_validator.rb:49-58 | Success exactly when there are no errors. Otherwise the fatal error carries the message. |
| TagValidator.MessageLists | _plugins/tag_validator.rb:49-57 | The message holds the error count and, for each error, its path line and its tags line. |
| TagValidator.BuildMessage | _plugins/tag_validator.rb:49-57 | The message loop computes `Message(errors)`. |
| TagValidator.Generate | _plugins/tag_validator.rb:18-59 | The result is the outcome for the errors of the first document per path, over posts, then pages, then collections. |
| GardenTerms.AsArray | _plugins/garden_archives.rb:13 | `Array(x)`: nil gives `[]` and a single value gives `[x]`. |
| GardenTerms.TermsFor | _plugins/garden_archives.rb:12-18 | Categories fall back to `category` when `categories` is absent. |
| GardenTerms.PairsMember | _plugins/garden_archives.rb:198-204 | A (term, doc) pair is recorded exactly when the doc is in the collection and the term is one of its non-blank terms. |
| GardenTerms.GroupedKeys | _plugins/garden_archives.rb:196-204 | The hash has a key exactly for each term that occurs. |
| GardenTerms.GroupedDocs | _plugins/garden_archives.rb:196-204 | A term's list holds exactly the docs recorded with it. |
| GardenTerms.GroupsByTerm | _plugins/garden_archives.rb:195-205 | Terms are the non-blank terms of the docs. A term's docs are exactly the docs carrying it. |
| GardenTerms.Insert | _plugins/garden_archives.rb:207 | Inserting into a list sorted by lower-cased title keeps it sorted and adds the doc. |
| GardenTerms.SortByTitle | _plugins/garden_archives.rb:207 | Sorted by lower-cased title, and a permutation of its input. |
| GardenTerms.TermIndex.AddDoc | _plugins/garden_archives.rb:198-204 | Adding a doc's terms extends the grouping by its pairs. |
| GardenTerms.GroupDocs | _plugins/garden_archives.rb:196-204 | The loop leaves the index equal to the grouping of all pairs. |
| GardenTerms.BuildArchives | _plugins/garden_archives.rb:195-210 | Returns `ArchivesOf`: one archive per term. |
| GardenTerms.ArchiveContents | _plugins/garden_archives.rb:195-210 | Each archive has the type key and a non-blank term. Its docs are sorted by title and are exactly the docs with that term. Terms differ between archives. |
| GardenTerms.ArchiveCovers | _plugins/garden_archives.rb:195-210 | Every doc with a non-blank term appears in that term's archive. |
| GardenArchives.TypeKey | _plugins/garden_archives.rb:150-153 | The key is `name_tag` or `name_category`. |
| GardenArchives.TypeKeyDistinct | _plugins/garden_archives.rb:150-153 | Tag and category keys differ, and the key determines the collection name. |
| GardenArchives.TypeKeyNotKind | _plugins/garden_archives.rb:150-153 | A type key is never the plain `tags` or `categories`. |
| GardenArchives.EnabledTypes | _plugins/garden_archives.rb:145-147 | `Array(config["enabled"])`. |
| GardenArchives.FillKeeps | _plugins/garden_archives.rb:165-171 | `||=` keeps a set entry, and other keys are untouched. |
| GardenArchives.FillDefault | _plugins/garden_archives.rb:165-171 | An unset entry takes the collection's own setting, else the global one for the type, else nil. |
| GardenArchives.FillIdempotent | _plugins/garden_archives.rb:180-186 | Filling twice is filling once. |
| GardenArchives.ArchivesConfig.EnsureLayout | _plugins/garden_archives.rb:165-171 | `layouts` becomes the filled map, `permalinks` is unchanged, and the entry is returned. |
| GardenArchives.ArchivesConfig.EnsurePermalink | _plugins/garden_archives.rb:180-186 | `permalinks` becomes the filled map, `layouts` is unchanged, and the entry is returned. |
| GardenArchives.StepsKeep | _plugins/garden_archives.rb:119-127 | Processing a collection never overwrites a layout or permalink that was already set. |
| GardenArchives.StepBuilds | _plugins/garden_archives.rb:119-127 | A supported type whose layout and permalink are set after its step, or already before it, gets exactly `ArchivesOf` its terms. |
| GardenArchives.StepsBuilds | _plugins/garden_archives.rb:119-127 | Every enabled, supported type whose layout and permalink are configured before the run gets all of its archive pages. |
| GardenArchives.StepsArchives | _plugins/garden_archives.rb:119-127 | Each archive page comes from an enabled, supported type and has a resolved layout and permalink. |
| GardenArchives.TaxonomyEmpty | _plugins/garden_archives.rb:88 | A taxonomy is empty exactly when every term is blank. |
| GardenArchives.TaxonomyEntry | _plugins/garden_archives.rb:68-81 | Each entry has a non-blank term and exactly the docs carrying it. |
| GardenArchives.PublishKeys | _plugins/garden_archives.rb:85-105 | `name_tags` and `name_categories` are published when non-empty, and no other key is touched. |
| GardenArchives.BuildTaxonomyHashes | _plugins/garden_archives.rb:60-106 | `site.data` becomes `Publish` of the old data, and the pages are unchanged. |
| GardenArchives.GroupBoth | _plugins/garden_archives.rb:65-81 | One pass fills both the tag and the category index. |
| GardenArchives.PublishMaps | _plugins/garden_archives.rb:85-105 | Publishes the two groupings in insertion order. |
| GardenArchives.ProcessCollection | _plugins/garden_archives.rb:115-128 | No docs means no change. Otherwise the configuration and pages follow `Steps` over the enabled types. |
| GardenArchives.GardenTagsPublished | _plugins/garden_archives.rb:46-48 | An unconfigured `garden` collection still gets its `garden_tags` hash. |
| GardenArchives.GeneratedPages | _plugins/garden_archives.rb:34-49 | Every new page comes from a configured collection and one of its enabled types. |
| GardenArchives.Generate | _plugins/garden_archives.rb:34-49 | Site and configuration become `Generated` of their old state. |
| ImagePaths.Dirname | _plugins/00_image_paths.rb:34 | `File.dirname` is never empty. |
| ImagePaths.DirnameJoin | _plugins/00_image_paths.rb:34 | `File.dirname("dir/file") == "dir"`. |
| ImagePaths.Segments | _plugins/00_image_paths.rb:37 | Segments are non-empty and contain no `/`. |
| ImagePaths.Unscore | _plugins/00_image_paths.rb:41 | On one line, `sub(/^_/, '')` drops one leading underscore. |
| ImagePaths.SanitizeMember | _plugins/00_image_paths.rb:38-42 | A sanitised segment is a non-`_posts` segment with its leading underscore removed. |
| ImagePaths.RelativeDirectory | _plugins/00_image_paths.rb:30-45 | `""` without a path or when the directory is `.`. |
| ImagePaths.RelativeDirectorySegments | _plugins/00_image_paths.rb:30-45 | The directory's parts are exactly the sanitised segments. |
| ImagePaths.PostsDirectoryIgnored | _plugins/00_image_paths.rb:39 | A `_posts` directory adds nothing to the directory. |
| ImagePaths.TopLevelPostAtRoot | _plugins/00_image_paths.rb:30-60 | A post directly under `_posts/` resolves images at the site root. |
| ImagePaths.StripOneLine | _plugins/00_image_paths.rb:54 | On one line, `gsub(%r{^/+}, '')` removes the leading slashes. |
| ImagePaths.BuildRelativeSrc | _plugins/00_image_paths.rb:53-60 | The result starts with `/` and ends with the cleaned src. It is `/src` without a directory, and starts with `/dir/` with one. |
| ImagePaths.ProcessImagePath | _plugins/00_image_paths.rb:77-84 | Absolute paths and URLs are kept. Relative ones are resolved and prefixed with the CDN base when set. |
| ImagePaths.ProcessImagePathIdempotent | _plugins/00_image_paths.rb:77-84 | With an absolute or empty CDN base the result is absolute, and processing it again changes nothing. |
| ImagePaths.ImagePathHasExtension | _plugins/00_image_paths.rb:66-68 | A path passes `image_path?` only if it has an image extension before the end or a `?`. |
| ImagePaths.ExtensionIsImagePath | _plugins/00_image_paths.rb:66-68 | Every path with an image extension before the end or a `?` passes. |
| ImagePaths.CdnBase | _plugins/00_image_paths.rb:107-109 | `ASSET_HOST`, else the configured base URL, else `""`. |
| ImagePaths.RewriteWithoutImg | _plugins/00_image_paths.rb:102 | Output without `<img` is left alone. |
| ImagePaths.AnchorPassVerbatim | _plugins/00_image_paths.rb:124-137 | Anchors whose href is not an image path are kept. |
| ImagePaths.RewrittenTagStable | _plugins/00_image_paths.rb:112-137 | A rewritten `<img>` or `<a>` tag is not changed by the pass again. |
| ImagePaths.RunPass | _plugins/00_image_paths.rb:112-137 | The pass over the scanned pieces computes `PiecesOut`. |
| ImagePaths.ProcessDocument | _plugins/00_image_paths.rb:100-140 | `document.output` becomes `RewriteOutput` of its old value. |
| LegacyImagePaths.PostDirWithoutMarker | _plugins/image_paths.rb:18 | A path without `/_posts/` is kept. |
| LegacyImagePaths.PostDirCut | _plugins/image_paths.rb:18 | Otherwise the path is cut at the first `/_posts/`. |
| LegacyImagePaths.LegacySrc | _plugins/image_paths.rb:31-47 | URLs are skipped. Rooted paths get the CDN base only when it is set. Relative paths go under `/dir/`. |
| LegacyImagePaths.RootedSrcPrefixedAgain | _plugins/image_paths.rb:34-41 | With a rooted CDN base, a rewritten src is prefixed again on a second pass. |
| LegacyImagePaths.AgreesWithCurrent | _plugins/image_paths.rb:42-47 | For relative paths in a non-empty directory, the old hook agrees with `process_image_path`. |
| LegacyImagePaths.TopLevelPostKeepsFileName | _plugins/image_paths.rb:18 | As written, for `_posts/x.md` the src becomes `/_posts/x.md/src`. |
| LegacyImagePaths.LastKeyGreatest | _plugins/image_paths.rb:26 | The greedy `([^>]*)src="` takes the last `src="` in the tag. |
| LegacyImagePaths.MatchSound | _plugins/image_paths.rb:26 | A match found by the scanner is the text of a tag whose groups satisfy the pattern. |
| LegacyImagePaths.ScanRender | _plugins/image_paths.rb:26 | The scanned pieces put back together are the input. |
| LegacyImagePaths.RootedSourcesUntouched | _plugins/image_paths.rb:34-41 | Without a CDN base, rooted sources are left alone. |
| LegacyImagePaths.RewriteWithoutImg | _plugins/image_paths.rb:14 | Output without `<img` is left alone. |
| LegacyImagePaths.RewritePieces | _plugins/image_paths.rb:26-48 | The gsub block over the pieces computes `PiecesOut`. |
| LegacyImagePaths.PostRender | _plugins/image_paths.rb:12-49 | `post.output` becomes `Rewrite` of its old value. |
| ImageSizing.NonEmptyOr | _plugins/image_sizing.rb:71-72 | An empty field is nil. |
| ImageSizing.ParseDimensions | _plugins/image_sizing.rb:68-78 | Without `x` the whole string is the width. |
| ImageSizing.ParseWidthHeight | _plugins/image_sizing.rb:69-73 | `WxH` gives width and height, each nil when empty. |
| ImageSizing.ParseIgnoresRest | _plugins/image_sizing.rb:70 | Fields after the second `x` are ignored. |
| ImageSizing.SizeMatchSound | _plugins/image_sizing.rb:47 | A sizing match is the text `![alt](src =dims)` with groups satisfying the pattern. |
| ImageSizing.SizeStep | _plugins/image_sizing.rb:47 | One gsub step consumes a sizing match or one character; what it consumes is a prefix of the text, and a consumed match has every group in its character class. |
| ImageSizing.SizeCutOfText | _plugins/image_sizing.rb:47 | Applied where a use of the syntax starts, the pattern stops each group where that use has it: the alt text at the first `]`, the source at the first whitespace, the spaces before `=`, the dimensions at the first `)`. |
| ImageSizing.SizeStepRecognizes | _plugins/image_sizing.rb:47-48 | Every captured use at the start of the text is consumed whole, as exactly that use (same alt text, source, spaces and dimensions). |
| ImageSizing.SizeScanOriginal | _plugins/image_sizing.rb:47-57 | The scanned pieces put back together are the input. |
| ImageSizing.SizeImages | _plugins/image_sizing.rb:47-57 | A part without sizing syntax is kept. |
| ImageSizing.SizeImagesUse | _plugins/image_sizing.rb:47-57 | A use of the syntax at the start of a part becomes `![alt](src)` followed by the size marker of its stripped dimensions, and the rewrite goes on with the rest of the part. |
| ImageSizing.TickParts | _plugins/image_sizing.rb:34 | Parts are non-empty runs of backticks or of other characters. |
| ImageSizing.TickPartsConcat | _plugins/image_sizing.rb:34 | The parts joined are the line. |
| ImageSizing.PartsOutsideCode | _plugins/image_sizing.rb:37-61 | When the parts outside inline code have no sizing syntax, the line is unchanged. |
| ImageSizing.LinesOutAt | _plugins/image_sizing.rb:22-31 | Each line is processed according to the fence state before it. |
| ImageSizing.FencedLinesUnchanged | _plugins/image_sizing.rb:24-30 | Fence lines and lines inside a fence are kept. |
| ImageSizing.OpenLinesRewritten | _plugins/image_sizing.rb:32-61 | Other lines are rewritten part by part. |
| ImageSizing.ProcessLine | _plugins/image_sizing.rb:34-61 | The inline-code loop computes `LineText`. |
| ImageSizing.ProcessLines | _plugins/image_sizing.rb:22-62 | The fence loop computes `LinesOut`. |
| ImageSizing.PreRendered | _plugins/image_sizing.rb:15 | Content without the sizing syntax is kept. |
| ImageSizing.PreRender | _plugins/image_sizing.rb:13-65 | `post.content` becomes `PreRendered` of its old value, and the output is unchanged. |
| ImageSizing.MarkCutAt | _plugins/image_sizing.rb:86 | A match of the post-render pattern has cut points that fit it. |
| ImageSizing.SizedSound | _plugins/image_sizing.rb:86-91 | The matched text is the image tag and marker, with groups satisfying the pattern. |
| ImageSizing.MarkStep | _plugins/image_sizing.rb:86 | One gsub step consumes a marked image or one character. |
| ImageSizing.MarkScanOriginal | _plugins/image_sizing.rb:86-106 | The scanned pieces put back together are the input. |
| ImageSizing.MarkCutOfText | _plugins/image_sizing.rb:86 | At a marked image, the pattern finds exactly that image's cut points. |
| ImageSizing.MarkStepRecognizes | _plugins/image_sizing.rb:86-91 | At a marked image, one step consumes exactly that image, with its own groups. |
| ImageSizing.MarkerConsumed | _plugins/image_sizing.rb:56 | The marker written before rendering is consumed after rendering. The tag is rebuilt with the recorded sizes, none for `auto`, and the paragraph tags are kept. |
| ImageSizing.PostRendered | _plugins/image_sizing.rb:82 | Output without a marker is kept. |
| ImageSizing.PostRender | _plugins/image_sizing.rb:80-107 | `post.output` becomes `PostRendered` of its old value, and the content is unchanged. |

## Left out

- Liquid parsing and evaluation (`Liquid::Expression`, the page context) are parameters. The evaluated URL and title and the page path are passed in.
- LinkCard.ResolveTitle: states only that a blank source gives no title. With a non-blank source, the result is whatever the Liquid evaluation parameter returns. The `rescue` fallback to `strip_outer_quotes` is covered by StripQuotesRoundTrip.
- The Wayback Machine CDX lookup and the SavePageNow submission are network calls. They are the parameters `lookup` and `submit`, and a raised error appears as `None`. User agent, timeouts and logging are left out.
- Random class, attribute and function names are a `Names` parameter. `SecureRandom` is not modelled.
- The CSS and JavaScript text of `get_css_js` is the `css`/`js` parameters. Only the script's ROT decoding is modelled (RotDecode).
- `ENV` values and site configuration are parameters: `ASSET_HOST`, `image_paths.base_url`, `LINKCARD_ARCHIVE`, `LINKCARD_ARCHIVE_SAVE` and the `href_decorator` and `jekyll-archives` sections.
- The href patterns of `href_decorator.rb` are user-supplied regular expressions. Matching them is the `matches` parameter, and an invalid regex is not modelled.
- Case-insensitive matching (`/i`) folds ASCII letters only. This covers the tag and attribute names of the tag scanner, the extension test of `image_path?` (00_image_paths.rb:67, ImagePaths.HasImageExtension) and the attribute-name test of `has_attribute?` (href_decorator.rb:131, HrefDecorator.HasAttribute and HasAttributeFixed).
- Hook, tag and generator registration, and logging, are left out.
- `define_singleton_method` in `garden_archives.rb` exposes the same hash as `site.data` and is not modelled.
- `Jekyll::Archives::Archive` is a record of term, type key and docs. Its page rendering is not modelled.
- GardenTerms.SortByTitle: Ruby's `sort_by` is not stable. The model inserts in order and proves sortedness and permutation, not any particular order of equal titles. The sort key `TitleKey` lower-cases ASCII letters only. Ruby's `downcase` also folds other Unicode letters, so the model sorts "Ärger" before "ähnlich" where Ruby puts "ähnlich" first.
- Front-matter values are strings, lists of strings or absent. Other types reach the source through `to_s` and are not modelled.
- `site.data` holds only the taxonomy hashes.
- ImageSizing.TickParts: Ruby's `split(/(`+)/)` gives an empty first field when a line starts with backticks. The model omits it, since an empty part is written unchanged and does not toggle the inline-code state.
- HrefDecorator.DecorateTagIdempotent: idempotence is proved per rewritten link match. A second scan of the whole output is not shown to find the same matches.
- ImageSizing.MarkerConsumed: needs the attributes not to start with whitespace and, without `</p>`, the following text not to start with `</p>`. The pattern's own `\s+` and `(<\/p>)?` would otherwise take a different split.
- `00_remote_theme_auth.rb` and `collection_dates.rb` are not part of this model.

## Findings

| source | as written | input that shows it | evidently intended | confidence | as-written member | corrected member |
|---|---|---|---|---|---|---|
| _plugins/href_decorator.rb:130-132 | `has_attribute?` looks for `name\s*=`, so a bare boolean attribute such as `download` is never seen as present | `<a href="/f.pdf" download>` with `download: true`: a second pass writes `download download` | a bare attribute counts as present, so rebuilding a decorated tag adds nothing | high (not executed) | HrefDecorator.DuplicatedBareAttribute | HrefDecorator.BareAttributeKept |
| _plugins/image_paths.rb:18,44 | `sub(/\/_posts\/.*$/, '')` needs a `/` before `_posts`, so a top-level post keeps its whole path | `_posts/x.md` with `dog.jpg` gives `/_posts/x.md/dog.jpg` | a post under `_posts/` resolves images at the site root (as `00_image_paths.rb` does) | high (not executed) | LegacyImagePaths.TopLevelPostKeepsFileName | ImagePaths.TopLevelPostAtRoot |
| _plugins/email_obfuscator.rb:61-62 | `split("@")` drops trailing empty fields, so a trailing `@` passes the two-field check | `a@b.c@` is rendered as the address `a@b.c` | an address with more than one `@` is rejected | high (not executed) | EmailObfuscator.TrailingAtAccepted | EmailObfuscator.SplitEmailStrict |
