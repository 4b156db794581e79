# EPUB 3 package document generator

A Dafny model of the EPUB 3 producer `EPUBMaker::EPUBv3`
(`lib/epubmaker/epubv3.rb`), limited to the part that builds the Package
Document (`.opf`):

- **`opf_metainfo`**: the `<metadata>` lines. It covers the eleven Dublin
  Core fields, the `dcterms:modified` meta, the `BookId` identifier, the
  relator-coded creators (`a-…`, `aut`) and contributors, the publisher
  copies of `prt`/`pbl` contributors, and the free-form `opf_meta` pairs.
  A value may be a string, an array of strings or hashes, or a hash with
  `name`. Every other key of a hash becomes a `<meta refines="#id">`.
- **`opf_manifest`**: the navigation document, the cover page, at most one
  `cover-image` item, then every content item that has an id and is not a
  subgroup. Each item's `properties` are sorted and deduplicated. The cover
  image's `id` is cleared on the shared content item, in place.
- **`opf_tocx`**: the `<spine>`. It holds the cover page (`linear` from
  `cover_linear`), then every XHTML item in order. When `toc` is on, the
  table of contents goes once, right before the first XHTML item that is
  not front matter (`chaptype` `pre`).
- **`opf`**: the order of the three steps, and the `prefix="k: v …"`
  attribute of `<package>`.

Layout:
- `producer.dfy` holds the inputs: `Params`, the loosely typed `Value` and
  `Entry`, and the `ContentItem` class. Its `id` is a mutable field.
- `text.dfy` holds `CGI.escapeHTML`, `Integer#to_s`, `String#sub`,
  `File.basename` and substring tests.
- `sorting.dfy` holds `sort.uniq` on strings.
- `metainfo.dfy`, `manifest.dfy`, `spine.dfy` and `package.dfy` hold the
  four steps.
- `metainfo_facts.dfy` holds the properties of the metadata.

Each generator loop is a `method` with a `while` loop. Each is proved equal
to a specification function that states the output line by line. The
lemmas then state what that output means: which elements appear, with
which ids, in which order, and how often.

Output lines are structured records, not text:
- `MetaLine.Dc(tag, id, text)` and `MetaLine.Meta(refines, property, scheme, text)`;
- `ManifestItem(id, href, media, properties)`;
- `SpineRef`.

A Ruby exception raised by `opf_metainfo` is the outcome `Raised`. This
happens when `CGI.escapeHTML(nil)` meets a hash without `name`, or when a
role value is a string or a non-empty hash (an empty hash yields nothing).
The code raises a plain `TypeError` or `NoMethodError` that does not name
the field; the model has the single outcome `Raised`.

## Model

| member | source | states |
|---|---|---|
| Metainfo.OpfMetainfo | lib/epubmaker/epubv3.rb:40-130 | The method returns exactly the specified metadata lines. It raises exactly when some field or role value cannot be emitted (`MetaValid` fails). |
| Metainfo.EmitBib | lib/epubmaker/epubv3.rb:42-65 | The loop over the eleven bibliographic fields succeeds exactly when every present field is acceptable. It then yields the fields' lines in the fixed field order. |
| Metainfo.EmitField | lib/epubmaker/epubv3.rb:43-64 | One field raises exactly when it is a hash without `name` or a list holding such a hash. Otherwise it yields that field's lines. |
| Metainfo.EmitList | lib/epubmaker/epubv3.rb:44-55 | An array field succeeds exactly when every entry is acceptable. It then yields the entries' blocks in index order. |
| Metainfo.EmitBibEntry | lib/epubmaker/epubv3.rb:45-54 | One array entry raises exactly when it is a hash without `name`. |
| Metainfo.EmitRefinements | lib/epubmaker/epubv3.rb:48-51 | The `each_pair` loop yields the refining metas of a hash. |
| Metainfo.EntriesOkAll | lib/epubmaker/epubv3.rb:45-47 | An array is emitted without raising if and only if every one of its entries is. |
| Metainfo.EntriesOkBad | lib/epubmaker/epubv3.rb:45-47 | One bad entry makes the whole array raise, whatever follows it. |
| Metainfo.KeysOkAll | lib/epubmaker/epubv3.rb:42-43 | A key loop completes if and only if every present key holds an acceptable value. |
| Metainfo.KeysOkBad | lib/epubmaker/epubv3.rb:77-79 | One bad role value makes the whole loop raise. |
| Metainfo.EmitRoles | lib/epubmaker/epubv3.rb:77-92 | The loop over the role codes succeeds exactly when every present role value is an array (or an empty hash) of acceptable entries. It then yields the roles' lines in code order. |
| Metainfo.EmitRole | lib/epubmaker/epubv3.rb:78-79 | A role value raises exactly when it is a string, a non-empty hash, or an array with a hash lacking `name`. |
| Metainfo.EmitRoleList | lib/epubmaker/epubv3.rb:97-123 | An array under one role succeeds exactly when every entry is acceptable. It then yields the entries' blocks in index order. |
| Metainfo.EmitRoleEntry | lib/epubmaker/epubv3.rb:98-122 | One creator or contributor entry raises exactly when it is a hash without `name`. |
| Metainfo.EmitCustom | lib/epubmaker/epubv3.rb:127 | Each `opf_meta` pair becomes one unrefined meta, in the caller's order. |
| MetainfoFacts.BibListElements | lib/epubmaker/epubv3.rb:44-55 | An array field of N entries yields exactly N `dc:<item>` elements. Element i has id `item-i` and holds the escaped text, or the name of a hash. |
| MetainfoFacts.SingleFieldElement | lib/epubmaker/epubv3.rb:56-64 | A field that is not an array yields exactly one element, whose id is the field name itself. |
| MetainfoFacts.RefinementsAreExtras | lib/epubmaker/epubv3.rb:48-51 | The refining metas of a hash are its keys other than `name`, in key order, each with its escaped value. `name` never becomes a meta. |
| MetainfoFacts.RefinementsTarget | lib/epubmaker/epubv3.rb:58-61 | Every refining meta refines the given element id. None is an element. |
| MetainfoFacts.IndexedIdInjective | lib/epubmaker/epubv3.rb:47 | Entries at different indices under one key get different ids. |
| MetainfoFacts.CreatorEntryShape | lib/epubmaker/epubv3.rb:80-90 | A creator at index i under role r is a `dc:creator` with id `r-i`. It is immediately followed by its `marc:relators` role meta, whose value is r without `a-`. The extras of a hash refine `RelatorOf(r)-i`. |
| MetainfoFacts.CreatorExtraRefinesRelatorId | lib/epubmaker/epubv3.rb:83-86 | On an `a-edt` creator with a `file-as` key, the extra meta refines `edt-0`. The element itself is `a-edt-0`. |
| MetainfoFacts.PublisherShape | lib/epubmaker/epubv3.rb:110-122 | The publisher copy is a `dc:publisher` with id `pub-r-i`, followed by its role meta. That meta is r for a hash and `prt` otherwise. The extras of a hash refine `pub-r-i`. |
| MetainfoFacts.ContributorEntryShape | lib/epubmaker/epubv3.rb:97-122 | A contributor is a `dc:contributor` with id `r-i` and role meta r, refined by its extras. Under `prt` or `pbl` a publisher copy with the same text follows. No other role yields a publisher. |
| MetainfoFacts.ContributorEntryElements | lib/epubmaker/epubv3.rb:97-122 | Every element of one contributor is immediately followed by its role meta. The elements are the contributor and, only under `prt` or `pbl`, its publisher copy. |
| MetainfoFacts.PlainPublisherIsPrinter | lib/epubmaker/epubv3.rb:118-121 | A plain-text `pbl` contributor's `dc:publisher` carries the role `prt`. |
| MetainfoFacts.PublisherIdDistinct | lib/epubmaker/epubv3.rb:112 | A publisher id never equals a contributor id of its role. Different indices give different publisher ids. |
| MetainfoFacts.EntryShape | lib/epubmaker/epubv3.rb:79-123 | The elements of one entry are itself, plus a publisher copy for a `prt` or `pbl` contributor. |
| MetainfoFacts.RoleListElements | lib/epubmaker/epubv3.rb:77-92 | The N entries of a creator role, or of a contributor role other than `prt`/`pbl`, yield exactly N elements. Element i has id `role-i` and holds the entry's escaped text. |
| MetainfoFacts.PublisherListElements | lib/epubmaker/epubv3.rb:95-124 | The N entries of `prt` or `pbl` yield exactly 2N elements. For each entry, a contributor `role-i` is followed by a publisher `pub-role-i` with the same text. |
| MetainfoFacts.RoleListAnnotated | lib/epubmaker/epubv3.rb:79-91 | Among the lines of one role, every element is immediately followed by the role meta that refines it. |
| MetainfoFacts.RolesAnnotated | lib/epubmaker/epubv3.rb:77-124 | Across all creator or contributor roles, every element is immediately followed by its role meta. |
| MetainfoFacts.ModifiedCount | lib/epubmaker/epubv3.rb:67 | The unrefined `dcterms:modified` meta comes right after the bibliographic fields. It occurs once, plus once per `opf_meta` pair with that key. |
| MetainfoFacts.ModifiedOnce | lib/epubmaker/epubv3.rb:67 | Without a `dcterms:modified` key in `opf_meta`, exactly one such meta is emitted. |
| MetainfoFacts.IdentifierOnce | lib/epubmaker/epubv3.rb:69-74 | Exactly one element has id `BookId`: the identifier right after the modification date. It holds the ISBN when there is one and the URN otherwise. |
| MetainfoFacts.CustomMetasCounts | lib/epubmaker/epubv3.rb:127 | The free-form metas add one `dcterms:modified` per pair with that key, and never an identifier. |
| Manifest.OpfManifest | lib/epubmaker/epubv3.rb:132-160 | The method writes the two leading items, the cover-image item, then the general pass over the updated contents. It clears the id of exactly the objects that are the chosen cover image, and no other. With no repeated object, the result is the manifest of the original items, and the new items are the originals with the cover's id cleared. |
| Manifest.ListContents | lib/epubmaker/epubv3.rb:149-156 | The second loop returns the general pass over the current contents. |
| Manifest.ManifestLeads | lib/epubmaker/epubv3.rb:134-138 | The manifest opens with the navigation item (`properties="nav"`, id and href `bookname-toc.htmlext`), then the cover page item. |
| Manifest.CoverFrom | lib/epubmaker/epubv3.rb:141-142 | The search finds the first image whose file basename is `coverimage`, or reports that none exists. |
| Manifest.CoverChoice | lib/epubmaker/epubv3.rb:140-147 | At most one cover-image item is written. One exists exactly when `coverimage` is set and some image matches. It is then the first match, with id `cover-<id>`. |
| Manifest.CoverSkipped | lib/epubmaker/epubv3.rb:143-150 | Once the cover image's id is cleared, the general pass equals the pass over the other items, so the cover is never listed twice. |
| Manifest.GeneralPassMembers | lib/epubmaker/epubv3.rb:149-156 | The general pass lists exactly the items that have an id and no `#` in their file, with their id, file and media type. |
| Manifest.GeneralPassAppend | lib/epubmaker/epubv3.rb:149 | The general pass keeps contents order: it distributes over concatenation. |
| Manifest.GeneralItemProperties | lib/epubmaker/epubv3.rb:152-154 | A listed item's properties are its own, strictly sorted and without repeats. The attribute is empty exactly when the item has none. |
| Sorting.SortUniq | lib/epubmaker/epubv3.rb:153 | `sort.uniq` gives a strictly ascending list with the same members. |
| Sorting.SortedUnique | lib/epubmaker/epubv3.rb:153 | Two strictly sorted lists with the same members are equal, so `sort.uniq` has only one possible result. |
| Text.BasenameOfPath | lib/epubmaker/epubv3.rb:142 | The basename of `dir/name` is `name`, for any directory part and any non-empty name without `/`. |
| Text.EscapeRoundTrip | lib/epubmaker/epubv3.rb:47 | Unescaping an escaped text gives the text back. |
| Text.EscapeNoMarkup | lib/epubmaker/epubv3.rb:47 | Escaped text holds no `<`, `>`, `"` or `'`, so it cannot close a tag or an attribute. |
| Text.NatStrInjective | lib/epubmaker/epubv3.rb:47 | Different indices print differently, so `#{i}` in an id tells entries apart. |
| Spine.OpfTocx | lib/epubmaker/epubv3.rb:162-189 | The loop, which threads the `toc` flag, returns exactly the specified spine of the current contents. |
| Spine.XhtmlMediaType | lib/epubmaker/epubv3.rb:179 | An item of media type `application/xhtml+xml` passes the `/xhtml\+xml/` test. |
| Spine.TocPlaced | lib/epubmaker/epubv3.rb:177-183 | The loop's `toc` flag after n items is set if and only if some earlier item is an XHTML item that is not `pre`. |
| Spine.SpineShape | lib/epubmaker/epubv3.rb:163-185 | The spine keeps `direction`. It starts with the cover page, with `linear="yes"` only when `cover_linear` is set and not `no`. Then come exactly the XHTML items' references in contents order. The table of contents appears once, when enabled, right before the first non-`pre` XHTML item, and nowhere if there is none. |
| Spine.RefsMembers | lib/epubmaker/epubv3.rb:178-184 | A content reference is written exactly for each XHTML item, by its id. |
| Spine.RefsHead | lib/epubmaker/epubv3.rb:184 | The references from an XHTML item on start with that item's own reference. |
| Spine.RefsAreContent | lib/epubmaker/epubv3.rb:179-184 | Outside the cover and the table of contents, every reference is a content reference. |
| Package.PackageAttrs | lib/epubmaker/epubv3.rb:29-34 | The attribute is empty exactly when the prefix table is empty. Otherwise it is ` prefix="…"`. |
| Package.JoinSnoc | lib/epubmaker/epubv3.rb:32 | The pairs are joined in insertion order: appending a pair appends ` k: v`. |
| Package.TwoPrefixes | lib/epubmaker/epubv3.rb:31-34 | A two-entry table renders as ` prefix="a: u b: v"`. |
| Package.Opf | lib/epubmaker/epubv3.rb:25-34 | The steps run in the generator's order. Invalid metadata raises before any id changes. Otherwise exactly the objects that are the cover image lose their id, the manifest is the lead items, the cover item and the general pass over the updated contents, and the metadata, the spine of the updated contents and the prefix attribute are the specified ones. With no repeated object, the manifest is the one of the original items. |

## Left out

- The ERB templates (lines 36-37 and 207-208) are a foreign library. `opf` returns the pieces the template receives, not the final text.
- `ncx` (lines 191-209) is not modelled. It calls `hierarchy_ncx` when `flattoc` is nil and otherwise `flat_ncx` with `flattocindent`. Both live in `epubcommon`, which is not part of this model.
- `produce` (lines 214-222) covers file writes, the pre-pack hook and the ZIP export, which are I/O and external commands.
- The constructor `initialize` (lines 18-22) only copies `opf_prefix`. The model takes the table as given and assumes its keys are distinct, as a Ruby hash's are.
- Output is structured records. The XML text, the indentation and the `properties` attribute as one space-joined string are not produced.
- `CGI.escapeHTML` is the five-character replacement (`&`, `<`, `>`, `"`, `'`). Its type errors on non-string arguments are folded into `Raised`.
- Exceptions carry no class or message: all of them are `Raised`.
- Values are strings, arrays of strings or string-valued hashes. Integer, date or boolean YAML values, and non-string `cover_linear`, are not modelled.
- `nil` and `false` parameters are both absence (`None`, or a missing key). `params['epubmaker']` is assumed present.
- The modification date comes from `params['modified']` as written. It is an input here, not a clock reading.
- `File.basename` is modelled for `/` separators only.
- Validation of unknown role codes and duplicate ids is not modelled, since the code does not perform it.
- MetainfoFacts.ModifiedOnce: the promise of exactly one `dcterms:modified` holds only when `opf_meta` has no such key. The general count is stated by `MetainfoFacts.ModifiedCount`.
- Manifest.OpfManifest: equality with the value-level `Manifest` is stated only when no content object occurs twice. Otherwise the contract speaks of object identity.
- Package.Opf: the manifest's value-level form is stated only when no content object occurs twice; otherwise the contract speaks of object identity, as for `Manifest.OpfManifest`.
- `isbn: false` is not modelled: line 70 tests `.nil?`, so the code would write `false` as the `BookId` text, while `Metainfo.Identifier` treats every absent `isbn` as `None` and writes the URN.
