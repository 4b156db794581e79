/**
 * The `<manifest>` of the package document: the navigation document, the
 * cover page, at most one cover image, then every listed content item.
 */
module Manifest {
  import opened Wrappers
  import opened Text
  import opened Sorting
  import opened Producer

  /** One `<item>` line; an empty `properties` list means the attribute is omitted. */
  datatype ManifestItem = ManifestItem(id: string, href: string, mediaType: string, properties: seq<string>)

  /** The id and file name of the navigation document, `bookname-toc.htmlext`. */
  function NavId(p: Params): string {
    p.bookname + "-toc." + p.htmlext
  }

  function NavItem(p: Params): ManifestItem {
    ManifestItem(NavId(p), NavId(p), "application/xhtml+xml", ["nav"])
  }

  function CoverPageItem(p: Params): ManifestItem {
    ManifestItem(p.bookname, p.cover, "application/xhtml+xml", [])
  }

  /** The two items every manifest starts with. */
  function Lead(p: Params): seq<ManifestItem> {
    [NavItem(p), CoverPageItem(p)]
  }

  // ------------------------------------------------------------ cover image

  /** An image whose file name, without directories, is the configured cover image. */
  predicate IsCoverImage(name: string, it: Item) {
    StartsWith(it.media, "image") && Basename(it.file) == name
  }

  /** The first cover image at or after index `k`. */
  function CoverFrom(name: string, items: seq<Item>, k: nat): (r: Option<nat>)
    requires k <= |items|
    ensures r.Some? ==> k <= r.value < |items| && IsCoverImage(name, items[r.value])
    ensures r.Some? ==> forall j :: k <= j < r.value ==> !IsCoverImage(name, items[j])
    ensures r.None? ==> forall j :: k <= j < |items| ==> !IsCoverImage(name, items[j])
    decreases |items| - k
  {
    if k == |items| then None
    else if IsCoverImage(name, items[k]) then Some(k)
    else CoverFrom(name, items, k + 1)
  }

  /** The index of the cover image, when `coverimage` is set and some item matches. */
  function Cover(p: Params, items: seq<Item>): Option<nat> {
    if p.coverimage.Some? then CoverFrom(p.coverimage.value, items, 0) else None
  }

  function CoverImageItem(it: Item): ManifestItem {
    ManifestItem("cover-" + IdText(it.id), it.file, it.media, ["cover-image"])
  }

  /** The cover-image item, if any. */
  function CoverItems(p: Params, items: seq<Item>): seq<ManifestItem> {
    match Cover(p, items)
    case Some(c) => [CoverImageItem(items[c])]
    case None => []
  }

  /** The items after the cover image's id has been cleared. */
  function Cleared(p: Params, items: seq<Item>): seq<Item> {
    match Cover(p, items)
    case Some(c) => items[c := items[c].(id := None)]
    case None => items
  }

  // ----------------------------------------------------------- general pass

  /** An item the general pass lists: not a subgroup (no `#` in its file) and with an id. */
  predicate Listed(it: Item) {
    !Contains(it.file, "#") && it.id.Some?
  }

  function GeneralItem(it: Item): ManifestItem
    requires it.id.Some?
  {
    ManifestItem(it.id.value, it.file, it.media, SortUniq(it.properties))
  }

  /** The general pass over the first `n` items. */
  function GeneralUpTo(items: seq<Item>, n: nat): seq<ManifestItem>
    requires n <= |items|
  {
    if n == 0 then []
    else GeneralUpTo(items, n - 1) + (if Listed(items[n - 1]) then [GeneralItem(items[n - 1])] else [])
  }

  function GeneralPass(items: seq<Item>): seq<ManifestItem> {
    GeneralUpTo(items, |items|)
  }

  /** The manifest for a content list, as the generator writes it. */
  function Manifest(p: Params, items: seq<Item>): seq<ManifestItem> {
    Lead(p) + CoverItems(p, items) + GeneralPass(Cleared(p, items))
  }

  // ------------------------------------------------------------ the loops

  /** The second loop: every listed item, in contents order. */
  method ListContents(contents: array<ContentItem>) returns (r: seq<ManifestItem>)
    ensures r == GeneralPass(Items(contents[..]))
  {
    ghost var items := Items(contents[..]);
    r := [];
    var j := 0;
    while j < contents.Length
      invariant 0 <= j <= contents.Length
      invariant r == GeneralUpTo(items, j)
    {
      var item := contents[j];
      if !Contains(item.file, "#") && item.id.Some? {
        r := r + [ManifestItem(item.id.value, item.file, item.media, SortUniq(item.properties))];
      }
      j := j + 1;
    }
  }

  /**
   * `opf_manifest`: the cover image, the first image whose file name is
   * `coverimage`, is listed with `properties="cover-image"` and its id is
   * then cleared in place, so that the general pass skips it. Every content
   * item that is the same object as the cover image loses its id; every
   * other item keeps it.
   */
  method OpfManifest(p: Params, contents: array<ContentItem>) returns (r: seq<ManifestItem>)
    modifies contents[..]
    ensures var c := Cover(p, old(Items(contents[..])));
      forall k :: 0 <= k < contents.Length ==>
        contents[k].id == (if c.Some? && contents[k] == contents[c.value] then None else old(contents[k].id))
    ensures r == Lead(p) + CoverItems(p, old(Items(contents[..]))) + GeneralPass(Items(contents[..]))
    ensures Distinct(contents[..]) ==> Items(contents[..]) == Cleared(p, old(Items(contents[..])))
    ensures Distinct(contents[..]) ==> r == Manifest(p, old(Items(contents[..])))
  {
    ghost var before := Items(contents[..]);
    ghost var found: Option<nat> := None;
    r := Lead(p);
    if p.coverimage.Some? {
      var name := p.coverimage.value;
      var i := 0;
      while i < contents.Length
        invariant 0 <= i <= contents.Length
        invariant CoverFrom(name, before, 0) == CoverFrom(name, before, i)
        invariant forall k :: 0 <= k < contents.Length ==> contents[k].id == old(contents[k].id)
        invariant r == Lead(p) && found.None?
      {
        var item := contents[i];
        if StartsWith(item.media, "image") && Basename(item.file) == name {
          assert IsCoverImage(name, before[i]);
          r := r + [CoverImageItem(item.Value())];
          item.id := None;
          found := Some(i);
          break;
        }
        i := i + 1;
      }
      assert found == Cover(p, before);
    }
    assert found == Cover(p, before);
    assert r == Lead(p) + CoverItems(p, before);
    var rest := ListContents(contents);
    r := r + rest;
    if Distinct(contents[..]) {
      var after := Items(contents[..]);
      forall k | 0 <= k < contents.Length ensures after[k] == Cleared(p, before)[k] {
        if found.Some? && k != found.value {
          assert contents[k] != contents[found.value];
        }
      }
    }
  }

  // ---------------------------------------------------------- properties

  lemma {:induction false} GeneralUpToPrefix(a: seq<Item>, b: seq<Item>, n: nat)
    requires n <= |a|
    ensures GeneralUpTo(a + b, n) == GeneralUpTo(a, n)
  {
    if n > 0 {
      GeneralUpToPrefix(a, b, n - 1);
      assert (a + b)[n - 1] == a[n - 1];
    }
  }

  lemma {:induction false} GeneralUpToSuffix(a: seq<Item>, b: seq<Item>, k: nat)
    requires k <= |b|
    ensures GeneralUpTo(a + b, |a| + k) == GeneralPass(a) + GeneralUpTo(b, k)
  {
    if k == 0 {
      GeneralUpToPrefix(a, b, |a|);
    } else {
      GeneralUpToSuffix(a, b, k - 1);
      assert (a + b)[|a| + k - 1] == b[k - 1];
    }
  }

  /** The general pass keeps contents order: it distributes over concatenation. */
  lemma GeneralPassAppend(a: seq<Item>, b: seq<Item>)
    ensures GeneralPass(a + b) == GeneralPass(a) + GeneralPass(b)
  {
    GeneralUpToSuffix(a, b, |b|);
  }

  lemma {:induction false} GeneralUpToMembers(items: seq<Item>, n: nat)
    requires n <= |items|
    ensures forall m :: m in GeneralUpTo(items, n) <==>
      exists k :: 0 <= k < n && Listed(items[k]) && m == GeneralItem(items[k])
  {
    if n > 0 {
      GeneralUpToMembers(items, n - 1);
    }
  }

  /**
   * The general pass lists exactly the items with an id whose file has no
   * `#`, with their id, file and media type. (Order and multiplicity
   * follow from `GeneralPassAppend`.)
   */
  lemma GeneralPassMembers(items: seq<Item>)
    ensures forall m :: m in GeneralPass(items) <==>
      exists k :: 0 <= k < |items| && Listed(items[k]) && m == GeneralItem(items[k])
  {
    GeneralUpToMembers(items, |items|);
  }

  /**
   * The `properties` of a listed item are its own, sorted, without
   * repetition; the attribute is omitted exactly when the item has none.
   */
  lemma GeneralItemProperties(it: Item)
    requires it.id.Some?
    ensures StrictlySorted(GeneralItem(it).properties)
    ensures forall q :: q in GeneralItem(it).properties <==> q in it.properties
    ensures GeneralItem(it).properties == [] <==> it.properties == []
  {
    if it.properties != [] {
      assert it.properties[0] in GeneralItem(it).properties;
    }
  }

  /**
   * The manifest opens with the navigation document (`properties="nav"`,
   * id and href `bookname-toc.htmlext`) and then the cover page.
   */
  lemma ManifestLeads(p: Params, items: seq<Item>)
    ensures |Manifest(p, items)| >= 2
    ensures Manifest(p, items)[0] == ManifestItem(NavId(p), NavId(p), "application/xhtml+xml", ["nav"])
    ensures Manifest(p, items)[1] == ManifestItem(p.bookname, p.cover, "application/xhtml+xml", [])
  {
  }

  /**
   * At most one cover-image item is written. There is one exactly when
   * `coverimage` is set and some image has that file name; it is then the
   * first such item, under the id `cover-<id>`.
   */
  lemma CoverChoice(p: Params, items: seq<Item>)
    ensures |CoverItems(p, items)| <= 1
    ensures CoverItems(p, items) != [] <==>
      p.coverimage.Some? && exists k :: 0 <= k < |items| && IsCoverImage(p.coverimage.value, items[k])
    ensures forall c ::
      (0 <= c < |items| && p.coverimage.Some? && IsCoverImage(p.coverimage.value, items[c]) &&
       (forall j :: 0 <= j < c ==> !IsCoverImage(p.coverimage.value, items[j]))) ==>
      CoverItems(p, items) == [ManifestItem("cover-" + IdText(items[c].id), items[c].file, items[c].media, ["cover-image"])]
  {
    forall c | 0 <= c < |items| && p.coverimage.Some? && IsCoverImage(p.coverimage.value, items[c]) &&
        (forall j :: 0 <= j < c ==> !IsCoverImage(p.coverimage.value, items[j]))
      ensures Cover(p, items) == Some(c)
    {
      var r := CoverFrom(p.coverimage.value, items, 0);
    }
  }

  /**
   * The cover image is never listed twice: once its id is cleared the
   * general pass is the one over the other items, in order.
   */
  lemma CoverSkipped(p: Params, items: seq<Item>, c: nat)
    requires Cover(p, items) == Some(c)
    ensures c < |items| && CoverItems(p, items) == [CoverImageItem(items[c])]
    ensures GeneralPass(Cleared(p, items)) == GeneralPass(items[..c] + items[c + 1..])
  {
    var cleared := items[c].(id := None);
    assert Cleared(p, items) == items[..c] + [cleared] + items[c + 1..];
    GeneralPassAppend(items[..c] + [cleared], items[c + 1..]);
    GeneralPassAppend(items[..c], [cleared]);
    GeneralPassAppend(items[..c], items[c + 1..]);
    assert GeneralPass([cleared]) == [] by {
      assert !Listed(cleared) && GeneralUpTo([cleared], 0) == [];
    }
  }
}
