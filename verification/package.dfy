/**
 * The package document as a whole: the `prefix` attribute of `<package>`
 * and the three generated sections, produced in the generator's order.
 */
module Package {
  import opened Wrappers
  import opened Text
  import opened Producer
  import Metainfo
  import Manifest
  import Spine

  /** One `opf_prefix` pair as it appears in the attribute: `k: v`. */
  function PrefixPair(kv: (string, string)): string {
    kv.0 + ": " + kv.1
  }

  /** The pairs joined by single spaces, in the table's insertion order. */
  function JoinPrefixes(t: seq<(string, string)>): string {
    if t == [] then ""
    else if |t| == 1 then PrefixPair(t[0])
    else PrefixPair(t[0]) + " " + JoinPrefixes(t[1..])
  }

  /** The extra attribute text of `<package>`. */
  function PackageAttrs(t: seq<(string, string)>): (r: string)
    ensures r == "" <==> t == []
    ensures t != [] ==> StartsWith(r, " prefix=\"") && r[|r| - 1] == '"'
  {
    if |t| > 0 then " prefix=\"" + JoinPrefixes(t) + "\"" else ""
  }

  /** Adding a pair to a non-empty table appends it, after one space, at the end. */
  lemma {:induction false} JoinSnoc(t: seq<(string, string)>, kv: (string, string))
    requires t != []
    ensures JoinPrefixes(t + [kv]) == JoinPrefixes(t) + " " + PrefixPair(kv)
  {
    if |t| == 1 {
      assert (t + [kv])[1..] == [kv];
    } else {
      assert (t + [kv])[1..] == t[1..] + [kv];
      JoinSnoc(t[1..], kv);
    }
  }

  /** The attribute of a two-entry table, written out. */
  lemma TwoPrefixes()
    ensures PackageAttrs([("a", "u"), ("b", "v")]) == " prefix=\"a: u b: v\""
  {
    var t := [("a", "u"), ("b", "v")];
    assert t[1..] == [("b", "v")];
    assert JoinPrefixes(t[1..]) == "b: v";
    assert JoinPrefixes(t) == "a: u" + " " + "b: v";
  }

  /** What `opf` hands to its template. */
  datatype Package = Package(
    metadata: seq<Metainfo.MetaLine>,
    manifest: seq<Manifest.ManifestItem>,
    spine: Spine.SpineDoc,
    attrs: string)

  /**
   * `opf`: metadata, then manifest (which clears the cover image's id), then
   * spine over the updated contents, then the prefix attribute. Invalid
   * metadata raises before the manifest is built, leaving every id as it was.
   * Otherwise exactly the objects that are the cover image lose their id.
   */
  method Opf(p: Params, contents: array<ContentItem>) returns (r: Option<Package>)
    modifies contents[..]
    ensures r.None? <==> !Metainfo.MetaValid(p)
    ensures r.None? ==> forall k :: 0 <= k < contents.Length ==> contents[k].id == old(contents[k].id)
    ensures r.Some? ==> Metainfo.Metainfo(p) == Metainfo.Emitted(r.value.metadata)
    ensures r.Some? ==> r.value.spine == Spine.Spine(p, Items(contents[..]))
    ensures r.Some? ==> r.value.attrs == PackageAttrs(p.opfPrefix)
    ensures r.Some? ==> var c := Manifest.Cover(p, old(Items(contents[..])));
      forall k :: 0 <= k < contents.Length ==>
        contents[k].id == (if c.Some? && contents[k] == contents[c.value] then None else old(contents[k].id))
    ensures r.Some? ==>
      r.value.manifest == Manifest.Lead(p) + Manifest.CoverItems(p, old(Items(contents[..]))) + Manifest.GeneralPass(Items(contents[..]))
    ensures r.Some? && Distinct(contents[..]) ==>
      r.value.manifest == Manifest.Manifest(p, old(Items(contents[..]))) &&
      Items(contents[..]) == Manifest.Cleared(p, old(Items(contents[..])))
  {
    var meta := Metainfo.OpfMetainfo(p);
    if meta.Raised? {
      return None;
    }
    ghost var before := Items(contents[..]);
    var manifest := Manifest.OpfManifest(p, contents);
    ghost var after := Items(contents[..]);
    var spine := Spine.OpfTocx(p, contents);
    assert Items(contents[..]) == after;
    var attrs := "";
    if |p.opfPrefix| > 0 {
      attrs := attrs + " prefix=\"" + JoinPrefixes(p.opfPrefix) + "\"";
    }
    r := Some(Package(meta.lines, manifest, spine, attrs));
  }
}
