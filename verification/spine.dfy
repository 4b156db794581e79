/**
 * The `<spine>` of the package document: the cover page, then the XHTML
 * content items in order, with the table of contents placed once before the
 * first item that is not front matter.
 */
module Spine {
  import opened Wrappers
  import opened Text
  import opened Producer
  import Manifest

  /**
   * One `<itemref>` line. The three forms are written differently: the cover
   * page carries `linear`, the table of contents is written with a space
   * before `/>`, a content item is plain.
   */
  datatype SpineRef = CoverRef(idref: string, linear: string) | TocRef(idref: string) | ContentRef(idref: string)

  /** The spine: its optional `page-progression-direction` and its item references. */
  datatype SpineDoc = SpineDoc(direction: Option<string>, refs: seq<SpineRef>)

  /** `cover_linear` is truthy and not `no`. */
  function CoverLinear(p: Params): string {
    if p.coverLinear.Some? && p.coverLinear.value != "no" then "yes" else "no"
  }

  predicate IsXhtml(it: Item) {
    Contains(it.media, "xhtml+xml")
  }

  /** An item of the XHTML media type, the one the generator writes, is an XHTML item. */
  lemma XhtmlMediaType(it: Item)
    requires it.media == "application/xhtml+xml"
    ensures IsXhtml(it)
  {
    assert it.media[12..] == "xhtml+xml";
    ContainsAt(it.media, "xhtml+xml", 12);
  }

  /** An XHTML item that is not front matter: the table of contents goes before the first one. */
  predicate IsMain(it: Item) {
    IsXhtml(it) && it.chaptype != "pre"
  }

  /** Whether the first `n` items include a main XHTML item, i.e. the loop's `toc` flag after them. */
  function TocPlaced(items: seq<Item>, n: nat): (r: bool)
    requires n <= |items|
    ensures r <==> exists k :: 0 <= k < n && IsMain(items[k])
  {
    if n == 0 then false
    else
      var placed := TocPlaced(items, n - 1);
      assert placed ==> exists k :: 0 <= k < n && IsMain(items[k]);
      placed || IsMain(items[n - 1])
  }

  /** The table of contents reference, when `toc` is enabled. */
  function TocRefs(p: Params): seq<SpineRef> {
    if p.toc then [TocRef(Manifest.NavId(p))] else []
  }

  /** The references written for the first `n` items. */
  function BodyUpTo(p: Params, items: seq<Item>, n: nat): seq<SpineRef>
    requires n <= |items|
  {
    if n == 0 then []
    else
      var it := items[n - 1];
      BodyUpTo(p, items, n - 1) +
        (if IsXhtml(it) then
          (if !TocPlaced(items, n - 1) && it.chaptype != "pre" && p.toc then [TocRef(Manifest.NavId(p))] else []) +
          [ContentRef(IdText(it.id))]
         else [])
  }

  function Spine(p: Params, items: seq<Item>): SpineDoc {
    SpineDoc(p.direction, [CoverRef(p.bookname, CoverLinear(p))] + BodyUpTo(p, items, |items|))
  }

  /** `opf_tocx`: one pass over the content list threading the `toc` flag. */
  method OpfTocx(p: Params, contents: array<ContentItem>) returns (s: SpineDoc)
    ensures s == Spine(p, Items(contents[..]))
  {
    ghost var items := Items(contents[..]);
    var linear := if p.coverLinear.Some? && p.coverLinear.value != "no" then "yes" else "no";
    var refs := [CoverRef(p.bookname, linear)];
    var toc := false;
    var i := 0;
    while i < contents.Length
      invariant 0 <= i <= contents.Length
      invariant toc == TocPlaced(items, i)
      invariant refs == [CoverRef(p.bookname, linear)] + BodyUpTo(p, items, i)
    {
      var item := contents[i];
      if Contains(item.media, "xhtml+xml") {
        if !toc && item.chaptype != "pre" {
          if p.toc {
            refs := refs + [TocRef(p.bookname + "-toc." + p.htmlext)];
          }
          toc := true;
        }
        refs := refs + [ContentRef(IdText(item.id))];
      }
      i := i + 1;
    }
    s := SpineDoc(p.direction, refs);
  }

  // ---------------------------------------------------------- properties

  /** The content references of the XHTML items with index in `[lo, hi)`, in order. */
  function Refs(items: seq<Item>, lo: nat, hi: nat): seq<SpineRef>
    requires lo <= hi <= |items|
    decreases hi
  {
    if hi == lo then []
    else Refs(items, lo, hi - 1) + (if IsXhtml(items[hi - 1]) then [ContentRef(IdText(items[hi - 1].id))] else [])
  }

  lemma {:induction false} RefsSplit(items: seq<Item>, lo: nat, mid: nat, hi: nat)
    requires lo <= mid <= hi <= |items|
    ensures Refs(items, lo, hi) == Refs(items, lo, mid) + Refs(items, mid, hi)
    decreases hi
  {
    if hi > mid {
      RefsSplit(items, lo, mid, hi - 1);
    }
  }

  /**
   * Only XHTML items are referenced, each by its id, in contents order
   * (`Refs` splits at any index), and nothing else is.
   */
  lemma {:induction false} RefsMembers(items: seq<Item>, lo: nat, hi: nat)
    requires lo <= hi <= |items|
    ensures forall r :: r in Refs(items, lo, hi) <==>
      exists k :: lo <= k < hi && IsXhtml(items[k]) && r == ContentRef(IdText(items[k].id))
    decreases hi
  {
    if hi > lo {
      RefsMembers(items, lo, hi - 1);
    }
  }

  /** A range starting at an XHTML item starts with its reference. */
  lemma RefsHead(items: seq<Item>, lo: nat, hi: nat)
    requires lo < hi <= |items| && IsXhtml(items[lo])
    ensures Refs(items, lo, hi) != [] && Refs(items, lo, hi)[0] == ContentRef(IdText(items[lo].id))
  {
    RefsSplit(items, lo, lo + 1, hi);
    assert Refs(items, lo, lo + 1) == [ContentRef(IdText(items[lo].id))];
  }

  /** Before any main item there is no table of contents: only the XHTML items' references. */
  lemma {:induction false} BodyBeforeMain(p: Params, items: seq<Item>, n: nat)
    requires n <= |items|
    requires forall k :: 0 <= k < n ==> !IsMain(items[k])
    ensures BodyUpTo(p, items, n) == Refs(items, 0, n)
  {
    if n > 0 {
      BodyBeforeMain(p, items, n - 1);
    }
  }

  /** Appending the same tail to both sides of `prev == head + mid`. */
  lemma AppendBoth(next: seq<SpineRef>, prev: seq<SpineRef>, head: seq<SpineRef>, mid: seq<SpineRef>, midNext: seq<SpineRef>, tail: seq<SpineRef>)
    requires prev == head + mid && next == prev + tail && midNext == mid + tail
    ensures next == head + midNext
  {
  }

  /** At the first main item, the table of contents goes in before its reference. */
  lemma BodyAtMain(p: Params, items: seq<Item>, m: nat)
    requires m < |items|
    requires IsMain(items[m]) && forall k :: 0 <= k < m ==> !IsMain(items[k])
    ensures BodyUpTo(p, items, m + 1) ==
      Refs(items, 0, m) + TocRefs(p) + Refs(items, m, m + 1)
  {
    BodyBeforeMain(p, items, m);
    assert !TocPlaced(items, m);
    assert Refs(items, m, m + 1) == [ContentRef(IdText(items[m].id))];
  }

  /** Once the table of contents is placed, each item adds only its own reference. */
  lemma BodyAfterMain(p: Params, items: seq<Item>, n: nat)
    requires 0 < n <= |items| && TocPlaced(items, n - 1)
    ensures BodyUpTo(p, items, n) == BodyUpTo(p, items, n - 1) + Refs(items, n - 1, n)
  {
    assert Refs(items, n - 1, n - 1) == [];
  }

  /**
   * With `m` the first main item, the body is the references of the XHTML
   * items before it, then the table of contents when `toc` is enabled, then
   * the references from `m` on.
   */
  lemma {:induction false} BodyAroundMain(p: Params, items: seq<Item>, m: nat, n: nat)
    requires m < n <= |items|
    requires IsMain(items[m]) && forall k :: 0 <= k < m ==> !IsMain(items[k])
    ensures BodyUpTo(p, items, n) ==
      Refs(items, 0, m) + TocRefs(p) + Refs(items, m, n)
  {
    if n == m + 1 {
      BodyAtMain(p, items, m);
    } else {
      BodyAroundMain(p, items, m, n - 1);
      assert TocPlaced(items, n - 1) by {
        assert 0 <= m < n - 1 && IsMain(items[m]);
      }
      BodyAfterMain(p, items, n);
      RefsSplit(items, m, n - 1, n);
      AppendBoth(BodyUpTo(p, items, n), BodyUpTo(p, items, n - 1), Refs(items, 0, m) + TocRefs(p),
        Refs(items, m, n - 1), Refs(items, m, n), Refs(items, n - 1, n));
    }
  }

  /**
   * The spine's shape: the cover page first, `linear="yes"` only when
   * `cover_linear` is set and not `no`; then exactly the XHTML items'
   * references in contents order, with the table of contents inserted once,
   * when enabled, right before the first XHTML item that is not front
   * matter, and nowhere if there is none.
   */
  lemma SpineShape(p: Params, items: seq<Item>)
    ensures Spine(p, items).direction == p.direction
    ensures Spine(p, items).refs[0] ==
      CoverRef(p.bookname, if p.coverLinear.Some? && p.coverLinear.value != "no" then "yes" else "no")
    ensures (forall k :: 0 <= k < |items| ==> !IsMain(items[k])) ==>
      Spine(p, items).refs[1..] == Refs(items, 0, |items|)
    ensures forall m :: 0 <= m < |items| && IsMain(items[m]) && (forall k :: 0 <= k < m ==> !IsMain(items[k])) ==>
      Spine(p, items).refs[1..] ==
        Refs(items, 0, m) + TocRefs(p) + Refs(items, m, |items|)
  {
    var body := BodyUpTo(p, items, |items|);
    assert Spine(p, items).refs[1..] == body;
    if forall k :: 0 <= k < |items| ==> !IsMain(items[k]) {
      BodyBeforeMain(p, items, |items|);
    }
    forall m | 0 <= m < |items| && IsMain(items[m]) && (forall k :: 0 <= k < m ==> !IsMain(items[k]))
      ensures body == Refs(items, 0, m) + TocRefs(p) + Refs(items, m, |items|)
    {
      BodyAroundMain(p, items, m, |items|);
    }
  }

  /** The references written for a `Refs` range are all content references. */
  lemma RefsAreContent(items: seq<Item>, lo: nat, hi: nat)
    requires lo <= hi <= |items|
    ensures forall r :: r in Refs(items, lo, hi) ==> r.ContentRef?
  {
    RefsMembers(items, lo, hi);
  }
}
