/**
 * Properties of the metadata lines: which elements a field or a role yields
 * and with which ids, how refining metas attach to them, and which lines
 * occur exactly once.
 */
module MetainfoFacts {
  import opened Wrappers
  import opened Text
  import opened Producer
  import opened Metainfo

  // --------------------------------------------------------------- helpers

  /** The `dc:` element lines of `lines`, in order. */
  function Elements(lines: seq<MetaLine>): seq<MetaLine> {
    ElementsUpTo(lines, |lines|)
  }

  function ElementsUpTo(lines: seq<MetaLine>, n: nat): seq<MetaLine>
    requires n <= |lines|
  {
    if n == 0 then [] else ElementsUpTo(lines, n - 1) + (if lines[n - 1].Dc? then [lines[n - 1]] else [])
  }

  lemma {:induction false} ElementsUpToPrefix(a: seq<MetaLine>, b: seq<MetaLine>, n: nat)
    requires n <= |a|
    ensures ElementsUpTo(a + b, n) == ElementsUpTo(a, n)
  {
    if n > 0 {
      ElementsUpToPrefix(a, b, n - 1);
      assert (a + b)[n - 1] == a[n - 1];
    }
  }

  lemma {:induction false} ElementsUpToSuffix(a: seq<MetaLine>, b: seq<MetaLine>, k: nat)
    requires k <= |b|
    ensures ElementsUpTo(a + b, |a| + k) == Elements(a) + ElementsUpTo(b, k)
  {
    if k == 0 {
      ElementsUpToPrefix(a, b, |a|);
    } else {
      ElementsUpToSuffix(a, b, k - 1);
      assert (a + b)[|a| + k - 1] == b[k - 1];
    }
  }

  lemma ElementsAppend(a: seq<MetaLine>, b: seq<MetaLine>)
    ensures Elements(a + b) == Elements(a) + Elements(b)
  {
    ElementsUpToSuffix(a, b, |b|);
  }

  /** The blocks `bs[0]`, …, `bs[n-1]` one after the other. */
  function Concat(bs: seq<seq<MetaLine>>, n: nat): seq<MetaLine>
    requires n <= |bs|
  {
    if n == 0 then [] else Concat(bs, n - 1) + bs[n - 1]
  }

  /** The elements of a concatenation are the concatenated elements of its blocks. */
  lemma {:induction false} ElementsConcat(bs: seq<seq<MetaLine>>, ebs: seq<seq<MetaLine>>, n: nat)
    requires n <= |bs| == |ebs|
    requires forall k {:trigger bs[k]} :: 0 <= k < |bs| ==> Elements(bs[k]) == ebs[k]
    ensures Elements(Concat(bs, n)) == Concat(ebs, n)
  {
    if n > 0 {
      ElementsConcat(bs, ebs, n - 1);
      ElementsAppend(Concat(bs, n - 1), bs[n - 1]);
    }
  }

  /**
   * A sequence of prefixes, each the previous one plus the next block, ends in
   * the concatenation of the blocks.
   */
  lemma {:induction false} StepsConcat(pre: seq<seq<MetaLine>>, bs: seq<seq<MetaLine>>, n: nat)
    requires n < |pre| == |bs| + 1 && pre[0] == []
    requires forall k {:trigger bs[k]} :: 0 <= k < |bs| ==> pre[k + 1] == pre[k] + bs[k]
    ensures pre[n] == Concat(bs, n)
  {
    if n > 0 {
      StepsConcat(pre, bs, n - 1);
    }
  }

  /** One more block on a concatenation. */
  lemma ConcatNext(bs: seq<seq<MetaLine>>, n: nat, prev: seq<MetaLine>, block: seq<MetaLine>, next: seq<MetaLine>)
    requires 0 < n <= |bs|
    requires prev == Concat(bs, n - 1) && block == bs[n - 1] && next == prev + block
    ensures next == Concat(bs, n)
  {
  }

  /** Blocks of one line each concatenate to those lines, in order. */
  lemma {:induction false} ConcatSingles(bs: seq<seq<MetaLine>>, n: nat)
    requires n <= |bs|
    requires forall k {:trigger bs[k]} :: 0 <= k < |bs| ==> |bs[k]| == 1
    ensures |Concat(bs, n)| == n
    ensures forall k {:trigger bs[k]} :: 0 <= k < n ==> Concat(bs, n)[k] == bs[k][0]
  {
    if n > 0 {
      ConcatSingles(bs, n - 1);
      var prev := Concat(bs, n - 1);
      forall k | 0 <= k < n - 1 ensures Concat(bs, n)[k] == prev[k] { }
    }
  }

  /** Blocks of two lines each concatenate to those lines, pair after pair. */
  lemma {:induction false} ConcatPairs(bs: seq<seq<MetaLine>>, n: nat)
    requires n <= |bs|
    requires forall k {:trigger bs[k]} :: 0 <= k < |bs| ==> |bs[k]| == 2
    ensures |Concat(bs, n)| == 2 * n
    ensures forall k {:trigger bs[k]} :: 0 <= k < n ==> Concat(bs, n)[2 * k] == bs[k][0] && Concat(bs, n)[2 * k + 1] == bs[k][1]
  {
    if n > 0 {
      ConcatPairs(bs, n - 1);
      var prev := Concat(bs, n - 1);
      forall k | 0 <= k < n - 1 ensures Concat(bs, n)[2 * k] == prev[2 * k] && Concat(bs, n)[2 * k + 1] == prev[2 * k + 1] { }
    }
  }

  /** The hash pairs other than `name`, in key order. */
  function ExtraPairs(pairs: seq<(string, string)>): (r: seq<(string, string)>)
    ensures forall j :: 0 <= j < |r| ==> r[j].0 != "name" && r[j] in pairs
    ensures forall kv :: kv in pairs && kv.0 != "name" ==> kv in r
    decreases |pairs|
  {
    if pairs == [] then []
    else
      var rest := ExtraPairs(pairs[1..]);
      assert forall kv :: kv in pairs ==> kv == pairs[0] || kv in pairs[1..];
      (if pairs[0].0 == "name" then [] else [pairs[0]]) + rest
  }

  lemma {:induction false} ExtraPairsAppend(a: seq<(string, string)>, b: seq<(string, string)>)
    ensures ExtraPairs(a + b) == ExtraPairs(a) + ExtraPairs(b)
    decreases |a|
  {
    if a == [] {
      assert a + b == b;
    } else {
      assert (a + b)[0] == a[0] && (a + b)[1..] == a[1..] + b;
      ExtraPairsAppend(a[1..], b);
    }
  }

  // ---------------------------------------------------------- refinements

  /**
   * A hash contributes one refining meta per key other than `name`, in key
   * order, each refining `target`; `name` never becomes a meta.
   */
  lemma {:induction false} RefinementsAreExtras(target: string, pairs: seq<(string, string)>)
    ensures |Refinements(target, pairs)| == |ExtraPairs(pairs)|
    ensures forall j :: 0 <= j < |ExtraPairs(pairs)| ==>
      Refinements(target, pairs)[j] == Meta(Some(target), ExtraPairs(pairs)[j].0, None, Escape(ExtraPairs(pairs)[j].1))
    decreases |pairs|
  {
    if pairs != [] {
      var init, last := pairs[..|pairs| - 1], pairs[|pairs| - 1];
      RefinementsAreExtras(target, init);
      assert pairs == init + [last];
      ExtraPairsAppend(init, [last]);
      assert ExtraPairs([last]) == (if last.0 == "name" then [] else [last]) by {
        assert [last][1..] == [];
      }
    }
  }

  /** Every line of a block of refinements is a meta refining `target`. */
  lemma RefinementsTarget(target: string, pairs: seq<(string, string)>)
    ensures forall j :: 0 <= j < |Refinements(target, pairs)| ==>
      Refinements(target, pairs)[j].Meta? && Refinements(target, pairs)[j].target == Some(target) &&
      Refinements(target, pairs)[j].scheme == None && Refinements(target, pairs)[j].property != "name"
  {
    RefinementsAreExtras(target, pairs);
  }

  lemma {:induction false} NoElementsUpTo(lines: seq<MetaLine>, n: nat)
    requires n <= |lines|
    requires forall j :: 0 <= j < |lines| ==> lines[j].Meta?
    ensures ElementsUpTo(lines, n) == []
  {
    if n > 0 {
      NoElementsUpTo(lines, n - 1);
    }
  }

  lemma NoElements(lines: seq<MetaLine>)
    requires forall j :: 0 <= j < |lines| ==> lines[j].Meta?
    ensures Elements(lines) == []
  {
    NoElementsUpTo(lines, |lines|);
  }

  lemma RefinementsNoElements(target: string, pairs: seq<(string, string)>)
    ensures Elements(Refinements(target, pairs)) == []
  {
    RefinementsTarget(target, pairs);
    NoElements(Refinements(target, pairs));
  }

  // ------------------------------------------------------------------ ids

  /** Distinct indices give distinct ids. */
  lemma IndexedIdInjective(key: string, i: nat, j: nat)
    requires IndexedId(key, i) == IndexedId(key, j)
    ensures i == j
  {
    assert IndexedId(key, i)[|key| + 1..] == NatStr(i);
    assert IndexedId(key, j)[|key| + 1..] == NatStr(j);
    NatStrInjective(i, j);
  }

  /** A publisher copy never shares an id with a contributor of its role, nor with another copy. */
  lemma PublisherIdDistinct(role: string, i: nat, j: nat)
    requires AlsoPublisher(role)
    ensures PublisherId(role, i) != IndexedId(role, j)
    ensures PublisherId(role, i) == PublisherId(role, j) ==> i == j
  {
    assert PublisherId(role, i)[1] == 'u';
    assert IndexedId(role, j)[1] == role[1];
    if PublisherId(role, i) == PublisherId(role, j) {
      assert PublisherId(role, i)[4..] == IndexedId(role, i);
      assert PublisherId(role, j)[4..] == IndexedId(role, j);
      IndexedIdInjective(role, i, j);
    }
  }

  // ----------------------------------------------------- bibliographic fields

  /** The one element an entry of a list-shaped field yields. */
  lemma BibEntryElements(item: string, i: nat, e: Entry)
    ensures Elements(BibEntryLines(item, i, e)) == [Dc(item, IndexedId(item, i), Escape(EntryText(e)))]
  {
    var id := IndexedId(item, i);
    var head := Dc(item, id, Escape(EntryText(e)));
    assert Elements([head]) == [head] by { assert ElementsUpTo([head], 0) == []; }
    if e.Keyed? {
      ElementsAppend([head], Refinements(id, e.pairs));
      RefinementsNoElements(id, e.pairs);
    }
  }

  /** The lines of a list-shaped field are the blocks of its entries, in order. */
  lemma {:induction false} BibListConcat(item: string, es: seq<Entry>, bs: seq<seq<MetaLine>>, n: nat)
    requires n <= |es| == |bs|
    requires forall k {:trigger bs[k]} :: 0 <= k < |es| ==> bs[k] == BibEntryLines(item, k, es[k])
    ensures BibListLines(item, es, n) == Concat(bs, n)
  {
    if n > 0 {
      BibListConcat(item, es, bs, n - 1);
      BibListNext(item, es, n - 1);
      ConcatNext(bs, n, BibListLines(item, es, n - 1), BibEntryLines(item, n - 1, es[n - 1]), BibListLines(item, es, n));
    }
  }

  /**
   * A list-shaped field of N entries yields exactly N elements, with ids
   * `item-0` … `item-(N-1)` in order, each holding the escaped text or name.
   */
  lemma BibListElements(item: string, es: seq<Entry>)
    ensures |Elements(FieldLines(item, List(es)))| == |es|
    ensures forall i {:trigger Elements(FieldLines(item, List(es)))[i]} :: 0 <= i < |es| ==>
      Elements(FieldLines(item, List(es)))[i] == Dc(item, IndexedId(item, i), Escape(EntryText(es[i])))
  {
    var bs := seq(|es|, k requires 0 <= k < |es| => BibEntryLines(item, k, es[k]));
    var ebs := seq(|es|, k requires 0 <= k < |es| => [Dc(item, IndexedId(item, k), Escape(EntryText(es[k])))]);
    forall k | 0 <= k < |es| ensures Elements(bs[k]) == ebs[k] {
      BibEntryElements(item, k, es[k]);
    }
    ElementsConcat(bs, ebs, |es|);
    BibListConcat(item, es, bs, |es|);
    ConcatSingles(ebs, |es|);
    var all := Elements(FieldLines(item, List(es)));
    assert all == Concat(ebs, |es|);
    forall i | 0 <= i < |es| ensures all[i] == Dc(item, IndexedId(item, i), Escape(EntryText(es[i]))) {
      assert all[i] == ebs[i][0];
    }
  }

  /** A field that is not a list yields one element whose id is the field name itself. */
  lemma SingleFieldElement(item: string, v: Value)
    requires !v.List?
    ensures Elements(FieldLines(item, v)) ==
      [Dc(item, item, Escape(if v.Scalar? then v.text else Name(v.pairs)))]
  {
    var head := Dc(item, item, Escape(if v.Scalar? then v.text else Name(v.pairs)));
    assert Elements([head]) == [head] by { assert ElementsUpTo([head], 0) == []; }
    if v.Record? {
      ElementsAppend([head], Refinements(item, v.pairs));
      RefinementsNoElements(item, v.pairs);
    }
  }

  // ------------------------------------------------------------------ roles

  /** A line is the `marc:relators` role meta of the element with id `id`. */
  predicate IsRoleMetaFor(line: MetaLine, id: string) {
    line.Meta? && line.target == Some(id) && line.property == "role" && line.scheme == Some("marc:relators")
  }

  /** Every element line is immediately followed by its role meta. */
  predicate RoleAnnotated(lines: seq<MetaLine>) {
    forall j :: 0 <= j < |lines| && lines[j].Dc? ==> j + 1 < |lines| && IsRoleMetaFor(lines[j + 1], lines[j].id)
  }

  lemma RoleAnnotatedAppend(a: seq<MetaLine>, b: seq<MetaLine>)
    requires RoleAnnotated(a) && RoleAnnotated(b)
    ensures RoleAnnotated(a + b)
  {
    var c := a + b;
    forall j | 0 <= j < |c| && c[j].Dc? ensures j + 1 < |c| && IsRoleMetaFor(c[j + 1], c[j].id) {
      if j >= |a| {
        assert c[j] == b[j - |a|] && c[j + 1] == b[j + 1 - |a|];
      } else {
        assert c[j + 1] == a[j + 1];
      }
    }
  }

  /** An element, its role meta, then metas only. */
  lemma HeadedBlock(head: MetaLine, role: MetaLine, rest: seq<MetaLine>)
    requires head.Dc? && IsRoleMetaFor(role, head.id)
    requires forall j :: 0 <= j < |rest| ==> rest[j].Meta?
    ensures RoleAnnotated([head, role] + rest)
    ensures Elements([head, role] + rest) == [head]
  {
    var tail := [role] + rest;
    var c := [head] + tail;
    assert c == [head, role] + rest;
    forall j | 0 <= j < |tail| ensures tail[j].Meta? {
      if j > 0 {
        assert tail[j] == rest[j - 1];
      }
    }
    NoElements(tail);
    ElementsAppend([head], tail);
    assert Elements([head]) == [head] by { assert ElementsUpTo([head], 0) == []; }
    forall j | 0 <= j < |c| && c[j].Dc? ensures j + 1 < |c| && IsRoleMetaFor(c[j + 1], c[j].id) {
    }
  }

  /**
   * A creator at index `i` under `role` is a `dc:creator` with id `role-i`,
   * immediately followed by its role meta holding `role` without `a-`; the
   * extra keys of a hash then refine `RelatorOf(role)-i`, which for an `a-`
   * role is not the element's id.
   */
  lemma CreatorEntryShape(role: string, i: nat, e: Entry)
    ensures var lines := CreatorEntryLines(role, i, e);
      |lines| >= 2 &&
      lines[0] == Dc("creator", IndexedId(role, i), Escape(EntryText(e))) &&
      lines[1] == RoleMeta(IndexedId(role, i), RelatorOf(role)) &&
      (forall j :: 2 <= j < |lines| ==>
        lines[j].Meta? && lines[j].target == Some(IndexedId(RelatorOf(role), i)) && lines[j].property != "name") &&
      RoleAnnotated(lines) && Elements(lines) == [lines[0]]
  {
    var id := IndexedId(role, i);
    var head, rm := Dc("creator", id, Escape(EntryText(e))), RoleMeta(id, RelatorOf(role));
    var rest := if e.Keyed? then Refinements(IndexedId(RelatorOf(role), i), e.pairs) else [];
    if e.Keyed? {
      RefinementsTarget(IndexedId(RelatorOf(role), i), e.pairs);
    }
    HeadedBlock(head, rm, rest);
    assert CreatorEntryLines(role, i, e) == [head, rm] + rest;
  }

  /** The ids in the editor example. */
  lemma EditorIds()
    ensures IndexedId("a-edt", 0) == "a-edt-0" && RelatorOf("a-edt") == "edt" && IndexedId("edt", 0) == "edt-0"
  {
    assert NatStr(0) == "0";
    assert StartsWith("a-edt", "a-");
  }

  /** The extras in the editor example. */
  lemma EditorRefinements()
    ensures Refinements("edt-0", [("name", "Ann"), ("file-as", "Lee")]) == [Meta(Some("edt-0"), "file-as", None, "Lee")]
  {
    var pairs := [("name", "Ann"), ("file-as", "Lee")];
    assert Escape("Lee") == "Lee" by { EscapePlain("Lee"); }
    assert pairs[..1] == [("name", "Ann")];
    assert pairs[..1][..0] == [];
    assert Refinements("edt-0", pairs[..1]) == [];
  }

  /** The quirk, shown on an editor with a `file-as` key: the extra refines `#edt-0`. */
  lemma CreatorExtraRefinesRelatorId()
    ensures CreatorEntryLines("a-edt", 0, Keyed([("name", "Ann"), ("file-as", "Lee")])) ==
      [Dc("creator", "a-edt-0", "Ann"), RoleMeta("a-edt-0", "edt"), Meta(Some("edt-0"), "file-as", None, "Lee")]
  {
    var pairs := [("name", "Ann"), ("file-as", "Lee")];
    EditorIds();
    EditorRefinements();
    assert Name(pairs) == "Ann" by {
      assert Lookup(pairs, "name") == Some("Ann");
    }
    assert Escape("Ann") == "Ann" by { EscapePlain("Ann"); }
  }

  /** The `dc:publisher` copy of a printer or publisher: element, then its role meta. */
  lemma PublisherShape(role: string, i: nat, e: Entry)
    ensures var lines := PublisherLines(role, i, e);
      |lines| >= 2 &&
      lines[0] == Dc("publisher", PublisherId(role, i), Escape(EntryText(e))) &&
      lines[1] == RoleMeta(PublisherId(role, i), if e.Keyed? then role else "prt") &&
      (forall j :: 2 <= j < |lines| ==> lines[j].Meta? && lines[j].target == Some(PublisherId(role, i))) &&
      RoleAnnotated(lines) && Elements(lines) == [lines[0]]
  {
    var id := PublisherId(role, i);
    var head, rm := Dc("publisher", id, Escape(EntryText(e))), RoleMeta(id, if e.Keyed? then role else "prt");
    var rest := if e.Keyed? then Refinements(id, e.pairs) else [];
    if e.Keyed? {
      RefinementsTarget(id, e.pairs);
    }
    HeadedBlock(head, rm, rest);
    assert PublisherLines(role, i, e) == [head, rm] + rest;
  }

  /** A contributor's own lines: its element, its role meta and its extras. */
  function ContributorOwn(role: string, i: nat, e: Entry): seq<MetaLine> {
    [Dc("contributor", IndexedId(role, i), Escape(EntryText(e))), RoleMeta(IndexedId(role, i), role)] +
      (if e.Keyed? then Refinements(IndexedId(role, i), e.pairs) else [])
  }

  lemma ContributorSplit(role: string, i: nat, e: Entry)
    ensures ContributorEntryLines(role, i, e) ==
      ContributorOwn(role, i, e) + (if AlsoPublisher(role) then PublisherLines(role, i, e) else [])
  {
  }

  /** A block `[head, rm] + rest` whose rest refines `target` throughout. */
  lemma RefiningBlock(head: MetaLine, rm: MetaLine, rest: seq<MetaLine>, target: string)
    requires forall j :: 0 <= j < |rest| ==> rest[j].Meta? && rest[j].target == Some(target)
    ensures var b := [head, rm] + rest;
      |b| == 2 + |rest| && b[0] == head && b[1] == rm &&
      forall j :: 2 <= j < |b| ==> b[j].Meta? && b[j].target == Some(target)
  {
    var b := [head, rm] + rest;
    forall j | 2 <= j < |b| ensures b[j] == rest[j - 2] { }
  }

  lemma ContributorOwnShape(role: string, i: nat, e: Entry)
    ensures var own := ContributorOwn(role, i, e);
      |own| == 2 + (if e.Keyed? then |ExtraPairs(e.pairs)| else 0) &&
      own[0] == Dc("contributor", IndexedId(role, i), Escape(EntryText(e))) &&
      own[1] == RoleMeta(IndexedId(role, i), role) &&
      (forall j :: 2 <= j < |own| ==> own[j].Meta? && own[j].target == Some(IndexedId(role, i)))
  {
    var id := IndexedId(role, i);
    var head, rm := Dc("contributor", id, Escape(EntryText(e))), RoleMeta(id, role);
    var rest := if e.Keyed? then Refinements(id, e.pairs) else [];
    if e.Keyed? {
      RefinementsTarget(id, e.pairs);
      RefinementsAreExtras(id, e.pairs);
    }
    RefiningBlock(head, rm, rest, id);
    assert ContributorOwn(role, i, e) == [head, rm] + rest;
  }

  /**
   * A contributor at index `i` under `role` is a `dc:contributor` with id
   * `role-i` and its role meta `role`, refined by its extra keys; under `prt`
   * or `pbl` a distinct `dc:publisher` follows with the same text, whose role
   * meta is `role` for a hash and always `prt` otherwise. No other role
   * yields a publisher.
   */
  lemma ContributorEntryShape(role: string, i: nat, e: Entry)
    ensures var lines := ContributorEntryLines(role, i, e);
      var own := 2 + (if e.Keyed? then |ExtraPairs(e.pairs)| else 0);
      own <= |lines| &&
      lines[0] == Dc("contributor", IndexedId(role, i), Escape(EntryText(e))) &&
      lines[1] == RoleMeta(IndexedId(role, i), role) &&
      (forall j :: 2 <= j < own ==> lines[j].Meta? && lines[j].target == Some(IndexedId(role, i))) &&
      (AlsoPublisher(role) ==> lines[own..] == PublisherLines(role, i, e)) &&
      (!AlsoPublisher(role) ==> |lines| == own)
  {
    var own := ContributorOwn(role, i, e);
    var pub := if AlsoPublisher(role) then PublisherLines(role, i, e) else [];
    ContributorSplit(role, i, e);
    ContributorOwnShape(role, i, e);
    assert forall j :: 0 <= j < |own| ==> (own + pub)[j] == own[j];
    assert (own + pub)[|own|..] == pub;
  }

  /**
   * Every element among a contributor's lines is followed by its role meta;
   * the elements are the contributor and, under `prt` or `pbl` only, its
   * publisher copy.
   */
  lemma ContributorEntryElements(role: string, i: nat, e: Entry)
    ensures RoleAnnotated(ContributorEntryLines(role, i, e))
    ensures Elements(ContributorEntryLines(role, i, e)) ==
      [Dc("contributor", IndexedId(role, i), Escape(EntryText(e)))] +
      (if AlsoPublisher(role) then [Dc("publisher", PublisherId(role, i), Escape(EntryText(e)))] else [])
  {
    var id := IndexedId(role, i);
    var head, rm := Dc("contributor", id, Escape(EntryText(e))), RoleMeta(id, role);
    var rest := if e.Keyed? then Refinements(id, e.pairs) else [];
    if e.Keyed? {
      RefinementsTarget(id, e.pairs);
    }
    HeadedBlock(head, rm, rest);
    var own := [head, rm] + rest;
    var pub := if AlsoPublisher(role) then PublisherLines(role, i, e) else [];
    assert ContributorEntryLines(role, i, e) == own + pub;
    if AlsoPublisher(role) {
      PublisherShape(role, i, e);
      RoleAnnotatedAppend(own, pub);
      ElementsAppend(own, pub);
    } else {
      assert own + pub == own;
    }
  }

  /** The quirk, shown on a plain publisher: its `dc:publisher` copy carries role `prt`. */
  lemma PlainPublisherIsPrinter()
    ensures ContributorEntryLines("pbl", 0, Plain("Ohm")) ==
      [Dc("contributor", "pbl-0", "Ohm"), RoleMeta("pbl-0", "pbl"),
       Dc("publisher", "pub-pbl-0", "Ohm"), RoleMeta("pub-pbl-0", "prt")]
  {
    assert NatStr(0) == "0";
    assert IndexedId("pbl", 0) == "pbl-0";
    assert PublisherId("pbl", 0) == "pub-pbl-0";
    assert Escape("Ohm") == "Ohm" by { EscapePlain("Ohm"); }
    assert AlsoPublisher("pbl");
    assert PublisherLines("pbl", 0, Plain("Ohm")) == [Dc("publisher", "pub-pbl-0", "Ohm"), RoleMeta("pub-pbl-0", "prt")];
  }

  lemma EntryAnnotated(kind: Kind, role: string, i: nat, e: Entry)
    ensures RoleAnnotated(EntryLines(kind, role, i, e))
  {
    if kind == Creator {
      CreatorEntryShape(role, i, e);
    } else {
      ContributorEntryElements(role, i, e);
    }
  }

  /** The element name of a creator or a contributor. */
  function ElementTag(kind: Kind): string {
    if kind == Creator then "creator" else "contributor"
  }

  /** The elements one entry under `role` should yield: itself, then a publisher copy for `prt` and `pbl` contributors. */
  function EntryElements(kind: Kind, role: string, i: nat, e: Entry): seq<MetaLine> {
    [Dc(ElementTag(kind), IndexedId(role, i), Escape(EntryText(e)))] +
      (if kind == Contributor && AlsoPublisher(role) then [Dc("publisher", PublisherId(role, i), Escape(EntryText(e)))] else [])
  }

  lemma EntryShape(kind: Kind, role: string, i: nat, e: Entry)
    ensures Elements(EntryLines(kind, role, i, e)) == EntryElements(kind, role, i, e)
  {
    if kind == Creator {
      CreatorEntryShape(role, i, e);
      assert EntryLines(kind, role, i, e) == CreatorEntryLines(role, i, e);
    } else {
      assert EntryLines(kind, role, i, e) == ContributorEntryLines(role, i, e);
      ContributorEntryElements(role, i, e);
    }
  }

  /** The lines under one role are the blocks of its entries, in order. */
  lemma RoleListConcat(kind: Kind, role: string, es: seq<Entry>, bs: seq<seq<MetaLine>>, n: nat)
    requires n <= |es| == |bs|
    requires forall k {:trigger bs[k]} :: 0 <= k < |es| ==> bs[k] == EntryLines(kind, role, k, es[k])
    ensures RoleListLines(kind, role, es, n) == Concat(bs, n)
  {
    var pre := seq(|es| + 1, k requires 0 <= k <= |es| => RoleListLines(kind, role, es, k));
    forall k | 0 <= k < |es| ensures pre[k + 1] == pre[k] + bs[k] {
      RoleListNext(kind, role, es, k);
    }
    StepsConcat(pre, bs, n);
  }

  /** The elements of the lines under one role are the ones its entries should yield, in order. */
  lemma RoleListElementsAre(kind: Kind, role: string, es: seq<Entry>, ebs: seq<seq<MetaLine>>)
    requires |ebs| == |es|
    requires forall k {:trigger ebs[k]} :: 0 <= k < |es| ==> ebs[k] == EntryElements(kind, role, k, es[k])
    ensures Elements(RoleListLines(kind, role, es, |es|)) == Concat(ebs, |es|)
  {
    var bs := seq(|es|, k requires 0 <= k < |es| => EntryLines(kind, role, k, es[k]));
    forall k | 0 <= k < |es| ensures Elements(bs[k]) == ebs[k] {
      EntryShape(kind, role, k, es[k]);
    }
    ElementsConcat(bs, ebs, |es|);
    RoleListConcat(kind, role, es, bs, |es|);
  }

  /**
   * The entries under a creator role, or a contributor role other than `prt`
   * and `pbl`, yield one element per entry, in order, with id `role-i`.
   */
  lemma RoleListElements(kind: Kind, role: string, es: seq<Entry>)
    requires kind == Creator || !AlsoPublisher(role)
    ensures |Elements(RoleListLines(kind, role, es, |es|))| == |es|
    ensures forall i {:trigger Elements(RoleListLines(kind, role, es, |es|))[i]} :: 0 <= i < |es| ==>
      Elements(RoleListLines(kind, role, es, |es|))[i] == Dc(ElementTag(kind), IndexedId(role, i), Escape(EntryText(es[i])))
  {
    var ebs := seq(|es|, k requires 0 <= k < |es| => [Dc(ElementTag(kind), IndexedId(role, k), Escape(EntryText(es[k])))]);
    forall k | 0 <= k < |es| ensures ebs[k] == EntryElements(kind, role, k, es[k]) { }
    RoleListElementsAre(kind, role, es, ebs);
    ConcatSingles(ebs, |es|);
    var all := Elements(RoleListLines(kind, role, es, |es|));
    forall i | 0 <= i < |es| ensures all[i] == Dc(ElementTag(kind), IndexedId(role, i), Escape(EntryText(es[i]))) {
      assert all[i] == ebs[i][0];
    }
  }

  /**
   * The entries under `prt` or `pbl` yield, per entry and in order, a
   * contributor with id `role-i` and right after it a publisher with id
   * `pub-role-i` and the same text.
   */
  lemma PublisherListElements(role: string, es: seq<Entry>)
    requires AlsoPublisher(role)
    ensures |Elements(RoleListLines(Contributor, role, es, |es|))| == 2 * |es|
    ensures forall i {:trigger es[i]} :: 0 <= i < |es| ==>
      Elements(RoleListLines(Contributor, role, es, |es|))[2 * i] == Dc("contributor", IndexedId(role, i), Escape(EntryText(es[i]))) &&
      Elements(RoleListLines(Contributor, role, es, |es|))[2 * i + 1] == Dc("publisher", PublisherId(role, i), Escape(EntryText(es[i])))
  {
    var ebs := seq(|es|, k requires 0 <= k < |es| =>
      [Dc("contributor", IndexedId(role, k), Escape(EntryText(es[k]))), Dc("publisher", PublisherId(role, k), Escape(EntryText(es[k])))]);
    forall k | 0 <= k < |es| ensures ebs[k] == EntryElements(Contributor, role, k, es[k]) { }
    RoleListElementsAre(Contributor, role, es, ebs);
    ConcatPairs(ebs, |es|);
    var all := Elements(RoleListLines(Contributor, role, es, |es|));
    forall i | 0 <= i < |es| ensures
      all[2 * i] == Dc("contributor", IndexedId(role, i), Escape(EntryText(es[i]))) &&
      all[2 * i + 1] == Dc("publisher", PublisherId(role, i), Escape(EntryText(es[i])))
    {
      assert all[2 * i] == ebs[i][0] && all[2 * i + 1] == ebs[i][1];
    }
  }

  /** Within the entries of one role, every element is immediately followed by its role meta. */
  lemma {:induction false} RoleListAnnotated(kind: Kind, role: string, es: seq<Entry>, n: nat)
    requires n <= |es|
    ensures RoleAnnotated(RoleListLines(kind, role, es, n))
  {
    if n > 0 {
      RoleListAnnotated(kind, role, es, n - 1);
      EntryAnnotated(kind, role, n - 1, es[n - 1]);
      RoleListNext(kind, role, es, n - 1);
      RoleAnnotatedAppend(RoleListLines(kind, role, es, n - 1), EntryLines(kind, role, n - 1, es[n - 1]));
    }
  }

  /** Across all creators, or all contributors, every element is followed by its role meta. */
  lemma {:induction false} RolesAnnotated(p: Params, kind: Kind, roles: seq<string>, n: nat)
    requires n <= |roles|
    ensures RoleAnnotated(RoleLines(p, kind, roles, n))
  {
    if n > 0 {
      RolesAnnotated(p, kind, roles, n - 1);
      var role := roles[n - 1];
      var more := if role in p.fields then RoleValueLines(kind, role, p.fields[role]) else [];
      if role in p.fields {
        var es := RoleEntries(p.fields[role]);
        RoleListAnnotated(kind, role, es, |es|);
      }
      RoleAnnotatedAppend(RoleLines(p, kind, roles, n - 1), more);
    }
  }

  // ------------------------------------------------------- once-only lines

  /** The unrefined `dcterms:modified` meta. */
  predicate IsModified(line: MetaLine) {
    line.Meta? && line.target.None? && line.property == "dcterms:modified"
  }

  /** The element with id `BookId`. */
  predicate IsBookId(line: MetaLine) {
    line.Dc? && line.id == "BookId"
  }

  /** How many of the first `n` lines satisfy `f`. */
  function CountUpTo(lines: seq<MetaLine>, n: nat, f: MetaLine -> bool): nat
    requires n <= |lines|
  {
    if n == 0 then 0 else CountUpTo(lines, n - 1, f) + (if f(lines[n - 1]) then 1 else 0)
  }

  function Count(lines: seq<MetaLine>, f: MetaLine -> bool): nat {
    CountUpTo(lines, |lines|, f)
  }

  lemma {:induction false} CountUpToPrefix(a: seq<MetaLine>, b: seq<MetaLine>, n: nat, f: MetaLine -> bool)
    requires n <= |a|
    ensures CountUpTo(a + b, n, f) == CountUpTo(a, n, f)
  {
    if n > 0 {
      CountUpToPrefix(a, b, n - 1, f);
      assert (a + b)[n - 1] == a[n - 1];
    }
  }

  lemma {:induction false} CountUpToSuffix(a: seq<MetaLine>, b: seq<MetaLine>, k: nat, f: MetaLine -> bool)
    requires k <= |b|
    ensures CountUpTo(a + b, |a| + k, f) == Count(a, f) + CountUpTo(b, k, f)
  {
    if k == 0 {
      CountUpToPrefix(a, b, |a|, f);
    } else {
      CountUpToSuffix(a, b, k - 1, f);
      assert (a + b)[|a| + k - 1] == b[k - 1];
    }
  }

  lemma CountAppend(a: seq<MetaLine>, b: seq<MetaLine>, f: MetaLine -> bool)
    ensures Count(a + b, f) == Count(a, f) + Count(b, f)
  {
    CountUpToSuffix(a, b, |b|, f);
  }

  /** Each line is an element with an id other than `BookId`, or a refining meta. */
  predicate Anchored(lines: seq<MetaLine>) {
    forall k :: 0 <= k < |lines| ==> (lines[k].Dc? && lines[k].id != "BookId") || (lines[k].Meta? && lines[k].target.Some?)
  }

  lemma {:induction false} AnchoredCountUpTo(lines: seq<MetaLine>, n: nat)
    requires n <= |lines| && Anchored(lines)
    ensures CountUpTo(lines, n, IsModified) == 0 && CountUpTo(lines, n, IsBookId) == 0
  {
    if n > 0 {
      AnchoredCountUpTo(lines, n - 1);
    }
  }

  /** Anchored lines hold neither the modification date nor the book identifier. */
  lemma AnchoredCounts(lines: seq<MetaLine>)
    requires Anchored(lines)
    ensures Count(lines, IsModified) == 0 && Count(lines, IsBookId) == 0
  {
    AnchoredCountUpTo(lines, |lines|);
  }

  lemma AnchoredAppend(a: seq<MetaLine>, b: seq<MetaLine>)
    requires Anchored(a) && Anchored(b)
    ensures Anchored(a + b)
  {
    forall k | |a| <= k < |a + b| ensures (a + b)[k] == b[k - |a|] { }
  }

  /** No indexed id is `BookId`: the ids the loops make all hold a `-`. */
  lemma IndexedIdNotBookId(key: string, i: nat)
    ensures IndexedId(key, i) != "BookId"
    ensures PublisherId(key, i) != "BookId"
  {
    var id := IndexedId(key, i);
    assert id[|key|] == '-';
    if |id| == 6 {
      assert "BookId"[|key|] != '-';
    }
    assert PublisherId(key, i)[0] == 'p';
  }

  lemma RefinementsAnchored(target: string, pairs: seq<(string, string)>)
    ensures Anchored(Refinements(target, pairs))
  {
    RefinementsTarget(target, pairs);
  }

  /** An element with its role meta, then refinements, is anchored when the element's id is not `BookId`. */
  lemma BlockAnchored(head: MetaLine, role: MetaLine, target: string, pairs: seq<(string, string)>)
    requires head.Dc? && head.id != "BookId"
    requires role.Meta? && role.target.Some?
    ensures Anchored([head, role] + Refinements(target, pairs))
    ensures Anchored([head, role])
  {
    RefinementsAnchored(target, pairs);
    AnchoredAppend([head, role], Refinements(target, pairs));
  }

  lemma FieldAnchored(item: string, v: Value)
    requires item != "BookId"
    ensures Anchored(FieldLines(item, v))
  {
    match v
    case List(es) => BibListAnchored(item, es, |es|);
    case Record(pairs) =>
      RefinementsAnchored(item, pairs);
      AnchoredAppend([Dc(item, item, Escape(Name(pairs)))], Refinements(item, pairs));
    case Scalar(t) =>
  }

  lemma BibEntryAnchored(item: string, i: nat, e: Entry)
    ensures Anchored(BibEntryLines(item, i, e))
  {
    var id := IndexedId(item, i);
    IndexedIdNotBookId(item, i);
    var head := Dc(item, id, Escape(EntryText(e)));
    if e.Keyed? {
      RefinementsAnchored(id, e.pairs);
      AnchoredAppend([head], Refinements(id, e.pairs));
    }
  }

  lemma {:induction false} BibListAnchored(item: string, es: seq<Entry>, n: nat)
    requires n <= |es|
    ensures Anchored(BibListLines(item, es, n))
  {
    if n > 0 {
      BibListAnchored(item, es, n - 1);
      BibEntryAnchored(item, n - 1, es[n - 1]);
      BibListNext(item, es, n - 1);
      AnchoredAppend(BibListLines(item, es, n - 1), BibEntryLines(item, n - 1, es[n - 1]));
    }
  }

  lemma {:induction false} BibLinesAnchored(p: Params, keys: seq<string>, n: nat)
    requires n <= |keys|
    requires forall k :: 0 <= k < |keys| ==> keys[k] != "BookId"
    ensures Anchored(BibLines(p, keys, n))
  {
    if n > 0 {
      BibLinesAnchored(p, keys, n - 1);
      var item := keys[n - 1];
      if item in p.fields {
        FieldAnchored(item, p.fields[item]);
        AnchoredAppend(BibLines(p, keys, n - 1), FieldLines(item, p.fields[item]));
      }
    }
  }

  lemma CreatorAnchored(role: string, i: nat, e: Entry)
    ensures Anchored(CreatorEntryLines(role, i, e))
  {
    IndexedIdNotBookId(role, i);
    var id := IndexedId(role, i);
    var head, rm := Dc("creator", id, Escape(EntryText(e))), RoleMeta(id, RelatorOf(role));
    BlockAnchored(head, rm, IndexedId(RelatorOf(role), i), if e.Keyed? then e.pairs else []);
  }

  lemma PublisherAnchored(role: string, i: nat, e: Entry)
    ensures Anchored(PublisherLines(role, i, e))
  {
    IndexedIdNotBookId(role, i);
    var id := PublisherId(role, i);
    var head, rm := Dc("publisher", id, Escape(EntryText(e))), RoleMeta(id, if e.Keyed? then role else "prt");
    BlockAnchored(head, rm, id, if e.Keyed? then e.pairs else []);
  }

  lemma ContributorAnchored(role: string, i: nat, e: Entry)
    ensures Anchored(ContributorEntryLines(role, i, e))
  {
    IndexedIdNotBookId(role, i);
    var id := IndexedId(role, i);
    var head, rm := Dc("contributor", id, Escape(EntryText(e))), RoleMeta(id, role);
    BlockAnchored(head, rm, id, if e.Keyed? then e.pairs else []);
    var own := if e.Keyed? then [head, rm] + Refinements(id, e.pairs) else [head, rm];
    if AlsoPublisher(role) {
      PublisherAnchored(role, i, e);
      AnchoredAppend(own, PublisherLines(role, i, e));
    } else {
      assert own + [] == own;
    }
  }

  lemma EntryAnchored(kind: Kind, role: string, i: nat, e: Entry)
    ensures Anchored(EntryLines(kind, role, i, e))
  {
    if kind == Creator {
      CreatorAnchored(role, i, e);
    } else {
      ContributorAnchored(role, i, e);
    }
  }

  lemma {:induction false} RoleListAnchored(kind: Kind, role: string, es: seq<Entry>, n: nat)
    requires n <= |es|
    ensures Anchored(RoleListLines(kind, role, es, n))
  {
    if n > 0 {
      RoleListAnchored(kind, role, es, n - 1);
      EntryAnchored(kind, role, n - 1, es[n - 1]);
      RoleListNext(kind, role, es, n - 1);
      AnchoredAppend(RoleListLines(kind, role, es, n - 1), EntryLines(kind, role, n - 1, es[n - 1]));
    }
  }

  lemma {:induction false} RoleLinesAnchored(p: Params, kind: Kind, roles: seq<string>, n: nat)
    requires n <= |roles|
    ensures Anchored(RoleLines(p, kind, roles, n))
  {
    if n > 0 {
      RoleLinesAnchored(p, kind, roles, n - 1);
      var role := roles[n - 1];
      if role in p.fields {
        var es := RoleEntries(p.fields[role]);
        RoleListAnchored(kind, role, es, |es|);
        AnchoredAppend(RoleLines(p, kind, roles, n - 1), RoleValueLines(kind, role, p.fields[role]));
      }
    }
  }

  /** How many `opf_meta` pairs have the key `key`. */
  function KeyCount(pairs: seq<(string, string)>, key: string): nat
    decreases |pairs|
  {
    if pairs == [] then 0
    else KeyCount(pairs[..|pairs| - 1], key) + (if pairs[|pairs| - 1].0 == key then 1 else 0)
  }

  /** The free-form metas add one unrefined `dcterms:modified` per such key, and never an identifier. */
  lemma {:induction false} CustomMetasCounts(pairs: seq<(string, string)>)
    ensures Count(CustomMetas(pairs), IsModified) == KeyCount(pairs, "dcterms:modified")
    ensures Count(CustomMetas(pairs), IsBookId) == 0
    decreases |pairs|
  {
    if pairs != [] {
      var init := pairs[..|pairs| - 1];
      var kv := pairs[|pairs| - 1];
      var m := Meta(None, kv.0, None, Escape(kv.1));
      CustomMetasCounts(init);
      CountAppend(CustomMetas(init), [m], IsModified);
      CountAppend(CustomMetas(init), [m], IsBookId);
      assert CountUpTo([m], 0, IsModified) == 0 && CountUpTo([m], 0, IsBookId) == 0;
    }
  }

  /**
   * The metadata holds the unrefined `dcterms:modified` meta right after the
   * bibliographic fields, and one more for each `opf_meta` pair that uses
   * that key; nothing else produces it.
   */
  lemma ModifiedCount(p: Params)
    ensures MetaLines(p)[|BibLines(p, BibFields, |BibFields|)|] == Modified(p)
    ensures Count(MetaLines(p), IsModified) == 1 + KeyCount(p.opfMeta, "dcterms:modified")
  {
    OnceOnlyCounts(p);
  }

  /** Without a `dcterms:modified` key in `opf_meta` there is exactly one such meta. */
  lemma ModifiedOnce(p: Params)
    requires forall k :: 0 <= k < |p.opfMeta| ==> p.opfMeta[k].0 != "dcterms:modified"
    ensures Count(MetaLines(p), IsModified) == 1
  {
    ModifiedCount(p);
    NoKey(p.opfMeta, "dcterms:modified");
  }

  lemma {:induction false} NoKey(pairs: seq<(string, string)>, key: string)
    requires forall k :: 0 <= k < |pairs| ==> pairs[k].0 != key
    ensures KeyCount(pairs, key) == 0
    decreases |pairs|
  {
    if pairs != [] {
      NoKey(pairs[..|pairs| - 1], key);
    }
  }

  /**
   * Exactly one element has the id `BookId`: the identifier right after the
   * modification date, holding the ISBN when there is one and the URN
   * otherwise.
   */
  lemma IdentifierOnce(p: Params)
    ensures MetaLines(p)[|BibLines(p, BibFields, |BibFields|)| + 1] ==
      Dc("identifier", "BookId", if p.isbn.Some? then p.isbn.value else p.urnid)
    ensures Count(MetaLines(p), IsBookId) == 1
  {
    OnceOnlyCounts(p);
  }

  lemma OnceOnlyCounts(p: Params)
    ensures MetaLines(p)[|BibLines(p, BibFields, |BibFields|)|] == Modified(p)
    ensures MetaLines(p)[|BibLines(p, BibFields, |BibFields|)| + 1] == Identifier(p)
    ensures Count(MetaLines(p), IsModified) == 1 + KeyCount(p.opfMeta, "dcterms:modified")
    ensures Count(MetaLines(p), IsBookId) == 1
  {
    var bib := BibLines(p, BibFields, |BibFields|);
    var fixed := [Modified(p), Identifier(p)];
    var creators := RoleLines(p, Creator, CreatorRoles, |CreatorRoles|);
    var contributors := RoleLines(p, Contributor, ContributorRoles, |ContributorRoles|);
    var custom := CustomMetas(p.opfMeta);
    BibLinesAnchored(p, BibFields, |BibFields|);
    RoleLinesAnchored(p, Creator, CreatorRoles, |CreatorRoles|);
    RoleLinesAnchored(p, Contributor, ContributorRoles, |ContributorRoles|);
    AnchoredCounts(bib);
    AnchoredCounts(creators);
    AnchoredCounts(contributors);
    CustomMetasCounts(p.opfMeta);
    assert Count(fixed, IsModified) == 1 && Count(fixed, IsBookId) == 1 by {
      assert CountUpTo(fixed, 1, IsModified) == 1 && CountUpTo(fixed, 1, IsBookId) == 0;
    }
    CountAppend(bib, fixed, IsModified);
    CountAppend(bib, fixed, IsBookId);
    CountAppend(bib + fixed, creators, IsModified);
    CountAppend(bib + fixed, creators, IsBookId);
    CountAppend(bib + fixed + creators, contributors, IsModified);
    CountAppend(bib + fixed + creators, contributors, IsBookId);
    CountAppend(bib + fixed + creators + contributors, custom, IsModified);
    CountAppend(bib + fixed + creators + contributors, custom, IsBookId);
    assert MetaLines(p) == bib + fixed + creators + contributors + custom;
  }
}
