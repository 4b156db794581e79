/**
 * `opf_metainfo`: the `<metadata>` lines of the package document. Each
 * bibliographic field becomes `dc:` elements, each relator-coded creator or
 * contributor a `dc:creator` / `dc:contributor` (and, for printers and
 * publishers, a `dc:publisher` too), each with `<meta refines=…>` lines.
 *
 * The functions below state the output line by line, in the order the
 * loops of the generator append them; the methods are those loops.
 */
module Metainfo {
  import opened Wrappers
  import opened Text
  import opened Producer

  /** One line of the metadata block. `target` holds the id it refines, without its `#`. */
  datatype MetaLine =
    | Dc(tag: string, id: string, text: string)
    | Meta(target: Option<string>, property: string, scheme: Option<string>, text: string)

  /** The lines, or the exception raised while producing them. */
  datatype Outcome = Emitted(lines: seq<MetaLine>) | Raised

  /** How a relator-coded role is emitted. */
  datatype Kind = Creator | Contributor

  const BibFields: seq<string> :=
    ["title", "language", "date", "type", "format", "source", "description",
     "relation", "coverage", "subject", "rights"]

  const CreatorRoles: seq<string> :=
    ["a-adp", "a-ann", "a-arr", "a-art", "a-asn", "a-aqt", "a-aft", "a-aui", "a-ant", "a-bkp",
     "a-clb", "a-cmm", "a-csl", "a-dsr", "a-edt", "a-ill", "a-lyr", "a-mdc", "a-mus", "a-nrt",
     "a-oth", "a-pht", "a-prt", "a-red", "a-rev", "a-spn", "a-ths", "a-trc", "a-trl", "aut"]

  const ContributorRoles: seq<string> :=
    ["adp", "ann", "arr", "art", "asn", "aqt", "aft", "aui", "ant", "bkp",
     "clb", "cmm", "csl", "dsr", "edt", "ill", "lyr", "mdc", "mus", "nrt",
     "oth", "pbd", "pbl", "pht", "prt", "red", "rev", "spn", "ths", "trc", "trl"]

  /** Contributor roles that are also written out as a `dc:publisher`. */
  predicate AlsoPublisher(role: string) {
    role == "prt" || role == "pbl"
  }

  /** `"#{key}-#{i}"` */
  function IndexedId(key: string, i: nat): string {
    key + "-" + NatStr(i)
  }

  /** `"pub-#{role}-#{i}"` */
  function PublisherId(role: string, i: nat): string {
    "pub-" + IndexedId(role, i)
  }

  /** `role.sub('a-', '')`: the MARC relator code of a creator role. */
  function RelatorOf(role: string): string {
    RemoveFirst(role, "a-")
  }

  function RoleMeta(target: string, relator: string): MetaLine {
    Meta(Some(target), "role", Some("marc:relators"), relator)
  }

  predicate HasName(pairs: seq<(string, string)>) {
    Lookup(pairs, "name").Some?
  }

  function Name(pairs: seq<(string, string)>): string {
    Lookup(pairs, "name").GetOr("")
  }

  /** The element text of an entry: its text, or the `name` of a hash. */
  function EntryText(e: Entry): string {
    match e
    case Plain(t) => t
    case Keyed(pairs) => Name(pairs)
  }

  // -------------------------------------------------------------- validity

  /** `CGI.escapeHTML(v['name'])` raises when a hash has no `name`. */
  predicate EntryOk(e: Entry) {
    e.Plain? || HasName(e.pairs)
  }

  /** The first `n` entries of a list are acceptable. */
  predicate EntriesOk(es: seq<Entry>, n: nat)
    requires n <= |es|
  {
    n == 0 || (EntriesOk(es, n - 1) && EntryOk(es[n - 1]))
  }

  /** A bibliographic field is emitted without raising. */
  predicate FieldOk(v: Value) {
    match v
    case Scalar(_) => true
    case List(es) => EntriesOk(es, |es|)
    case Record(pairs) => HasName(pairs)
  }

  /**
   * A role value is emitted without raising: it must be an array of entries.
   * A string has no `each_with_index`; a hash yields `[key, value]` arrays,
   * which `CGI.escapeHTML` rejects, so only the empty hash passes.
   */
  predicate RoleOk(v: Value) {
    match v
    case Scalar(_) => false
    case List(es) => EntriesOk(es, |es|)
    case Record(pairs) => pairs == []
  }

  function RoleEntries(v: Value): seq<Entry> {
    if v.List? then v.entries else []
  }

  /** `key`, when present in the parameters, holds an acceptable value. */
  predicate KeyOk(p: Params, key: string, roles: bool) {
    key in p.fields ==> if roles then RoleOk(p.fields[key]) else FieldOk(p.fields[key])
  }

  /** Each of the first `n` keys is acceptable. */
  predicate KeysOk(p: Params, keys: seq<string>, n: nat, roles: bool)
    requires n <= |keys|
  {
    n == 0 || (KeysOk(p, keys, n - 1, roles) && KeyOk(p, keys[n - 1], roles))
  }

  /** `KeysOk` holds exactly when each of the first `n` keys is acceptable. */
  lemma {:induction false} KeysOkAll(p: Params, keys: seq<string>, n: nat, roles: bool)
    requires n <= |keys|
    ensures KeysOk(p, keys, n, roles) <==> forall k :: 0 <= k < n ==> KeyOk(p, keys[k], roles)
  {
    if n > 0 {
      KeysOkAll(p, keys, n - 1, roles);
    }
  }

  /** A bad key spoils every longer prefix. */
  lemma {:induction false} KeysOkBad(p: Params, keys: seq<string>, i: nat, n: nat, roles: bool)
    requires i < n <= |keys| && !KeyOk(p, keys[i], roles)
    ensures !KeysOk(p, keys, n, roles)
    decreases n
  {
    if n > i + 1 {
      KeysOkBad(p, keys, i, n - 1, roles);
    }
  }

  /** `opf_metainfo` returns rather than raises. */
  predicate MetaValid(p: Params) {
    KeysOk(p, BibFields, |BibFields|, false) &&
    KeysOk(p, CreatorRoles, |CreatorRoles|, true) &&
    KeysOk(p, ContributorRoles, |ContributorRoles|, true)
  }

  // ----------------------------------------------------------- the lines

  /** One refining meta per hash key other than `name`, in key order. */
  function Refinements(target: string, pairs: seq<(string, string)>): seq<MetaLine>
    decreases |pairs|
  {
    if pairs == [] then []
    else
      var kv := pairs[|pairs| - 1];
      Refinements(target, pairs[..|pairs| - 1]) +
        (if kv.0 == "name" then [] else [Meta(Some(target), kv.0, None, Escape(kv.1))])
  }

  function BibEntryLines(item: string, i: nat, e: Entry): seq<MetaLine> {
    var id := IndexedId(item, i);
    match e
    case Plain(t) => [Dc(item, id, Escape(t))]
    case Keyed(pairs) => [Dc(item, id, Escape(Name(pairs)))] + Refinements(id, pairs)
  }

  /** The lines of the first `n` entries of a list-shaped field, one block per entry, in order. */
  function BibListLines(item: string, es: seq<Entry>, n: nat): seq<MetaLine>
    requires n <= |es|
  {
    if n == 0 then [] else BibListLines(item, es, n - 1) + BibEntryLines(item, n - 1, es[n - 1])
  }

  /** The lines of one bibliographic field. */
  function FieldLines(item: string, v: Value): seq<MetaLine> {
    match v
    case List(es) => BibListLines(item, es, |es|)
    case Record(pairs) => [Dc(item, item, Escape(Name(pairs)))] + Refinements(item, pairs)
    case Scalar(t) => [Dc(item, item, Escape(t))]
  }

  /** The lines of the fields among the first `n` keys, in key order. */
  function BibLines(p: Params, keys: seq<string>, n: nat): seq<MetaLine>
    requires n <= |keys|
  {
    if n == 0 then []
    else
      var item := keys[n - 1];
      BibLines(p, keys, n - 1) + (if item in p.fields then FieldLines(item, p.fields[item]) else [])
  }

  /** A creator: element, role meta, then the extras refining `RelatorOf(role)-i`. */
  function CreatorEntryLines(role: string, i: nat, e: Entry): seq<MetaLine> {
    var id := IndexedId(role, i);
    match e
    case Plain(t) => [Dc("creator", id, Escape(t)), RoleMeta(id, RelatorOf(role))]
    case Keyed(pairs) =>
      [Dc("creator", id, Escape(Name(pairs))), RoleMeta(id, RelatorOf(role))] +
        Refinements(IndexedId(RelatorOf(role), i), pairs)
  }

  /** The `dc:publisher` copy of a printer or publisher; a plain one is always role `prt`. */
  function PublisherLines(role: string, i: nat, e: Entry): seq<MetaLine> {
    var id := PublisherId(role, i);
    match e
    case Plain(t) => [Dc("publisher", id, Escape(t)), RoleMeta(id, "prt")]
    case Keyed(pairs) =>
      [Dc("publisher", id, Escape(Name(pairs))), RoleMeta(id, role)] + Refinements(id, pairs)
  }

  function ContributorEntryLines(role: string, i: nat, e: Entry): seq<MetaLine> {
    var id := IndexedId(role, i);
    var own := match e
      case Plain(t) => [Dc("contributor", id, Escape(t)), RoleMeta(id, role)]
      case Keyed(pairs) =>
        [Dc("contributor", id, Escape(Name(pairs))), RoleMeta(id, role)] + Refinements(id, pairs);
    own + (if AlsoPublisher(role) then PublisherLines(role, i, e) else [])
  }

  function EntryLines(kind: Kind, role: string, i: nat, e: Entry): seq<MetaLine> {
    match kind
    case Creator => CreatorEntryLines(role, i, e)
    case Contributor => ContributorEntryLines(role, i, e)
  }

  /** The lines of the first `n` entries under one role, one block per entry, in order. */
  function RoleListLines(kind: Kind, role: string, es: seq<Entry>, n: nat): seq<MetaLine>
    requires n <= |es|
  {
    if n == 0 then [] else RoleListLines(kind, role, es, n - 1) + EntryLines(kind, role, n - 1, es[n - 1])
  }

  /** The lines of the value of one role. */
  function RoleValueLines(kind: Kind, role: string, v: Value): seq<MetaLine> {
    RoleListLines(kind, role, RoleEntries(v), |RoleEntries(v)|)
  }

  /** The lines of the roles among the first `n` role codes, in code order. */
  function RoleLines(p: Params, kind: Kind, roles: seq<string>, n: nat): seq<MetaLine>
    requires n <= |roles|
  {
    if n == 0 then []
    else
      var role := roles[n - 1];
      RoleLines(p, kind, roles, n - 1) + (if role in p.fields then RoleValueLines(kind, role, p.fields[role]) else [])
  }

  /** The free-form `opf_meta` pairs, unrefined, in order. */
  function CustomMetas(pairs: seq<(string, string)>): seq<MetaLine>
    decreases |pairs|
  {
    if pairs == [] then []
    else
      var kv := pairs[|pairs| - 1];
      CustomMetas(pairs[..|pairs| - 1]) + [Meta(None, kv.0, None, Escape(kv.1))]
  }

  function Modified(p: Params): MetaLine {
    Meta(None, "dcterms:modified", None, p.modified)
  }

  /** The book identifier: the ISBN when there is one, the URN otherwise (neither escaped). */
  function Identifier(p: Params): MetaLine {
    Dc("identifier", "BookId", if p.isbn.Some? then p.isbn.value else p.urnid)
  }

  function MetaLines(p: Params): seq<MetaLine> {
    BibLines(p, BibFields, |BibFields|) + [Modified(p), Identifier(p)] +
      RoleLines(p, Creator, CreatorRoles, |CreatorRoles|) +
      RoleLines(p, Contributor, ContributorRoles, |ContributorRoles|) +
      CustomMetas(p.opfMeta)
  }

  function Metainfo(p: Params): Outcome {
    if MetaValid(p) then Emitted(MetaLines(p)) else Raised
  }

  // ----------------------------------------------------------- the loops

  method EmitRefinements(target: string, pairs: seq<(string, string)>) returns (lines: seq<MetaLine>)
    ensures lines == Refinements(target, pairs)
  {
    lines := [];
    var k := 0;
    while k < |pairs|
      invariant 0 <= k <= |pairs|
      invariant lines == Refinements(target, pairs[..k])
    {
      var (name, val) := pairs[k];
      if name != "name" {
        lines := lines + [Meta(Some(target), name, None, Escape(val))];
      }
      assert pairs[..k + 1][..k] == pairs[..k];
      k := k + 1;
    }
    assert pairs[..k] == pairs;
  }

  /** One entry of a list-shaped field; `ok` is false where the generator raises. */
  method EmitBibEntry(item: string, i: nat, e: Entry) returns (ok: bool, block: seq<MetaLine>)
    ensures ok == EntryOk(e)
    ensures ok ==> block == BibEntryLines(item, i, e)
  {
    var id := IndexedId(item, i);
    match e {
      case Keyed(pairs) =>
        var name := Lookup(pairs, "name");
        if name.None? {
          return false, [];
        }
        var extra := EmitRefinements(id, pairs);
        ok, block := true, [Dc(item, id, Escape(name.value))] + extra;
      case Plain(t) =>
        ok, block := true, [Dc(item, id, Escape(t))];
    }
  }

  lemma BibListNext(item: string, es: seq<Entry>, i: nat)
    requires i < |es|
    ensures BibListLines(item, es, i + 1) == BibListLines(item, es, i) + BibEntryLines(item, i, es[i])
  {
  }

  /** `EntriesOk` holds exactly when every one of the first `n` entries is acceptable. */
  lemma {:induction false} EntriesOkAll(es: seq<Entry>, n: nat)
    requires n <= |es|
    ensures EntriesOk(es, n) <==> forall k :: 0 <= k < n ==> EntryOk(es[k])
  {
    if n > 0 {
      EntriesOkAll(es, n - 1);
    }
  }

  /** A bad entry spoils every longer prefix. */
  lemma {:induction false} EntriesOkBad(es: seq<Entry>, i: nat, n: nat)
    requires i < n <= |es| && !EntryOk(es[i])
    ensures !EntriesOk(es, n)
    decreases n
  {
    if n > i + 1 {
      EntriesOkBad(es, i, n - 1);
    }
  }

  /** The entries of a list-shaped field; `ok` is false where the generator raises. */
  method EmitList(item: string, es: seq<Entry>) returns (ok: bool, lines: seq<MetaLine>)
    ensures ok == EntriesOk(es, |es|)
    ensures ok ==> lines == BibListLines(item, es, |es|)
  {
    lines := [];
    var i := 0;
    while i < |es|
      invariant 0 <= i <= |es|
      invariant EntriesOk(es, i)
      invariant lines == BibListLines(item, es, i)
    {
      var good, block := EmitBibEntry(item, i, es[i]);
      if !good {
        EntriesOkBad(es, i, |es|);
        return false, [];
      }
      BibListNext(item, es, i);
      lines := lines + block;
      i := i + 1;
    }
    ok := true;
  }

  /** One bibliographic field; `ok` is false where the generator raises. */
  method EmitField(item: string, v: Value) returns (ok: bool, lines: seq<MetaLine>)
    ensures ok == FieldOk(v)
    ensures ok ==> lines == FieldLines(item, v)
  {
    match v {
      case List(es) =>
        ok, lines := EmitList(item, es);
      case Record(pairs) =>
        var name := Lookup(pairs, "name");
        if name.None? {
          return false, [];
        }
        var extra := EmitRefinements(item, pairs);
        ok, lines := true, [Dc(item, item, Escape(name.value))] + extra;
      case Scalar(t) =>
        ok, lines := true, [Dc(item, item, Escape(t))];
    }
  }

  /** One entry under a role; `ok` is false where the generator raises. */
  method EmitRoleEntry(kind: Kind, role: string, i: nat, e: Entry) returns (ok: bool, block: seq<MetaLine>)
    ensures ok == EntryOk(e)
    ensures ok ==> block == EntryLines(kind, role, i, e)
  {
    var id := IndexedId(role, i);
    var text := "";
    match e {
      case Keyed(pairs) =>
        var name := Lookup(pairs, "name");
        if name.None? {
          return false, [];
        }
        text := name.value;
      case Plain(t) =>
        text := t;
    }
    ok := true;
    if kind == Creator {
      block := [Dc("creator", id, Escape(text)), RoleMeta(id, RelatorOf(role))];
      if e.Keyed? {
        var extra := EmitRefinements(IndexedId(RelatorOf(role), i), e.pairs);
        block := block + extra;
      }
    } else {
      block := [Dc("contributor", id, Escape(text)), RoleMeta(id, role)];
      if e.Keyed? {
        var extra := EmitRefinements(id, e.pairs);
        block := block + extra;
      }
      if AlsoPublisher(role) {
        var pub := PublisherId(role, i);
        if e.Keyed? {
          block := block + [Dc("publisher", pub, Escape(text)), RoleMeta(pub, role)];
          var extra := EmitRefinements(pub, e.pairs);
          block := block + extra;
        } else {
          block := block + [Dc("publisher", pub, Escape(text)), RoleMeta(pub, "prt")];
        }
      }
    }
  }

  lemma RoleListNext(kind: Kind, role: string, es: seq<Entry>, i: nat)
    requires i < |es|
    ensures RoleListLines(kind, role, es, i + 1) == RoleListLines(kind, role, es, i) + EntryLines(kind, role, i, es[i])
  {
  }

  /** The entries of one role, when they form a list. */
  method EmitRoleList(kind: Kind, role: string, es: seq<Entry>) returns (ok: bool, lines: seq<MetaLine>)
    ensures ok == EntriesOk(es, |es|)
    ensures ok ==> lines == RoleListLines(kind, role, es, |es|)
  {
    lines := [];
    var i := 0;
    while i < |es|
      invariant 0 <= i <= |es|
      invariant EntriesOk(es, i)
      invariant lines == RoleListLines(kind, role, es, i)
    {
      var good, block := EmitRoleEntry(kind, role, i, es[i]);
      if !good {
        EntriesOkBad(es, i, |es|);
        return false, [];
      }
      RoleListNext(kind, role, es, i);
      lines := lines + block;
      i := i + 1;
    }
    assert es[..i] == es;
    ok := true;
  }

  /** The value of one role; `ok` is false where the generator raises. */
  method EmitRole(kind: Kind, role: string, v: Value) returns (ok: bool, lines: seq<MetaLine>)
    ensures ok == RoleOk(v)
    ensures ok ==> lines == RoleValueLines(kind, role, v)
  {
    match v {
      case Scalar(_) =>
        return false, [];
      case Record(pairs) =>
        return pairs == [], [];
      case List(es) =>
        ok, lines := EmitRoleList(kind, role, es);
    }
  }

  /** The loop over one list of role codes. */
  method EmitRoles(p: Params, kind: Kind, roles: seq<string>) returns (ok: bool, lines: seq<MetaLine>)
    ensures ok == KeysOk(p, roles, |roles|, true)
    ensures ok ==> lines == RoleLines(p, kind, roles, |roles|)
  {
    lines := [];
    var i := 0;
    while i < |roles|
      invariant 0 <= i <= |roles|
      invariant KeysOk(p, roles, i, true)
      invariant lines == RoleLines(p, kind, roles, i)
    {
      var role := roles[i];
      if role in p.fields {
        var good, more := EmitRole(kind, role, p.fields[role]);
        if !good {
          KeysOkBad(p, roles, i, |roles|, true);
          return false, [];
        }
        lines := lines + more;
      }
      i := i + 1;
    }
    ok := true;
  }

  /** The loop over the bibliographic fields. */
  method EmitBib(p: Params) returns (ok: bool, lines: seq<MetaLine>)
    ensures ok == KeysOk(p, BibFields, |BibFields|, false)
    ensures ok ==> lines == BibLines(p, BibFields, |BibFields|)
  {
    lines := [];
    var i := 0;
    while i < |BibFields|
      invariant 0 <= i <= |BibFields|
      invariant KeysOk(p, BibFields, i, false)
      invariant lines == BibLines(p, BibFields, i)
    {
      var item := BibFields[i];
      if item in p.fields {
        var good, more := EmitField(item, p.fields[item]);
        if !good {
          KeysOkBad(p, BibFields, i, |BibFields|, false);
          return false, [];
        }
        lines := lines + more;
      }
      i := i + 1;
    }
    ok := true;
  }

  /** The loop over the free-form `opf_meta` pairs. */
  method EmitCustom(pairs: seq<(string, string)>) returns (lines: seq<MetaLine>)
    ensures lines == CustomMetas(pairs)
  {
    lines := [];
    var k := 0;
    while k < |pairs|
      invariant 0 <= k <= |pairs|
      invariant lines == CustomMetas(pairs[..k])
    {
      var (name, val) := pairs[k];
      lines := lines + [Meta(None, name, None, Escape(val))];
      assert pairs[..k + 1][..k] == pairs[..k];
      k := k + 1;
    }
    assert pairs[..k] == pairs;
  }

  /** `opf_metainfo`: the metadata lines, or `Raised` where the generator raises. */
  method OpfMetainfo(p: Params) returns (r: Outcome)
    ensures r == Metainfo(p)
    ensures r.Raised? <==> !MetaValid(p)
  {
    var ok, s := EmitBib(p);
    if !ok {
      return Raised;
    }
    s := s + [Meta(None, "dcterms:modified", None, p.modified)];
    if p.isbn.None? {
      s := s + [Dc("identifier", "BookId", p.urnid)];
    } else {
      s := s + [Dc("identifier", "BookId", p.isbn.value)];
    }
    var creators, contributors;
    ok, creators := EmitRoles(p, Creator, CreatorRoles);
    if !ok {
      return Raised;
    }
    s := s + creators;
    ok, contributors := EmitRoles(p, Contributor, ContributorRoles);
    if !ok {
      return Raised;
    }
    s := s + contributors;
    var custom := EmitCustom(p.opfMeta);
    return Emitted(s + custom);
  }
}
