/**
 * The producer state the EPUB 3 generator reads: the parameter hash and the
 * ordered list of content items.
 */
module Producer {
  import opened Wrappers

  /** One element of a list-shaped metadata value: plain text or a hash with `name`. */
  datatype Entry = Plain(text: string) | Keyed(pairs: seq<(string, string)>)

  /**
   * A metadata parameter as loaded from the book configuration: a scalar, an
   * array of entries, or a hash. Hash pairs keep Ruby's insertion order.
   */
  datatype Value =
    | Scalar(text: string)
    | List(entries: seq<Entry>)
    | Record(pairs: seq<(string, string)>)

  /**
   * The parameters the generator consults. A key that is absent, `nil` or
   * `false` in the Ruby hash is absent from `fields` or `None` here.
   */
  datatype Params = Params(
    fields: map<string, Value>,       // bibliographic fields and relator-coded roles
    modified: string,                 // params['modified']
    isbn: Option<string>,             // params['isbn']
    urnid: string,                    // params['urnid']
    opfMeta: seq<(string, string)>,   // params['opf_meta']
    opfPrefix: seq<(string, string)>, // params['opf_prefix']
    bookname: string,
    htmlext: string,
    cover: string,                    // the cover page file
    coverimage: Option<string>,       // the cover image file name
    coverLinear: Option<string>,      // params['epubmaker']['cover_linear']
    direction: Option<string>,        // page-progression direction
    toc: bool)                        // params['toc']

  /** `hash[key]`: the value stored under `key`, if any. */
  function Lookup(pairs: seq<(string, string)>, key: string): (r: Option<string>)
  {
    if pairs == [] then None
    else if pairs[0].0 == key then Some(pairs[0].1)
    else Lookup(pairs[1..], key)
  }

  /** The text `"#{x}"` interpolation gives an optional id: `nil` becomes empty. */
  function IdText(id: Option<string>): string {
    id.GetOr("")
  }

  /** A content item's fields at one moment. */
  datatype Item = Item(id: Option<string>, file: string, media: string, chaptype: string, properties: seq<string>)

  /**
   * A content item of the book. Only `id` is ever reassigned by the
   * generator (the cover image's id is cleared).
   */
  class ContentItem {
    var id: Option<string>
    const file: string
    const media: string
    const chaptype: string
    const properties: seq<string>

    constructor (id: Option<string>, file: string, media: string, chaptype: string, properties: seq<string>)
      ensures Value() == Item(id, file, media, chaptype, properties)
    {
      this.id := id;
      this.file := file;
      this.media := media;
      this.chaptype := chaptype;
      this.properties := properties;
    }

    function Value(): Item
      reads this
    {
      Item(id, file, media, chaptype, properties)
    }
  }

  /** The values of the content list. */
  function Items(objs: seq<ContentItem>): (r: seq<Item>)
    reads objs
  {
    seq(|objs|, k requires 0 <= k < |objs| reads objs => objs[k].Value())
  }

  /** No content item occurs twice in the list. */
  predicate Distinct(objs: seq<ContentItem>) {
    forall i, j :: 0 <= i < j < |objs| ==> objs[i] != objs[j]
  }
}
