/**
 * Record assembly for one program detail page (scrape_web_aiAndCom.py,
 * lines 46-64). The parsed page is an input: its anchors, with their href
 * attribute and stripped text, and its first definition list, with the
 * stripped texts of its terms and of its definitions.
 */
module Extract {
  import opened Wrappers
  import opened Links
  import opened OrderedDict

  /** A scraped record: a dict from column name to text. */
  type Record = Dict<string, string>

  /** An `<a>` element: its `href` attribute, if it has one, and its stripped text. */
  datatype Anchor = Anchor(href: Option<string>, text: string)

  /** The first `<dl>` of a page: the stripped texts of its `<dt>` and of its `<dd>` elements. */
  datatype DescriptionList = DescriptionList(terms: seq<string>, definitions: seq<string>)

  /** A parsed detail page: its anchors in document order and its first `<dl>`, if any. */
  datatype Page = Page(anchors: seq<Anchor>, descriptionList: Option<DescriptionList>)

  const UniversityPrefix := "/universities/"
  /** The university name used when the page has no university link ("university not found"). */
  const UniversityNotFound := "ไม่พบชื่อมหาวิทยาลัย"
  /** The three keys every record starts with: search keyword, university, link. */
  const KeywordKey := "คำค้นหา"
  const UniversityKey := "มหาวิทยาลัย"
  const LinkKey := "ลิงก์"

  function FixedKeys(): seq<string> {
    [KeywordKey, UniversityKey, LinkKey]
  }

  /** An anchor whose href is present, non-empty and starts with `/universities/`. */
  predicate IsUniversityAnchor(a: Anchor) {
    a.href.Some? && a.href.value != "" && UniversityPrefix <= a.href.value
  }

  /** The position of the first university anchor, if there is one. */
  function FirstUniversityAnchor(anchors: seq<Anchor>): (r: Option<nat>)
    ensures r.Some? ==> (r.value < |anchors| && IsUniversityAnchor(anchors[r.value])
                         && forall j :: 0 <= j < r.value ==> !IsUniversityAnchor(anchors[j]))
    ensures r.None? ==> forall j :: 0 <= j < |anchors| ==> !IsUniversityAnchor(anchors[j])
  {
    if anchors == [] then None
    else if IsUniversityAnchor(anchors[0]) then Some(0)
    else match FirstUniversityAnchor(anchors[1..])
      case Some(i) => Some(i + 1)
      case None => None
  }

  /** The university name: the text of the first university anchor, or the sentinel. */
  function UniversityName(anchors: seq<Anchor>): (name: string)
    ensures forall i :: 0 <= i < |anchors| && IsUniversityAnchor(anchors[i])
                        && (forall j :: 0 <= j < i ==> !IsUniversityAnchor(anchors[j]))
                        ==> name == anchors[i].text
    ensures (forall j :: 0 <= j < |anchors| ==> !IsUniversityAnchor(anchors[j]))
            ==> name == UniversityNotFound
  {
    match FirstUniversityAnchor(anchors)
    case Some(i) => anchors[i].text
    case None => UniversityNotFound
  }

  /** Python's `zip` of two lists: pairs by position, up to the shorter length. */
  function Zip(terms: seq<string>, definitions: seq<string>): (pairs: seq<(string, string)>)
    ensures |pairs| == if |terms| <= |definitions| then |terms| else |definitions|
    ensures forall i :: 0 <= i < |pairs| ==> pairs[i] == (terms[i], definitions[i])
  {
    if terms == [] || definitions == [] then []
    else [(terms[0], definitions[0])] + Zip(terms[1..], definitions[1..])
  }

  /** The record before any `<dl>` entry is written. */
  function FixedFields(keyword: string, university: string, link: string): Record {
    [Entry(KeywordKey, keyword), Entry(UniversityKey, university), Entry(LinkKey, link)]
  }

  /** The label/value pairs the page contributes: none without a `<dl>`. */
  function PagePairs(page: Page): seq<(string, string)> {
    match page.descriptionList
    case None => []
    case Some(dl) => Zip(dl.terms, dl.definitions)
  }

  /** The record the scraper builds for `link`, found by searching `keyword`. */
  function ProgramRecord(keyword: string, link: string, page: Page): Record {
    AssignAll(FixedFields(keyword, UniversityName(page.anchors), link), PagePairs(page))
  }

  /**
   * Lines 49-64: the university name, the three fixed entries, then one
   * dict assignment per zipped `<dt>`/`<dd>` pair.
   */
  method BuildRecord(keyword: string, link: string, page: Page) returns (programData: Record)
    ensures programData == ProgramRecord(keyword, link, page)
  {
    var universityName := UniversityName(page.anchors);
    var fixed := FixedFields(keyword, universityName, link);
    programData := fixed;
    if page.descriptionList.Some? {
      var dl := page.descriptionList.value;
      var pairs := Zip(dl.terms, dl.definitions);
      for i := 0 to |pairs|
        invariant programData == AssignAll(fixed, pairs[..i])
      {
        var key, value := pairs[i].0, pairs[i].1;
        assert pairs[..i + 1][..i] == pairs[..i];
        programData := Assign(programData, key, value);
      }
      assert pairs[..|pairs|] == pairs;
    }
  }

  /** The three fixed entries are distinct keys, holding keyword, university and link. */
  lemma FixedFieldsShape(keyword: string, university: string, link: string)
    ensures Keys(FixedFields(keyword, university, link)) == FixedKeys()
    ensures NoDuplicates(FixedKeys())
    ensures Lookup(FixedFields(keyword, university, link), KeywordKey) == Some(keyword)
    ensures Lookup(FixedFields(keyword, university, link), UniversityKey) == Some(university)
    ensures Lookup(FixedFields(keyword, university, link), LinkKey) == Some(link)
  {
    var d := FixedFields(keyword, university, link);
    assert |KeywordKey| == 7 && |UniversityKey| == 11 && |LinkKey| == 5;
    assert d[1..][1..] == d[2..];
    assert Keys(d[2..]) == [LinkKey];
    assert Keys(d[1..]) == [UniversityKey, LinkKey];
    assert Lookup(d[2..], LinkKey) == Some(link);
    assert Lookup(d[1..], LinkKey) == Some(link);
  }

  /** A page without a `<dl>` gives exactly the three fixed entries. */
  lemma RecordWithoutDescriptionList(keyword: string, link: string, page: Page)
    requires page.descriptionList.None?
    ensures Keys(ProgramRecord(keyword, link, page)) == FixedKeys()
    ensures Lookup(ProgramRecord(keyword, link, page), KeywordKey) == Some(keyword)
    ensures Lookup(ProgramRecord(keyword, link, page), UniversityKey) == Some(UniversityName(page.anchors))
    ensures Lookup(ProgramRecord(keyword, link, page), LinkKey) == Some(link)
  {
    FixedFieldsShape(keyword, UniversityName(page.anchors), link);
  }

  /** The `<dt>` texts that get paired: the first min(#dt, #dd) of them. */
  function PairedTerms(page: Page): (ts: seq<string>)
    ensures ts == Labels(PagePairs(page))
  {
    match page.descriptionList
    case None => []
    case Some(dl) =>
      var m := if |dl.terms| <= |dl.definitions| then |dl.terms| else |dl.definitions|;
      dl.terms[..m]
  }

  /**
   * Key order of a record: the three fixed keys, then each paired label in
   * order of first appearance; no key occurs twice.
   */
  lemma RecordKeys(keyword: string, link: string, page: Page)
    ensures Keys(ProgramRecord(keyword, link, page)) == Dedup(FixedKeys() + PairedTerms(page))
    ensures FixedKeys() <= Keys(ProgramRecord(keyword, link, page))
    ensures NoDuplicates(Keys(ProgramRecord(keyword, link, page)))
  {
    var fixed := FixedFields(keyword, UniversityName(page.anchors), link);
    FixedFieldsShape(keyword, UniversityName(page.anchors), link);
    AssignAllKeys(fixed, PagePairs(page));
    DedupPrefix(FixedKeys(), PairedTerms(page));
    DedupOfDistinct(FixedKeys());
  }

  /**
   * A paired label takes the value of its last pairing, overriding an
   * earlier pairing or a fixed entry of the same name.
   */
  lemma RecordLabelValue(keyword: string, link: string, anchors: seq<Anchor>, dl: DescriptionList, i: nat)
    requires i < |dl.terms| && i < |dl.definitions|
    requires forall j :: i < j < |dl.terms| && j < |dl.definitions| ==> dl.terms[j] != dl.terms[i]
    ensures Lookup(ProgramRecord(keyword, link, Page(anchors, Some(dl))), dl.terms[i]) == Some(dl.definitions[i])
  {
    var page := Page(anchors, Some(dl));
    var fixed := FixedFields(keyword, UniversityName(anchors), link);
    var pairs := Zip(dl.terms, dl.definitions);
    assert PagePairs(page) == pairs;
    assert pairs[i] == (dl.terms[i], dl.definitions[i]);
    LastValueAt(pairs, dl.terms[i], i);
    AssignAllLookup(fixed, pairs, dl.terms[i]);
  }

  /** A key no paired label equals keeps its fixed value, or stays absent. */
  lemma RecordUnpairedKey(keyword: string, link: string, page: Page, k: string)
    requires forall i :: 0 <= i < |PairedTerms(page)| ==> PairedTerms(page)[i] != k
    ensures Lookup(ProgramRecord(keyword, link, page), k)
         == Lookup(FixedFields(keyword, UniversityName(page.anchors), link), k)
  {
    var fixed := FixedFields(keyword, UniversityName(page.anchors), link);
    var pairs := PagePairs(page);
    AssignAllLookup(fixed, pairs, k);
    assert forall j :: 0 <= j < |pairs| ==> pairs[j].0 == PairedTerms(page)[j];
  }

  /**
   * The fixed entries survive unless a paired label has the same name: the
   * keyword, university and link are then those the record was built with.
   */
  lemma RecordFixedValues(keyword: string, link: string, page: Page)
    ensures KeywordKey !in PairedTerms(page) ==> Lookup(ProgramRecord(keyword, link, page), KeywordKey) == Some(keyword)
    ensures UniversityKey !in PairedTerms(page)
            ==> Lookup(ProgramRecord(keyword, link, page), UniversityKey) == Some(UniversityName(page.anchors))
    ensures LinkKey !in PairedTerms(page) ==> Lookup(ProgramRecord(keyword, link, page), LinkKey) == Some(link)
  {
    FixedFieldsShape(keyword, UniversityName(page.anchors), link);
    if KeywordKey !in PairedTerms(page) {
      RecordUnpairedKey(keyword, link, page, KeywordKey);
    }
    if UniversityKey !in PairedTerms(page) {
      RecordUnpairedKey(keyword, link, page, UniversityKey);
    }
    if LinkKey !in PairedTerms(page) {
      RecordUnpairedKey(keyword, link, page, LinkKey);
    }
  }

  /**
   * A page whose `<dl>` has as many `<dt>` as `<dd>`, with distinct labels
   * none of which is a fixed key, gives one entry per label after the three
   * fixed ones.
   */
  lemma RecordSize(keyword: string, link: string, page: Page)
    requires page.descriptionList.Some?
    requires |page.descriptionList.value.terms| == |page.descriptionList.value.definitions|
    requires NoDuplicates(page.descriptionList.value.terms)
    requires forall i :: 0 <= i < |page.descriptionList.value.terms| ==> page.descriptionList.value.terms[i] !in FixedKeys()
    ensures |ProgramRecord(keyword, link, page)| == 3 + |page.descriptionList.value.terms|
  {
    var ts := page.descriptionList.value.terms;
    var rec := ProgramRecord(keyword, link, page);
    RecordKeys(keyword, link, page);
    assert ts[..|ts|] == ts;
    assert PairedTerms(page) == ts;
    FixedFieldsShape(keyword, UniversityName(page.anchors), link);
    var all := FixedKeys() + ts;
    DistinctAfter(FixedKeys(), ts);
    DedupOfDistinct(all);
    assert Keys(rec) == all;
    KeysLength(ProgramRecord(keyword, link, page));
  }
}
