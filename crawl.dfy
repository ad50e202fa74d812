/**
 * The crawl (scrape_web_aiAndCom.py, lines 16-18, 32-44 and 66): for each
 * search keyword in order, collect the distinct result links, build one
 * record per link and append it to the record list. The browser is replaced
 * by two inputs: `search` gives the result hrefs for a keyword, `fetch` the
 * parsed detail page behind a link.
 */
module Crawl {
  import opened Links
  import opened OrderedDict
  import opened Extract

  /** The keywords the script searches for, in order: AI engineering, computer engineering. */
  const SearchKeywords: seq<string> := ["วิศวกรรมปัญญาประดิษฐ์", "วิศวกรรมคอมพิวเตอร์"]

  /** One detail-page visit: the keyword whose search found the link, and the link. */
  datatype Visit = Visit(keyword: string, link: string)

  /** The distinct result links of one keyword, in order of first appearance. */
  function ProgramLinks(keyword: string, search: string -> seq<string>): seq<string> {
    Dedup(search(keyword))
  }

  /** The visits for one keyword: one per link, in link order. */
  function KeywordVisits(keyword: string, links: seq<string>): seq<Visit> {
    seq(|links|, j requires 0 <= j < |links| => Visit(keyword, links[j]))
  }

  /** One more link gives one more visit, at the end. */
  lemma KeywordVisitsStep(keyword: string, links: seq<string>, j: nat)
    requires j < |links|
    ensures KeywordVisits(keyword, links[..j + 1]) == KeywordVisits(keyword, links[..j]) + [Visit(keyword, links[j])]
  {
  }

  /** All visits of a crawl: keyword by keyword, and within a keyword link by link. */
  function Visits(keywords: seq<string>, search: string -> seq<string>): seq<Visit> {
    if keywords == [] then []
    else
      var n := |keywords| - 1;
      Visits(keywords[..n], search) + KeywordVisits(keywords[n], ProgramLinks(keywords[n], search))
  }

  /** The sum over the keywords of each keyword's number of distinct links. */
  function RecordCount(keywords: seq<string>, search: string -> seq<string>): nat {
    if keywords == [] then 0
    else
      var n := |keywords| - 1;
      RecordCount(keywords[..n], search) + |ProgramLinks(keywords[n], search)|
  }

  /** The record built on a visit. */
  function VisitRecord(v: Visit, fetch: string -> Page): Record {
    ProgramRecord(v.keyword, v.link, fetch(v.link))
  }

  /** The records of a whole crawl: one per visit, in visit order. */
  function CrawlRecords(keywords: seq<string>, search: string -> seq<string>, fetch: string -> Page): seq<Record> {
    var vs := Visits(keywords, search);
    seq(|vs|, p requires 0 <= p < |vs| => VisitRecord(vs[p], fetch))
  }

  /** `records` holds, position by position, the record built on each of `visits`. */
  ghost predicate BuiltFrom(records: seq<Record>, visits: seq<Visit>, fetch: string -> Page) {
    |records| == |visits| && forall p :: 0 <= p < |records| ==> records[p] == VisitRecord(visits[p], fetch)
  }

  /** Appending the record of one more visit keeps BuiltFrom. */
  lemma BuiltFromAppend(records: seq<Record>, visits: seq<Visit>, fetch: string -> Page, v: Visit, r: Record)
    requires BuiltFrom(records, visits, fetch) && r == VisitRecord(v, fetch)
    ensures BuiltFrom(records + [r], visits + [v], fetch)
  {
  }

  /**
   * The outer loop over keywords (line 18), the link collection of lines
   * 32-37, and the inner loop over links (line 42) appending one record each
   * (line 66).
   */
  method Crawl(keywords: seq<string>, search: string -> seq<string>, fetch: string -> Page)
    returns (allData: seq<Record>)
    ensures allData == CrawlRecords(keywords, search, fetch)
    ensures |allData| == RecordCount(keywords, search)
  {
    allData := [];
    ghost var visits: seq<Visit> := [];
    for i := 0 to |keywords|
      invariant visits == Visits(keywords[..i], search)
      invariant BuiltFrom(allData, visits, fetch)
    {
      var keyword := keywords[i];
      var programLinks := CollectLinks(search(keyword));
      ghost var earlier := visits;
      assert keywords[..i + 1][..i] == keywords[..i];
      assert Visits(keywords[..i + 1], search) == earlier + KeywordVisits(keyword, programLinks);
      for j := 0 to |programLinks|
        invariant visits == earlier + KeywordVisits(keyword, programLinks[..j])
        invariant BuiltFrom(allData, visits, fetch)
      {
        var link := programLinks[j];
        var programData := BuildRecord(keyword, link, fetch(link));
        KeywordVisitsStep(keyword, programLinks, j);
        BuiltFromAppend(allData, visits, fetch, Visit(keyword, link), programData);
        allData := allData + [programData];
        visits := visits + [Visit(keyword, link)];
      }
      assert programLinks[..|programLinks|] == programLinks;
    }
    assert keywords[..|keywords|] == keywords;
    VisitCount(keywords, search);
  }

  /** The script's run over its own two keywords (lines 9, 16-66). */
  method Scrape(search: string -> seq<string>, fetch: string -> Page) returns (allData: seq<Record>)
    ensures allData == CrawlRecords(SearchKeywords, search, fetch)
    ensures |allData| == |ProgramLinks(SearchKeywords[0], search)| + |ProgramLinks(SearchKeywords[1], search)|
  {
    allData := Crawl(SearchKeywords, search, fetch);
    assert SearchKeywords[..1][..0] == [];
    assert SearchKeywords[..1] == [SearchKeywords[0]];
    assert SearchKeywords[..2] == SearchKeywords;
  }

  /** A crawl visits, for each keyword, each of its distinct links once. */
  lemma {:induction false} VisitCount(keywords: seq<string>, search: string -> seq<string>)
    ensures |Visits(keywords, search)| == RecordCount(keywords, search)
  {
    if keywords != [] {
      VisitCount(keywords[..|keywords| - 1], search);
    }
  }

  /** The record count over a keyword prefix grows with the prefix. */
  lemma {:induction false} RecordCountMonotone(keywords: seq<string>, search: string -> seq<string>, a: nat, b: nat)
    requires a <= b <= |keywords|
    ensures RecordCount(keywords[..a], search) <= RecordCount(keywords[..b], search)
  {
    if a < b {
      RecordCountMonotone(keywords, search, a, b - 1);
      assert keywords[..b][..b - 1] == keywords[..b - 1];
    }
  }

  /**
   * Ordering: the visit of the `j`-th distinct link of the `i`-th keyword
   * comes right after the visits of all earlier keywords and earlier links.
   */
  lemma {:induction false} VisitOrder(keywords: seq<string>, search: string -> seq<string>, i: nat, j: nat)
    requires i < |keywords| && j < |ProgramLinks(keywords[i], search)|
    ensures var p := RecordCount(keywords[..i], search) + j;
      p < |Visits(keywords, search)|
      && Visits(keywords, search)[p] == Visit(keywords[i], ProgramLinks(keywords[i], search)[j])
  {
    var n := |keywords| - 1;
    var front := keywords[..n];
    var earlier := Visits(front, search);
    var last := KeywordVisits(keywords[n], ProgramLinks(keywords[n], search));
    VisitCount(front, search);
    assert Visits(keywords, search) == earlier + last;
    var p := RecordCount(keywords[..i], search) + j;
    if i < n {
      VisitOrder(front, search, i, j);
      assert front[i] == keywords[i];
      assert front[..i] == keywords[..i];
      assert (earlier + last)[p] == earlier[p];
    } else {
      assert front == keywords[..i];
      assert (earlier + last)[p] == last[j];
    }
  }

  /**
   * Ordering of the records: the record for the `j`-th distinct link of the
   * `i`-th keyword sits right after the records of all earlier keywords and
   * earlier links, and is built from that keyword, that link and its page.
   */
  lemma CrawlOrder(keywords: seq<string>, search: string -> seq<string>, fetch: string -> Page, i: nat, j: nat)
    requires i < |keywords| && j < |ProgramLinks(keywords[i], search)|
    ensures var links, p := ProgramLinks(keywords[i], search), RecordCount(keywords[..i], search) + j;
      p < |CrawlRecords(keywords, search, fetch)|
      && CrawlRecords(keywords, search, fetch)[p] == ProgramRecord(keywords[i], links[j], fetch(links[j]))
  {
    VisitOrder(keywords, search, i, j);
  }

  /**
   * A link found for two different keywords is visited twice, first under
   * the earlier keyword; each visit gives its own record (CrawlRecords).
   */
  lemma SharedLink(keywords: seq<string>, search: string -> seq<string>, i1: nat, i2: nat, link: string)
    requires i1 < i2 < |keywords|
    requires link in search(keywords[i1]) && link in search(keywords[i2])
    ensures exists p1, p2 ::
              && 0 <= p1 < p2 < |Visits(keywords, search)|
              && Visits(keywords, search)[p1] == Visit(keywords[i1], link)
              && Visits(keywords, search)[p2] == Visit(keywords[i2], link)
  {
    var links1, links2 := ProgramLinks(keywords[i1], search), ProgramLinks(keywords[i2], search);
    DedupHas(search(keywords[i1]), link);
    DedupHas(search(keywords[i2]), link);
    var j1 :| 0 <= j1 < |links1| && links1[j1] == link;
    var j2 :| 0 <= j2 < |links2| && links2[j2] == link;
    VisitOrder(keywords, search, i1, j1);
    VisitOrder(keywords, search, i2, j2);
    RecordCountMonotone(keywords, search, i1 + 1, i2);
    assert keywords[..i1 + 1][..i1] == keywords[..i1];
    var p1 := RecordCount(keywords[..i1], search) + j1;
    var p2 := RecordCount(keywords[..i2], search) + j2;
    assert p1 < p2;
  }

  /**
   * A link found for two different keywords gives two records, first the one
   * built under the earlier keyword, then the one built under the later.
   */
  lemma SharedLinkRecords(keywords: seq<string>, search: string -> seq<string>, fetch: string -> Page,
                          i1: nat, i2: nat, link: string)
    requires i1 < i2 < |keywords|
    requires link in search(keywords[i1]) && link in search(keywords[i2])
    ensures exists p1, p2 ::
              && 0 <= p1 < p2 < |CrawlRecords(keywords, search, fetch)|
              && CrawlRecords(keywords, search, fetch)[p1] == VisitRecord(Visit(keywords[i1], link), fetch)
              && CrawlRecords(keywords, search, fetch)[p2] == VisitRecord(Visit(keywords[i2], link), fetch)
  {
    SharedLink(keywords, search, i1, i2, link);
    var vs := Visits(keywords, search);
    var p1, p2 :| 0 <= p1 < p2 < |vs| && vs[p1] == Visit(keywords[i1], link) && vs[p2] == Visit(keywords[i2], link);
    assert CrawlRecords(keywords, search, fetch)[p1] == VisitRecord(vs[p1], fetch);
    assert CrawlRecords(keywords, search, fetch)[p2] == VisitRecord(vs[p2], fetch);
  }

  /** Every key of every record, record by record. */
  function AllKeys(records: seq<Record>): seq<string> {
    if records == [] then [] else Keys(records[0]) + AllKeys(records[1..])
  }

  /**
   * The column list of the exported table: the union of all record keys, in
   * order of first appearance.
   */
  function Columns(records: seq<Record>): seq<string> {
    Dedup(AllKeys(records))
  }

  /** A value occurs in AllKeys exactly when some record has it as a key. */
  lemma {:induction false} AllKeysHas(records: seq<Record>, k: string)
    ensures k in AllKeys(records) <==> exists i :: 0 <= i < |records| && k in Keys(records[i])
  {
    if records != [] {
      AllKeysHas(records[1..], k);
      if k in AllKeys(records[1..]) {
        var i :| 0 <= i < |records[1..]| && k in Keys(records[1..][i]);
        assert records[i + 1] == records[1..][i];
      }
      if exists i :: 0 <= i < |records| && k in Keys(records[i]) {
        var i :| 0 <= i < |records| && k in Keys(records[i]);
        if i > 0 {
          assert records[1..][i - 1] == records[i];
        }
      }
    }
  }

  /**
   * The columns are duplicate-free, are exactly the keys found in the
   * records, and begin with the three fixed keys when the crawl produced
   * any record.
   */
  lemma CrawlColumns(keywords: seq<string>, search: string -> seq<string>, fetch: string -> Page, k: string)
    ensures var cols := Columns(CrawlRecords(keywords, search, fetch));
      NoDuplicates(cols)
      && (k in cols <==> exists i :: 0 <= i < |CrawlRecords(keywords, search, fetch)|
                                   && k in Keys(CrawlRecords(keywords, search, fetch)[i]))
      && (|CrawlRecords(keywords, search, fetch)| > 0 ==> FixedKeys() <= cols)
  {
    var records := CrawlRecords(keywords, search, fetch);
    AllKeysHas(records, k);
    DedupHas(AllKeys(records), k);
    if |records| > 0 {
      var first := records[0];
      var v := Visits(keywords, search)[0];
      RecordKeys(v.keyword, v.link, fetch(v.link));
      DedupPrefix(Keys(first), AllKeys(records[1..]));
      DedupOfDistinct(Keys(first));
    }
  }
}
