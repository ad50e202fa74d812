# Program-listing scraper: a Dafny model of the crawl-and-assemble loop

The scraper searches a course-listing site for each keyword of a fixed list.
For each keyword it collects the links to program detail pages and drops
repeated links, keeping the order in which they first appear. It then visits
every link and assembles one record per page. A record is an
insertion-ordered dictionary that starts with three fixed columns: keyword
(`คำค้นหา`), university (`มหาวิทยาลัย`) and link (`ลิงก์`). It then holds one
entry per distinct label among the paired `<dt>`/`<dd>` texts of the page's
definition list. A repeated label keeps its first position and takes the last
value. A label equal to a fixed column overwrites that column. All records are
appended to one list, keyword by keyword and link by link, and that list is
exported as a table.

This model keeps the deterministic part of that loop and turns the browser
into two inputs:

- `search: string -> seq<string>` gives the result hrefs for a keyword.
- `fetch: string -> Page` gives the parsed detail page behind a link.

A `Page` holds its anchors, each with an optional `href` and its stripped
text, and its first `<dl>`, if any, as the stripped texts of its `<dt>` and
`<dd>` elements.

Modules:

- `Links` (links.dfy): de-duplication in first-seen order (`Dedup`, its
  reference `FirstIndices`) and the collection loop `CollectLinks`.
- `OrderedDict` (ordered_dict.dfy): a Python dict as a list of entries, with
  `d[k] = v` as `Assign`. An existing key keeps its place and a new key goes
  last.
- `Extract` (extract.dfy): the university fallback, Python's `zip`, and the
  record assembly loop `BuildRecord`, specified by `ProgramRecord`.
- `Crawl` (crawl.dfy): the nested keyword/link loops `Crawl` and `Scrape`,
  specified by `Visits` and `CrawlRecords`, and the union column schema
  `Columns`.
- `Wrappers` (wrappers.dfy): `Option`, a shared helper.

The model follows the code on three points a reader might not expect:

- `zip` silently drops unmatched `<dt>` or `<dd>` elements. Nothing reports
  a length mismatch.
- A label equal to a fixed column name overwrites that column.
- A university anchor with empty text gives an empty university name, not
  the sentinel.

## Model

| member | source | states |
|---|---|---|
| `Links.Dedup` | scrape_web_aiAndCom.py:32-37 | the collected list has no duplicates and is no longer than the input |
| `Links.FirstIndices` | scrape_web_aiAndCom.py:33-37 | the positions of first occurrences: ascending, each one a first occurrence, and every first occurrence listed |
| `Links.DedupHas` | scrape_web_aiAndCom.py:36-37 | a value is collected exactly when it occurs among the hrefs |
| `Links.DedupAtFirstIndices` | scrape_web_aiAndCom.py:33-37 | the collected list is the input read at its first-occurrence positions, so it is a subsequence that keeps first-seen order |
| `Links.CollectLinks` | scrape_web_aiAndCom.py:32-37 | the loop starting from an empty list returns exactly `Dedup(hrefs)`: duplicate-free, with the same values as the input |
| `OrderedDict.AssignKeys` | scrape_web_aiAndCom.py:64 | `d[k] = v` keeps the key order when `k` is present, and otherwise appends `k` last |
| `OrderedDict.AssignLookup` | scrape_web_aiAndCom.py:64 | after `d[k] = v`, `k` maps to `v` and every other key keeps its old value or stays absent |
| `OrderedDict.AssignKeepsDistinct` | scrape_web_aiAndCom.py:64 | assignment never makes a key occur twice |
| `OrderedDict.AssignAllKeys` | scrape_web_aiAndCom.py:61-64 | after a run of assignments the keys are the old keys, then new keys in order of first assignment, each once |
| `OrderedDict.AssignAllLookup` | scrape_web_aiAndCom.py:61-64 | after a run of assignments each key holds the last value assigned to it, or its old value if it was never assigned |
| `Extract.FirstUniversityAnchor` | scrape_web_aiAndCom.py:49 | finds the first anchor whose href is present and starts with `/universities/`, or reports that none exists |
| `Extract.UniversityName` | scrape_web_aiAndCom.py:49-50 | the name is the text of the first university anchor, and the sentinel `ไม่พบชื่อมหาวิทยาลัย` when there is none |
| `Extract.Zip` | scrape_web_aiAndCom.py:61 | pairs have length min(#dt, #dd) and the i-th pair is the i-th label with the i-th value, so any extra dt or dd is dropped |
| `Extract.BuildRecord` | scrape_web_aiAndCom.py:49-64 | the assembled record equals `ProgramRecord`: the three fixed entries, then one assignment per zipped pair, in order |
| `Extract.FixedFieldsShape` | scrape_web_aiAndCom.py:54-58 | the initial dict has exactly the three distinct fixed keys, mapped to keyword, university and link |
| `Extract.RecordWithoutDescriptionList` | scrape_web_aiAndCom.py:53-60 | with no `<dl>`, the record has exactly the three fixed keys, mapped to keyword, university and link |
| `Extract.RecordKeys` | scrape_web_aiAndCom.py:54-64 | record keys are the three fixed keys, then the paired labels in order of first appearance; no key occurs twice |
| `Extract.RecordLabelValue` | scrape_web_aiAndCom.py:60-64 | a paired label maps to the value of its last pairing, overriding earlier pairings and a fixed entry of the same name |
| `Extract.RecordUnpairedKey` | scrape_web_aiAndCom.py:54-64 | a key that no paired label equals keeps its fixed value, or stays absent |
| `Extract.RecordFixedValues` | scrape_web_aiAndCom.py:54-64 | keyword, university and link survive in the record unless a paired label has the same name |
| `Extract.RecordSize` | scrape_web_aiAndCom.py:60-64 | with equal #dt and #dd, distinct labels and none named like a fixed key, the record has 3 + #dt entries |
| `Crawl.Crawl` | scrape_web_aiAndCom.py:16-66 | the nested loops return `CrawlRecords`, one record per visit in visit order, and the count is the sum over keywords of the distinct-link counts |
| `Crawl.Scrape` | scrape_web_aiAndCom.py:9-66 | for the two fixed keywords, the records are the crawl's, and there are as many as the two keywords' distinct links together |
| `Crawl.VisitCount` | scrape_web_aiAndCom.py:32-42 | the number of visits is the sum over keywords of each keyword's distinct-link count |
| `Crawl.VisitOrder` | scrape_web_aiAndCom.py:18-42 | the visit for the j-th distinct link of the i-th keyword comes right after all visits of earlier keywords and earlier links |
| `Crawl.CrawlOrder` | scrape_web_aiAndCom.py:18-66 | the record at that position is built from the i-th keyword, its j-th distinct link and that link's page |
| `Crawl.SharedLink` | scrape_web_aiAndCom.py:18-42 | a link found for two keywords is visited twice, once under each keyword, the earlier keyword first |
| `Crawl.SharedLinkRecords` | scrape_web_aiAndCom.py:18-66 | a link found for two keywords gives two records, the one built under the earlier keyword first |
| `Crawl.CrawlColumns` | scrape_web_aiAndCom.py:71 | the union column list is duplicate-free, holds exactly the keys found in some record, and starts with the three fixed keys whenever any record exists |

## Left out

- Browser control is not modelled: driver setup, navigation, typing into the search box, the fixed `time.sleep` waits and `driver.quit()` (lines 12-14, 20-29, 43-44, 68). The search result and each page's contents are inputs.
- HTML parsing with BeautifulSoup and `get_text(strip=True)` (lines 46, 49, 53, 61-63) is not modelled. Anchors and the first `<dl>` arrive already extracted, with stripped texts. How `find_all` walks nested elements is not modelled.
- The CSS selection `a[href^='/programs/']` and the browser turning an href attribute into an absolute URL (lines 33, 35) are part of `search`. `search` returns the hrefs exactly as the loop sees them.
- `fetch` is a function, so the same link gives the same page under every keyword. Pages that change between two loads of the same link are not modelled.
- The pandas `DataFrame` construction and `to_excel` export (lines 71-72) are not modelled. `Crawl.Columns` is the union-of-keys schema the exported table is meant to have. How pandas orders columns and fills missing cells is not claimed.
- The `print` statements (lines 39, 74) are console output only.
- App_dashboard.py is not part of this model. It is dashboard wiring over a spreadsheet read from disk, with floating-point group-by means.
- A failing navigation aborts the whole run in the script. The model has no failing navigation, because `search` and `fetch` are total.
