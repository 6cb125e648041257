# Archivo del Libertador scraper and Zotero RDF transformer, modelled in Dafny

The repository has three core parts:

- Scrapy spiders that fetch document pages of the Archivo del Libertador and turn each page into a JSON record of eight `field_*` entries.
- A batch spider that keeps a crawl cursor in `state.json` and appends records to `documents.json`.
- A transformer that turns the stored records into a Zotero RDF tree.

This project models those parts and proves what they compute:

- `strings.dfy` (`Strings`): the Python string operations the code relies on. These are `strip`, `lstrip(':')` as a character strip, `in` as literal substring, `split(m)[-1]`, `' '.join`, `split(',')` and `replace('\n', '<br>')`.
- `decimal.dfy` (`Decimal`): `str(int)` and its inverse. They are used for document URLs and for `item_<i>`.
- `records.dfy` (`Records`): the scraped record. It has an optional `id`, `url`, `scraped_at`, a map from the eight fields to optional strings, and an optional `error`.
- `scraper.dfy` (`Scraper`): the three fragment extractors of scraper.py and record assembly in its `parse`. The two scanning loops are methods proved against functions. Those functions are then related to independent, non-looping reference definitions.
- `batch_spider.dfy` (`BatchSpider`): the batch planner, `handle_error`, the batch `parse` and `closed`. `BatchDocumentSpider` is a class whose state and two files are fields. test/batch_spider.py carries verbatim copies of the three extractors (test/batch_spider.py:139-208). They are modelled once, in `Scraper`, and used from there.
- `rdf.dfy` (`Rdf`): `RDFTransformer`. The XML tree is a value (tag, attributes, text, children), built child by child as the code does.

The model follows the code as written. Points a reader might not expect:

- `lstrip(':')` removes the whole run of leading colons (scraper.py:63).
- A fragment that holds "NOTAS" but no "Descripción:" ends the content scan even before any "Descripción:" fragment. In that case there is no content (scraper.py:93-95).
- Notes extraction starts at the first "NOTAS" fragment whether or not a "Descripción:" fragment came before (scraper.py:120).
- The planner never looks at `total_scraped` (test/batch_spider.py:66-67).
- `closed` never changes `current_batch`. It sets `last_id` to the largest stored id, which can be lower than the old cursor (test/batch_spider.py:216-218).

## Model

| member | source | states |
|---|---|---|
| Strings.Strip | scraper.py:59 | `str.strip()` leaves either nothing or a string that neither starts nor ends with whitespace, and is never longer than its input |
| Strings.StripEmptyIff | scraper.py:59 | a fragment strips to nothing exactly when every character of it is whitespace |
| Strings.StripInfix | scraper.py:59 | the stripped string is a contiguous piece of the original |
| Strings.LStripCharDrops | scraper.py:63 | `lstrip(':')` removes only colons from the front, and the result does not start with a colon |
| Strings.LStripCharPrefix | scraper.py:63 | `lstrip(':')` removes a whole run of leading colons, however long |
| Strings.SplitLastSpec | scraper.py:62 | `split(m)[-1]` contains no `m`; without `m` it is the whole string; with `m` it is the text after an occurrence of `m` |
| Strings.SplitLastOf | scraper.py:62 | for a label that cannot overlap itself, `split(label)[-1]` of `a + label + b` is `b` when `b` holds no label |
| Strings.SplitLastIsLast | scraper.py:62 | every occurrence of a non-self-overlapping label lies before the piece `split(label)[-1]` keeps |
| Strings.JoinTrimmed | scraper.py:59 | joining trimmed, non-empty parts with single spaces gives a trimmed string, empty exactly when there are no parts |
| Strings.JoinSnoc | scraper.py:102 | appending a part to a joined list adds the separator and the part |
| Strings.StrippedNonEmpty | scraper.py:59 | the kept fragments are stripped and non-empty, never more than the input |
| Strings.StrippedNonEmptyEmpty | scraper.py:59 | no fragment is kept exactly when every fragment strips to nothing |
| Strings.StripPadded | scraper.py:32 | `strip()` of a trimmed text with whitespace on both sides is the text |
| Strings.RStripSpaceSuffix | scraper.py:32 | `rstrip()` drops a run of trailing whitespace and nothing before it |
| Strings.SplitOn | rdfparser.py:54 | `split(',')` gives at least one piece, no piece contains a comma, and joining the pieces with commas gives the input back |
| Strings.ReplaceCharConcat | rdfparser.py:91 | `replace('\n', '<br>')` works piece by piece over a concatenation |
| Strings.ReplaceCharAbsent | rdfparser.py:91 | a text without newlines is unchanged by the replacement |
| Decimal.NatToString | test/batch_spider.py:72 | `str(n)` of a natural number is a non-empty digit string without a leading zero |
| Decimal.IntRoundTrip | test/batch_spider.py:72 | parsing `str(i)` gives `i` back |
| Decimal.IntToStringInjective | rdfparser.py:24 | different integers have different decimal forms |
| Records.KeyShape | scraper.py:21-27 | each JSON key is "field_", the field's number and '_'. `Key` stands for the key names the JSON writer uses; the record itself is keyed by `Field` |
| Records.KeyInjective | scraper.py:21-33 | different fields have different JSON key names, so keying the record by `Field` loses nothing |
| Scraper.LabelsOverlapFree | scraper.py:21-27 | every label scraper.py passes to `clean_field_content` is non-empty and cannot overlap itself, so the label lemmas apply to each real call |
| Scraper.MarkersOverlapFree | scraper.py:84-87 | neither "Descripción:" nor "NOTAS" can overlap itself, so `split(marker)[-1]` is the text after the last occurrence |
| Scraper.JoinedTextTrimmed | scraper.py:59 | the joined text is empty or trimmed, and empty exactly when every fragment strips to nothing |
| Scraper.CleanFieldContent | scraper.py:54-66 | `None` for no fragments; never the empty string; a result is trimmed and holds no label; without the label in the joined text, the joined text or `None` if it is empty |
| Scraper.CleanFieldAfterLabel | scraper.py:61-64 | with the label in the joined text, the result is the text after its last occurrence with surrounding whitespace and every leading colon removed, or `None` if nothing remains |
| Scraper.CleanFieldLabelled | scraper.py:59-64 | label, spaces, any number of colons, spaces and a value give exactly that value |
| Scraper.LabelSeparatorStripped | scraper.py:62-63 | the strip, colon strip and strip chain removes exactly the separator before a value |
| Scraper.FinishTrimmed | scraper.py:102-103 | the parts space-joined, or `None` when there are none; a result is trimmed |
| Scraper.FinishPair | scraper.py:102-103 | two trimmed parts are joined by exactly one space |
| Scraper.AfterMarker | scraper.py:87-89 | a marker fragment adds at most one piece |
| Scraper.ContentLoopTrimmed | scraper.py:77-99 | every collected content part is trimmed and non-empty |
| Scraper.ContentOfTrimmed | scraper.py:101-103 | the content is `None` or trimmed text, never the empty string |
| Scraper.ExtractDocumentContent | scraper.py:68-103 | the loop with its two flags computes the content the scan function defines |
| Scraper.CollectingUntilStop | scraper.py:84-99 | once collecting, the scan adds the pieces of every fragment up to the first NOTAS-only fragment and nothing after it |
| Scraper.ContentReference | scraper.py:77-99 | the scan equals the pieces of the run from the first "Descripción:" fragment to the first NOTAS-only fragment, empty if a NOTAS-only fragment comes first |
| Scraper.ContentRunMarker | scraper.py:84-90 | a marker fragment adds only its text after the last "Descripción:", even when it also holds "NOTAS" |
| Scraper.ContentRunSkip | scraper.py:80-99 | fragments before the first marker that are not NOTAS-only add nothing |
| Scraper.ContentIgnoresAfterStop | scraper.py:93-95 | whatever follows the first NOTAS-only fragment never changes the content |
| Scraper.ContentNeedsMarker | scraper.py:93-103 | the content is `None` when no "Descripción:" fragment comes before the first NOTAS-only fragment |
| Scraper.ContentExample | scraper.py:68-103 | `[".. Descripción: A", "B", "NOTAS C", "D"]` gives content "A B" |
| Scraper.NotesLoopTrimmed | scraper.py:113-130 | every collected notes part is trimmed and non-empty |
| Scraper.NotesOfTrimmed | scraper.py:132-134 | the notes are `None` or trimmed text, never the empty string |
| Scraper.ExtractNotesSection | scraper.py:105-134 | the loop with its flag computes the notes the scan function defines |
| Scraper.FirstNotas | scraper.py:120 | the index of the first fragment holding "NOTAS", or the length when there is none |
| Scraper.CollectingNotesToEnd | scraper.py:119-130 | once collecting, every later fragment adds its piece, up to the end |
| Scraper.NotesReference | scraper.py:113-130 | the notes are the pieces of every fragment from the first "NOTAS" fragment on, with no dependence on "Descripción:" |
| Scraper.NotesNeedMarker | scraper.py:120-134 | no fragment with "NOTAS" gives `None` |
| Scraper.NotesExample | scraper.py:105-134 | `[".. Descripción: A", "B", "NOTAS C", "D"]` gives notes "C D" |
| Scraper.TitleOf | scraper.py:32 | no title or an empty title gives `None`; any other title gives a present value that is empty or trimmed |
| Scraper.TitleOfPadded | scraper.py:32 | a title with whitespace around it is stored as the title itself |
| Scraper.TitleOfBlank | scraper.py:32 | a title of whitespace only is stored as the empty string, not as `None` |
| Scraper.TitleOfTrimmed | scraper.py:32 | a title without surrounding whitespace is kept as is |
| Scraper.TableKeys | scraper.py:21-27 | every key of the label table is among the keys filled |
| Scraper.FilledFieldsSpec | scraper.py:36-38 | the loop over the label table adds exactly the table's keys, each with `clean_field_content` of its paragraph texts and label, and keeps every other key |
| Scraper.FillLabelledFields | scraper.py:36-38 | the imperative loop fills the fields the specification function defines |
| Scraper.FieldsKeys | scraper.py:21-27 | the five labelled fields are distinct and exclude title, content and notes |
| Scraper.PageFieldsKeys | scraper.py:29-50 | the record's fields are the table's keys plus title, content and notes |
| Scraper.PageFieldsTitle | scraper.py:32 | the title field is the stripped title or `None` |
| Scraper.PageFieldsLabelled | scraper.py:36-38 | each labelled field is `clean_field_content` of its paragraph texts |
| Scraper.PageFieldsDescription | scraper.py:41-50 | without a "Descripción:" paragraph, content and notes are both `None`; with one, they are the two scans of its text nodes |
| Scraper.AssembleFields | scraper.py:29-50 | the fields assembled step by step are the record's fields |
| Scraper.ParsedKeys | scraper.py:21-50 | scraper.py's record has all eight fields |
| Scraper.Parse | scraper.py:16-52 | the record has no `id` and no `error`, the page's url, the fixed date and the assembled fields |
| BatchSpider.DocUrlInjective | test/batch_spider.py:72 | different ids are fetched from different URLs |
| BatchSpider.RangeSpec | test/batch_spider.py:71 | `range(lo, hi + 1)` is `lo, lo+1, …, hi`, empty when `lo > hi` |
| BatchSpider.PlannedIdsSpec | test/batch_spider.py:66-71 | the planned ids are the contiguous ascending run after `last_id`, at most `BATCH_SIZE` of them, none past the last document, and empty exactly when the cursor has reached it |
| BatchSpider.PlannedIdsFull | test/batch_spider.py:67 | a full batch is planned while enough documents remain |
| BatchSpider.PlanAfterFive | test/batch_spider.py:66-71 | with `last_id = 5` the plan is `[6, 7]` |
| BatchSpider.FreshPlanStarts | test/batch_spider.py:37-41 | a first run plans `START_ID` and the next id |
| BatchSpider.PlansChain | test/batch_spider.py:66-71 | advancing the cursor to the end of a plan makes the next plan start right after it |
| BatchSpider.BatchLabelsOverlapFree | test/batch_spider.py:88-93 | every label the batch spider passes is non-empty and cannot overlap itself |
| BatchSpider.BatchTable | test/batch_spider.py:88-93 | the batch label table fills fields 2 to 5, each once |
| BatchSpider.BatchKeys | test/batch_spider.py:95-114 | the batch record has every field except the translation |
| BatchSpider.BatchParse | test/batch_spider.py:80-117 | the record carries the request's id, the page's url, the given time, no error and the assembled fields |
| BatchSpider.ErrorRecord | test/batch_spider.py:119-137 | the placeholder has the failed id, the URL built from it, the seven fields all `None` and the error text |
| BatchSpider.ErrorRecordMatchesParse | test/batch_spider.py:95-137 | a failed and a fetched document give records with the same id and the same keys |
| BatchSpider.MaxId | test/batch_spider.py:216 | `max(doc['id'])` is at least every stored id and is one of them |
| BatchSpider.ClosedStateSpec | test/batch_spider.py:215-219 | after closing with stored records, `last_id` is the largest stored id, `total_scraped` the number of records, and `current_batch` unchanged |
| BatchSpider.ClosedEmptyKeeps | test/batch_spider.py:215 | closing with no stored records leaves the state unchanged |
| BatchSpider.ClosedCanLower | test/batch_spider.py:216-217 | closing can move `last_id` below its old value |
| BatchSpider.Spider.constructor | test/batch_spider.py:25-29 | the spider starts from the state file, or from the default state, which is then written |
| BatchSpider.Spider.LoadState | test/batch_spider.py:31-42 | the state is the file's content, or `last_id = START_ID - 1`, nothing scraped, batch 0, saved to the file |
| BatchSpider.Spider.SaveState | test/batch_spider.py:44-47 | the state file holds the current state and nothing else changes |
| BatchSpider.Spider.LoadExistingData | test/batch_spider.py:49-54 | the stored records, none when documents.json is missing |
| BatchSpider.Spider.SaveBatch | test/batch_spider.py:56-62 | documents.json becomes the old records followed by the batch, in order: nothing removed, reordered or merged |
| BatchSpider.Spider.StartRequests | test/batch_spider.py:64-78 | one request per planned id, in order, each for that id's URL |
| BatchSpider.Spider.Closed | test/batch_spider.py:210-222 | the state becomes what `ClosedState` defines. It is saved only when records are stored. A record without an id raises and leaves the state as it was. documents.json is untouched |
| Rdf.NamespaceAttrs | rdfparser.py:7-20 | the root gets one `xmlns:<prefix>` attribute per namespace, in order |
| Rdf.AddElement | rdfparser.py:99-105 | a truthy text adds exactly one child with that tag and text and returns it; otherwise the parent is unchanged and `None` is returned |
| Rdf.ItemIdInjective | rdfparser.py:23-24 | different positions get different item ids |
| Rdf.CreateMainDescription | rdfparser.py:39-82 | the description built step by step is the one read off the record |
| Rdf.AddKeywords | rdfparser.py:51-55 | the keyword loop appends the subjects of the keywords field after the earlier children |
| Rdf.AddIdentifier | rdfparser.py:63-67 | the url block appends a `dc:identifier` holding a `dcterms:URI` with the url as `rdf:value` exactly when the url is non-empty |
| Rdf.AddPlacePeople | rdfparser.py:71-80 | the place and people block appends the combined description, if any |
| Rdf.SubjectsSpec | rdfparser.py:52-55 | one `dc:subject` per comma-separated piece, stripped, blank ones dropped, in order |
| Rdf.WithTagSpec | rdfparser.py:39-82 | filtering children by tag keeps exactly the children with that tag |
| Rdf.WithTagConcat | rdfparser.py:39-82 | filtering by tag works block by block |
| Rdf.MainChildrenByTag | rdfparser.py:39-82 | for each tag, the description's children with that tag are exactly what the record determines. `z:itemType` "document", the back-reference, `z:language` "es" and `z:archive` "Archivo del Libertador" are always there |
| Rdf.MainDescriptionIdentifier | rdfparser.py:63-67 | the identifier element is there exactly when the url is non-empty, and its value is the url |
| Rdf.MainDescriptionSubjects | rdfparser.py:52-55 | the description's subjects are the stripped, non-empty comma pieces of the keywords, none without keywords |
| Rdf.MainDescriptionPlacePeople | rdfparser.py:72-80 | at most one `dc:description`, present exactly when lugares or personas is non-empty |
| Rdf.MainDescriptionFixed | rdfparser.py:41-47 | every description has `rdf:about` equal to the record's url, no text, and starts with the item type and the back-reference |
| Rdf.PlacePeopleSpec | rdfparser.py:72-80 | the combined text is `Lugar:"<lugares>"`, then a newline and `Gente:<personas>`, each present only when its field is; stripping removes the dangling newline and the trailing whitespace of personas |
| Rdf.CreateContentMemo | rdfparser.py:84-97 | the memo built step by step is the one for the record's content |
| Rdf.MemoTextSpec | rdfparser.py:90-95 | the memo text has no newline left, and a one-line content sits verbatim inside the Zotero wrapper |
| Rdf.MemoTextLines | rdfparser.py:90-95 | two lines become their texts around `<br>`, inside the wrapper |
| Rdf.FlattenLayout | rdfparser.py:23-33 | in the appended elements, each record's block sits right after the blocks of the records before it |
| Rdf.ItemBlocksPrefix | rdfparser.py:23-33 | the loop's blocks grow by one record's elements per step, numbered from 1 |
| Rdf.JsonToRdf | rdfparser.py:15-37 | the tree the two loops build is the root with the namespace declarations and every record's elements in order |
| Rdf.ItemsLayout | rdfparser.py:23-33 | record `i` yields its description at its place, pointing at `#item_<i+1>`, followed immediately by its memo exactly when its content is non-empty |
| Rdf.ItemsCount | rdfparser.py:23-33 | the root has one description per record plus one memo per record with content |
| Rdf.BackReference | rdfparser.py:24-47 | a description's `isReferencedBy` resource and its memo's `rdf:about` name the same `#item_<i>` |

## Left out

- Scrapy plumbing: settings, robots.txt, delays, the user agent, scheduling and callbacks. CSS selection is also left out: a `Page` carries the url, the title text, each label's paragraph text nodes, and whether a "Descripción:" paragraph exists together with its text nodes.
- File I/O: `state.json` and `documents.json` are in-memory fields of the spider, with `None` for a missing file. JSON encoding, indentation and non-atomic writes are not modelled.
- The clock: `datetime.now()` in the batch spider is a `scrapedAt` parameter. scraper.py's fixed date is the constant `SCRAPED_AT`.
- The logger calls carry no behaviour and are left out.
- `closed`'s `hasattr(self, 'state')` always holds after the constructor and is not modelled. Its `KeyError` for a record without `id` is the `raised` result.
- `handle_error`'s failure object is reduced to the `id` taken from its request and the error text `str(failure.value)`.
- Scraper.CleanFieldContent: requires a non-empty label, because Python's `split('')` raises. Every caller passes a fixed, non-empty label.
- Rdf.CreateContentMemo: requires the content entry to be there. `json_to_rdf` calls it only for a present, non-empty content.
- Rdf: `_pretty_write`, `ET.tostring`, minidom and text escaping are library behaviour and are left out. The model stops at the element tree.
- Rdf: elements are values. The aliasing of `ET.SubElement`, where a child is changed after it is attached, is captured only in its effect: the finished child.
- rdfparser.py's `doc['url']` `KeyError` for a record without a url is not modelled. A record always has a url.
- test/run_batches.py, a subprocess-and-sleep loop, is not part of this model.
- main_parser.py, a script that loads JSON and calls the transformer, is not part of this model.
- Scrapy's feed export, which is where the batch spider's items go, is not modelled. Nothing in the spider calls `save_batch`; it is modelled on its own.
- Strings are sequences of code points; Python's byte-level UTF-8 encoding of the output files is not modelled.
