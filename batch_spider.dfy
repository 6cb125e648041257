/** The batch spider (test/batch_spider.py): a crawl cursor kept in a state
    file, a planner that asks for the next few document ids, the record of
    one fetched or failed document, and the bookkeeping done when the spider
    closes. The two JSON files are held in memory: `None` stands for a
    file that does not exist. */
module BatchSpider {
  import opened Strings
  import opened Decimal
  import opened Records
  import opened Scraper

  const BATCH_SIZE := 2
  const TOTAL_ITEMS := 10
  const START_ID := 1

  /** The document page for an id. */
  const URL_PREFIX := "https://www.archivodellibertador.gob.ve/archlib/web/index.php/site/documento?id="

  function DocUrl(docId: int): string {
    URL_PREFIX + IntToString(docId)
  }

  /** Different ids give different URLs. */
  lemma {:induction false} DocUrlInjective(i: int, j: int)
    requires DocUrl(i) == DocUrl(j)
    ensures i == j
  {
    PrefixedInjective(URL_PREFIX, i, j);
  }

  /** The content of state.json. */
  datatype CrawlState = CrawlState(lastId: int, totalScraped: int, currentBatch: int)

  /** The state of a first run: nothing scraped, the cursor just before
      the first id. */
  const DEFAULT_STATE := CrawlState(START_ID - 1, 0, 0)

  // ---------------------------------------------------------------------
  // Planning a batch

  /** `min(current_id + BATCH_SIZE - 1, START_ID + TOTAL_ITEMS - 1)` with
      `current_id = last_id + 1`. */
  function PlanEnd(lastId: int): int {
    var bySize := lastId + 1 + BATCH_SIZE - 1;
    var byTotal := START_ID + TOTAL_ITEMS - 1;
    if bySize < byTotal then bySize else byTotal
  }

  /** `list(range(lo, hi + 1))`. */
  function Range(lo: int, hi: int): seq<int>
    decreases hi - lo
  {
    if lo > hi then [] else Range(lo, hi - 1) + [hi]
  }

  /** The ids `start_requests` asks for. */
  function PlannedIds(lastId: int): seq<int> {
    Range(lastId + 1, PlanEnd(lastId))
  }

  /** A range is its bounds counted upwards, one by one. */
  lemma {:induction false} RangeSpec(lo: int, hi: int)
    ensures |Range(lo, hi)| == if lo > hi then 0 else hi - lo + 1
    ensures forall k :: 0 <= k < |Range(lo, hi)| ==> Range(lo, hi)[k] == lo + k
    decreases hi - lo
  {
    if lo <= hi {
      RangeSpec(lo, hi - 1);
    }
  }

  /** The plan is the ids after `lastId`, ascending without gaps, at most
      `BATCH_SIZE` of them and none past the last document; it is empty
      exactly when the cursor has reached the last document. */
  lemma {:induction false} PlannedIdsSpec(lastId: int)
    ensures var ids := PlannedIds(lastId);
      |ids| <= BATCH_SIZE &&
      (ids == [] <==> lastId >= START_ID + TOTAL_ITEMS - 1) &&
      (forall k :: 0 <= k < |ids| ==> ids[k] == lastId + 1 + k) &&
      (forall k :: 0 <= k < |ids| ==> lastId < ids[k] <= START_ID + TOTAL_ITEMS - 1)
  {
    RangeSpec(lastId + 1, PlanEnd(lastId));
  }

  /** A plan takes every id up to the batch size or the last document,
      whichever comes first. */
  lemma {:induction false} PlannedIdsFull(lastId: int)
    requires lastId + BATCH_SIZE <= START_ID + TOTAL_ITEMS - 1
    ensures |PlannedIds(lastId)| == BATCH_SIZE
  {
    RangeSpec(lastId + 1, PlanEnd(lastId));
  }

  /** After document 5 the plan is documents 6 and 7. */
  lemma {:induction false} PlanAfterFive()
    ensures PlannedIds(5) == [6, 7]
  {
    assert Range(6, 6) == Range(6, 5) + [6];
  }

  /** A fresh state starts the crawl at the first document. */
  lemma {:induction false} FreshPlanStarts()
    ensures PlannedIds(DEFAULT_STATE.lastId) == [START_ID, START_ID + 1]
  {
    assert Range(1, 1) == Range(1, 0) + [1];
  }

  /** Consecutive rounds that each move the cursor to the end of their plan
      ask for adjacent, non-overlapping id ranges. */
  lemma {:induction false} PlansChain(lastId: int)
    requires PlannedIds(lastId) != []
    ensures var ids := PlannedIds(lastId);
      var next := PlannedIds(ids[|ids| - 1]);
      next == [] || next[0] == ids[|ids| - 1] + 1
  {
    var ids := PlannedIds(lastId);
    PlannedIdsSpec(lastId);
    PlannedIdsSpec(ids[|ids| - 1]);
  }

  /** `scrapy.Request(url=..., meta={'doc_id': doc_id}, ...)`; the callbacks
      are always `parse` and `handle_error`. */
  datatype Request = Request(url: string, docId: int)

  function RequestFor(docId: int): Request {
    Request(DocUrl(docId), docId)
  }

  // ---------------------------------------------------------------------
  // Records of one document

  /** The fields of the batch spider's `parse`: fields 2 to 5, no field 8. */
  const BATCH_FIELDS: seq<(Field, string)> := [
    (Seccion, "Sección"),
    (Personas, "Personas"),
    (Lugares, "Lugares"),
    (PalabrasClave, "Palabras Clave")]

  /** The batch labels are among scraper.py's, so none of them can overlap
      itself either. */
  lemma {:induction false} BatchLabelsOverlapFree()
    ensures forall k :: 0 <= k < |BATCH_FIELDS| ==> BATCH_FIELDS[k].1 != [] && SelfOverlapFree(BATCH_FIELDS[k].1)
  {
    LabelsOverlapFree();
    assert forall k :: 0 <= k < |BATCH_FIELDS| ==> BATCH_FIELDS[k] == FIELDS[k];
  }

  /** The batch table fills fields 2 to 5, each once. */
  lemma {:induction false} BatchTable()
    ensures LabelTable(BATCH_FIELDS)
    ensures forall f :: f in TableKeys(BATCH_FIELDS) <==> f.Seccion? || f.Personas? || f.Lugares? || f.PalabrasClave?
  {
    forall f | f in TableKeys(BATCH_FIELDS)
      ensures f.Seccion? || f.Personas? || f.Lugares? || f.PalabrasClave?
    {
      TableKeysOnly(BATCH_FIELDS, f);
    }
    assert BATCH_FIELDS[0].0 == Seccion && BATCH_FIELDS[1].0 == Personas;
    assert BATCH_FIELDS[2].0 == Lugares && BATCH_FIELDS[3].0 == PalabrasClave;
  }

  /** The batch record has every field but the translation. */
  lemma {:induction false} BatchKeys(page: Page)
    ensures LabelTable(BATCH_FIELDS)
    ensures forall f :: f in PageFields(page, BATCH_FIELDS) <==> !f.Traduccion?
  {
    BatchTable();
    PageFieldsKeys(page, BATCH_FIELDS);
  }

  /** The batch spider's `parse`: the record of a fetched document, with
      the id carried by its request and the time of the clock. */
  method BatchParse(page: Page, docId: int, scrapedAt: string) returns (r: Record)
    ensures r.id == Some(docId) && r.url == page.url && r.scrapedAt == scrapedAt && r.error == None
    ensures r.fields == PageFields(page, BATCH_FIELDS)
  {
    var fields := AssembleFields(page, BATCH_FIELDS);
    r := Record(Some(docId), page.url, scrapedAt, fields, None);
  }

  /** `handle_error`: the placeholder record of a failed request. */
  function ErrorRecord(docId: int, scrapedAt: string, failure: string): (r: Record)
    ensures r.id == Some(docId) && r.url == DocUrl(docId) && r.error == Some(failure)
    ensures forall f :: f in r.fields <==> !f.Traduccion?
    ensures forall f :: f in r.fields ==> r.fields[f] == None
  {
    Record(Some(docId), DocUrl(docId), scrapedAt,
      map[Title := None, Seccion := None, Personas := None, Lugares := None,
          PalabrasClave := None, Content := None, Notas := None],
      Some(failure))
  }

  /** A failed request and a fetched page for the same id give records with
      the same id and the same keys. */
  lemma {:induction false} ErrorRecordMatchesParse(page: Page, docId: int, t: string, failure: string)
    ensures ErrorRecord(docId, t, failure).id == Some(docId)
    ensures ErrorRecord(docId, t, failure).fields.Keys == PageFields(page, BATCH_FIELDS).Keys
  {
    BatchKeys(page);
  }

  // ---------------------------------------------------------------------
  // Closing

  /** Every stored record has an `id` key. */
  predicate AllHaveIds(records: seq<Record>) {
    forall k :: 0 <= k < |records| ==> records[k].id.Some?
  }

  /** `max(doc['id'] for doc in existing_data)`. */
  function MaxId(records: seq<Record>): (m: int)
    requires records != [] && AllHaveIds(records)
    ensures forall k :: 0 <= k < |records| ==> records[k].id.value <= m
    ensures exists k :: 0 <= k < |records| && records[k].id.value == m
    decreases |records|
  {
    var last := records[|records| - 1].id.value;
    if |records| == 1 then last
    else
      var m := MaxId(records[..|records| - 1]);
      assert forall k :: 0 <= k < |records| - 1 ==> records[..|records| - 1][k] == records[k];
      if m < last then last else m
  }

  /** What `closed` leaves in the state for the stored records: with none,
      the old state; otherwise the greatest stored id and the number of
      records. `None` when `doc['id']` fails on a record without an id. */
  function ClosedState(s: CrawlState, stored: seq<Record>): Option<CrawlState> {
    if stored == [] then Some(s)
    else if !AllHaveIds(stored) then None
    else Some(s.(lastId := MaxId(stored), totalScraped := |stored|))
  }

  /** What `closed` promises: the cursor at the greatest stored id, the
      count of stored records, and the batch number untouched. */
  lemma {:induction false} ClosedStateSpec(s: CrawlState, stored: seq<Record>)
    requires stored != [] && AllHaveIds(stored)
    ensures var c := ClosedState(s, stored);
      c.Some? && c.value.totalScraped == |stored| && c.value.currentBatch == s.currentBatch &&
      (forall k :: 0 <= k < |stored| ==> stored[k].id.value <= c.value.lastId) &&
      (exists k :: 0 <= k < |stored| && stored[k].id.value == c.value.lastId)
  {
  }

  /** Closing without stored records changes nothing. */
  lemma {:induction false} ClosedEmptyKeeps(s: CrawlState)
    ensures ClosedState(s, []) == Some(s)
  {
  }

  /** Closing can move the cursor backwards: the stored ids decide, not the
      old cursor. */
  lemma {:induction false} ClosedCanLower()
    ensures var stored := [Record(Some(2), DocUrl(2), "", map[], None)];
      var c := ClosedState(CrawlState(9, 3, 1), stored);
      c == Some(CrawlState(2, 1, 1)) && c.value.lastId < 9
  {
    var stored := [Record(Some(2), DocUrl(2), "", map[], None)];
    assert MaxId(stored) == 2;
  }

  // ---------------------------------------------------------------------
  // The spider

  class Spider {
    /** `self.state`. */
    var state: CrawlState
    /** state.json, `None` when it does not exist. */
    var stateFile: Option<CrawlState>
    /** documents.json, `None` when it does not exist. */
    var outputFile: Option<seq<Record>>

    /** The records documents.json holds, none when it is missing. */
    function Stored(): seq<Record>
      reads this
    {
      if outputFile.Some? then outputFile.value else []
    }

    /** `__init__`: remember both files and load the state. */
    constructor (stateFile0: Option<CrawlState>, outputFile0: Option<seq<Record>>)
      ensures state == (if stateFile0.Some? then stateFile0.value else DEFAULT_STATE)
      ensures stateFile == Some(state) && outputFile == outputFile0
    {
      stateFile := stateFile0;
      outputFile := outputFile0;
      state := DEFAULT_STATE;
      new;
      LoadState();
    }

    /** `load_state`: read state.json, or start from the default state and
      write it. */
    method LoadState()
      modifies this
      ensures state == (if old(stateFile).Some? then old(stateFile).value else DEFAULT_STATE)
      ensures stateFile == Some(state) && outputFile == old(outputFile)
    {
      if stateFile.Some? {
        state := stateFile.value;
      } else {
        state := DEFAULT_STATE;
        SaveState();
      }
    }

    /** `save_state`: write the state to state.json. */
    method SaveState()
      modifies this
      ensures stateFile == Some(state) && state == old(state) && outputFile == old(outputFile)
    {
      stateFile := Some(state);
    }

    /** `load_existing_data`. */
    method LoadExistingData() returns (data: seq<Record>)
      ensures outputFile.None? ==> data == []
      ensures outputFile.Some? ==> data == outputFile.value
    {
      if outputFile.Some? {
        data := outputFile.value;
      } else {
        data := [];
      }
    }

    /** `save_batch`: documents.json becomes the stored records followed by
      the batch; nothing is dropped, reordered or merged. */
    method SaveBatch(batch: seq<Record>)
      modifies this
      ensures outputFile == Some(old(Stored()) + batch)
      ensures Stored()[..|old(Stored())|] == old(Stored()) && Stored()[|old(Stored())|..] == batch
      ensures state == old(state) && stateFile == old(stateFile)
    {
      var existingData := LoadExistingData();
      existingData := existingData + batch;
      outputFile := Some(existingData);
      assert Stored()[..|old(Stored())|] == old(Stored());
    }

    /** `start_requests`: one request per planned id, in order. */
    method StartRequests() returns (requests: seq<Request>)
      ensures |requests| == |PlannedIds(state.lastId)|
      ensures forall k :: 0 <= k < |requests| ==> requests[k] == RequestFor(PlannedIds(state.lastId)[k])
    {
      var currentId := state.lastId + 1;
      var endId := PlanEnd(state.lastId);
      ghost var ids := PlannedIds(state.lastId);
      assert ids == Range(currentId, endId);
      RangeSpec(currentId, endId);
      requests := [];
      var docId := currentId;
      while docId <= endId
        invariant currentId <= docId
        invariant if currentId <= endId then docId <= endId + 1 else docId == currentId
        invariant |requests| == docId - currentId
        invariant forall k :: 0 <= k < |requests| ==> requests[k] == RequestFor(currentId + k)
        decreases endId + 1 - docId
      {
        requests := requests + [RequestFor(docId)];
        docId := docId + 1;
      }
    }

    /** `closed`: with stored records, move the cursor to the greatest
      stored id, count the records and write the state. `raised` is the
      `KeyError` of a stored record without an id, which leaves the state
      as it was. */
    method Closed() returns (raised: bool)
      modifies this
      ensures raised <==> old(ClosedState(state, Stored())).None?
      ensures !raised ==> state == old(ClosedState(state, Stored())).value
      ensures raised || old(Stored()) == [] ==> state == old(state) && stateFile == old(stateFile)
      ensures !raised && old(Stored()) != [] ==> stateFile == Some(state)
      ensures outputFile == old(outputFile)
    {
      var existingData := LoadExistingData();
      raised := false;
      if existingData != [] {
        if !AllHaveIds(existingData) {
          raised := true;
          return;
        }
        var lastId := MaxId(existingData);
        state := state.(lastId := lastId);
        state := state.(totalScraped := |existingData|);
        SaveState();
      }
    }
  }
}
