/**
 * The scan and history operations of the HTTP interface, as pure functions
 * over the stored collection. The clock, the random draws and the store's
 * answer (available or not, and the identifier it assigns) are inputs.
 */
module Scan {
  import opened Wrappers
  import opened Calendar
  import opened Text
  import opened Enrichment
  import opened Schemas
  import opened Store
  import opened Fabrication

  datatype ScanError = InvalidBarcode | StoreUnavailable

  /** HTTP status each error is reported with. */
  function StatusCode(e: ScanError): (status: int)
    ensures status == 400 <==> e == InvalidBarcode
    ensures status == 500 <==> e == StoreUnavailable
  {
    match e
    case InvalidBarcode => 400
    case StoreUnavailable => 500
  }

  /**
   * What one scan request gets from its environment: the current time, the
   * random draws, the persistence timestamp in milliseconds, whether the
   * store accepts the write and the identifier it assigns.
   */
  datatype ScanEnv = ScanEnv(
    now: DateTime,
    monthsBack: int,
    daysBack: int,
    extraMonths: int,
    rating: int,
    footprint: real,
    scannedAt: int,
    storeAvailable: bool,
    assignedId: string)

  /** Draw ranges of the random calls, and a clock inside the date-time range. */
  predicate EnvInRange(env: ScanEnv) {
    && env.now.Valid() && 2 <= env.now.year <= MaxYear - 2
    && 0 <= env.monthsBack <= 9
    && 0 <= env.daysBack <= 29
    && 0 <= env.extraMonths <= 12
    && RatingInRange(env.rating)
  }

  /** The invariant every persisted scan document satisfies. */
  predicate WellFormedDocument(d: ScanDocument) {
    && d.code != [] && IsTrimmed(d.code)
    && DatesWellFormed(d.mfgDate, d.expDate)
    && RatingInRange(d.rating)
  }

  predicate WellFormedCollection(c: Collection) {
    forall i :: 0 <= i < |c| ==> WellFormedDocument(c[i].doc)
  }

  /** The response record for a stored document; `id` comes from the store's identifier. */
  function ToResponse(s: StoredDocument): (r: ScanResponse)
    ensures r.id == Some(s.id) && r.code == s.doc.code
    ensures r.name == s.doc.name && r.manufacturer == s.doc.manufacturer && r.category == s.doc.category
    ensures r.mfgDate == Some(s.doc.mfgDate) && r.expDate == Some(s.doc.expDate)
    ensures r.rating == Some(s.doc.rating) && r.footprintKgCO2e == Some(s.doc.footprintKgCO2e)
    ensures r.scannedAt == Some(s.doc.scannedAt)
  {
    ScanResponse(Some(s.id), s.doc.code, s.doc.name, s.doc.manufacturer, s.doc.category,
                 Some(s.doc.mfgDate), Some(s.doc.expDate), Some(s.doc.rating),
                 Some(s.doc.footprintKgCO2e), Some(s.doc.scannedAt))
  }

  /**
   * The scan document the service assembles for a trimmed, non-empty `code`
   * whose enrichment fields are `base`.
   */
  function BuildDocument(code: string, base: ProductInfo, env: ScanEnv): (d: ScanDocument)
    requires EnvInRange(env)
    requires code != [] && IsTrimmed(code)
    ensures WellFormedDocument(d)
    ensures d.code == code
    ensures ProductInfo(d.name, d.manufacturer, d.category) == base
    ensures !Before(env.now, d.mfgDate) && SameTimeOfDay(d.mfgDate, env.now)
    ensures DayNumber(env.now) - DayNumber(d.mfgDate) == env.monthsBack * 30 + env.daysBack
    ensures MonthIndex(d.expDate) - MonthIndex(d.mfgDate) == 12 + env.extraMonths
    ensures d.expDate.day == Min(d.mfgDate.day, DaysInMonth(d.expDate.year, d.expDate.month))
    ensures SameTimeOfDay(d.expDate, d.mfgDate)
    ensures d.rating == env.rating && d.footprintKgCO2e == env.footprint && d.scannedAt == env.scannedAt
  {
    var dates := FabricateDates(env.now, env.monthsBack, env.daysBack, env.extraMonths);
    ScanDocument(code, base.name, base.manufacturer, base.category,
                 dates.0, dates.1, env.rating, env.footprint, env.scannedAt)
  }

  /** The stored expiry is exactly `add_months` of the stored manufacture date by 12 + k months. */
  lemma BuildDocumentExpiry(code: string, base: ProductInfo, env: ScanEnv)
    requires EnvInRange(env)
    requires code != [] && IsTrimmed(code)
    ensures var d := BuildDocument(code, base, env);
            && MonthIndexInRange(MonthIndex(d.mfgDate) + 12 + env.extraMonths)
            && d.expDate == AddMonths(d.mfgDate, 12 + env.extraMonths)
  {
    var d := BuildDocument(code, base, env);
    AddMonthsUnique(d.mfgDate, 12 + env.extraMonths, d.expDate);
  }

  datatype ScanOutcome = ScanOutcome(result: Result<ScanResponse, ScanError>, store: Collection)

  /**
   * One scan request: trim the barcode and reject it when nothing is left,
   * otherwise enrich and fabricate the record, persist it and answer with
   * the persisted record. Nothing is written when the request fails.
   */
  function ScanProduct(store: Collection, rawCode: string, env: ScanEnv): (out: ScanOutcome)
    requires EnvInRange(env)
    ensures out.result.Success? <==> Strip(rawCode) != [] && env.storeAvailable
    ensures AllSpace(rawCode) ==> out.result == Failure(InvalidBarcode)
    ensures !AllSpace(rawCode) && !env.storeAvailable ==> out.result == Failure(StoreUnavailable)
    ensures out.result.Failure? ==> out.store == store
    ensures out.result.Success? ==>
      var code := Strip(rawCode);
      var stored := StoredDocument(env.assignedId, BuildDocument(code, Lookup(code), env));
      out.store == store + [stored] && out.result.value == ToResponse(stored)
  {
    var code := Strip(rawCode);
    if code == [] then
      ScanOutcome(Failure(InvalidBarcode), store)
    else
      var doc := BuildDocument(code, Lookup(code), env);
      if !env.storeAvailable then
        ScanOutcome(Failure(StoreUnavailable), store)
      else
        var (store', stored) := Insert(store, doc, env.assignedId);
        ScanOutcome(Success(ToResponse(stored)), store')
  }

  /** Shapes each fetched document into a response, in order. */
  function Responses(docs: seq<StoredDocument>): (r: seq<ScanResponse>)
    ensures |r| == |docs|
    ensures forall i :: 0 <= i < |docs| ==> r[i] == ToResponse(docs[i])
  {
    if docs == [] then [] else [ToResponse(docs[0])] + Responses(docs[1..])
  }

  /**
   * The history request: the most recent documents first, cut to `limit`,
   * as responses (the endpoint's default limit is 25).
   */
  function History(store: Collection, limit: int): (h: seq<ScanResponse>)
    ensures |h| == FindCount(|store|, limit)
    ensures forall i :: 0 <= i < |h| ==> h[i] == ToResponse(store[|store| - 1 - i])
  {
    Responses(Find(store, limit))
  }

  /** Every scan, successful or not, keeps every stored document well formed. */
  lemma ScanPreservesWellFormed(store: Collection, rawCode: string, env: ScanEnv)
    requires EnvInRange(env) && WellFormedCollection(store)
    ensures WellFormedCollection(ScanProduct(store, rawCode, env).store)
  {
    var out := ScanProduct(store, rawCode, env);
    if out.result.Success? {
      var code := Strip(rawCode);
      var stored := StoredDocument(env.assignedId, BuildDocument(code, Lookup(code), env));
      assert out.store == store + [stored];
      AppendPreservesWellFormed(store, stored);
    }
  }

  lemma AppendPreservesWellFormed(store: Collection, stored: StoredDocument)
    requires WellFormedCollection(store) && WellFormedDocument(stored.doc)
    ensures WellFormedCollection(store + [stored])
  {
    var c := store + [stored];
    forall i | 0 <= i < |c| ensures WellFormedDocument(c[i].doc) {
      if i < |store| {
        assert c[i] == store[i];
      }
    }
  }

  /** The record invariants as they show in a response. */
  predicate ResponseWellFormed(r: ScanResponse) {
    && r.id.Some? && r.code != []
    && r.rating.Some? && RatingInRange(r.rating.value)
    && r.mfgDate.Some? && r.expDate.Some? && Before(r.mfgDate.value, r.expDate.value)
  }

  /** Every history entry of a well-formed store keeps the record invariants. */
  lemma HistoryWellFormed(store: Collection, limit: int)
    requires WellFormedCollection(store)
    ensures forall i :: 0 <= i < |History(store, limit)| ==> ResponseWellFormed(History(store, limit)[i])
  {
    var h := History(store, limit);
    forall i | 0 <= i < |h| ensures ResponseWellFormed(h[i]) {
      var s := store[|store| - 1 - i];
      assert h[i] == ToResponse(s);
      assert WellFormedDocument(s.doc);
    }
  }

  /**
   * The response of a successful scan is what the next history request
   * (with any limit; a limit of 0 means no limit) shows first.
   */
  lemma ScanThenHistory(store: Collection, rawCode: string, env: ScanEnv, limit: int)
    requires EnvInRange(env)
    requires Strip(rawCode) != [] && env.storeAvailable
    ensures var out := ScanProduct(store, rawCode, env);
            var h := History(out.store, limit);
            |h| >= 1 && h[0] == out.result.value
  {
    var out := ScanProduct(store, rawCode, env);
  }

  /** After a successful scan, history shows it first, then the older history. */
  lemma HistoryAfterScan(store: Collection, rawCode: string, env: ScanEnv, limit: int)
    requires EnvInRange(env) && limit > 1
    requires Strip(rawCode) != [] && env.storeAvailable
    ensures var out := ScanProduct(store, rawCode, env);
            History(out.store, limit) == [out.result.value] + History(store, limit - 1)
  {
    var out := ScanProduct(store, rawCode, env);
    var code := Strip(rawCode);
    var stored := StoredDocument(env.assignedId, BuildDocument(code, Lookup(code), env));
    assert out.store == store + [stored] && out.result.value == ToResponse(stored);
    AppendedHistory(store, stored, limit);
  }

  lemma AppendedHistory(store: Collection, stored: StoredDocument, limit: int)
    requires limit > 1
    ensures History(store + [stored], limit) == [ToResponse(stored)] + History(store, limit - 1)
  {
    var c := store + [stored];
    var h, h0 := History(c, limit), History(store, limit - 1);
    assert |h| == 1 + |h0|;
    forall i | 0 <= i < |h| ensures h[i] == ([ToResponse(stored)] + h0)[i] {
      if i > 0 {
        assert c[|c| - 1 - i] == store[|store| - 1 - (i - 1)];
      }
    }
  }
}
