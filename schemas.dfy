/**
 * Record shapes: the scan document that is persisted, the document as the
 * store hands it back (with its string identifier), and the response
 * record of the HTTP interface, whose optional fields mirror the response
 * schema.
 *
 * Dates are kept as date-time values; their ISO-8601 text rendering is not
 * part of this model.
 */
module Schemas {
  import opened Wrappers
  import opened Calendar

  /** The fields the scan operation writes. */
  datatype ScanDocument = ScanDocument(
    code: string,
    name: string,
    manufacturer: string,
    category: string,
    mfgDate: DateTime,
    expDate: DateTime,
    rating: int,
    footprintKgCO2e: real,
    scannedAt: int)

  /** A persisted document together with the identifier the store assigned. */
  datatype StoredDocument = StoredDocument(id: string, doc: ScanDocument)

  /** The response record; every field the schema marks optional is an Option. */
  datatype ScanResponse = ScanResponse(
    id: Option<string>,
    code: string,
    name: string,
    manufacturer: string,
    category: string,
    mfgDate: Option<DateTime>,
    expDate: Option<DateTime>,
    rating: Option<int>,
    footprintKgCO2e: Option<real>,
    scannedAt: Option<int>)
}
