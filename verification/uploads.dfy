/** What the two spreadsheet imports share: the uploaded file, the running
    state of the row loop and the overall outcome.

    Cell parsing (numbers, dates, text) happens before the model: a sheet is
    the sequence of its data rows, header already skipped, each row already
    parsed into typed fields. */
module Uploads {
  import opened Database

  /** The uploaded file: missing or empty, not a readable workbook, or the
      data rows of its first sheet. */
  datatype Upload<R> = NoFile | Unreadable | Sheet(rows: seq<R>)

  /** State carried from row to row. `failed` records that a save was
      rejected: the rejected entity stays pending in the same unit of work,
      so every later save of the import is rejected too. */
  datatype Progress = Progress(db: Store, imported: nat, failed: bool)

  function Start(db: Store): Progress {
    Progress(db, 0, false)
  }

  /** The import request as a whole. `BadRequest`: no school selected or no
      file; `ReadFailed`: the workbook could not be opened; otherwise the
      store after the row loop and the number of rows counted as imported
      (the success message is shown when that number is positive). */
  datatype ImportOutcome = BadRequest | ReadFailed | Finished(db: Store, imported: nat)

  /** The store an import leaves behind. */
  function StoreAfter(db: Store, o: ImportOutcome): Store {
    if o.Finished? then o.db else db
  }
}
