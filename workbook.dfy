/** The spreadsheet the scraper writes its rows to. */
module Workbook {
  import opened Wrappers

  /** A spreadsheet cell: the ID column holds integers, the others text. */
  datatype Cell = Int(n: int) | Str(s: string)

  type Row = seq<Cell>

  /** The header row written into a new workbook. */
  const Header: Row := [
    Str("ID"), Str("Company Name"), Str("Domain"), Str("Score"), Str("Location"),
    Str("Address"), Str("Phone"), Str("Email"), Str("Website")]

  /** The active sheet of the workbook, as a list of rows. */
  class Sheet {
    var rows: seq<Row>

    constructor (rows: seq<Row>)
      ensures this.rows == rows
    {
      this.rows := rows;
    }

    /** Adds one row after the existing ones. */
    method Append(row: Row)
      modifies this
      ensures rows == old(rows) + [row]
    {
      rows := rows + [row];
    }
  }

  /** Opens the workbook: `existing` is the content of the output file when
      it exists. An existing file is loaded as it is; otherwise a new sheet
      gets the header row and is saved at once. Returns the sheet and the
      file content after setup. */
  method SetupWorkbook(existing: Option<seq<Row>>) returns (sheet: Sheet, saved: seq<Row>)
    ensures fresh(sheet)
    ensures existing.Some? ==> sheet.rows == existing.value && saved == existing.value
    ensures existing.None? ==> sheet.rows == [Header] && saved == [Header]
  {
    if existing.Some? {
      sheet := new Sheet(existing.value);
      saved := existing.value;
      return;
    }
    sheet := new Sheet([]);
    sheet.Append(Header);
    saved := sheet.rows;
  }
}
