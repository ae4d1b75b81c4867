/**
  `parseGoldPrice` of `src/commands/currencyprize.js`: the older reader of
  the 18-karat gold row, which the `/currencyprize` command runs on the page
  it has fetched. It looks the row up the same way `parseRow` does, but
  demands four cells and throws instead of returning `null`.
 */
module CurrencyPrize {
  import opened Wrappers
  import opened JsStrings
  import opened HtmlScan
  import opened IranjibScraper

  /** The label `parseGoldPrice` looks for (`targetRowIdentifier`). */
  const TargetRowIdentifier: string := "هر گرم طلای ۱۸ عیار"

  /** The `{ livePrice, change }` object `parseGoldPrice` returns. */
  datatype GoldPrice = GoldPrice(livePrice: string, change: string)

  /** The two errors `parseGoldPrice` throws. */
  datatype GoldPriceError = RowNotFound | CellsNotParsed

  /** The message each error is thrown with. */
  function ErrorMessage(e: GoldPriceError): string
  {
    match e
    case RowNotFound => "Could not find the target row for 18 Karat Gold."
    case CellsNotParsed => "Could not parse the data cells for the target row."
  }

  /**
    `parseGoldPrice` with the row label as a parameter: no label anywhere is
    `RowNotFound`; fewer than four cells after the label (no match at all
    counting as none) is `CellsNotParsed`; otherwise the cleaned first and
    second cells.
   */
  function ParseGoldPriceFor(html: string, marker: string): (r: Result<GoldPrice, GoldPriceError>)
    ensures r == Failure(RowNotFound) <==> forall k :: !OccursAt(html, marker, k)
    ensures r == Failure(CellsNotParsed) <==>
      CellsAfter(html, marker).Some? && |CellsAfter(html, marker).value| < 4
    ensures r.Success? ==>
      var cells := CellsAfter(html, marker).value;
      |cells| >= 4 && r.value == GoldPrice(Clean(cells[0]), Clean(cells[1]))
  {
    match CellsAfter(html, marker)
    case None => Failure(RowNotFound)
    case Some(cells) =>
      if |cells| < 4 then Failure(CellsNotParsed)
      else Success(GoldPrice(Clean(cells[0]), Clean(cells[1])))
  }

  /** `parseGoldPrice(html)`. */
  function ParseGoldPrice(html: string): Result<GoldPrice, GoldPriceError>
  {
    ParseGoldPriceFor(html, TargetRowIdentifier)
  }

  /**
    Where `parseGoldPrice` succeeds, the newer `parseRow(html, label, 0, 1)`
    reads the same row to the same two strings, as written and corrected.
   */
  lemma GoldPriceAgreesWithParseRow(html: string, marker: string)
    requires ParseGoldPriceFor(html, marker).Success?
    ensures ParseRow(html, marker, 0, 1)
         == Parsed(Row(ParseGoldPriceFor(html, marker).value.livePrice, ParseGoldPriceFor(html, marker).value.change))
    ensures ParseRowChecked(html, marker, 0, 1)
         == Some(Row(ParseGoldPriceFor(html, marker).value.livePrice, ParseGoldPriceFor(html, marker).value.change))
  {
  }

  /**
    The two readers part ways exactly on rows with two or three cells:
    `parseRow` reads them and `parseGoldPrice` throws `CellsNotParsed`.
    Everywhere else one succeeds exactly when the other does.
   */
  lemma GoldPriceStricterThanParseRow(html: string, marker: string)
    ensures ParseGoldPriceFor(html, marker).Failure? && ParseRowChecked(html, marker, 0, 1).Some? <==>
      CellsAfter(html, marker).Some? && 2 <= |CellsAfter(html, marker).value| < 4
    ensures ParseGoldPriceFor(html, marker).Success? ==> ParseRowChecked(html, marker, 0, 1).Some?
  {
  }

  /**
    A label followed by exactly two plain cells: `parseRow` reads the row,
    while `parseGoldPrice` rejects it for having fewer than four cells.
   */
  lemma TwoCellRowRejected(marker: string, x: string, y: string)
    requires '<' !in marker && '<' !in x && '<' !in y
    ensures ParseGoldPriceFor(marker + ("<td>" + x + "</td>") + ("<td>" + y + "</td>"), marker)
         == Failure(CellsNotParsed)
    ensures ParseRow(marker + ("<td>" + x + "</td>") + ("<td>" + y + "</td>"), marker, 0, 1)
         == Parsed(Row(Trim(x), Trim(y)))
  {
    var html := marker + ("<td>" + x + "</td>") + ("<td>" + y + "</td>");
    assert html[..|marker|] == marker;
    CellsAfterLeadingMarker(html, marker);
    TdFragmentsExactlyTwoPlainCells(marker, x, y);
    assert html == marker + ("<td>" + x + "</td>") + ("<td>" + y + "</td>") + [];
    ParseRowTwoPlainCells(marker, x, y, []);
  }

  /** The outcomes of `parseGoldPrice` on the page, with its own label. */
  lemma ParseGoldPriceOutcomes(html: string)
    ensures ParseGoldPrice(html) == Failure(RowNotFound) <==> forall k :: !OccursAt(html, TargetRowIdentifier, k)
    ensures ParseGoldPrice(html) == Failure(CellsNotParsed) <==>
      CellsAfter(html, TargetRowIdentifier).Some? && |CellsAfter(html, TargetRowIdentifier).value| < 4
    ensures ParseGoldPrice(html).Success? ==>
      ParseRow(html, TargetRowIdentifier, 0, 1)
        == Parsed(Row(ParseGoldPrice(html).value.livePrice, ParseGoldPrice(html).value.change))
  {
    if ParseGoldPrice(html).Success? {
      GoldPriceAgreesWithParseRow(html, TargetRowIdentifier);
    }
  }
}
