/**
  The market-data scraper of `src/services/iranjibScraper.js`: `parseRow`,
  which reads two cells of the table row labelled by a marker, and the part
  of `fetchMarketData` that runs once the page text is in hand.
 */
module IranjibScraper {
  import opened Wrappers
  import opened JsStrings
  import opened HtmlScan

  /** The `{ value, change }` object `parseRow` returns. */
  datatype Row = Row(value: string, change: string)

  /**
    The three ways `parseRow` can end: with a row, with `null`, or by throwing
    the TypeError that `clean(undefined)` raises when a column index is past
    the last cell (or negative).
   */
  datatype ParseOutcome = Parsed(row: Row) | Null | CleanTypeError

  /**
    `html.substring(html.indexOf(marker)).match(/<td[^>]*>([\s\S]*?)<\/td>/g)`:
    the cell fragments from the marker's first occurrence to the end of the
    page, or `None` when the marker does not occur.
   */
  function CellsAfter(html: string, marker: string): (r: Option<seq<string>>)
    ensures r.None? <==> forall k :: !OccursAt(html, marker, k)
    ensures r.Some? ==> exists i ::
      && OccursAt(html, marker, i)
      && (forall k :: 0 <= k < i ==> !OccursAt(html, marker, k))
      && r.value == TdFragments(html[i..])
  {
    match IndexOf(html, marker)
    case None => None
    case Some(i) => Some(TdFragments(html[i..]))
  }

  /** `Math.max` on integers. */
  function Max(a: int, b: int): (m: int)
    ensures m >= a && m >= b && (m == a || m == b)
  {
    if a >= b then a else b
  }

  /** Both column indices name a cell of `cells`. */
  predicate InRange(cells: seq<string>, valueIndex: int, changeIndex: int) {
    0 <= valueIndex < |cells| && 0 <= changeIndex < |cells|
  }

  /**
    `parseRow(html, rowIdentifier, valueIndex, changeIndex)` as written,
    with its guard `!cells || cells.length < Math.max(valueIndex, changeIndex)`.
   */
  function ParseRow(html: string, rowIdentifier: string, valueIndex: int, changeIndex: int): (r: ParseOutcome)
    ensures CellsAfter(html, rowIdentifier).None? ==> r == Null
    ensures r.Parsed? ==>
      var cells := CellsAfter(html, rowIdentifier).value;
      && InRange(cells, valueIndex, changeIndex)
      && r.row == Row(Clean(cells[valueIndex]), Clean(cells[changeIndex]))
    ensures r.Null? <==>
      || CellsAfter(html, rowIdentifier).None?
      || |CellsAfter(html, rowIdentifier).value| == 0
      || |CellsAfter(html, rowIdentifier).value| < Max(valueIndex, changeIndex)
  {
    match CellsAfter(html, rowIdentifier)
    case None => Null
    case Some(cells) =>
      if |cells| == 0 || |cells| < Max(valueIndex, changeIndex) then Null
      else if !InRange(cells, valueIndex, changeIndex) then CleanTypeError
      else Parsed(Row(Clean(cells[valueIndex]), Clean(cells[changeIndex])))
  }

  /**
    `parseRow` with the guard it evidently meant, `cells.length <= Math.max(...)`,
    for the 0-based column indices its documentation describes.
   */
  function ParseRowChecked(html: string, rowIdentifier: string, valueIndex: nat, changeIndex: nat): (r: Option<Row>)
    ensures r.Some? <==>
      CellsAfter(html, rowIdentifier).Some? && InRange(CellsAfter(html, rowIdentifier).value, valueIndex, changeIndex)
    ensures r.Some? ==>
      var cells := CellsAfter(html, rowIdentifier).value;
      r.value == Row(Clean(cells[valueIndex]), Clean(cells[changeIndex]))
  {
    match CellsAfter(html, rowIdentifier)
    case None => None
    case Some(cells) =>
      if |cells| == 0 || |cells| <= Max(valueIndex, changeIndex) then None
      else Some(Row(Clean(cells[valueIndex]), Clean(cells[changeIndex])))
  }

  /** A page that starts with the marker is read from its first character. */
  lemma CellsAfterLeadingMarker(html: string, marker: string)
    requires StartsWith(html, marker)
    ensures CellsAfter(html, marker) == Some(TdFragments(html))
  {
    assert IndexOf(html, marker) == Some(0);
    assert html[0..] == html;
  }

  /**
    A row that follows its marker with two plain cells `<td>x</td><td>y</td>`
    parses, for columns 0 and 1, to `x` and `y` trimmed, whatever follows.
   */
  lemma ParseRowTwoPlainCells(marker: string, x: string, y: string, rest: string)
    requires '<' !in marker && '<' !in x && '<' !in y
    ensures ParseRow(marker + ("<td>" + x + "</td>") + ("<td>" + y + "</td>") + rest, marker, 0, 1)
            == Parsed(Row(Trim(x), Trim(y)))
  {
    var html := marker + ("<td>" + x + "</td>") + ("<td>" + y + "</td>") + rest;
    assert html[..|marker|] == marker;
    CellsAfterLeadingMarker(html, marker);
    TdFragmentsTwoPlainCells(marker, x, y, rest);
    CleanPlainCell(x);
    CleanPlainCell(y);
  }

  /**
    The off-by-one in the guard: a row with one cell passes
    `cells.length < Math.max(0, 1)`, and `clean(cells[1])` then throws.
    The corrected guard returns `null` instead.
   */
  lemma ParseRowOneCellThrows(marker: string, x: string)
    requires '<' !in marker && '<' !in x
    ensures ParseRow(marker + ("<td>" + x + "</td>"), marker, 0, 1) == CleanTypeError
    ensures ParseRowChecked(marker + ("<td>" + x + "</td>"), marker, 0, 1) == None
  {
    var html := marker + ("<td>" + x + "</td>");
    assert html[..|marker|] == marker;
    CellsAfterLeadingMarker(html, marker);
    TdFragmentsOnePlainCell(marker, x);
  }

  /**
    The as-written guard and the corrected one agree except where the
    as-written one lets `clean` throw: a parsed row is the corrected result,
    and a corrected result is parsed.
   */
  lemma ParseRowCheckedAgrees(html: string, rowIdentifier: string, valueIndex: nat, changeIndex: nat)
    ensures ParseRow(html, rowIdentifier, valueIndex, changeIndex).Parsed? <==>
            ParseRowChecked(html, rowIdentifier, valueIndex, changeIndex).Some?
    ensures ParseRow(html, rowIdentifier, valueIndex, changeIndex).Parsed? ==>
            ParseRowChecked(html, rowIdentifier, valueIndex, changeIndex)
              == Some(ParseRow(html, rowIdentifier, valueIndex, changeIndex).row)
  {
  }

  /**
    Exactly when the as-written guard lets `clean` throw, for 0-based
    indices: the marker is present and the page has exactly
    `Math.max(valueIndex, changeIndex)` cells after it (at least one).
   */
  lemma ParseRowThrowsExactly(html: string, rowIdentifier: string, valueIndex: nat, changeIndex: nat)
    ensures ParseRow(html, rowIdentifier, valueIndex, changeIndex).CleanTypeError? <==>
      && CellsAfter(html, rowIdentifier).Some?
      && |CellsAfter(html, rowIdentifier).value| == Max(valueIndex, changeIndex) > 0
  {
  }

  /** What `parseRow` returns on success is cleaned: trimmed, with no `<…>` token left. */
  lemma ParseRowResultClean(html: string, rowIdentifier: string, valueIndex: int, changeIndex: int)
    requires ParseRow(html, rowIdentifier, valueIndex, changeIndex).Parsed?
    ensures var row := ParseRow(html, rowIdentifier, valueIndex, changeIndex).row;
      Trimmed(row.value) && TagFree(row.value) && Trimmed(row.change) && TagFree(row.change)
  {
  }

  /**
    Only the page from the marker's first occurrence on is read: cutting off
    everything before it changes nothing, whatever later copies of the
    marker the page holds.
   */
  lemma ParseRowFromFirstMarker(html: string, rowIdentifier: string, valueIndex: int, changeIndex: int, i: nat)
    requires IndexOf(html, rowIdentifier) == Some(i)
    ensures ParseRow(html, rowIdentifier, valueIndex, changeIndex)
         == ParseRow(html[i..], rowIdentifier, valueIndex, changeIndex)
  {
    var t := html[i..];
    assert t[..|rowIdentifier|] == html[i..i + |rowIdentifier|];
    CellsAfterLeadingMarker(t, rowIdentifier);
    assert t[0..] == t;
  }

  // ---------------------------------------------------------------------------
  // fetchMarketData, after the page text has been fetched
  // ---------------------------------------------------------------------------

  /** The row label of 18-karat gold per gram. */
  const GoldMarker: string := "هر گرم طلای ۱۸ عیار"

  /** The row label of Tether. */
  const TetherMarker: string := "تتر"

  /** The message of the error thrown when either row does not parse. */
  const LayoutChangedMessage: string :=
    "Could not parse all required data from the website. The layout may have changed."

  datatype Quote = Quote(price: string, change: string)

  datatype MarketData = MarketData(gold: Quote, tether: Quote)

  /** What `fetchMarketData` throws once it has the page: the layout error, or the TypeError out of `parseRow`. */
  datatype MarketError = LayoutChanged | ParseTypeError

  /**
    `fetchMarketData` from `const html = await response.text()` on, over the
    labels of its two rows: gold in columns 0 and 1 of its row, then Tether
    in columns 1 and 2 of its row. A throw in either `parseRow` call ends it.
   */
  function MarketDataFor(html: string, goldMarker: string, tetherMarker: string): Result<MarketData, MarketError>
  {
    var gold := ParseRow(html, goldMarker, 0, 1);
    if gold.CleanTypeError? then Failure(ParseTypeError)
    else
      var tether := ParseRow(html, tetherMarker, 1, 2);
      if tether.CleanTypeError? then Failure(ParseTypeError)
      else if gold.Null? || tether.Null? then Failure(LayoutChanged)
      else Success(MarketData(QuoteOf(gold.row), QuoteOf(tether.row)))
  }

  /** The `{ price: value, change }` object built from a parsed row. */
  function QuoteOf(row: Row): Quote
  {
    Quote(row.value, row.change)
  }

  /** The post-fetch step with the labels `fetchMarketData` uses. */
  function MarketDataFrom(html: string): Result<MarketData, MarketError>
  {
    MarketDataFor(html, GoldMarker, TetherMarker)
  }

  /**
    The post-fetch step fails exactly when the gold row or the Tether row
    does not parse under the corrected guard.
   */
  lemma MarketDataFailsIff(html: string, goldMarker: string, tetherMarker: string)
    ensures MarketDataFor(html, goldMarker, tetherMarker).Failure? <==>
      ParseRowChecked(html, goldMarker, 0, 1).None? || ParseRowChecked(html, tetherMarker, 1, 2).None?
  {
    ParseRowCheckedAgrees(html, goldMarker, 0, 1);
    ParseRowCheckedAgrees(html, tetherMarker, 1, 2);
  }

  /**
    On success each row's cleaned value becomes its `price` and its cleaned
    change its `change`, gold from columns 0 and 1, Tether from 1 and 2.
   */
  lemma MarketDataValues(html: string, goldMarker: string, tetherMarker: string)
    requires MarketDataFor(html, goldMarker, tetherMarker).Success?
    ensures ParseRowChecked(html, goldMarker, 0, 1).Some? && ParseRowChecked(html, tetherMarker, 1, 2).Some?
    ensures MarketDataFor(html, goldMarker, tetherMarker).value
         == MarketData(QuoteOf(ParseRowChecked(html, goldMarker, 0, 1).value),
                       QuoteOf(ParseRowChecked(html, tetherMarker, 1, 2).value))
  {
    ParseRowCheckedAgrees(html, goldMarker, 0, 1);
    ParseRowCheckedAgrees(html, tetherMarker, 1, 2);
  }

  /**
    The off-by-one only changes which error is thrown: the TypeError comes
    out exactly when the gold row has one cell or the Tether row has two.
   */
  lemma MarketDataTypeErrorExactly(html: string, goldMarker: string, tetherMarker: string)
    ensures MarketDataFor(html, goldMarker, tetherMarker) == Failure(ParseTypeError) <==>
      || (CellsAfter(html, goldMarker).Some? && |CellsAfter(html, goldMarker).value| == 1)
      || (CellsAfter(html, tetherMarker).Some? && |CellsAfter(html, tetherMarker).value| == 2)
  {
    ParseRowThrowsExactly(html, goldMarker, 0, 1);
    ParseRowThrowsExactly(html, tetherMarker, 1, 2);
  }

  /** The same facts for the page `fetchMarketData` reads, with its gold and Tether labels. */
  lemma MarketDataFromFailsIff(html: string)
    ensures MarketDataFrom(html).Failure? <==>
      ParseRowChecked(html, GoldMarker, 0, 1).None? || ParseRowChecked(html, TetherMarker, 1, 2).None?
    ensures MarketDataFrom(html) == Failure(ParseTypeError) <==>
      || (CellsAfter(html, GoldMarker).Some? && |CellsAfter(html, GoldMarker).value| == 1)
      || (CellsAfter(html, TetherMarker).Some? && |CellsAfter(html, TetherMarker).value| == 2)
  {
    MarketDataFailsIff(html, GoldMarker, TetherMarker);
    MarketDataTypeErrorExactly(html, GoldMarker, TetherMarker);
  }

  /** On success, the quotes are the cleaned gold and Tether cells. */
  lemma MarketDataFromValues(html: string)
    requires MarketDataFrom(html).Success?
    ensures ParseRowChecked(html, GoldMarker, 0, 1).Some? && ParseRowChecked(html, TetherMarker, 1, 2).Some?
    ensures MarketDataFrom(html).value
         == MarketData(QuoteOf(ParseRowChecked(html, GoldMarker, 0, 1).value),
                       QuoteOf(ParseRowChecked(html, TetherMarker, 1, 2).value))
  {
    MarketDataValues(html, GoldMarker, TetherMarker);
  }

  /** A gold row labelled as on the page, followed by two plain cells. */
  lemma GoldRowExample()
    ensures ParseRow(GoldMarker + ("<td>" + "1,234,000" + "</td>") + ("<td>" + "+0.5%" + "</td>") + [], GoldMarker, 0, 1)
         == Parsed(Row(Trim("1,234,000"), Trim("+0.5%")))
  {
    ParseRowTwoPlainCells(GoldMarker, "1,234,000", "+0.5%", []);
  }
}
