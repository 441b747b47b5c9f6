/**
 * The invoice extractor: from a fetched receipt page to one invoice header and
 * one invoice line per row of the line-item table.
 *
 * The HTML document is not modelled; a page is given as the texts its CSS
 * selectors pick out. A selection that finds nothing has the empty text.
 */
module ExtractService {
  import opened Wrappers
  import opened GoStrings
  import opened Patterns
  import opened Models

  /** One row of `table.table-striped tbody tr`: the texts of cells 1 to 4
      (empty for a missing cell) and of the `h7` heading inside cell 1. */
  datatype Row = Row(firstCell: Bytes, heading: Bytes, secondCell: Bytes, thirdCell: Bytes, fourthCell: Bytes)

  /** A parsed page: the invoice-number and issue-date cells inside `#collapse4`
      (None when the selector finds nothing), the texts of the cells containing
      "CNPJ" in document order, and the rows of the line-item table in document order. */
  datatype Page = Page(invoiceNumberCell: Option<Bytes>, issueDateCell: Option<Bytes>, cnpjCells: seq<Bytes>, rows: seq<Row>)

  /** What the HTTP GET and the HTML parser produced: a transport failure, or a
      status code with the parsed page (None when the body could not be parsed). */
  datatype Fetched = TransportFailure | Response(status: int, document: Option<Page>)

  datatype ExtractError = TransportError | StatusError(status: int) | ParseError

  const EmptyInvoice: Invoice := Invoice([], [], [])

  /** Text of a selection that may be empty. */
  function TextOf(cell: Option<Bytes>): Bytes {
    match cell
    case None => []
    case Some(t) => t
  }

  /** Text of a selection of several cells: their texts one after the other. */
  function Concat(cells: seq<Bytes>): (r: Bytes)
    ensures cells == [] ==> r == []
    ensures |cells| == 1 ==> r == cells[0]
    ensures forall i | 0 <= i < |cells| :: |cells[i]| <= |r|
  {
    if cells == [] then [] else cells[0] + Concat(cells[1..])
  }

  /** The invoice line one table row yields. Every field is a best-effort
      reading of that row's own cells and falls back to the empty string. */
  function ProductOf(row: Row): (p: ProductInvoice)
    ensures NoOuterSpace(p.name) && NoOuterSpace(p.unit)
    ensures forall k | 0 <= k < |p.code| :: IsDigit(p.code[k])
  {
    ProductInvoice(
      TrimSpace(row.heading),
      FindCode(row.firstCell),
      FindNumber(row.secondCell),
      TrimSpace(row.thirdCell),
      FindNumber(row.fourthCell))
  }

  /** What each field of a line is: name and unit carry no outer white space,
      the code is all digits, quantity and value are runs of digits, commas and
      periods, and each of the last three is empty exactly when its pattern
      does not match its cell. */
  lemma ProductFields(row: Row)
    ensures var p := ProductOf(row);
      && NoOuterSpace(p.name) && NoOuterSpace(p.unit)
      && (forall k | 0 <= k < |p.code| :: IsDigit(p.code[k]))
      && (p.code == [] <==> NoMatch(CodeField, row.firstCell))
      && (forall k | 0 <= k < |p.quantity| :: InClass(NumberChars, p.quantity[k]))
      && (p.quantity == [] <==> NoMatch(NumberRun, row.secondCell))
      && (forall k | 0 <= k < |p.value| :: InClass(NumberChars, p.value[k]))
      && (p.value == [] <==> NoMatch(NumberRun, row.fourthCell))
  {
  }

  /** The `Each` over the rows of the line-item table: one line per row, in
      document order, each read from its own row alone. */
  method ExtractProducts(rows: seq<Row>) returns (products: seq<ProductInvoice>)
    ensures |products| == |rows|
    ensures forall i | 0 <= i < |rows| :: products[i] == ProductOf(rows[i])
  {
    products := [];
    for i := 0 to |rows|
      invariant |products| == i
      invariant forall j | 0 <= j < i :: products[j] == ProductOf(rows[j])
    {
      var row := rows[i];
      var code := FindCode(row.firstCell);
      var product := ProductInvoice(
        TrimSpace(row.heading),
        code,
        FindNumber(row.secondCell),
        TrimSpace(row.thirdCell),
        FindNumber(row.fourthCell));
      assert product == ProductOf(row);
      products := products + [product];
    }
  }

  /** The whole extraction. Anything but a parsed page behind status 200 gives
      an error, no lines and an empty header; a parsed page never gives an
      error, and yields the trimmed header cells, the first CNPJ in the CNPJ
      cells and one line per row, in order. */
  method ExtractData(fetched: Fetched) returns (products: seq<ProductInvoice>, invoice: Invoice, err: Option<ExtractError>)
    ensures fetched.TransportFailure? ==>
      products == [] && invoice == EmptyInvoice && err == Some(TransportError)
    ensures fetched.Response? && fetched.status != 200 ==>
      products == [] && invoice == EmptyInvoice && err == Some(StatusError(fetched.status))
    ensures fetched.Response? && fetched.status == 200 && fetched.document.None? ==>
      products == [] && invoice == EmptyInvoice && err == Some(ParseError)
    ensures fetched.Response? && fetched.status == 200 && fetched.document.Some? ==>
      var page := fetched.document.value;
      && err == None
      && invoice.invoiceNumber == TrimSpace(TextOf(page.invoiceNumberCell))
      && invoice.issueDate == TrimSpace(TextOf(page.issueDateCell))
      && NoOuterSpace(invoice.invoiceNumber) && NoOuterSpace(invoice.issueDate)
      && (page.invoiceNumberCell.None? ==> invoice.invoiceNumber == [])
      && (page.issueDateCell.None? ==> invoice.issueDate == [])
      && invoice.cnpj == FindCnpj(Concat(page.cnpjCells))
      && (invoice.cnpj == [] || CnpjShape(invoice.cnpj))
      && (page.cnpjCells == [] ==> invoice.cnpj == [])
      && |products| == |page.rows|
      && forall i | 0 <= i < |products| :: products[i] == ProductOf(page.rows[i])
  {
    products, invoice := [], EmptyInvoice;
    if fetched.TransportFailure? {
      return products, invoice, Some(TransportError);
    }
    if fetched.status != 200 {
      return products, invoice, Some(StatusError(fetched.status));
    }
    if fetched.document.None? {
      return products, invoice, Some(ParseError);
    }
    var page := fetched.document.value;

    invoice := invoice.(invoiceNumber := TrimSpace(TextOf(page.invoiceNumberCell)));
    invoice := invoice.(issueDate := TrimSpace(TextOf(page.issueDateCell)));
    var cnpj := FindCnpj(Concat(page.cnpjCells));
    if cnpj != [] {
      invoice := invoice.(cnpj := cnpj);
    } else {
      invoice := invoice.(cnpj := []);
    }

    products := ExtractProducts(page.rows);
    err := None;
  }

  /** When the first CNPJ cell holds a well-formed CNPJ, that is the one taken,
      whatever the later cells hold. */
  lemma {:induction false} CnpjFromFirstCell(cells: seq<Bytes>)
    requires cells != [] && FindCnpj(cells[0]) != []
    ensures FindCnpj(Concat(cells)) == FindCnpj(cells[0])
  {
    FindCnpjPrefixStable(cells[0], Concat(cells[1..]));
  }

  /** The cells are searched as one text, so a CNPJ split across two cells is
      still found, although neither cell holds one. */
  lemma CnpjAcrossCells()
    ensures FindCnpj(Concat(["CNPJ: 12.345.", "678/0001-99 (CNPJ)"])) == "12.345.678/0001-99"
  {
    var a: Bytes := "CNPJ: 12.345.";
    var b: Bytes := "678/0001-99 (CNPJ)";
    var whole: Bytes := "CNPJ: 12.345.678/0001-99";
    var rest: Bytes := " (CNPJ)";
    assert Concat([a, b]) == whole + rest by {
      assert [a, b][1..] == [b] && [b][1..] == [];
      assert Concat([b]) == b + Concat([]);
      assert a + b == whole + rest;
    }
    CnpjExample();
    FindCnpjPrefixStable(whole, rest);
  }

  /** The cells of the row
      `<td><h7>Widget</h7>Código: 42</td><td>qty 3,0</td><td>UN</td><td>R$ 9,90</td>`
      read as name "Widget", code "42", quantity "3,0", unit "UN" and value
      "9,90"; ProductOf puts these five readings together. */
  lemma WidgetCells(heading: Bytes, first: Bytes, second: Bytes, third: Bytes, fourth: Bytes)
    requires heading == "Widget" && first == "WidgetC\U{C3}\U{B3}digo: 42"
    requires second == "qty 3,0" && third == "UN" && fourth == "R$ 9,90"
    ensures TrimSpace(heading) == "Widget" && FindCode(first) == "42"
    ensures FindNumber(second) == "3,0" && TrimSpace(third) == "UN" && FindNumber(fourth) == "9,90"
  {
    CodeAfterNameExample();
    LabelledQuantityExample();
    PriceExample();
    TrimmedWordExample(heading);
    TrimmedWordExample(third);
  }

  lemma TrimmedWordExample(w: Bytes)
    requires w == "Widget" || w == "UN"
    ensures TrimSpace(w) == w
  {
    assert NoOuterSpace(w);
    TrimSpaceOfTrimmed(w);
  }
}
