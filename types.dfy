/** The output record of the parser. */
module Types {

  /** One data row: header name to cell text. */
  type Row = map<string, string>

  /** A directive paired with its table: the directive name, the line the
      table starts on (0 when unknown), the header texts in column order
      and one row per data row. */
  datatype ParsedDirective = ParsedDirective(
    directive: string,
    line: int,
    headers: seq<string>,
    rows: seq<Row>)
}
