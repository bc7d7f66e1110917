/** The earlier, single-file implementation of the parser: one visitor
    callback that tests the node, finds the table, reads and validates its
    headers and reads its rows inline, with its own copy of the header
    registry. It is proved to push the same records and write the same
    diagnostics as the decomposed parser, visit by visit and over a whole
    walk. */
module MonolithicParser {
  import opened Options
  import opened Mdast
  import opened Text
  import opened Types
  import opened Traversal
  import opened TableExtractor
  import DirectiveValidator
  import opened Visitor
  import Parser
  import Seqs

  /** The headers every registered directive requires. */
  const GlobalHeaders: seq<string> := ["項目ID", "項目名"]

  /** The extra headers of each registered directive. */
  const DirectiveSpecificHeaders: map<string, seq<string>> :=
    map["@Button" := ["イベント名"], "@TextBox" := ["桁数"]]

  /** `t && t.type === 'text' ? t.value : ''` for the first child `t` of a
      cell. */
  function CellText(cell: Node): string
  {
    if |cell.children| > 0 && cell.children[0].kind.Text? then cell.children[0].kind.value else ""
  }

  /** `required => !headers.includes(required)` */
  function IsMissing(headers: seq<string>): string -> bool
  {
    (required: string) => required !in headers
  }

  /** `header => header !== '' && !allowedHeaders.includes(header)` */
  function IsInvalid(allowed: seq<string>): string -> bool
  {
    (header: string) => header != "" && header !in allowed
  }

  /** `(acc, header, i) => ({ ...acc, [header]: cells[i] || '' })` */
  function Accumulate(cells: seq<string>): (Row, string, nat) -> Row
  {
    (acc: Row, header: string, i: nat) => acc[header := if i < |cells| && cells[i] != "" then cells[i] else ""]
  }

  /** The record of one data row: its cell texts folded over the headers. */
  function RowOf(headers: seq<string>, row: Node): Row
  {
    Seqs.Reduce(headers, Accumulate(Seqs.Map(row.children, CellText)), map[])
  }

  function ToRecord(headers: seq<string>): Node -> Row
  {
    (row: Node) => RowOf(headers, row)
  }

  /** The callback, run on one visit with the records and diagnostics
      gathered so far: a paragraph whose first child is a text starting
      with `@`, followed by a table among its parent's children, pushes
      the table's record and writes the diagnostics of its validation;
      every other visit changes nothing. It does exactly what the callback
      of the decomposed parser does. */
  method VisitNode(v: Visit, results: seq<ParsedDirective>, diagnostics: seq<DirectiveValidator.Diagnostic>)
    returns (results': seq<ParsedDirective>, diagnostics': seq<DirectiveValidator.Diagnostic>)
    requires PairedTableHasHeaderRow(v.node, v.parent, v.index)
    ensures results' == results + Parser.Callback(v).pushed
    ensures diagnostics' == diagnostics + Parser.Callback(v).emitted
  {
    results', diagnostics' := results, diagnostics;
    DirectiveAndTableSpec(v.node, v.parent, v.index);
    if GetDirectiveAndTable(v.node, v.parent, v.index).None? {
      Parser.CallbackNone(v);
    }
    if v.node.kind.Paragraph? {
      if |v.node.children| > 0 && v.node.children[0].kind.Text? && StartsWith(v.node.children[0].kind.value, "@") {
        var directive := Trim(v.node.children[0].kind.value);
        if v.parent.Some? && v.index.Some? {
          var siblings := v.parent.value.children;
          if v.index.value + 1 < |siblings| && siblings[v.index.value + 1].kind.Table? {
            var table := siblings[v.index.value + 1];
            Parser.CallbackSome(v, Pairing(directive, table));
            var headers := Seqs.Map(table.children[0].children, CellText);
            var line := if table.line.Some? && table.line.value != 0 then table.line.value else 0;
            var emitted := ValidateInline(directive, headers, line);
            var rows := Seqs.Map(table.children[1..], ToRecord(headers));
            var record := ParsedDirective(directive, line, headers, rows);
            ProcessedAlike(directive, table, record, emitted);
            diagnostics' := diagnostics' + emitted;
            results' := results' + [record];
          }
        }
      }
    }
  }

  /** The inline header check of the callback: with the callback's own
      copy of the registry, it writes what validateHeaders writes. */
  method ValidateInline(directive: string, headers: seq<string>, line: int)
    returns (emitted: seq<DirectiveValidator.Diagnostic>)
    ensures emitted == DirectiveValidator.ValidateHeaders(directive, headers, line)
  {
    emitted := [];
    var specificHeaders := Lookup(DirectiveSpecificHeaders, directive);
    RegistryAlike(directive);
    if specificHeaders.Some? {
      var allowedHeaders := GlobalHeaders + specificHeaders.value;
      var missingHeaders := Seqs.Filter(allowedHeaders, IsMissing(headers));
      if |missingHeaders| > 0 {
        emitted := emitted + [DirectiveValidator.Diagnostic(DirectiveValidator.Missing, directive, missingHeaders, line)];
      }
      var invalidHeaders := Seqs.Filter(headers, IsInvalid(allowedHeaders));
      if |invalidHeaders| > 0 {
        emitted := emitted + [DirectiveValidator.Diagnostic(DirectiveValidator.Invalid, directive, invalidHeaders, line)];
      }
      assert emitted == DirectiveValidator.MissingReport(directive, missingHeaders, line)
        + DirectiveValidator.InvalidReport(directive, invalidHeaders, line);
      ReportsAlike(directive, allowedHeaders, headers, line);
    }
  }

  /** With the allowed headers of a registered directive, the inline
      filters report what validateHeaders reports. */
  lemma ReportsAlike(directive: string, allowed: seq<string>, headers: seq<string>, line: int)
    requires DirectiveValidator.GetAllowedHeaders(directive) == Some(allowed)
    ensures DirectiveValidator.ValidateHeaders(directive, headers, line)
      == DirectiveValidator.MissingReport(directive, Seqs.Filter(allowed, IsMissing(headers)), line)
       + DirectiveValidator.InvalidReport(directive, Seqs.Filter(headers, IsInvalid(allowed)), line)
  {
    Seqs.FilterExt(allowed, IsMissing(headers), DirectiveValidator.Absent(headers));
    Seqs.FilterExt(headers, IsInvalid(allowed), DirectiveValidator.Unexpected(allowed));
  }

  /** What the inline code builds for a directive and its table is what
      processDirectiveTable builds. */
  lemma ProcessedAlike(directive: string, table: Node, record: ParsedDirective, emitted: seq<DirectiveValidator.Diagnostic>)
    requires HasHeaderRow(table)
    requires record.directive == directive
    requires record.line == if table.line.Some? && table.line.value != 0 then table.line.value else 0
    requires record.headers == Seqs.Map(table.children[0].children, CellText)
    requires record.rows == Seqs.Map(table.children[1..], ToRecord(record.headers))
    requires emitted == DirectiveValidator.ValidateHeaders(directive, record.headers, record.line)
    ensures Parser.ProcessDirectiveTable(directive, table) == Parser.Processed(record, emitted)
  {
    HeadersAlike(table);
    RowsAlike(table, record.headers);
  }

  /** The inline header reading is extractHeaders. */
  lemma HeadersAlike(table: Node)
    requires HasHeaderRow(table)
    ensures Seqs.Map(table.children[0].children, CellText) == ExtractHeaders(table)
  {
    var a, b := Seqs.Map(table.children[0].children, CellText), ExtractHeaders(table);
    forall i | 0 <= i < |a|
      ensures a[i] == b[i]
    {
      var cell := table.children[0].children[i];
      assert a[i] == CellText(cell) && b[i] == ExtractCellText(cell);
    }
  }

  /** The inline cell reading of a row is the extractor's. */
  lemma CellsAlike(row: Node)
    ensures Seqs.Map(row.children, CellText) == CellTexts(row)
  {
    var a, b := Seqs.Map(row.children, CellText), CellTexts(row);
    forall i | 0 <= i < |a|
      ensures a[i] == b[i]
    {
      assert a[i] == CellText(row.children[i]) && b[i] == ExtractCellText(row.children[i]);
    }
  }

  /** The inline record of a row is the extractor's. */
  lemma RowAlike(headers: seq<string>, row: Node)
    ensures RowOf(headers, row) == RowRecord(headers, CellTexts(row))
  {
    var cells := CellTexts(row);
    CellsAlike(row);
    Seqs.ReduceExt(headers, Accumulate(cells), RowStep(cells), map[]);
  }

  /** The inline row reading is extractRows. */
  lemma RowsAlike(table: Node, headers: seq<string>)
    requires HasHeaderRow(table)
    ensures Seqs.Map(table.children[1..], ToRecord(headers)) == ExtractRows(table, headers)
  {
    var a, b := Seqs.Map(table.children[1..], ToRecord(headers)), ExtractRows(table, headers);
    RowRecordsAreExpected(headers);
    forall k | 0 <= k < |a|
      ensures a[k] == b[k]
    {
      var row := table.children[1..][k];
      RowAlike(headers, row);
      assert DataRows(table)[k] == row;
    }
  }

  /** The callback's own copy of the registry gives every directive the
      allowed headers validateHeaders gives it, and registers the same
      directives. */
  lemma RegistryAlike(directive: string)
    ensures var specificHeaders := Lookup(DirectiveSpecificHeaders, directive);
      var allowed := DirectiveValidator.GetAllowedHeaders(directive);
      && (specificHeaders.Some? <==> allowed.Some?)
      && (specificHeaders.Some? ==> GlobalHeaders + specificHeaders.value == allowed.value)
  {
    var specificHeaders := Lookup(DirectiveSpecificHeaders, directive);
    if specificHeaders.Some? {
      assert directive == "@Button" || directive == "@TextBox";
    }
  }

  /** `parse`: walks the tree in pre-order and runs the callback on every
      visit. It returns the records, and writes the diagnostics, of the
      decomposed parser. */
  method Parse(root: Node) returns (results: seq<ParsedDirective>, diagnostics: seq<DirectiveValidator.Diagnostic>)
    requires Parser.Parseable(root)
    ensures results == Run(PreOrder(root, None, None), Parser.Callback).pushed
    ensures diagnostics == Run(PreOrder(root, None, None), Parser.Callback).emitted
  {
    var visits := PreOrder(root, None, None);
    results, diagnostics := [], [];
    for i := 0 to |visits|
      invariant results == Run(visits[..i], Parser.Callback).pushed
      invariant diagnostics == Run(visits[..i], Parser.Callback).emitted
    {
      results, diagnostics := VisitNode(visits[i], results, diagnostics);
      RunSnoc(visits, i, Parser.Callback);
    }
    assert visits[..|visits|] == visits;
  }
}
