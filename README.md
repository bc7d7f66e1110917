# mdspec directive tables, modelled in Dafny

mdspec reads a Markdown specification and collects its directive tables.
A directive is a paragraph whose first inline text starts with `@`, such
as `@Button`. It is immediately followed by a GFM table, and the parser
turns that pairing into a record:

- the trimmed directive;
- the line the table starts on;
- the header texts of the first row;
- one header→cell map per later row.

Tables of registered directives (`@Button`, `@TextBox`) also have their
headers checked against a schema. The schema is the global headers
`項目ID`, `項目名` followed by the directive's own headers. The check
warns about required headers that are missing and non-empty headers that
are not allowed.

The model covers both implementations in the repository:

- The decomposed one:
  - `src/table-extractor.ts` (module `TableExtractor`);
  - `src/directive-validator.ts` (module `DirectiveValidator`);
  - `src/parser.ts` (module `Parser`).
- The earlier single-file one, `parser.ts` (module `MonolithicParser`).
  This one is proved to push the same records and write the same
  warnings as the decomposed parser, visit by visit and over a whole
  document.

Supporting modules:

- `Mdast`: the part of the syntax tree that is read.
- `Text`: `startsWith` and `trim`.
- `Traversal`: the depth-first walk of `unist-util-visit`, as the list of
  `(node, index, parent)` calls it makes.
- `Visitor`: what a callback does, namely the records it pushes and the
  warnings it writes, folded over a walk.
- `Types`: the output record of `src/types.ts`.
- `Options` and `Seqs`: the `effect` Option pipeline and
  `Array.prototype.map/filter/reduce`.

Warnings, which the program writes with `console.error`, are returned as
`Diagnostic` values. Each one carries its kind, the directive, the
offending headers and the line, in the order the program would write
them.

Both `parse` functions are methods. Each loops over the walk, appending
records and diagnostics, and is proved equal to the callback folded over
the walk (`Visitor.Run`). Lemmas then characterise that fold:

- one record per directive/table pairing, in document order;
- each record is `processDirectiveTable` of its pairing;
- at most one record per paragraph.

Two facts about the code shape the model:

- **Repeated header names.** The fold `{...acc, [header]: cells[i] || ''}`
  runs from left to right, so the last column with a given name wins.
  `TableExtractor.ExpectedRow` and `TableExtractor.RowValue` state this.
- **The two implementations validate alike.** Both use `includes` for the
  missing check, and both exempt empty headers from the invalid check.
  `MonolithicParser.VisitNode` and `MonolithicParser.Parse` prove them
  identical.

## Model

| member | source | states |
|---|---|---|
| TableExtractor.ExtractCellText | src/table-extractor.ts:11-17 | a cell's text is the value of its first child when that child is a text node, and the empty string otherwise (no child, or a non-text child) |
| TableExtractor.ExtractHeaders | src/table-extractor.ts:20-21 | one header per cell of the first row, in column order, each that cell's text |
| TableExtractor.ExtractRows | src/table-extractor.ts:24-31 | one record per table row after the first, in order; record k is the expected row of row k's cell texts |
| TableExtractor.RowRecordIsExpected | src/table-extractor.ts:27-30 | the left fold over the headers, each step setting the header to its cell or "", builds exactly the map from each header to the cell under its last column, or "" when the row has no cell there |
| TableExtractor.RowKeys | src/table-extractor.ts:24-31 | every row record has exactly the header names as keys |
| TableExtractor.RowValue | src/table-extractor.ts:24-31 | in record k, a header not repeated later maps to the text of the row's cell at its position, or to "" when the row is shorter |
| TableExtractor.ExtraCellsIgnored | src/table-extractor.ts:27-30 | cells beyond the number of headers do not change a row record |
| TableExtractor.GetDirectiveText | src/table-extractor.ts:34-42 | a directive is found exactly when the node is a paragraph whose first child is a text starting with `@`; it is that text trimmed and still starts with `@` |
| TableExtractor.GetNextTable | src/table-extractor.ts:45-56 | a table is found exactly when parent and index are present and the sibling at index + 1 exists and is a table; it is that sibling |
| TableExtractor.GetDirectiveAndTable | src/table-extractor.ts:59-72 | a pairing exists exactly when both a directive and a next table exist, and it carries both unchanged |
| TableExtractor.DirectiveAndTableSpec | src/table-extractor.ts:59-72 | the pairing stated on the tree alone: Some(trimmed text, next sibling) under the combined conditions of both lookups, None otherwise |
| Text.TrimStart | src/table-extractor.ts:41 | the result is a suffix of the input, everything dropped is whitespace, and it does not start with whitespace |
| Text.TrimEnd | src/table-extractor.ts:41 | the result is a prefix of the input, everything dropped is whitespace, and it does not end with whitespace |
| Text.TrimKeepsMarker | src/table-extractor.ts:38-41 | a value starting with `@` still starts with `@` after `trim` |
| DirectiveValidator.GetAllowedHeaders | src/directive-validator.ts:10-24 | allowed headers exist exactly for `@Button` and `@TextBox`; they are the global headers followed by the directive's own, never contain "", and are listed for both directives |
| DirectiveValidator.MissingHeaders | src/directive-validator.ts:32-34 | a header is reported missing exactly when it is allowed and absent from the table; the list is non-empty exactly when such a header exists |
| DirectiveValidator.InvalidHeaders | src/directive-validator.ts:42-44 | a header is reported invalid exactly when it is in the table, non-empty and not allowed; "" is never reported |
| DirectiveValidator.MissingHeadersAppend | src/directive-validator.ts:32-34 | the missing list keeps the order of the allowed list: splitting the allowed headers splits the missing list at the same place |
| DirectiveValidator.MissingHeadersOne | src/directive-validator.ts:32-34 | a single allowed header is listed once when the table lacks it, and otherwise not at all |
| DirectiveValidator.InvalidHeadersAppend | src/directive-validator.ts:42-44 | the invalid list keeps the table's column order, one entry per offending column: splitting the headers splits the invalid list at the same place |
| DirectiveValidator.InvalidHeadersOne | src/directive-validator.ts:42-44 | a single column is listed once when its header is non-empty and not allowed, and otherwise not at all |
| DirectiveValidator.CheckHeaders | src/directive-validator.ts:30-50 | at most two warnings, each naming the directive and line; a "missing" one exactly when a header is missing, written first with the missing list; an "invalid" one exactly when a header is invalid, written last with the invalid list |
| DirectiveValidator.ValidateHeaders | src/directive-validator.ts:27-52 | an unregistered directive gets no warning whatever its headers; a registered one is checked against its allowed headers |
| DirectiveValidator.ExactHeadersPass | src/directive-validator.ts:27-52 | a table whose non-empty headers are exactly the allowed ones, in any order, repeated or with blank columns, gets no warning |
| DirectiveValidator.ButtonTablePasses | src/directive-validator.ts:14-17 | a `@Button` table with `項目ID`, `項目名`, `イベント名` gets no warning |
| DirectiveValidator.RenamedButtonColumnReported | src/directive-validator.ts:27-52 | a `@Button` table whose event column is renamed gets exactly two warnings: `イベント名` missing, then the new name invalid |
| Parser.ProcessDirectiveTable | src/parser.ts:24-38 | the record keeps the directive; its line is the table's start line or 0; its headers and rows are those of the extractor; the warnings are those of validating those headers at that line |
| Parser.CallbackSome | src/parser.ts:48-57 | at a visit with a pairing, the callback pushes that pairing's processed record and writes its warnings |
| Parser.CallbackNone | src/parser.ts:48-57 | at a visit without a pairing, the callback does nothing |
| Parser.GfmTreesAreParseable | src/table-extractor.ts:20-21 | in a tree whose tables all have a header row, reading the headers of every paired table succeeds |
| Parser.Parse | src/parser.ts:40-60 | the loop over the walk returns exactly the records the callbacks push, and writes exactly their warnings, in visit order |
| Parser.HandleAt | src/parser.ts:48-57 | one callback pushes the records of the pairings found at that visit and writes their warnings |
| Parser.RecordsAt | src/parser.ts:48-57 | record j of a list of pairings is the processed record of pairing j |
| Parser.RunFollowsPairings | src/parser.ts:48-57 | over any walk, the callback pushes one record per pairing, in visit order, each the processed record of its pairing, and writes their warnings in the same order |
| Parser.PairingAtParagraph | src/table-extractor.ts:34-42 | a visit yields at most one pairing, and only at a paragraph |
| Parser.PairingsAtParagraphs | src/table-extractor.ts:34-42 | a walk has at most as many pairings as paragraph visits |
| Parser.PairingsShape | src/table-extractor.ts:59-72 | every pairing of a walk pairs a directive starting with `@` with a table node |
| Parser.ParseSpec | src/parser.ts:40-60 | `parse` returns exactly the records of the walk's pairings, in document order, and writes their warnings in that order |
| Parser.ParseRecord | src/parser.ts:48-57 | record j of `parse` is the record processDirectiveTable builds from pairing j |
| Parser.ParseRecordShape | src/parser.ts:48-57 | every record of `parse` comes from a table node with a header row; its directive starts with `@`; it has one header per first-row cell and one row per later table row |
| Parser.ParseCount | src/parser.ts:48-57 | the root visit yields no record, and there are at most as many records as paragraphs in the tree |
| Traversal.PreOrder | src/parser.ts:48 | the walk visits every node once, the root first with no parent and index; every later visit reaches its node as `parent.children[index]`; in a tree whose tables have header rows, so do all parents seen |
| Traversal.ParagraphVisits | src/parser.ts:48 | the walk visits exactly as many paragraphs as the tree has |
| Visitor.RunSnoc | src/parser.ts:48-57 | extending a walk by one visit appends that visit's records and warnings after the earlier ones |
| MonolithicParser.VisitNode | parser.ts:31-98 | the inline callback appends to the result and warning lists exactly what the decomposed callback pushes and writes at the same visit |
| MonolithicParser.ValidateInline | parser.ts:49-74 | the inline header check, with its own copy of the registry, writes exactly the diagnostics validateHeaders writes |
| MonolithicParser.ProcessedAlike | parser.ts:44-93 | the record and warnings built inline for a directive and table are processDirectiveTable's |
| MonolithicParser.HeadersAlike | parser.ts:44-47 | the inline header reading equals extractHeaders |
| MonolithicParser.CellsAlike | parser.ts:77-80 | the inline cell reading of a row equals the extractor's |
| MonolithicParser.RowAlike | parser.ts:82-85 | the inline row fold equals the extractor's row record |
| MonolithicParser.RowsAlike | parser.ts:76-86 | the inline row reading equals extractRows |
| MonolithicParser.RegistryAlike | parser.ts:14-21 | the inline copy of the registry registers the same directives as validateHeaders' registry and gives each the same allowed headers |
| MonolithicParser.ReportsAlike | parser.ts:55-73 | with a registered directive's allowed headers, the inline missing and invalid filters report what validateHeaders reports |
| MonolithicParser.Parse | parser.ts:23-101 | the single-file `parse` returns the same records and writes the same warnings as the decomposed `parse` on every tree |

## Left out

- The Markdown/GFM parser (`unified().use(remarkParse).use(remarkGfm)`): the syntax tree is an input. Only node type, children, text value and start line are modelled; all other node types are `Other`.
- `unist-util-visit` itself: it is replaced by `Traversal.PreOrder`, the order of the calls it makes. Its `SKIP`/`EXIT` return values are unused by the callbacks and are not modelled.
- `console.error` and the Japanese wording of the warnings: warnings are `Diagnostic` values in the order they would be written, not formatted text.
- Reading a row-less table throws a `TypeError` at `table.children[0]`; the model requires instead that every paired table has a header row (`Parser.Parseable`). The GFM parser never builds such a table (`Parser.GfmTreesAreParseable`).
- Registry lookups by a name inherited from `Object.prototype` are not modelled: the registry is a map of its own entries. Such names cannot start with `@`, so no directive can reach them.
- JavaScript object key order in row records: a row is a `map<string, string>`, so only keys and values are modelled.
- `trim` uses the ECMAScript whitespace and line-terminator set, written out character by character. Unicode version differences in that set are not modelled.
- `src/index.ts` (re-exports) and `test.ts` (a script that parses an inline two-table document and prints the result as JSON) are I/O around the core and are not part of this model.
