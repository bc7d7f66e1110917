/** Text extraction from tables, and the pairing of a directive paragraph
    with the table right after it. */
module TableExtractor {
  import opened Options
  import opened Mdast
  import opened Text
  import opened Types
  import Seqs

  predicate IsTextNode(n: Node)
  {
    n.kind.Text?
  }

  function TextValue(n: Node): string
    requires n.kind.Text?
  {
    n.kind.value
  }

  /** The text of a cell: the value of its first child when that child is a
      `text` node, and the empty string otherwise (no child, or emphasis,
      a link, an image, ...). */
  function ExtractCellText(cell: Node): (r: string)
    ensures |cell.children| > 0 && cell.children[0].kind.Text? ==> r == cell.children[0].kind.value
    ensures !(|cell.children| > 0 && cell.children[0].kind.Text?) ==> r == ""
  {
    At(cell.children, 0).Filter(IsTextNode).Map(TextValue).GetOr("")
  }

  /** A table the extractor can read: it has a first row. */
  predicate HasHeaderRow(table: Node)
  {
    |table.children| > 0
  }

  /** The headers: the text of every cell of the first row, in column
      order, one per cell. */
  function ExtractHeaders(table: Node): (r: seq<string>)
    requires HasHeaderRow(table)
    ensures |r| == |table.children[0].children|
    ensures forall i :: 0 <= i < |r| ==> r[i] == ExtractCellText(table.children[0].children[i])
  {
    Seqs.Map(table.children[0].children, ExtractCellText)
  }

  /** `cells[i] || ''`: a cell past the end is `undefined`, and both it and
      the empty string are falsy. */
  function CellOr(cells: seq<string>, i: nat): string
  {
    if i < |cells| && cells[i] != "" then cells[i] else ""
  }

  /** One step of the row fold: `{...acc, [header]: cells[i] || ''}`. */
  function RowStep(cells: seq<string>): (Row, string, nat) -> Row
  {
    (acc: Row, header: string, i: nat) => acc[header := CellOr(cells, i)]
  }

  /** A data row as a record: the headers folded left to right into a map,
      each header taking the cell at its position. */
  function RowRecord(headers: seq<string>, cells: seq<string>): Row
  {
    Seqs.Reduce(headers, RowStep(cells), map[])
  }

  /** The table's rows after the first: `table.children.slice(1)`. */
  function DataRows(table: Node): seq<Node>
  {
    if |table.children| == 0 then [] else table.children[1..]
  }

  /** The texts of the cells of one row. */
  function CellTexts(row: Node): seq<string>
  {
    Seqs.Map(row.children, ExtractCellText)
  }

  /** The last position of `x` in `s`. */
  function LastIndex(s: seq<string>, x: string): (k: nat)
    requires x in s
    ensures k < |s| && s[k] == x
    ensures forall j :: k < j < |s| ==> s[j] != x
  {
    if s[|s| - 1] == x then |s| - 1 else LastIndex(s[..|s| - 1], x)
  }

  /** What a row record should hold, stated directly: a key for every
      header; its value is the cell under the header's LAST column (a
      repeated header name is overwritten by the later column), or the
      empty string when the row has no cell there. */
  function ExpectedRow(headers: seq<string>, cells: seq<string>): Row
  {
    map h | h in headers :: CellUnder(headers, cells, h)
  }

  /** The cell under the last column headed `h`, or the empty string. */
  function CellUnder(headers: seq<string>, cells: seq<string>, h: string): string
    requires h in headers
  {
    var k := LastIndex(headers, h); if k < |cells| then cells[k] else ""
  }

  lemma ExpectedRowSnocKeys(pre: seq<string>, h: string, cells: seq<string>)
    ensures ExpectedRow(pre + [h], cells).Keys == ExpectedRow(pre, cells).Keys + {h}
  {
    assert forall x :: x in pre + [h] <==> x in pre || x == h;
  }

  lemma LastIndexSnoc(pre: seq<string>, h: string, x: string)
    requires x in pre && x != h
    ensures LastIndex(pre + [h], x) == LastIndex(pre, x)
  {
    assert (pre + [h])[..|pre|] == pre;
  }

  /** Adding a column at the end sets the key of its header and leaves the
      other keys alone. */
  lemma ExpectedRowSnoc(pre: seq<string>, h: string, cells: seq<string>)
    ensures ExpectedRow(pre + [h], cells)
      == ExpectedRow(pre, cells)[h := if |pre| < |cells| then cells[|pre|] else ""]
  {
    var s := pre + [h];
    var e, a := ExpectedRow(s, cells), ExpectedRow(pre, cells);
    var b := a[h := if |pre| < |cells| then cells[|pre|] else ""];
    ExpectedRowSnocKeys(pre, h, cells);
    forall x | x in e.Keys
      ensures e[x] == b[x]
    {
      CellUnderSnoc(pre, h, cells, x);
    }
  }

  lemma CellUnderSnoc(pre: seq<string>, h: string, cells: seq<string>, x: string)
    requires x in pre + [h]
    ensures CellUnder(pre + [h], cells, x)
      == if x == h then (if |pre| < |cells| then cells[|pre|] else "") else CellUnder(pre, cells, x)
  {
    if x != h {
      LastIndexSnoc(pre, h, x);
    } else {
      assert LastIndex(pre + [h], x) == |pre|;
    }
  }

  /** The fold builds exactly the expected record. */
  lemma {:induction false} RowRecordIsExpected(headers: seq<string>, cells: seq<string>)
    ensures RowRecord(headers, cells) == ExpectedRow(headers, cells)
    decreases |headers|
  {
    if headers != [] {
      var n := |headers| - 1;
      var pre, h := headers[..n], headers[n];
      assert headers == pre + [h];
      RowRecordIsExpected(pre, cells);
      ExpectedRowSnoc(pre, h, cells);
      assert CellOr(cells, n) == if n < |cells| then cells[n] else "";
    }
  }

  lemma RowRecordsAreExpected(headers: seq<string>)
    ensures forall cells :: RowRecord(headers, cells) == ExpectedRow(headers, cells)
  {
    forall cells {
      RowRecordIsExpected(headers, cells);
    }
  }

  /** The data rows: one record per table row after the first, in row
      order. Each record has exactly the header names as keys; the header
      at position `i` (its last position, when the name repeats) maps to
      the row's cell `i`, or to the empty string when the row has fewer
      cells. */
  function ExtractRows(table: Node, headers: seq<string>): (r: seq<Row>)
    ensures |r| == |DataRows(table)|
    ensures forall k :: 0 <= k < |r| ==> r[k] == ExpectedRow(headers, CellTexts(DataRows(table)[k]))
  {
    RowRecordsAreExpected(headers);
    Seqs.Map(DataRows(table), (row: Node) => RowRecord(headers, CellTexts(row)))
  }

  /** Each record has exactly the header names as keys. */
  lemma RowKeys(table: Node, headers: seq<string>, k: nat)
    requires k < |ExtractRows(table, headers)|
    ensures ExtractRows(table, headers)[k].Keys == set h | h in headers
  {
  }

  /** In record `k`, the header at position `i`, when no later column
      repeats its name, maps to the row's cell `i`, or to the empty string
      when the row has fewer cells. */
  lemma RowValue(table: Node, headers: seq<string>, k: nat, i: nat)
    requires k < |ExtractRows(table, headers)| && i < |headers|
    requires forall j :: i < j < |headers| ==> headers[j] != headers[i]
    ensures var cells := DataRows(table)[k].children;
      ExtractRows(table, headers)[k][headers[i]] == if i < |cells| then ExtractCellText(cells[i]) else ""
  {
    var row := DataRows(table)[k];
    var texts := CellTexts(row);
    assert ExtractRows(table, headers)[k] == ExpectedRow(headers, texts);
    assert LastIndex(headers, headers[i]) == i;
    assert ExpectedRow(headers, texts)[headers[i]] == CellUnder(headers, texts, headers[i]);
  }

  /** Cells beyond the header count contribute nothing to a record. */
  lemma ExtraCellsIgnored(headers: seq<string>, cells: seq<string>, extra: seq<string>)
    requires |headers| <= |cells|
    ensures RowRecord(headers, cells + extra) == RowRecord(headers, cells)
  {
    RowRecordIsExpected(headers, cells);
    RowRecordIsExpected(headers, cells + extra);
  }

  predicate IsParagraph(n: Node)
  {
    n.kind.Paragraph?
  }

  predicate IsTable(n: Node)
  {
    n.kind.Table?
  }

  predicate IsDirectiveText(n: Node)
  {
    n.kind.Text? && StartsWith(n.kind.value, "@")
  }

  function TrimmedValue(n: Node): string
    requires n.kind.Text?
  {
    Trim(n.kind.value)
  }

  /** The directive of a node: present exactly when the node is a
      paragraph whose first child is a `text` node starting with `@`; it
      is that text trimmed, and it still starts with `@`. */
  function GetDirectiveText(node: Node): (r: Option<string>)
    ensures r.Some? <==>
      node.kind.Paragraph? && |node.children| > 0
      && node.children[0].kind.Text? && StartsWith(node.children[0].kind.value, "@")
    ensures r.Some? ==> r.value == Trim(node.children[0].kind.value) && StartsWith(r.value, "@")
  {
    var r := Lift(node, IsParagraph).FlatMap((n: Node) => At(n.children, 0)).Filter(IsDirectiveText).Map(TrimmedValue);
    if r.Some? then TrimKeepsMarker(node.children[0].kind.value); r else r
  }

  /** The sibling right after the node: present exactly when the parent and
      the index are both known, `index + 1` is a position of the parent's
      children and the child there is a table; it is then that child. */
  function GetNextTable(parent: Option<Node>, index: Option<nat>): (r: Option<Node>)
    ensures r.Some? <==>
      parent.Some? && index.Some? && index.value + 1 < |parent.value.children|
      && parent.value.children[index.value + 1].kind.Table?
    ensures r.Some? ==> r.value == parent.value.children[index.value + 1]
  {
    Both(parent, index).FlatMap((pi: (Node, nat)) => At(pi.0.children, pi.1 + 1)).Filter(IsTable)
  }

  /** A directive and the table that follows it. */
  datatype Pairing = Pairing(directive: string, table: Node)

  /** The pairing of a node: present exactly when the node has a directive
      and a table follows it, carrying both unchanged. */
  function GetDirectiveAndTable(node: Node, parent: Option<Node>, index: Option<nat>): (r: Option<Pairing>)
    ensures r.Some? <==> GetDirectiveText(node).Some? && GetNextTable(parent, index).Some?
    ensures r.Some? ==> r.value == Pairing(GetDirectiveText(node).value, GetNextTable(parent, index).value)
  {
    GetDirectiveText(node).FlatMap((d: string) => GetNextTable(parent, index).Map((t: Node) => Pairing(d, t)))
  }

  /** The pairing stated on the tree directly: a paragraph whose first
      child is a text starting with `@`, reached with a parent and an
      index, whose next sibling is a table, pairs its trimmed text with
      that table; no other node yields a pairing. */
  lemma DirectiveAndTableSpec(node: Node, parent: Option<Node>, index: Option<nat>)
    ensures GetDirectiveAndTable(node, parent, index)
      == if && node.kind.Paragraph? && |node.children| > 0
            && node.children[0].kind.Text? && StartsWith(node.children[0].kind.value, "@")
            && parent.Some? && index.Some? && index.value + 1 < |parent.value.children|
            && parent.value.children[index.value + 1].kind.Table?
         then Some(Pairing(Trim(node.children[0].kind.value), parent.value.children[index.value + 1]))
         else None
  {
    var d, t := GetDirectiveText(node), GetNextTable(parent, index);
    if d.Some? && t.Some? {
      assert GetDirectiveAndTable(node, parent, index) == Some(Pairing(d.value, t.value));
    }
  }

  /** Reading the headers of a paired table does not fail: a table that
      follows a directive has a first row. */
  predicate PairedTableHasHeaderRow(node: Node, parent: Option<Node>, index: Option<nat>)
  {
    match GetDirectiveAndTable(node, parent, index)
    case Some(p) => HasHeaderRow(p.table)
    case None => true
  }
}
