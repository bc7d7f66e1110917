/** The parser of the decomposed implementation: a walk over the whole
    tree that pairs every directive paragraph with the table after it,
    extracts the table and validates its headers, collecting one record
    per pairing. */
module Parser {
  import opened Options
  import opened Mdast
  import opened Text
  import opened Types
  import opened Traversal
  import opened TableExtractor
  import opened DirectiveValidator
  import opened Visitor
  import Seqs

  /** `table.position?.start.line || 0` */
  function LineOf(table: Node): int
  {
    if table.line.Some? && table.line.value != 0 then table.line.value else 0
  }

  /** A processed pairing: the record, and the diagnostics its validation
      wrote. */
  datatype Processed = Processed(record: ParsedDirective, diagnostics: seq<Diagnostic>)

  /** The record of a directive and its table: the directive unchanged,
      the table's start line or 0 when it has none, one header per cell of
      the first row and one row per later table row, the rows read against
      those headers; validation of those headers, at that same line, only
      adds diagnostics: the record is built from the extractor alone. */
  function ProcessDirectiveTable(directive: string, table: Node): (p: Processed)
    requires HasHeaderRow(table)
    ensures p.record.directive == directive
    ensures p.record.line == if table.line.Some? then table.line.value else 0
    ensures p.record.headers == ExtractHeaders(table) && |p.record.headers| == |table.children[0].children|
    ensures p.record.rows == ExtractRows(table, p.record.headers) && |p.record.rows| == |table.children| - 1
    ensures p.diagnostics == ValidateHeaders(directive, p.record.headers, p.record.line)
  {
    var headers := ExtractHeaders(table);
    var line := LineOf(table);
    var diagnostics := ValidateHeaders(directive, headers, line);
    var rows := ExtractRows(table, headers);
    Processed(ParsedDirective(directive, line, headers, rows), diagnostics)
  }

  function ProcessPairing(p: Pairing): Processed
    requires HasHeaderRow(p.table)
  {
    ProcessDirectiveTable(p.directive, p.table)
  }

  /** The callback `visit` is given, for any `process` mapped over the
      pairing: the pairing found at the visited node, if any, is
      processed and its record pushed, with the diagnostics the processing
      writes; any other node does nothing. */
  function Handle(process: Pairing --> Processed, v: Visit): Effects
    requires CanProcessAt(process, v)
  {
    match GetDirectiveAndTable(v.node, v.parent, v.index)
    case Some(p) => var q := process(p); Effects([q.record], q.diagnostics)
    case None => Effects([], [])
  }

  /** The visitor callback of `parse`: `Handle` with processDirectiveTable. */
  function Callback(v: Visit): Effects
    requires PairedTableHasHeaderRow(v.node, v.parent, v.index)
  {
    Handle(ProcessPairing, v)
  }

  /** `process` can be applied to the pairing found at the visit, if any. */
  ghost predicate CanProcessAt(process: Pairing --> Processed, v: Visit)
  {
    match GetDirectiveAndTable(v.node, v.parent, v.index)
    case Some(p) => process.requires(p)
    case None => true
  }

  /** The callback pushes the processed pairing, if any, and writes its
      diagnostics. */
  lemma CallbackIsMapped(v: Visit)
    requires PairedTableHasHeaderRow(v.node, v.parent, v.index)
    ensures var result := GetDirectiveAndTable(v.node, v.parent, v.index).Map(ProcessPairing);
      Callback(v) == if result.Some? then Effects([result.value.record], result.value.diagnostics) else Effects([], [])
  {
  }

  /** The callback at a visit with a pairing pushes its processed record. */
  lemma CallbackSome(v: Visit, p: Pairing)
    requires GetDirectiveAndTable(v.node, v.parent, v.index) == Some(p)
    requires PairedTableHasHeaderRow(v.node, v.parent, v.index)
    ensures HasHeaderRow(p.table)
    ensures var q := ProcessDirectiveTable(p.directive, p.table);
      Callback(v) == Effects([q.record], q.diagnostics)
  {
  }

  /** The callback at a visit without a pairing does nothing. */
  lemma CallbackNone(v: Visit)
    requires GetDirectiveAndTable(v.node, v.parent, v.index) == None
    ensures Callback(v) == Effects([], [])
  {
  }

  /** The pairing found at one visit, if any. */
  function PairingAt(v: Visit): seq<Pairing>
  {
    match GetDirectiveAndTable(v.node, v.parent, v.index)
    case Some(p) => [p]
    case None => []
  }

  /** Every visit of the walk of `root` can be processed: each table that
      follows a directive has a first row. */
  predicate Parseable(root: Node)
  {
    var visits := PreOrder(root, None, None);
    forall k :: 0 <= k < |visits| ==> PairedTableHasHeaderRow(visits[k].node, visits[k].parent, visits[k].index)
  }

  /** A tree from the GFM parser, whose tables all have a header row, can
      be parsed. */
  lemma GfmTreesAreParseable(root: Node)
    requires TablesHaveHeaderRows(root)
    ensures Parseable(root)
  {
    var visits := PreOrder(root, None, None);
    forall k | 0 <= k < |visits|
      ensures PairedTableHasHeaderRow(visits[k].node, visits[k].parent, visits[k].index)
    {
      var v := visits[k];
      if GetDirectiveAndTable(v.node, v.parent, v.index).Some? {
        var p := v.parent.value;
        assert TablesHaveHeaderRows(p.children[v.index.value + 1]);
      }
    }
  }

  /** `parse`: walks the tree in pre-order, calling the callback on every
      node, pushing the records onto the result list and writing the
      diagnostics; the outcome is the effect of the callback over the
      whole walk. */
  method Parse(root: Node) returns (results: seq<ParsedDirective>, diagnostics: seq<Diagnostic>)
    requires Parseable(root)
    ensures results == Run(PreOrder(root, None, None), Callback).pushed
    ensures diagnostics == Run(PreOrder(root, None, None), Callback).emitted
  {
    var visits := PreOrder(root, None, None);
    results, diagnostics := [], [];
    for i := 0 to |visits|
      invariant results == Run(visits[..i], Callback).pushed
      invariant diagnostics == Run(visits[..i], Callback).emitted
    {
      var v := visits[i];
      var result := GetDirectiveAndTable(v.node, v.parent, v.index).Map(ProcessPairing);
      CallbackIsMapped(v);
      RunSnoc(visits, i, Callback);
      if result.Some? {
        diagnostics := diagnostics + result.value.diagnostics;
        results := results + [result.value.record];
      }
    }
    assert visits[..|visits|] == visits;
  }

  /** What `find` yields along a walk, in visit order. */
  function Collect(find: Visit -> seq<Pairing>, visits: seq<Visit>): seq<Pairing>
    decreases |visits|
  {
    if visits == [] then [] else Collect(find, visits[..|visits| - 1]) + find(visits[|visits| - 1])
  }

  /** The pairings found along a walk, in visit order. */
  function Pairings(visits: seq<Visit>): seq<Pairing>
  {
    Collect(PairingAt, visits)
  }

  /** `process` can be applied to every pairing of `ps`. */
  ghost predicate Processable(process: Pairing --> Processed, ps: seq<Pairing>)
  {
    forall j :: 0 <= j < |ps| ==> process.requires(ps[j])
  }

  /** The records of the pairings, in order, one per pairing. */
  function Records(process: Pairing --> Processed, ps: seq<Pairing>): (r: seq<ParsedDirective>)
    requires Processable(process, ps)
    ensures |r| == |ps|
    decreases |ps|
  {
    if ps == [] then []
    else Records(process, ps[..|ps| - 1]) + [process(ps[|ps| - 1]).record]
  }

  /** The record at position `j` is the processed record of pairing `j`. */
  lemma {:induction false} RecordsAt(process: Pairing --> Processed, ps: seq<Pairing>, j: nat)
    requires Processable(process, ps) && j < |ps|
    ensures Records(process, ps)[j] == process(ps[j]).record
    decreases |ps|
  {
    var n := |ps| - 1;
    if j < n {
      RecordsAt(process, ps[..n], j);
      assert Records(process, ps)[j] == Records(process, ps[..n])[j];
    }
  }

  /** The diagnostics the processing of each pairing writes, in order. */
  function PairingDiagnostics(process: Pairing --> Processed, ps: seq<Pairing>): seq<Diagnostic>
    requires Processable(process, ps)
    decreases |ps|
  {
    if ps == [] then []
    else PairingDiagnostics(process, ps[..|ps| - 1]) + process(ps[|ps| - 1]).diagnostics
  }

  lemma RecordsAppend(process: Pairing --> Processed, a: seq<Pairing>, b: seq<Pairing>)
    requires |b| <= 1
    requires Processable(process, a) && Processable(process, b)
    ensures Processable(process, a + b)
    ensures Records(process, a + b) == Records(process, a) + Records(process, b)
    ensures PairingDiagnostics(process, a + b) == PairingDiagnostics(process, a) + PairingDiagnostics(process, b)
  {
    if b == [] {
      assert a + b == a;
    } else {
      assert (a + b)[..|a|] == a;
      assert b[..0] == [];
    }
  }

  /** One call of the callback pushes the record of the pairing found at
      the visit, if any, and writes its diagnostics. */
  lemma HandleAt(process: Pairing --> Processed, v: Visit)
    requires CanProcessAt(process, v)
    ensures Processable(process, PairingAt(v))
    ensures Handle(process, v).pushed == Records(process, PairingAt(v))
    ensures Handle(process, v).emitted == PairingDiagnostics(process, PairingAt(v))
  {
    var r := GetDirectiveAndTable(v.node, v.parent, v.index);
    if r.Some? {
      assert PairingAt(v) == [r.value];
      ProcessOne(process, r.value);
    }
  }

  lemma ProcessOne(process: Pairing --> Processed, p: Pairing)
    requires process.requires(p)
    ensures Processable(process, [p])
    ensures Records(process, [p]) == [process(p).record]
    ensures PairingDiagnostics(process, [p]) == process(p).diagnostics
  {
    assert [p][..0] == [];
  }

  /** Over any walk, a callback that acts as `Handle` with `process` on
      every visit pushes exactly one record per pairing, in visit order,
      each the processed record of its pairing, and writes the diagnostics
      of those pairings in the same order. */
  lemma {:induction false} RunFollowsPairings(process: Pairing --> Processed, step: Visit --> Effects, visits: seq<Visit>)
    requires forall k :: 0 <= k < |visits| ==>
      && CanProcessAt(process, visits[k])
      && step.requires(visits[k])
      && step(visits[k]) == Handle(process, visits[k])
    ensures Processable(process, Pairings(visits))
    ensures Run(visits, step).pushed == Records(process, Pairings(visits))
    ensures Run(visits, step).emitted == PairingDiagnostics(process, Pairings(visits))
    decreases |visits|
  {
    if visits != [] {
      var n := |visits| - 1;
      RunFollowsPairings(process, step, visits[..n]);
      HandleAt(process, visits[n]);
      RecordsAppend(process, Pairings(visits[..n]), PairingAt(visits[n]));
    }
  }

  /** A visit yields at most one pairing, and only at a paragraph. */
  lemma PairingAtParagraph(v: Visit)
    ensures |PairingAt(v)| <= if IsParagraphVisit(v) then 1 else 0
  {
    if GetDirectiveAndTable(v.node, v.parent, v.index).Some? {
      assert GetDirectiveText(v.node).Some?;
    }
  }

  /** When `find` yields at most one item per visit, and only at
      paragraphs, a walk yields at most as many items as it visits
      paragraphs. */
  lemma {:induction false} CollectAtParagraphs(find: Visit -> seq<Pairing>, visits: seq<Visit>)
    requires forall v :: |find(v)| <= if IsParagraphVisit(v) then 1 else 0
    ensures |Collect(find, visits)| <= |Seqs.Filter(visits, IsParagraphVisit)|
    decreases |visits|
  {
    if visits != [] {
      var n := |visits| - 1;
      CollectAtParagraphs(find, visits[..n]);
      assert visits == visits[..n] + [visits[n]];
      Seqs.FilterSnoc(visits[..n], visits[n], IsParagraphVisit);
    }
  }

  /** Every pairing is found at a paragraph: a walk has at most as many
      pairings as it visits paragraphs. */
  lemma PairingsAtParagraphs(visits: seq<Visit>)
    ensures |Pairings(visits)| <= |Seqs.Filter(visits, IsParagraphVisit)|
  {
    forall v {
      PairingAtParagraph(v);
    }
    CollectAtParagraphs(PairingAt, visits);
  }

  /** When everything `find` yields has some property, so does everything
      a walk yields. */
  lemma {:induction false} CollectAll(find: Visit -> seq<Pairing>, P: Pairing -> bool, visits: seq<Visit>)
    requires forall v, j :: 0 <= j < |find(v)| ==> P(find(v)[j])
    ensures forall j :: 0 <= j < |Collect(find, visits)| ==> P(Collect(find, visits)[j])
    decreases |visits|
  {
    if visits != [] {
      var n := |visits| - 1;
      CollectAll(find, P, visits[..n]);
      var a, b := Collect(find, visits[..n]), find(visits[n]);
      forall j | 0 <= j < |a + b|
        ensures P((a + b)[j])
      {
        if j >= |a| {
          assert (a + b)[j] == b[j - |a|];
        }
      }
    }
  }

  /** A pairing pairs a directive starting with `@` with a table node. */
  predicate WellFormed(p: Pairing)
  {
    StartsWith(p.directive, "@") && p.table.kind.Table?
  }

  /** Each pairing of a walk pairs a directive starting with `@` with a
      table node. */
  lemma PairingsShape(visits: seq<Visit>)
    ensures forall j :: 0 <= j < |Pairings(visits)| ==> WellFormed(Pairings(visits)[j])
  {
    forall v, j | 0 <= j < |PairingAt(v)|
      ensures WellFormed(PairingAt(v)[j])
    {
      assert PairingAt(v)[j] == GetDirectiveAndTable(v.node, v.parent, v.index).value;
    }
    CollectAll(PairingAt, WellFormed, visits);
  }

  /** What `parse` returns for a tree: exactly the records of the pairings
      of the walk, in document order, and the diagnostics of their
      validation in the same order. */
  lemma ParseSpec(root: Node)
    requires Parseable(root)
    ensures var visits := PreOrder(root, None, None);
      && Processable(ProcessPairing, Pairings(visits))
      && Run(visits, Callback).pushed == Records(ProcessPairing, Pairings(visits))
      && Run(visits, Callback).emitted == PairingDiagnostics(ProcessPairing, Pairings(visits))
  {
    var visits := PreOrder(root, None, None);
    RunFollowsPairings(ProcessPairing, Callback, visits);
  }

  /** Record `j` of `parse` is the record processDirectiveTable builds
      from pairing `j` of the walk. */
  lemma ParseRecord(root: Node, j: nat)
    requires Parseable(root)
    requires j < |Pairings(PreOrder(root, None, None))|
    ensures var ps := Pairings(PreOrder(root, None, None));
      && HasHeaderRow(ps[j].table)
      && j < |Run(PreOrder(root, None, None), Callback).pushed|
      && Run(PreOrder(root, None, None), Callback).pushed[j] == ProcessDirectiveTable(ps[j].directive, ps[j].table).record
  {
    var visits := PreOrder(root, None, None);
    ParseSpec(root);
    RecordsAt(ProcessPairing, Pairings(visits), j);
  }

  /** Every record of `parse` names a directive that starts with `@`, read
      from a table node; it has one header per cell of that table's first
      row and one row per later table row. */
  lemma ParseRecordShape(root: Node, j: nat)
    requires Parseable(root)
    requires j < |Run(PreOrder(root, None, None), Callback).pushed|
    ensures var ps := Pairings(PreOrder(root, None, None));
      var r := Run(PreOrder(root, None, None), Callback).pushed[j];
      && j < |ps| && ps[j].table.kind.Table? && HasHeaderRow(ps[j].table)
      && StartsWith(r.directive, "@")
      && |r.headers| == |ps[j].table.children[0].children|
      && |r.rows| == |ps[j].table.children| - 1
  {
    var visits := PreOrder(root, None, None);
    ParseSpec(root);
    PairingsShape(visits);
    ParseRecord(root, j);
  }

  /** There are at most as many records as the tree has paragraphs, and
      the root itself never yields one. */
  lemma ParseCount(root: Node)
    requires Parseable(root)
    ensures var visits := PreOrder(root, None, None);
      && Callback(visits[0]) == Effects([], [])
      && |Run(visits, Callback).pushed| <= ParagraphCount(root)
  {
    var visits := PreOrder(root, None, None);
    ParseSpec(root);
    PairingsAtParagraphs(visits);
    ParagraphVisits(root, None, None);
  }
}
