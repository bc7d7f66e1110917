/** The header schema of each registered directive and the check of a
    table's headers against it. Diagnostics, which the program writes to
    the error stream, are returned as data. */
module DirectiveValidator {
  import opened Options
  import Seqs

  /** The headers every registered directive requires. */
  const GlobalHeaders: seq<string> := ["項目ID", "項目名"]

  /** The registry: the extra headers of each directive that is checked. */
  const DirectiveSpecificHeaders: map<string, seq<string>> :=
    map["@Button" := ["イベント名"], "@TextBox" := ["桁数"]]

  /** The headers a directive's table must have, and the only ones it may
      have: absent for a directive outside the registry, otherwise the
      global headers followed by the directive's own. */
  function GetAllowedHeaders(directive: string): (r: Option<seq<string>>)
    ensures r.Some? <==> directive == "@Button" || directive == "@TextBox"
    ensures r.Some? ==> "" !in r.value
    ensures r.Some? ==> |GlobalHeaders| <= |r.value| && r.value[..|GlobalHeaders|] == GlobalHeaders
    ensures directive == "@Button" ==> r == Some(["項目ID", "項目名", "イベント名"])
    ensures directive == "@TextBox" ==> r == Some(["項目ID", "項目名", "桁数"])
  {
    assert GlobalHeaders + ["イベント名"] == ["項目ID", "項目名", "イベント名"];
    assert GlobalHeaders + ["桁数"] == ["項目ID", "項目名", "桁数"];
    Lookup(DirectiveSpecificHeaders, directive).Map((specific: seq<string>) => GlobalHeaders + specific)
  }

  datatype DiagnosticKind = Missing | Invalid

  /** A warning about a table: which check failed, for which directive,
      the offending headers and the line the table starts on. */
  datatype Diagnostic = Diagnostic(kind: DiagnosticKind, directive: string, headers: seq<string>, line: int)

  /** `required => !headers.includes(required)` */
  function Absent(headers: seq<string>): string -> bool
  {
    (required: string) => required !in headers
  }

  /** `header => header !== '' && !allowed.includes(header)` */
  function Unexpected(allowed: seq<string>): string -> bool
  {
    (header: string) => header != "" && header !in allowed
  }

  /** The allowed headers that do not occur among the table's headers, in
      the order of the allowed list. */
  function MissingHeaders(allowed: seq<string>, headers: seq<string>): (r: seq<string>)
    ensures forall x :: x in r <==> x in allowed && x !in headers
    ensures r != [] <==> exists x :: x in allowed && x !in headers
  {
    var r := Seqs.Filter(allowed, Absent(headers));
    assert r != [] ==> r[0] in r;
    r
  }

  /** The table's headers that are not allowed, in table order; an empty
      header (an unlabelled column) is never one of them. */
  function InvalidHeaders(allowed: seq<string>, headers: seq<string>): (r: seq<string>)
    ensures forall x :: x in r <==> x in headers && x != "" && x !in allowed
    ensures "" !in r
    ensures r != [] <==> exists x :: x in headers && x != "" && x !in allowed
  {
    var r := Seqs.Filter(headers, Unexpected(allowed));
    assert r != [] ==> r[0] in r;
    r
  }

  /** The missing list keeps the order of the allowed list: the allowed
      headers split anywhere give the missing list split at the same
      place. */
  lemma MissingHeadersAppend(a: seq<string>, b: seq<string>, headers: seq<string>)
    ensures MissingHeaders(a + b, headers) == MissingHeaders(a, headers) + MissingHeaders(b, headers)
  {
    Seqs.FilterAppend(a, b, Absent(headers));
  }

  /** One allowed header is listed once when the table lacks it, and
      otherwise not at all. */
  lemma MissingHeadersOne(x: string, headers: seq<string>)
    ensures MissingHeaders([x], headers) == if x in headers then [] else [x]
  {
    assert [x][1..] == [];
  }

  /** The invalid list keeps the order of the table's headers, with one
      entry per offending column: the headers split anywhere give the
      invalid list split at the same place. */
  lemma InvalidHeadersAppend(allowed: seq<string>, a: seq<string>, b: seq<string>)
    ensures InvalidHeaders(allowed, a + b) == InvalidHeaders(allowed, a) + InvalidHeaders(allowed, b)
  {
    Seqs.FilterAppend(a, b, Unexpected(allowed));
  }

  /** One column is listed once when its header is non-empty and not
      allowed, and otherwise not at all. */
  lemma InvalidHeadersOne(allowed: seq<string>, x: string)
    ensures InvalidHeaders(allowed, [x]) == if x != "" && x !in allowed then [x] else []
  {
    assert [x][1..] == [];
  }

  function MissingReport(directive: string, missing: seq<string>, line: int): seq<Diagnostic>
  {
    if |missing| > 0 then [Diagnostic(Missing, directive, missing, line)] else []
  }

  function InvalidReport(directive: string, invalid: seq<string>, line: int): seq<Diagnostic>
  {
    if |invalid| > 0 then [Diagnostic(Invalid, directive, invalid, line)] else []
  }

  /** The diagnostics for a table with `headers`, checked against the
      `allowed` headers of `directive`, the table starting at `line`: a
      "missing" diagnostic exactly when some allowed header is absent, an
      "invalid" one exactly when some non-empty header is not allowed (see
      MissingHeaders and InvalidHeaders); at most one of each, the
      "missing" one first, each naming the directive, its header list and
      the line. */
  function CheckHeaders(directive: string, allowed: seq<string>, headers: seq<string>, line: int): (r: seq<Diagnostic>)
    ensures |r| <= 2
    ensures forall k :: 0 <= k < |r| ==> r[k].directive == directive && r[k].line == line
    ensures (exists k :: 0 <= k < |r| && r[k].kind == Missing) <==> MissingHeaders(allowed, headers) != []
    ensures (exists k :: 0 <= k < |r| && r[k].kind == Invalid) <==> InvalidHeaders(allowed, headers) != []
    ensures forall k :: 0 <= k < |r| && r[k].kind == Missing ==> k == 0 && r[k].headers == MissingHeaders(allowed, headers)
    ensures forall k :: 0 <= k < |r| && r[k].kind == Invalid ==> k == |r| - 1 && r[k].headers == InvalidHeaders(allowed, headers)
  {
    var missing := MissingHeaders(allowed, headers);
    var invalid := InvalidHeaders(allowed, headers);
    var r := MissingReport(directive, missing, line) + InvalidReport(directive, invalid, line);
    assert missing != [] ==> r[0].kind == Missing;
    assert invalid != [] ==> r[|r| - 1].kind == Invalid;
    r
  }

  /** `validateHeaders`: a directive outside the registry is not checked
      and gets no diagnostic, whatever its headers; a registered one is
      checked against its allowed headers. */
  function ValidateHeaders(directive: string, headers: seq<string>, line: int): (r: seq<Diagnostic>)
    ensures GetAllowedHeaders(directive).None? ==> r == []
    ensures GetAllowedHeaders(directive).Some? ==> r == CheckHeaders(directive, GetAllowedHeaders(directive).value, headers, line)
  {
    GetAllowedHeaders(directive).Map((allowed: seq<string>) => CheckHeaders(directive, allowed, headers, line)).GetOr([])
  }

  /** The distinct labels among `headers`, blank columns aside. */
  function Labels(headers: seq<string>): set<string>
  {
    set h | h in headers && h != ""
  }

  /** A table whose non-empty headers are exactly the allowed ones gets no
      diagnostic, whatever their order, repetitions or blank columns. */
  lemma ExactHeadersPass(directive: string, headers: seq<string>, line: int)
    requires GetAllowedHeaders(directive).Some?
    requires Labels(headers) == Labels(GetAllowedHeaders(directive).value)
    ensures ValidateHeaders(directive, headers, line) == []
  {
    var allowed := GetAllowedHeaders(directive).value;
    forall i | 0 <= i < |allowed| ensures allowed[i] in headers {
      assert allowed[i] in Labels(allowed);
    }
    forall i | 0 <= i < |headers| && headers[i] != "" ensures headers[i] in allowed {
      assert headers[i] in Labels(headers);
    }
    Seqs.FilterNone(allowed, Absent(headers));
    Seqs.FilterNone(headers, Unexpected(allowed));
  }

  /** A table of `@Button` with its three headers passes. */
  lemma ButtonTablePasses(line: int)
    ensures ValidateHeaders("@Button", ["項目ID", "項目名", "イベント名"], line) == []
  {
    ExactHeadersPass("@Button", ["項目ID", "項目名", "イベント名"], line);
  }

  /** A table of `@Button` whose event column is renamed gets two
      diagnostics: the event header is missing and the new name is not
      allowed. */
  lemma RenamedButtonColumnReported(line: int)
    ensures ValidateHeaders("@Button", ["項目ID", "項目名", "うんち"], line)
      == [Diagnostic(Missing, "@Button", ["イベント名"], line),
          Diagnostic(Invalid, "@Button", ["うんち"], line)]
  {
    var headers := ["項目ID", "項目名", "うんち"];
    var allowed := ["項目ID", "項目名", "イベント名"];
    assert ValidateHeaders("@Button", headers, line) == CheckHeaders("@Button", allowed, headers, line) by {
      assert GetAllowedHeaders("@Button") == Some(allowed);
    }
    assert CheckHeaders("@Button", allowed, headers, line)
      == MissingReport("@Button", ["イベント名"], line) + InvalidReport("@Button", ["うんち"], line) by {
      RenamedColumnMissing(headers, allowed);
      RenamedColumnInvalid(headers, allowed);
    }
  }

  lemma RenamedColumnMissing(headers: seq<string>, allowed: seq<string>)
    requires headers == ["項目ID", "項目名", "うんち"] && allowed == ["項目ID", "項目名", "イベント名"]
    ensures MissingHeaders(allowed, headers) == ["イベント名"]
  {
    var isMissing := Absent(headers);
    assert allowed[1..][1..][1..] == [];
    assert isMissing(allowed[0]) == false && isMissing(allowed[1]) == false;
    assert isMissing(allowed[2]) by {
      assert allowed[2][0] != headers[0][0] && allowed[2][0] != headers[1][0] && allowed[2][0] != headers[2][0];
    }
    assert Seqs.Filter(allowed, isMissing) == ["イベント名"];
  }

  lemma RenamedColumnInvalid(headers: seq<string>, allowed: seq<string>)
    requires headers == ["項目ID", "項目名", "うんち"] && allowed == ["項目ID", "項目名", "イベント名"]
    ensures InvalidHeaders(allowed, headers) == ["うんち"]
  {
    var isInvalid := Unexpected(allowed);
    assert headers[1..][1..][1..] == [];
    assert isInvalid(headers[0]) == false && isInvalid(headers[1]) == false;
    assert isInvalid(headers[2]) by {
      assert headers[2][0] != allowed[0][0] && headers[2][0] != allowed[1][0] && headers[2][0] != allowed[2][0];
    }
    assert Seqs.Filter(headers, isInvalid) == ["うんち"];
  }
}
