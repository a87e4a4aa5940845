/**
 * `processar_zip_sync` of the FastAPI back end (backend/main.py): walks the
 * names of the uploaded ZIP, keeps the `.xml` ones, classifies each document by
 * its `cStat`, `xMotivo` and `tpEmis` elements, copies its bytes under
 * `aprovados/`, `contingencia/` or `rejeitados/`, counts the three categories
 * and, after the loop, writes `rejeitados/relatorio_erros.csv` when something
 * was rejected. An input that is not a ZIP yields an archive holding only
 * `ERRO.txt`.
 */
module PyPipeline {
  import opened Wrappers
  import opened Text
  import opened Nfe

  /** A node yielded by lxml's `root.iter()`: an element with its tag in Clark notation
      (`{namespace}local`) and its `.text` (None when the element has no leading text), or a
      comment or processing instruction, whose `.tag` is not a string. */
  datatype Node = Element(tag: string, text: Option<string>) | NonElement

  /** `etree.fromstring` applied to a document: the nodes of the tree under the root in document
      order, or None when it raises `ParseError`. */
  type Parser = seq<byte> -> Option<seq<Node>>

  /** The upload as `zipfile.ZipFile` sees it: not a ZIP at all (`BadZipFile` on opening), or its
      members in stored order (the order of `namelist()`). */
  datatype Archive = BadZip | Zip(members: seq<Member>)

  const ParseFailureCode := "ERRO_PARSE"
  const ParseFailureReason := "Arquivo XML inválido ou corrompido"
  const MissingStatus := "N/A"
  const MissingReason := "Motivo não encontrado"
  const Authorised := ["100", "150"]
  const NormalEmission := "1"
  const ReportName := "rejeitados/relatorio_erros.csv"
  const ReportHeader := ["Nome do Arquivo", "Código Status (cStat)", "Motivo (xMotivo)"]
  const BadZipEntry := OutEntry("ERRO.txt", Text("O ficheiro enviado não era um ZIP válido."))

  /** The filter of the loop: `nome_arquivo.lower().endswith('.xml')`. */
  predicate IsXmlName(name: string) {
    EndsWith(Lower(name), ".xml")
  }

  /** An element whose tag ends with `suffix` (`node.tag.endswith(suffix)`); a namespace
      prefix in Clark notation does not stop the match. */
  predicate Tagged(n: Node, suffix: string) {
    n.Element? && EndsWith(n.tag, suffix)
  }

  // ---------------------------------------------------------------------------------------------
  // Looking up cStat, xMotivo and tpEmis

  /** The last node tagged `suffix`, the one the loop without `break` leaves in its variable. */
  function LastTagged(nodes: seq<Node>, suffix: string): (r: Option<Node>)
    ensures r.Some? ==> Tagged(r.value, suffix)
  {
    if nodes == [] then None
    else if Tagged(nodes[|nodes| - 1], suffix) then Some(nodes[|nodes| - 1])
    else LastTagged(nodes[..|nodes| - 1], suffix)
  }

  /** The first node tagged `suffix`, the one the loop with `break` stops at. */
  function FirstTagged(nodes: seq<Node>, suffix: string): (r: Option<Node>)
    ensures r.Some? ==> Tagged(r.value, suffix)
  {
    if nodes == [] then None
    else if Tagged(nodes[0], suffix) then Some(nodes[0])
    else FirstTagged(nodes[1..], suffix)
  }

  /** The first `for node in root.iter()` loop: remembers the last element whose tag ends with
      `cStat` and, in its `elif`, the last one ending with `xMotivo`. Comments and processing
      instructions are passed over (see Findings in README: the code as written raises on them). */
  method FindStatusNodes(nodes: seq<Node>) returns (cstatNode: Option<Node>, xmotivoNode: Option<Node>)
    ensures cstatNode == LastTagged(nodes, "cStat")
    ensures xmotivoNode == LastTagged(nodes, "xMotivo")
  {
    cstatNode, xmotivoNode := None, None;
    var i := 0;
    while i < |nodes|
      invariant 0 <= i <= |nodes|
      invariant cstatNode == LastTagged(nodes[..i], "cStat")
      invariant xmotivoNode == LastTagged(nodes[..i], "xMotivo")
    {
      var node := nodes[i];
      assert nodes[..i + 1][..i] == nodes[..i];
      if node.Element? {
        if EndsWith(node.tag, "cStat") {
          cstatNode := Some(node);
          assert node.tag[|node.tag| - 1] == 't';
        } else if EndsWith(node.tag, "xMotivo") {
          xmotivoNode := Some(node);
        }
      }
      i := i + 1;
    }
    assert nodes[..|nodes|] == nodes;
  }

  /** The second loop, run only for an authorised `cStat`: the first element whose tag ends with
      `tpEmis` (the loop breaks there). */
  method FindEmissionNode(nodes: seq<Node>) returns (tpemisNode: Option<Node>)
    ensures tpemisNode == FirstTagged(nodes, "tpEmis")
  {
    tpemisNode := None;
    var i := 0;
    while i < |nodes|
      invariant 0 <= i <= |nodes|
      invariant FirstTagged(nodes[i..], "tpEmis") == FirstTagged(nodes, "tpEmis")
    {
      var node := nodes[i];
      if node.Element? && EndsWith(node.tag, "tpEmis") {
        tpemisNode := Some(node);
        break;
      }
      assert nodes[i..][1..] == nodes[i + 1..];
      i := i + 1;
    }
  }

  // ---------------------------------------------------------------------------------------------
  // Classifying one document

  /** `cstat_value`: the text of the last cStat element, or "N/A" when there is none. */
  function StatusText(nodes: seq<Node>): Option<string> {
    match LastTagged(nodes, "cStat")
    case Some(n) => n.text
    case None => Some(MissingStatus)
  }

  /** `xmotivo_value`: the text of the last xMotivo element, or "Motivo não encontrado". */
  function ReasonText(nodes: seq<Node>): Option<string> {
    match LastTagged(nodes, "xMotivo")
    case Some(n) => n.text
    case None => Some(MissingReason)
  }

  /** `tpemis_value`: the text of the first tpEmis element, or None. */
  function EmissionText(nodes: seq<Node>): Option<string> {
    match FirstTagged(nodes, "tpEmis")
    case Some(n) => n.text
    case None => None
  }

  /** `cstat_value in ['100', '150']`: exact string comparison; a None text is never authorised. */
  predicate IsAuthorised(cstat: Option<string>) {
    cstat.Some? && cstat.value in Authorised
  }

  /** The outcome of one document from what the parser made of it. A None text is written by
      `csv.writer` as an empty field, hence `GetOr("")` in the report row. */
  function Classify(parsed: Option<seq<Node>>): Outcome {
    match parsed
    case None => Rejected(ParseFailureCode, ParseFailureReason)
    case Some(nodes) =>
      var cstat := StatusText(nodes);
      if !IsAuthorised(cstat) then Rejected(cstat.GetOr(""), ReasonText(nodes).GetOr(""))
      else if EmissionText(nodes) == Some(NormalEmission) then Approved
      else Contingency
  }

  /** The status code is the text of the LAST element whose tag ends with cStat: the document is
      rejected iff that text is not exactly "100" or "150", whatever tpEmis says, and the report
      row carries that text and the last xMotivo. */
  lemma StatusFromLastElement(nodes: seq<Node>, i: nat)
    requires i < |nodes| && Tagged(nodes[i], "cStat")
    requires forall j :: i < j < |nodes| ==> !Tagged(nodes[j], "cStat")
    ensures Classify(Some(nodes)).Rejected? <==> nodes[i].text != Some("100") && nodes[i].text != Some("150")
    ensures Classify(Some(nodes)).Rejected? ==>
              Classify(Some(nodes)) == Rejected(nodes[i].text.GetOr(""), ReasonText(nodes).GetOr(""))
  {
    LastTaggedIsLastIndex(nodes, "cStat", i);
  }

  /** Without any cStat element the code is "N/A", which is rejected. */
  lemma MissingStatusRejected(nodes: seq<Node>)
    requires forall j :: 0 <= j < |nodes| ==> !Tagged(nodes[j], "cStat")
    ensures Classify(Some(nodes)) == Rejected("N/A", ReasonText(nodes).GetOr(""))
  {
    LastTaggedNone(nodes, "cStat");
  }

  /** For an authorised document the FIRST element whose tag ends with tpEmis decides: text "1"
      gives approved, any other text (or none) contingency. */
  lemma EmissionFromFirstElement(nodes: seq<Node>, i: nat)
    requires IsAuthorised(StatusText(nodes))
    requires i < |nodes| && Tagged(nodes[i], "tpEmis")
    requires forall j :: 0 <= j < i ==> !Tagged(nodes[j], "tpEmis")
    ensures Classify(Some(nodes)) == if nodes[i].text == Some("1") then Approved else Contingency
  {
    FirstTaggedIsFirstIndex(nodes, "tpEmis", i);
  }

  /** An authorised document without any tpEmis element goes to contingency. */
  lemma MissingEmissionIsContingency(nodes: seq<Node>)
    requires IsAuthorised(StatusText(nodes))
    requires forall j :: 0 <= j < |nodes| ==> !Tagged(nodes[j], "tpEmis")
    ensures Classify(Some(nodes)) == Contingency
  {
    FirstTaggedNone(nodes, "tpEmis");
  }

  /** LastTagged finds the element at the greatest index whose tag ends with `suffix`, and nothing
      when there is none. */
  lemma {:induction false} LastTaggedCharacterised(nodes: seq<Node>, suffix: string)
    ensures LastTagged(nodes, suffix).Some? ==>
              exists i :: 0 <= i < |nodes| && nodes[i] == LastTagged(nodes, suffix).value && Tagged(nodes[i], suffix) &&
                          forall j :: i < j < |nodes| ==> !Tagged(nodes[j], suffix)
    ensures LastTagged(nodes, suffix).None? <==> forall i :: 0 <= i < |nodes| ==> !Tagged(nodes[i], suffix)
  {
    if nodes != [] {
      var init := nodes[..|nodes| - 1];
      LastTaggedCharacterised(init, suffix);
      if !Tagged(nodes[|nodes| - 1], suffix) && LastTagged(init, suffix).Some? {
        var i :| 0 <= i < |init| && init[i] == LastTagged(init, suffix).value && Tagged(init[i], suffix) &&
                 forall j :: i < j < |init| ==> !Tagged(init[j], suffix);
        assert nodes[i] == init[i];
      }
    }
  }

  /** FirstTagged finds the element at the smallest index whose tag ends with `suffix`, and nothing
      when there is none. */
  lemma {:induction false} FirstTaggedCharacterised(nodes: seq<Node>, suffix: string)
    ensures FirstTagged(nodes, suffix).Some? ==>
              exists i :: 0 <= i < |nodes| && nodes[i] == FirstTagged(nodes, suffix).value && Tagged(nodes[i], suffix) &&
                          forall j :: 0 <= j < i ==> !Tagged(nodes[j], suffix)
    ensures FirstTagged(nodes, suffix).None? <==> forall i :: 0 <= i < |nodes| ==> !Tagged(nodes[i], suffix)
  {
    if nodes != [] {
      FirstTaggedCharacterised(nodes[1..], suffix);
      if !Tagged(nodes[0], suffix) {
        if FirstTagged(nodes[1..], suffix).Some? {
          var i :| 0 <= i < |nodes[1..]| && nodes[1..][i] == FirstTagged(nodes[1..], suffix).value &&
                   Tagged(nodes[1..][i], suffix) && forall j :: 0 <= j < i ==> !Tagged(nodes[1..][j], suffix);
          assert nodes[i + 1] == nodes[1..][i];
          assert forall j :: 0 <= j < i + 1 ==> !Tagged(nodes[j], suffix) by {
            forall j | 0 <= j < i + 1 ensures !Tagged(nodes[j], suffix) {
              if j > 0 { assert nodes[j] == nodes[1..][j - 1]; }
            }
          }
        } else {
          forall i | 0 <= i < |nodes| ensures !Tagged(nodes[i], suffix) {
            if i > 0 { assert nodes[i] == nodes[1..][i - 1]; }
          }
        }
      }
    }
  }

  lemma {:induction false} LastTaggedIsLastIndex(nodes: seq<Node>, suffix: string, i: nat)
    requires i < |nodes| && Tagged(nodes[i], suffix)
    requires forall j :: i < j < |nodes| ==> !Tagged(nodes[j], suffix)
    ensures LastTagged(nodes, suffix) == Some(nodes[i])
  {
    if i < |nodes| - 1 {
      LastTaggedIsLastIndex(nodes[..|nodes| - 1], suffix, i);
    }
  }

  lemma {:induction false} LastTaggedNone(nodes: seq<Node>, suffix: string)
    requires forall j :: 0 <= j < |nodes| ==> !Tagged(nodes[j], suffix)
    ensures LastTagged(nodes, suffix) == None
  {
    if nodes != [] {
      LastTaggedNone(nodes[..|nodes| - 1], suffix);
    }
  }

  lemma {:induction false} FirstTaggedIsFirstIndex(nodes: seq<Node>, suffix: string, i: nat)
    requires i < |nodes| && Tagged(nodes[i], suffix)
    requires forall j :: 0 <= j < i ==> !Tagged(nodes[j], suffix)
    ensures FirstTagged(nodes, suffix) == Some(nodes[i])
  {
    if i > 0 {
      FirstTaggedIsFirstIndex(nodes[1..], suffix, i - 1);
    }
  }

  lemma {:induction false} FirstTaggedNone(nodes: seq<Node>, suffix: string)
    requires forall j :: 0 <= j < |nodes| ==> !Tagged(nodes[j], suffix)
    ensures FirstTagged(nodes, suffix) == None
  {
    if nodes != [] {
      FirstTaggedNone(nodes[1..], suffix);
    }
  }

  // ---------------------------------------------------------------------------------------------
  // Comments and processing instructions (see Findings in README)

  /** The first tag loop exactly as written: `node.tag.endswith(...)` is evaluated on every node
      `root.iter()` yields, and on a comment or processing instruction `.tag` is not a string, so
      an AttributeError is raised. None stands for that exception; it is not the `ParseError`
      the handler catches, nor `BadZipFile`, so it leaves `processar_zip_sync` and no archive is
      produced for the whole upload. */
  function ScanAsWritten(nodes: seq<Node>): (r: Option<(Option<Node>, Option<Node>)>)
    ensures r.None? <==> NonElement in nodes
    ensures r.Some? ==> r.value == (LastTagged(nodes, "cStat"), LastTagged(nodes, "xMotivo"))
  {
    if nodes == [] then Some((None, None))
    else
      match ScanAsWritten(nodes[..|nodes| - 1])
      case None => None
      case Some(found) =>
        var node := nodes[|nodes| - 1];
        assert nodes == nodes[..|nodes| - 1] + [node];
        if node.NonElement? then None
        else if EndsWith(node.tag, "cStat") then
          assert node.tag[|node.tag| - 1] == 't';
          Some((Some(node), found.1))
        else if EndsWith(node.tag, "xMotivo") then Some((found.0, Some(node)))
        else Some(found)
  }

  /** Classification as written: None when the tag loop raises. Otherwise it agrees with Classify. */
  function ClassifyAsWritten(parsed: Option<seq<Node>>): (r: Option<Outcome>)
    ensures r.None? <==> parsed.Some? && NonElement in parsed.value
    ensures r.Some? ==> r.value == Classify(parsed)
  {
    match parsed
    case None => Some(Classify(None))
    case Some(nodes) => if ScanAsWritten(nodes).None? then None else Some(Classify(parsed))
  }

  /** An authorised, normally emitted NFe with one comment in it: as written the upload fails,
      while the intended classification is "approved". */
  lemma CommentRaisesAsWritten()
    ensures var doc := [Element("{http://www.portalfiscal.inf.br/nfe}nfeProc", None), NonElement,
                        Element("{http://www.portalfiscal.inf.br/nfe}cStat", Some("100")),
                        Element("{http://www.portalfiscal.inf.br/nfe}tpEmis", Some("1"))];
            ClassifyAsWritten(Some(doc)) == None && Classify(Some(doc)) == Approved
  {
    var doc := [Element("{http://www.portalfiscal.inf.br/nfe}nfeProc", None), NonElement,
                Element("{http://www.portalfiscal.inf.br/nfe}cStat", Some("100")),
                Element("{http://www.portalfiscal.inf.br/nfe}tpEmis", Some("1"))];
    assert doc[1].NonElement?;
    LastTaggedIsLastIndex(doc, "cStat", 2);
    FirstTaggedIsFirstIndex(doc, "tpEmis", 3);
  }

  /** The elements of a node sequence, without comments and processing instructions. */
  function Elements(nodes: seq<Node>): (r: seq<Node>)
    ensures NonElement !in r
  {
    if nodes == [] then []
    else (if nodes[0].Element? then [nodes[0]] else []) + Elements(nodes[1..])
  }

  /** The last tagged node of a concatenation comes from its second part when that part has one. */
  lemma {:induction false} LastTaggedAppend(a: seq<Node>, b: seq<Node>, suffix: string)
    ensures LastTagged(a + b, suffix) == if LastTagged(b, suffix).Some? then LastTagged(b, suffix) else LastTagged(a, suffix)
  {
    if b == [] {
      assert a + b == a;
    } else {
      assert (a + b)[..|a + b| - 1] == a + b[..|b| - 1];
      LastTaggedAppend(a, b[..|b| - 1], suffix);
    }
  }

  lemma {:induction false} LastTaggedElements(nodes: seq<Node>, suffix: string)
    ensures LastTagged(Elements(nodes), suffix) == LastTagged(nodes, suffix)
  {
    if nodes != [] {
      var head := if nodes[0].Element? then [nodes[0]] else [];
      LastTaggedElements(nodes[1..], suffix);
      LastTaggedAppend(head, Elements(nodes[1..]), suffix);
      assert nodes == [nodes[0]] + nodes[1..];
      LastTaggedAppend([nodes[0]], nodes[1..], suffix);
    }
  }

  lemma {:induction false} FirstTaggedElements(nodes: seq<Node>, suffix: string)
    ensures FirstTagged(Elements(nodes), suffix) == FirstTagged(nodes, suffix)
  {
    if nodes != [] {
      FirstTaggedElements(nodes[1..], suffix);
      if nodes[0].Element? {
        assert ([nodes[0]] + Elements(nodes[1..]))[1..] == Elements(nodes[1..]);
      } else {
        assert Elements(nodes) == Elements(nodes[1..]);
        assert !Tagged(nodes[0], suffix);
        assert FirstTagged(nodes, suffix) == FirstTagged(nodes[1..], suffix);
      }
    }
  }

  /** Corrected behaviour: comments and processing instructions have no say in the outcome. */
  lemma ClassifyIgnoresNonElements(nodes: seq<Node>)
    ensures Classify(Some(nodes)) == Classify(Some(Elements(nodes)))
  {
    LastTaggedElements(nodes, "cStat");
    LastTaggedElements(nodes, "xMotivo");
    FirstTaggedElements(nodes, "tpEmis");
  }

  // ---------------------------------------------------------------------------------------------
  // The archive loop

  /** `zip_in.read(name)`: the data of the LAST member stored under `name` (zipfile keeps the last
      central-directory record of a repeated name); None when reading it raises `BadZipFile`. */
  function Read(members: seq<Member>, name: string): Option<seq<byte>> {
    if members == [] then None
    else if members[|members| - 1].name == name then members[|members| - 1].data
    else Read(members[..|members| - 1], name)
  }

  /** `read(name)` gives the data of the last member stored under `name`, whatever earlier members
      of that name hold. */
  lemma {:induction false} ReadLast(members: seq<Member>, name: string, i: nat)
    requires i < |members| && members[i].name == name
    requires forall j :: i < j < |members| ==> members[j].name != name
    ensures Read(members, name) == members[i].data
  {
    if i < |members| - 1 {
      ReadLast(members[..|members| - 1], name, i);
    }
  }

  /** The loop reaches member `i`, takes it as a document and reading it raises `BadZipFile`. */
  predicate ReadFails(members: seq<Member>, i: nat)
    requires i < |members|
  {
    IsXmlName(members[i].name) && Read(members, members[i].name).None?
  }

  /** No document among the first `n` members fails to read. */
  predicate ReadableUpTo(members: seq<Member>, n: nat) {
    n <= |members| && forall i :: 0 <= i < n ==> !ReadFails(members, i)
  }

  /** Where the loop is cut short by a damaged document: the first failing member, or the length. */
  function FirstReadFailure(members: seq<Member>): (k: nat)
    ensures ReadableUpTo(members, k)
    ensures k < |members| ==> ReadFails(members, k)
  {
    FirstReadFailureFrom(members, 0)
  }

  function FirstReadFailureFrom(members: seq<Member>, i: nat): (k: nat)
    requires ReadableUpTo(members, i)
    ensures i <= k && ReadableUpTo(members, k)
    ensures k < |members| ==> ReadFails(members, k)
    decreases |members| - i
  {
    if i == |members| || ReadFails(members, i) then i else FirstReadFailureFrom(members, i + 1)
  }

  /** The place the loop stops at is unique. */
  lemma FirstReadFailureUnique(members: seq<Member>, k: nat)
    requires ReadableUpTo(members, k)
    requires k < |members| ==> ReadFails(members, k)
    ensures k == FirstReadFailure(members)
  {
  }

  /** The documents the loop has processed after the first `n` members, in order. */
  function ClassifiedUpTo(members: seq<Member>, n: nat, parse: Parser): seq<Classified>
    requires ReadableUpTo(members, n)
  {
    if n == 0 then []
    else
      var name := members[n - 1].name;
      var earlier := ClassifiedUpTo(members, n - 1, parse);
      if IsXmlName(name) then
        assert !ReadFails(members, n - 1);
        var data := Read(members, name).value;
        earlier + [Classified(name, data, Classify(parse(data)))]
      else earlier
  }

  /** Member `i` adds one processed document when it is an `.xml` name, and nothing otherwise. */
  lemma ClassifiedStep(members: seq<Member>, i: nat, parse: Parser)
    requires ReadableUpTo(members, i) && i < |members| && !ReadFails(members, i)
    ensures ReadableUpTo(members, i + 1)
    ensures ClassifiedUpTo(members, i + 1, parse) ==
              ClassifiedUpTo(members, i, parse) +
              (if IsXmlName(members[i].name)
               then [Classified(members[i].name, Read(members, members[i].name).value,
                                Classify(parse(Read(members, members[i].name).value)))]
               else [])
  {
  }

  /** The names of the members that pass the `.xml` filter, in stored order. */
  function XmlNames(members: seq<Member>): seq<string> {
    if members == [] then []
    else XmlNames(members[..|members| - 1]) +
         (if IsXmlName(members[|members| - 1].name) then [members[|members| - 1].name] else [])
  }

  /** The `try` block of the loop body: parse, look up the status elements, decide. Each of its
      three branches writes the document under the outcome's folder, bumps that outcome's counter
      and, for a rejection, appends the report row; the loop below does those three steps. */
  method ClassifyDocument(data: seq<byte>, parse: Parser) returns (outcome: Outcome)
    ensures outcome == Classify(parse(data))
  {
    var parsed := parse(data);
    if parsed.None? {
      return Rejected(ParseFailureCode, ParseFailureReason);
    }
    var nodes := parsed.value;
    var cstatNode, xmotivoNode := FindStatusNodes(nodes);
    var cstat := if cstatNode.Some? then cstatNode.value.text else Some(MissingStatus);
    var xmotivo := if xmotivoNode.Some? then xmotivoNode.value.text else Some(MissingReason);
    if !(cstat.Some? && cstat.value in Authorised) {
      return Rejected(cstat.GetOr(""), xmotivo.GetOr(""));
    }
    var tpemisNode := FindEmissionNode(nodes);
    var tpemis := if tpemisNode.Some? then tpemisNode.value.text else None;
    if tpemis == Some(NormalEmission) {
      outcome := Approved;
    } else {
      outcome := Contingency;
    }
  }

  /** `processar_zip_sync`: the output archive's entries in the order they are written, and the
      counters. A member that fails to read ends the loop: `ERRO.txt` follows what was written so
      far, no report is written, and the partial counters are returned. */
  method ProcessarZipSync(input: Archive, parse: Parser) returns (out: seq<OutEntry>, stats: Stats)
    ensures input.BadZip? ==> out == [BadZipEntry] && stats == NoStats
    ensures input.Zip? ==>
              var k := FirstReadFailure(input.members);
              var cs := ClassifiedUpTo(input.members, k, parse);
              stats == Tally(cs) &&
              out == Placed(cs) + (if k < |input.members| then [BadZipEntry]
                                   else ReportEntries(cs, ReportName, ReportHeader))
  {
    var rejections: seq<seq<string>> := [];
    stats := NoStats;
    out := [];
    if input.BadZip? {
      out := out + [BadZipEntry];
      return;
    }
    var members := input.members;
    var i := 0;
    var failed := false;
    ghost var cs: seq<Classified> := [];
    while i < |members| && !failed
      invariant 0 <= i <= |members|
      invariant ReadableUpTo(members, i)
      invariant failed ==> i < |members| && ReadFails(members, i)
      invariant cs == ClassifiedUpTo(members, i, parse)
      invariant out == Placed(cs) && stats == Tally(cs) && rejections == Rejections(cs)
      decreases |members| - i, if failed then 0 else 1
    {
      var name := members[i].name;
      if !IsXmlName(name) {
        ClassifiedStep(members, i, parse);
        i := i + 1;
        continue;
      }
      var content := Read(members, name);
      if content.None? {
        failed := true;
        continue;
      }
      var data := content.value;
      var outcome := ClassifyDocument(data, parse);
      ClassifiedStep(members, i, parse);
      AccumulateStep(cs, Classified(name, data, outcome));
      cs := cs + [Classified(name, data, outcome)];
      out := out + [OutEntry(Folder(outcome) + name, Bytes(data))];
      stats := stats.Count(outcome);
      if outcome.Rejected? {
        rejections := rejections + [[name, outcome.code, outcome.reason]];
      }
      i := i + 1;
    }
    FirstReadFailureUnique(members, i);
    if failed {
      out := out + [BadZipEntry];
    } else if rejections != [] {
      out := out + [OutEntry(ReportName, Csv([ReportHeader] + rejections))];
    }
  }

  // ---------------------------------------------------------------------------------------------
  // What a run promises

  /** Exactly the `.xml` members are processed, each once, in stored order; any other member
      contributes no output entry, no count and no report row. */
  lemma {:induction false} ProcessedAreXmlMembers(members: seq<Member>, n: nat, parse: Parser)
    requires ReadableUpTo(members, n)
    ensures Names(ClassifiedUpTo(members, n, parse)) == XmlNames(members[..n])
  {
    if n > 0 {
      ProcessedAreXmlMembers(members, n - 1, parse);
      assert members[..n][..n - 1] == members[..n - 1];
    }
  }

  /** On a run that reads every member, the three counters sum to the number of `.xml` members. */
  lemma CountersSumToXmlMembers(members: seq<Member>, parse: Parser)
    requires ReadableUpTo(members, |members|)
    ensures Tally(ClassifiedUpTo(members, |members|, parse)).Total() == |XmlNames(members)|
  {
    ProcessedAreXmlMembers(members, |members|, parse);
    assert members[..|members|] == members;
    TallyTotal(ClassifiedUpTo(members, |members|, parse));
  }

  /** Every processed document carries the bytes `zip_in.read` gave for its name, unchanged, and the
      outcome of classifying exactly those bytes. */
  lemma {:induction false} ProcessedDocument(members: seq<Member>, n: nat, parse: Parser, j: nat)
    requires ReadableUpTo(members, n)
    requires j < |ClassifiedUpTo(members, n, parse)|
    ensures var c := ClassifiedUpTo(members, n, parse)[j];
            IsXmlName(c.name) && Read(members, c.name) == Some(c.data) && c.outcome == Classify(parse(c.data))
  {
    var earlier := ClassifiedUpTo(members, n - 1, parse);
    if j < |earlier| {
      ProcessedDocument(members, n - 1, parse, j);
    } else {
      assert !ReadFails(members, n - 1);
    }
  }

  /** With no repeated member name, `read(name)` returns the member's own data. */
  lemma {:induction false} ReadOwnData(members: seq<Member>, i: nat)
    requires i < |members|
    requires forall a, b :: 0 <= a < b < |members| ==> members[a].name != members[b].name
    ensures Read(members, members[i].name) == members[i].data
  {
    if i < |members| - 1 {
      ReadOwnData(members[..|members| - 1], i);
    }
  }

  /** A run over members that all read: each output entry before the report is the folder of the
      document's outcome followed by its full original name (no flattening) with its bytes; the
      report follows iff something was rejected, with one row per rejection. */
  lemma CompletedRun(members: seq<Member>, parse: Parser, j: nat)
    requires ReadableUpTo(members, |members|)
    requires j < |ClassifiedUpTo(members, |members|, parse)|
    ensures var cs := ClassifiedUpTo(members, |members|, parse);
            Placed(cs)[j] == OutEntry(Folder(Classify(parse(cs[j].data))) + cs[j].name, Bytes(cs[j].data)) &&
            Read(members, cs[j].name) == Some(cs[j].data) &&
            (ReportEntries(cs, ReportName, ReportHeader) != [] <==> Tally(cs).rejeitados > 0)
  {
    var cs := ClassifiedUpTo(members, |members|, parse);
    PlacedAt(cs, j);
    ProcessedDocument(members, |members|, parse, j);
    ReportIffRejected(cs, ReportName, ReportHeader);
  }
}
