/**
 * `ProcessarXmlJob` of the Laravel back end (backend_php/app/Jobs/ProcessarXmlJob.php):
 * the queued job that drives one `ArquivoProcessamento` record from `processando`
 * to `concluido` or `erro`, and in between walks the uploaded ZIP by index,
 * classifies each `.xml` member, copies it under its category folder, counts the
 * categories and adds `rejeitados/relatorio.csv` when something was rejected.
 */
module PhpJob {
  import opened Wrappers
  import opened Text
  import opened Nfe

  /** An element as `DOMDocument::getElementsByTagName` sees it: the name it is matched against
      and its `nodeValue` (the element's text content, never null). */
  datatype DomElement = DomElement(nodeName: string, nodeValue: string)

  /** `DOMDocument::loadXML` on a non-empty string: the document's elements in document order,
      or None when it returns false. */
  type Loader = seq<byte> -> Option<seq<DomElement>>

  /** PHP's non-strict `==` between two strings (two numeric strings compare as numbers, so
      "100.0" == "100"). Used by `in_array` without its strict flag and by `$tpEmis == '1'`. */
  type LooseEquality = (string, string) -> bool

  /** The `status` column of `arquivo_processamentos`. */
  datatype Status = Pendente | Processando | Concluido | Erro

  /** What the job does, in order: a write of the status column, or the read of member `index`. */
  datatype Event = StatusSet(status: Status) | EntryRead(index: nat)

  const ParseFailureCode := "ERRO_PARSE"
  const ParseFailureReason := "XML invalido"
  const MissingStatus := "N/A"
  const MissingReason := "Motivo não encontrado"
  const ReportName := "rejeitados/relatorio.csv"
  const ReportHeader := ["Arquivo", "cStat", "Motivo"]

  /** `'processados/' . uniqid() . '.zip'`, the output path recorded on completion. */
  function OutputName(uniqueId: string): string {
    "processados/" + uniqueId + ".zip"
  }

  /** The filter of the loop: `strtolower(pathinfo($nomeArquivo, PATHINFO_EXTENSION)) === 'xml'`. */
  predicate IsXmlPath(name: string) {
    Lower(PathExtension(name)) == "xml"
  }

  /** `$zipIn->getFromIndex($i)`: the member's bytes; a member that cannot be read gives `false`,
      which PHP turns into the empty string where a string is expected. */
  function EntryBytes(m: Member): seq<byte> {
    m.data.GetOr([])
  }

  /** `getTagValue`: the `nodeValue` of the FIRST element named `tagName`, or null. */
  function GetTagValue(dom: seq<DomElement>, tagName: string): Option<string> {
    if dom == [] then None
    else if dom[0].nodeName == tagName then Some(dom[0].nodeValue)
    else GetTagValue(dom[1..], tagName)
  }

  /** `in_array($cStat, ['100', '150'])` without the strict flag. */
  predicate IsAuthorised(cstat: string, eq: LooseEquality) {
    eq(cstat, "100") || eq(cstat, "150")
  }

  /** The outcome of one document. An empty document counts as one that does not load (see
      Findings in README: as written, `loadXML('')` throws instead). */
  function Classify(data: seq<byte>, load: Loader, eq: LooseEquality): Outcome {
    if |data| == 0 || load(data).None? then Rejected(ParseFailureCode, ParseFailureReason)
    else
      var dom := load(data).value;
      var cstat := GetTagValue(dom, "cStat").GetOr(MissingStatus);
      var tpemis := GetTagValue(dom, "tpEmis");
      var xmotivo := GetTagValue(dom, "xMotivo").GetOr(MissingReason);
      if !IsAuthorised(cstat, eq) then Rejected(cstat, xmotivo)
      else if tpemis.Some? && eq(tpemis.value, "1") then Approved
      else Contingency
  }

  /** An empty `.xml` member: as written the job throws with its record left at `processando`;
      the intended outcome is the parse-failure rejection. */
  lemma EmptyEntryThrowsAsWritten(load: Loader, eq: LooseEquality)
    ensures Throws(Member("nota.xml", Some([])))
    ensures Classify(EntryBytes(Member("nota.xml", Some([]))), load, eq) == Rejected("ERRO_PARSE", "XML invalido")
  {
    PathFiltersAgree("nota.xml");
    assert Lower("nota.xml") == "nota.xml";
  }

  /** A document that does not load is rejected with the fixed parse-failure row. */
  lemma ParseFailureRejected(data: seq<byte>, load: Loader, eq: LooseEquality)
    requires data == [] || load(data).None?
    ensures Classify(data, load, eq) == Rejected("ERRO_PARSE", "XML invalido")
  {
  }

  /** The decision rule, on the FIRST cStat element: rejected iff its value is loosely equal to
      neither "100" nor "150", whatever tpEmis says; then the FIRST tpEmis decides between
      approved (loosely equal to "1") and contingency (anything else, or no tpEmis at all). */
  lemma {:induction false} DecisionRule(data: seq<byte>, load: Loader, eq: LooseEquality, i: nat)
    requires data != [] && load(data).Some?
    requires var dom := load(data).value;
             i < |dom| && dom[i].nodeName == "cStat" && forall j :: 0 <= j < i ==> dom[j].nodeName != "cStat"
    ensures var dom := load(data).value;
            var cstat := dom[i].nodeValue;
            var tpemis := GetTagValue(dom, "tpEmis");
            Classify(data, load, eq) ==
              if !IsAuthorised(cstat, eq) then Rejected(cstat, GetTagValue(dom, "xMotivo").GetOr("Motivo não encontrado"))
              else if tpemis.Some? && eq(tpemis.value, "1") then Approved
              else Contingency
  {
    var dom := load(data).value;
    GetTagValueFirst(dom, "cStat", i);
  }

  /** Without any cStat element the code is "N/A"; it is rejected unless PHP's `==` equates "N/A"
      with "100" or "150" (it does not). */
  lemma MissingStatusRejected(data: seq<byte>, load: Loader, eq: LooseEquality)
    requires data != [] && load(data).Some?
    requires forall j :: 0 <= j < |load(data).value| ==> load(data).value[j].nodeName != "cStat"
    requires !eq("N/A", "100") && !eq("N/A", "150")
    ensures Classify(data, load, eq) == Rejected("N/A", GetTagValue(load(data).value, "xMotivo").GetOr("Motivo não encontrado"))
  {
    GetTagValueNone(load(data).value, "cStat");
  }

  /** `getTagValue` yields the value of the first element with that name ... */
  lemma {:induction false} GetTagValueFirst(dom: seq<DomElement>, tagName: string, i: nat)
    requires i < |dom| && dom[i].nodeName == tagName
    requires forall j :: 0 <= j < i ==> dom[j].nodeName != tagName
    ensures GetTagValue(dom, tagName) == Some(dom[i].nodeValue)
  {
    if i > 0 {
      GetTagValueFirst(dom[1..], tagName, i - 1);
    }
  }

  /** ... and null exactly when no element has that name. */
  lemma {:induction false} GetTagValueNone(dom: seq<DomElement>, tagName: string)
    ensures GetTagValue(dom, tagName).None? <==> forall i :: 0 <= i < |dom| ==> dom[i].nodeName != tagName
  {
    if dom != [] && dom[0].nodeName != tagName {
      GetTagValueNone(dom[1..], tagName);
      assert forall j :: 1 <= j < |dom| ==> dom[j] == dom[1..][j - 1];
    }
  }

  // ---------------------------------------------------------------------------------------------
  // The index loop

  /** The documents processed among the first `n` members, in index order. */
  function ClassifiedUpTo(members: seq<Member>, n: nat, load: Loader, eq: LooseEquality): seq<Classified>
    requires n <= |members|
  {
    if n == 0 then []
    else
      var earlier := ClassifiedUpTo(members, n - 1, load, eq);
      var m := members[n - 1];
      if IsXmlPath(m.name) then earlier + [Classified(m.name, EntryBytes(m), Classify(EntryBytes(m), load, eq))]
      else earlier
  }

  /** The reads of member contents among the first `n` members, in index order. */
  function ReadsUpTo(members: seq<Member>, n: nat): seq<Event>
    requires n <= |members|
  {
    if n == 0 then []
    else ReadsUpTo(members, n - 1) + (if IsXmlPath(members[n - 1].name) then [EntryRead(n - 1)] else [])
  }

  /** The document member `i` yields when it passes the filter. */
  function DocumentAt(members: seq<Member>, i: nat, load: Loader, eq: LooseEquality): Classified
    requires i < |members|
  {
    var m := members[i];
    Classified(m.name, EntryBytes(m), Classify(EntryBytes(m), load, eq))
  }

  /** A member that fails the filter adds no document and no read. */
  lemma SkipStep(members: seq<Member>, i: nat, load: Loader, eq: LooseEquality)
    requires i < |members| && !IsXmlPath(members[i].name)
    ensures ClassifiedUpTo(members, i + 1, load, eq) == ClassifiedUpTo(members, i, load, eq)
    ensures ReadsUpTo(members, i + 1) == ReadsUpTo(members, i)
  {
  }

  /** A member that passes the filter, with outcome `outcome`, adds its output entry, its count and
      its report row, and one read. */
  lemma XmlStep(members: seq<Member>, i: nat, load: Loader, eq: LooseEquality, outcome: Outcome)
    requires i < |members| && IsXmlPath(members[i].name)
    requires outcome == Classify(EntryBytes(members[i]), load, eq)
    ensures var before := ClassifiedUpTo(members, i, load, eq);
            var after := ClassifiedUpTo(members, i + 1, load, eq);
            var name := members[i].name;
            && Placed(after) == Placed(before) + [OutEntry(Folder(outcome) + name, Bytes(EntryBytes(members[i])))]
            && Tally(after) == Tally(before).Count(outcome)
            && Rejections(after) == Rejections(before) + (if outcome.Rejected? then [[name, outcome.code, outcome.reason]] else [])
    ensures ReadsUpTo(members, i + 1) == ReadsUpTo(members, i) + [EntryRead(i)]
  {
    var cs := ClassifiedUpTo(members, i, load, eq);
    var c := DocumentAt(members, i, load, eq);
    assert ClassifiedUpTo(members, i + 1, load, eq) == cs + [c];
    AccumulateStep(cs, c);
  }

  /** Member `k`'s contents are read exactly when `k` is below `n` and its extension is `xml`. */
  lemma {:induction false} ReadsAreXmlMembers(members: seq<Member>, n: nat, k: nat)
    requires n <= |members|
    ensures EntryRead(k) in ReadsUpTo(members, n) <==> k < n && IsXmlPath(members[k].name)
  {
    if n > 0 {
      ReadsAreXmlMembers(members, n - 1, k);
    }
  }

  /** The reads follow the index order `0 .. numFiles - 1`, each index at most once. */
  lemma {:induction false} ReadsInIndexOrder(members: seq<Member>, n: nat)
    requires n <= |members|
    ensures forall a :: 0 <= a < |ReadsUpTo(members, n)| ==>
              ReadsUpTo(members, n)[a].EntryRead? && ReadsUpTo(members, n)[a].index < n
    ensures forall a, b :: 0 <= a < b < |ReadsUpTo(members, n)| ==>
              ReadsUpTo(members, n)[a].index < ReadsUpTo(members, n)[b].index
  {
    if n > 0 {
      ReadsInIndexOrder(members, n - 1);
      var earlier := ReadsUpTo(members, n - 1);
      var last: seq<Event> := if IsXmlPath(members[n - 1].name) then [EntryRead(n - 1)] else [];
      var r := ReadsUpTo(members, n);
      assert r == earlier + last;
      forall a | 0 <= a < |r|
        ensures r[a].EntryRead? && r[a].index < n
      {
        if a < |earlier| {
          assert r[a] == earlier[a];
        } else {
          assert r[a] == last[0] == EntryRead(n - 1);
        }
      }
      forall a, b | 0 <= a < b < |r|
        ensures r[a].index < r[b].index
      {
        assert r[a] == earlier[a];
        if b < |earlier| {
          assert r[b] == earlier[b];
        } else {
          assert r[b] == last[0] == EntryRead(n - 1);
        }
      }
    }
  }

  /** The `j`-th processed document is the member read `j`-th: its name, its bytes, and the outcome
      of classifying those bytes. */
  lemma {:induction false} DocumentsFollowReads(members: seq<Member>, n: nat, load: Loader, eq: LooseEquality)
    requires n <= |members|
    ensures var cs, r := ClassifiedUpTo(members, n, load, eq), ReadsUpTo(members, n);
            |cs| == |r| &&
            forall j :: 0 <= j < |cs| ==>
              r[j].EntryRead? && r[j].index < n && cs[j] == DocumentAt(members, r[j].index, load, eq)
  {
    if n > 0 {
      DocumentsFollowReads(members, n - 1, load, eq);
    }
  }

  /** After the loop, the three counters sum to the number of members with extension `xml`. */
  lemma CountersSumToXmlMembers(members: seq<Member>, load: Loader, eq: LooseEquality)
    ensures Tally(ClassifiedUpTo(members, |members|, load, eq)).Total() == |ReadsUpTo(members, |members|)|
  {
    DocumentsFollowReads(members, |members|, load, eq);
    TallyTotal(ClassifiedUpTo(members, |members|, load, eq));
  }

  /** As written, `loadXML` throws on member `m` when the loop reaches it: its extension is `xml` and
      `getFromIndex` gives the empty string (an empty member, or one that cannot be read). In PHP 8
      `loadXML('')` raises a `ValueError`, which `@` does not silence and which leaves `handle`. */
  predicate Throws(m: Member) {
    IsXmlPath(m.name) && EntryBytes(m) == []
  }

  /** The index of the first member on which the job throws as written, or `|members|` when there
      is none. */
  function FirstThrow(members: seq<Member>): (k: nat)
    ensures k <= |members|
    ensures forall i :: 0 <= i < k ==> !Throws(members[i])
    ensures k < |members| ==> Throws(members[k])
  {
    if members == [] || Throws(members[0]) then 0
    else
      var k := 1 + FirstThrow(members[1..]);
      assert forall i :: 1 <= i < k ==> members[i] == members[1..][i - 1];
      k
  }

  /** A loop that has met no throwing member before `i` stops at `i` exactly when member `i` throws. */
  lemma FirstThrowStep(members: seq<Member>, i: nat)
    requires i < |members| && i <= FirstThrow(members)
    ensures Throws(members[i]) <==> FirstThrow(members) == i
  {
  }

  /** The `ArquivoProcessamento` record (table `arquivo_processamentos`) the job updates. */
  class ArquivoProcessamento {
    var status: Status
    const caminhoEntrada: string
    var caminhoSaida: Option<string>
    var stats: Option<Stats>

    /** The record as the upload endpoint creates it, before the job runs. */
    constructor (caminhoEntrada: string)
      ensures status == Pendente && this.caminhoEntrada == caminhoEntrada
      ensures caminhoSaida == None && stats == None
    {
      status := Pendente;
      this.caminhoEntrada := caminhoEntrada;
      caminhoSaida := None;
      stats := None;
    }
  }

  class ProcessarXmlJob {
    const processamento: ArquivoProcessamento
    /** Status writes and member reads, in the order the job performs them. */
    ghost var trace: seq<Event>

    constructor (processamento: ArquivoProcessamento)
      ensures this.processamento == processamento && trace == []
    {
      this.processamento := processamento;
      trace := [];
    }

    /** The `try` part of the loop body for one member's bytes: load, look up the three tags, decide.
        Every branch then writes the bytes under the outcome's folder, bumps that counter and, for a
        rejection, appends the report row; `Handle` does those three steps. */
    static method ClassifyEntry(conteudoXml: seq<byte>, load: Loader, eq: LooseEquality) returns (outcome: Outcome)
      ensures outcome == Classify(conteudoXml, load, eq)
    {
      var carregou := if conteudoXml == [] then None else load(conteudoXml);
      if carregou.None? {
        return Rejected(ParseFailureCode, ParseFailureReason);
      }
      var dom := carregou.value;
      var cStat := GetTagValue(dom, "cStat").GetOr(MissingStatus);
      var tpEmis := GetTagValue(dom, "tpEmis");
      var xMotivo := GetTagValue(dom, "xMotivo").GetOr(MissingReason);
      if !(eq(cStat, "100") || eq(cStat, "150")) {
        outcome := Rejected(cStat, xMotivo);
      } else if tpEmis.Some? && eq(tpEmis.value, "1") {
        outcome := Approved;
      } else {
        outcome := Contingency;
      }
    }

    /** One pass of the loop body of `handle()` for member `i`: skip it unless its extension is
        `xml`; otherwise read its bytes, classify them, write them under the outcome's folder, bump
        that counter and, for a rejection, append the report row. */
    static method ProcessMember(members: seq<Member>, i: nat, load: Loader, eq: LooseEquality,
                                zipOut: seq<OutEntry>, stats: Stats, rejeicoes: seq<seq<string>>, ghost lidas: seq<Event>)
      returns (zipOut': seq<OutEntry>, stats': Stats, rejeicoes': seq<seq<string>>, ghost lidas': seq<Event>)
      requires i < |members|
      requires var cs := ClassifiedUpTo(members, i, load, eq);
               zipOut == Placed(cs) && stats == Tally(cs) && rejeicoes == Rejections(cs)
      requires lidas == ReadsUpTo(members, i)
      ensures var cs := ClassifiedUpTo(members, i + 1, load, eq);
              zipOut' == Placed(cs) && stats' == Tally(cs) && rejeicoes' == Rejections(cs)
      ensures lidas' == ReadsUpTo(members, i + 1)
    {
      var nomeArquivo := members[i].name;
      if !IsXmlPath(nomeArquivo) {
        SkipStep(members, i, load, eq);
        return zipOut, stats, rejeicoes, lidas;
      }
      var conteudoXml := EntryBytes(members[i]);
      lidas' := lidas + [EntryRead(i)];
      var outcome := ClassifyEntry(conteudoXml, load, eq);
      XmlStep(members, i, load, eq, outcome);
      zipOut' := zipOut + [OutEntry(Folder(outcome) + nomeArquivo, Bytes(conteudoXml))];
      stats' := stats.Count(outcome);
      rejeicoes' := rejeicoes;
      if outcome.Rejected? {
        rejeicoes' := rejeicoes + [[nomeArquivo, outcome.code, outcome.reason]];
      }
    }

    /** The `for ($i = 0; $i < $zipIn->numFiles; $i++)` loop of `handle()`: the entries added to the
        output archive, the three counters and the report rows, with the reads of member contents
        returned in `lidas`, in the order the loop performs them. */
    static method ProcessEntries(members: seq<Member>, load: Loader, eq: LooseEquality)
      returns (zipOut: seq<OutEntry>, stats: Stats, rejeicoes: seq<seq<string>>, ghost lidas: seq<Event>)
      ensures var cs := ClassifiedUpTo(members, |members|, load, eq);
              zipOut == Placed(cs) && stats == Tally(cs) && rejeicoes == Rejections(cs)
      ensures lidas == ReadsUpTo(members, |members|)
    {
      zipOut, stats, rejeicoes, lidas := [], NoStats, [], [];
      var i := 0;
      while i < |members|
        invariant 0 <= i <= |members|
        invariant var cs := ClassifiedUpTo(members, i, load, eq);
                  zipOut == Placed(cs) && stats == Tally(cs) && rejeicoes == Rejections(cs)
        invariant lidas == ReadsUpTo(members, i)
      {
        zipOut, stats, rejeicoes, lidas := ProcessMember(members, i, load, eq, zipOut, stats, rejeicoes, lidas);
        i := i + 1;
      }
    }

    /** One pass of the loop body as written: `ProcessMember`, except that an `.xml` member whose
        bytes are empty is read and then makes `loadXML` throw (`thrown`), before anything of it is
        written or counted. */
    static method ProcessMemberAsWritten(members: seq<Member>, i: nat, load: Loader, eq: LooseEquality,
                                         zipOut: seq<OutEntry>, stats: Stats, rejeicoes: seq<seq<string>>, ghost lidas: seq<Event>)
      returns (zipOut': seq<OutEntry>, stats': Stats, rejeicoes': seq<seq<string>>, ghost lidas': seq<Event>, thrown: bool)
      requires i < |members|
      requires var cs := ClassifiedUpTo(members, i, load, eq);
               zipOut == Placed(cs) && stats == Tally(cs) && rejeicoes == Rejections(cs)
      requires lidas == ReadsUpTo(members, i)
      ensures thrown <==> Throws(members[i])
      ensures lidas' == ReadsUpTo(members, i + 1)
      ensures !thrown ==> var cs := ClassifiedUpTo(members, i + 1, load, eq);
                          zipOut' == Placed(cs) && stats' == Tally(cs) && rejeicoes' == Rejections(cs)
    {
      if Throws(members[i]) {
        return zipOut, stats, rejeicoes, lidas + [EntryRead(i)], true;
      }
      zipOut', stats', rejeicoes', lidas' := ProcessMember(members, i, load, eq, zipOut, stats, rejeicoes, lidas);
      thrown := false;
    }

    /** The loop of `handle()` as written: it runs as `ProcessEntries` until the first member on
        which `loadXML` throws, and the exception ends it right after that member's read. */
    static method ProcessEntriesAsWritten(members: seq<Member>, load: Loader, eq: LooseEquality)
      returns (zipOut: seq<OutEntry>, stats: Stats, rejeicoes: seq<seq<string>>, ghost lidas: seq<Event>, thrown: bool)
      ensures thrown <==> FirstThrow(members) < |members|
      ensures thrown ==> lidas == ReadsUpTo(members, FirstThrow(members) + 1)
      ensures !thrown ==> var cs := ClassifiedUpTo(members, |members|, load, eq);
                          && zipOut == Placed(cs) && stats == Tally(cs) && rejeicoes == Rejections(cs)
                          && lidas == ReadsUpTo(members, |members|)
    {
      zipOut, stats, rejeicoes, lidas := [], NoStats, [], [];
      ghost var k := FirstThrow(members);
      var i := 0;
      while i < |members|
        invariant 0 <= i <= |members| && i <= k
        invariant var cs := ClassifiedUpTo(members, i, load, eq);
                  zipOut == Placed(cs) && stats == Tally(cs) && rejeicoes == Rejections(cs)
        invariant lidas == ReadsUpTo(members, i)
      {
        FirstThrowStep(members, i);
        zipOut, stats, rejeicoes, lidas, thrown := ProcessMemberAsWritten(members, i, load, eq, zipOut, stats, rejeicoes, lidas);
        if thrown {
          return;
        }
        i := i + 1;
      }
      thrown := false;
    }

    /** `handle()` as written (Findings in README): `Handle`, except that an `.xml` member whose
        bytes are empty makes `loadXML` throw out of `handle`, leaving the record at `processando`
        with neither output path nor stats. What becomes of the half-written output archive is not
        modelled; `written` is None. */
    method HandleAsWritten(zipIn: Option<seq<Member>>, zipOutOpens: bool, uniqueId: string, load: Loader, eq: LooseEquality)
      returns (written: Option<seq<OutEntry>>)
      modifies this, processamento
      ensures processamento.status == Processando <==>
                zipIn.Some? && zipOutOpens && exists i :: 0 <= i < |zipIn.value| && Throws(zipIn.value[i])
      ensures zipIn.Some? && zipOutOpens && FirstThrow(zipIn.value) < |zipIn.value| ==>
                && processamento.caminhoSaida == old(processamento.caminhoSaida)
                && processamento.stats == old(processamento.stats)
                && written == None
                && trace == old(trace) + [StatusSet(Processando)] + ReadsUpTo(zipIn.value, FirstThrow(zipIn.value) + 1)
      ensures zipIn.Some? && zipOutOpens && FirstThrow(zipIn.value) == |zipIn.value| ==>
                var members := zipIn.value;
                var cs := ClassifiedUpTo(members, |members|, load, eq);
                && processamento.status == Concluido
                && processamento.caminhoSaida == Some(OutputName(uniqueId))
                && processamento.stats == Some(Tally(cs))
                && written == Some(Placed(cs) + ReportEntries(cs, ReportName, ReportHeader))
                && trace == old(trace) + [StatusSet(Processando)] + ReadsUpTo(members, |members|)
                                       + [StatusSet(Concluido)]
      ensures !(zipIn.Some? && zipOutOpens) ==>
                && processamento.status == Erro
                && processamento.caminhoSaida == old(processamento.caminhoSaida)
                && processamento.stats == old(processamento.stats)
                && written == None
                && trace == old(trace) + [StatusSet(Processando), StatusSet(Erro)]
    {
      processamento.status := Processando;
      trace := trace + [StatusSet(Processando)];
      var nomeSaida := OutputName(uniqueId);
      if zipIn.Some? && zipOutOpens {
        var zipOut, stats, rejeicoes, lidas, thrown := ProcessEntriesAsWritten(zipIn.value, load, eq);
        trace := trace + lidas;
        if thrown {
          return None;
        }
        ghost var cs := ClassifiedUpTo(zipIn.value, |zipIn.value|, load, eq);
        ghost var placed := zipOut;
        if rejeicoes != [] {
          zipOut := zipOut + [OutEntry(ReportName, Csv([ReportHeader] + rejeicoes))];
        }
        assert zipOut == placed + ReportEntries(cs, ReportName, ReportHeader);
        processamento.status := Concluido;
        processamento.caminhoSaida := Some(nomeSaida);
        processamento.stats := Some(stats);
        trace := trace + [StatusSet(Concluido)];
        written := Some(zipOut);
      } else {
        processamento.status := Erro;
        trace := trace + [StatusSet(Erro)];
        written := None;
      }
    }

    /** `handle()`. `zipIn` is the input archive as `ZipArchive::open` finds it (None: the open fails),
        `zipOutOpens` whether creating the output archive succeeds (only tried once the input opened),
        `uniqueId` the value of `uniqid()`. Returns the entries added to the output archive, in order,
        or None when no output archive was produced. */
    method Handle(zipIn: Option<seq<Member>>, zipOutOpens: bool, uniqueId: string, load: Loader, eq: LooseEquality)
      returns (written: Option<seq<OutEntry>>)
      modifies this, processamento
      ensures zipIn.Some? && zipOutOpens ==>
                var members := zipIn.value;
                var cs := ClassifiedUpTo(members, |members|, load, eq);
                && processamento.status == Concluido
                && processamento.caminhoSaida == Some(OutputName(uniqueId))
                && processamento.stats == Some(Tally(cs))
                && written == Some(Placed(cs) + ReportEntries(cs, ReportName, ReportHeader))
                && trace == old(trace) + [StatusSet(Processando)] + ReadsUpTo(members, |members|)
                                       + [StatusSet(Concluido)]
      ensures !(zipIn.Some? && zipOutOpens) ==>
                && processamento.status == Erro
                && processamento.caminhoSaida == old(processamento.caminhoSaida)
                && processamento.stats == old(processamento.stats)
                && written == None
                && trace == old(trace) + [StatusSet(Processando), StatusSet(Erro)]
    {
      processamento.status := Processando;
      trace := trace + [StatusSet(Processando)];
      var nomeSaida := OutputName(uniqueId);
      if zipIn.Some? && zipOutOpens {
        var zipOut, stats, rejeicoes, lidas := ProcessEntries(zipIn.value, load, eq);
        trace := trace + lidas;
        ghost var cs := ClassifiedUpTo(zipIn.value, |zipIn.value|, load, eq);
        ghost var placed := zipOut;
        if rejeicoes != [] {
          zipOut := zipOut + [OutEntry(ReportName, Csv([ReportHeader] + rejeicoes))];
        }
        assert zipOut == placed + ReportEntries(cs, ReportName, ReportHeader);
        processamento.status := Concluido;
        processamento.caminhoSaida := Some(nomeSaida);
        processamento.stats := Some(stats);
        trace := trace + [StatusSet(Concluido)];
        written := Some(zipOut);
      } else {
        processamento.status := Erro;
        trace := trace + [StatusSet(Erro)];
        written := None;
      }
    }
  }
}
