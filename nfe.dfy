/**
 * The entities both back ends share: archive members, entries of the output
 * archive, the outcome of classifying one NFe document, the per-category
 * counters and the rejection rows of the CSV report.
 */
module Nfe {
  import opened Wrappers

  newtype byte = x: int | 0 <= x < 256

  /** One member of the input archive. `data` is None when reading the member fails (a damaged member). */
  datatype Member = Member(name: string, data: Option<seq<byte>>)

  /** What an entry of the output archive holds: the untouched document bytes, a `;`-separated table
      written as UTF-8 with a byte-order mark, or a plain text. */
  datatype Payload = Bytes(bytes: seq<byte>) | Csv(rows: seq<seq<string>>) | Text(text: string)

  datatype OutEntry = OutEntry(name: string, payload: Payload)

  /** The outcome of one document: authorised with normal emission, authorised in contingency, or
      rejected with the status code and reason that go into the report. */
  datatype Outcome = Approved | Contingency | Rejected(code: string, reason: string)

  const ApprovedFolder := "aprovados/"
  const ContingencyFolder := "contingencia/"
  const RejectedFolder := "rejeitados/"

  /** The folder of the output archive an outcome sends its document to. */
  function Folder(o: Outcome): string {
    match o
    case Approved => ApprovedFolder
    case Contingency => ContingencyFolder
    case Rejected(_, _) => RejectedFolder
  }

  /** The three counters, `stats["aprovados"]` and so on. */
  datatype Stats = Stats(aprovados: nat, contingencia: nat, rejeitados: nat) {

    function Total(): nat {
      aprovados + contingencia + rejeitados
    }

    /** The counters after one more document with outcome `o`: exactly one of them goes up by one. */
    function Count(o: Outcome): (s: Stats)
      ensures s.Total() == Total() + 1
      ensures s.aprovados >= aprovados && s.contingencia >= contingencia && s.rejeitados >= rejeitados
      ensures s.rejeitados == rejeitados + 1 <==> o.Rejected?
      ensures s.aprovados == aprovados + 1 <==> o.Approved?
    {
      match o
      case Approved => this.(aprovados := aprovados + 1)
      case Contingency => this.(contingencia := contingencia + 1)
      case Rejected(_, _) => this.(rejeitados := rejeitados + 1)
    }
  }

  const NoStats := Stats(0, 0, 0)

  /** A processed document: its name in the input archive, the bytes read, and its outcome. */
  datatype Classified = Classified(name: string, data: seq<byte>, outcome: Outcome)

  /** The names of the processed documents, in processing order. */
  function Names(cs: seq<Classified>): (r: seq<string>)
    ensures |r| == |cs| && forall j :: 0 <= j < |cs| ==> r[j] == cs[j].name
  {
    seq(|cs|, j requires 0 <= j < |cs| => cs[j].name)
  }

  /** The output entry of one processed document: folder prefix + full original name, same bytes. */
  function Place(c: Classified): OutEntry {
    OutEntry(Folder(c.outcome) + c.name, Bytes(c.data))
  }

  /** The output entries of the processed documents, in processing order. */
  function Placed(cs: seq<Classified>): (r: seq<OutEntry>)
    ensures |r| == |cs|
  {
    if cs == [] then [] else Placed(cs[..|cs| - 1]) + [Place(cs[|cs| - 1])]
  }

  /** The counters after the processed documents, starting from zero. */
  function Tally(cs: seq<Classified>): Stats {
    if cs == [] then NoStats else Tally(cs[..|cs| - 1]).Count(cs[|cs| - 1].outcome)
  }

  /** The report row of one processed document, if it was rejected. */
  function RowOf(c: Classified): seq<seq<string>> {
    if c.outcome.Rejected? then [[c.name, c.outcome.code, c.outcome.reason]] else []
  }

  /** The report rows, `[file, cStat, xMotivo]`, in processing order. */
  function Rejections(cs: seq<Classified>): seq<seq<string>> {
    if cs == [] then [] else Rejections(cs[..|cs| - 1]) + RowOf(cs[|cs| - 1])
  }

  /** The report entry written after the loop: absent when there is no rejection, otherwise the header
      followed by the rejection rows. */
  function ReportEntries(cs: seq<Classified>, reportName: string, header: seq<string>): (r: seq<OutEntry>)
    ensures r == [] <==> Rejections(cs) == []
  {
    var rows := Rejections(cs);
    if rows == [] then [] else [OutEntry(reportName, Csv([header] + rows))]
  }

  /** One more processed document extends each accumulator by that document's contribution. */
  lemma AccumulateStep(cs: seq<Classified>, c: Classified)
    ensures Placed(cs + [c]) == Placed(cs) + [Place(c)]
    ensures Tally(cs + [c]) == Tally(cs).Count(c.outcome)
    ensures Rejections(cs + [c]) == Rejections(cs) + RowOf(c)
  {
    assert (cs + [c])[..|cs|] == cs;
  }

  // ---------------------------------------------------------------------------------------------
  // What the accumulators promise

  /** Every processed document bumps exactly one counter, so the counters sum to the number of documents. */
  lemma {:induction false} TallyTotal(cs: seq<Classified>)
    ensures Tally(cs).Total() == |cs|
  {
    if cs != [] {
      TallyTotal(cs[..|cs| - 1]);
    }
  }

  /** The rejected counter counts exactly the documents whose outcome is a rejection. */
  lemma {:induction false} TallyRejected(cs: seq<Classified>)
    ensures Tally(cs).rejeitados == |Rejections(cs)|
  {
    if cs != [] {
      TallyRejected(cs[..|cs| - 1]);
    }
  }

  /** The report has a row for a rejection exactly when a counter says so: present iff `rejeitados > 0`,
      with `rejeitados` data rows. */
  lemma ReportIffRejected(cs: seq<Classified>, reportName: string, header: seq<string>)
    ensures ReportEntries(cs, reportName, header) != [] <==> Tally(cs).rejeitados > 0
    ensures ReportEntries(cs, reportName, header) != [] ==>
              ReportEntries(cs, reportName, header)[0].payload.rows == [header] + Rejections(cs)
              && |Rejections(cs)| == Tally(cs).rejeitados
  {
    TallyRejected(cs);
  }

  /** Output entries correspond one to one, in order, with the processed documents. */
  lemma {:induction false} PlacedAt(cs: seq<Classified>, j: nat)
    requires j < |cs|
    ensures Placed(cs)[j] == OutEntry(Folder(cs[j].outcome) + cs[j].name, Bytes(cs[j].data))
  {
    if j < |cs| - 1 {
      PlacedAt(cs[..|cs| - 1], j);
    }
  }

  /** Rows keep encounter order: the report of a longer run extends the report of any shorter one. */
  lemma {:induction false} RejectionsAppend(a: seq<Classified>, b: seq<Classified>)
    ensures Rejections(a + b) == Rejections(a) + Rejections(b)
  {
    if b != [] {
      assert (a + b)[..|a + b| - 1] == a + b[..|b| - 1];
      RejectionsAppend(a, b[..|b| - 1]);
    } else {
      assert a + b == a;
    }
  }

  /** A row is in the report iff some processed document was rejected with that name, code and reason. */
  lemma {:induction false} RejectionsMembership(cs: seq<Classified>, row: seq<string>)
    ensures row in Rejections(cs) <==>
              exists j :: 0 <= j < |cs| && cs[j].outcome.Rejected? &&
                          row == [cs[j].name, cs[j].outcome.code, cs[j].outcome.reason]
  {
    if cs != [] {
      var init := cs[..|cs| - 1];
      RejectionsMembership(init, row);
      if row in Rejections(init) {
        var j :| 0 <= j < |init| && init[j].outcome.Rejected? &&
                 row == [init[j].name, init[j].outcome.code, init[j].outcome.reason];
        assert cs[j] == init[j];
      }
      if exists j :: 0 <= j < |cs| && cs[j].outcome.Rejected? &&
                     row == [cs[j].name, cs[j].outcome.code, cs[j].outcome.reason] {
        var j :| 0 <= j < |cs| && cs[j].outcome.Rejected? &&
                 row == [cs[j].name, cs[j].outcome.code, cs[j].outcome.reason];
        if j < |init| {
          assert init[j] == cs[j];
        }
      }
    }
  }
}
