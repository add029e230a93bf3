// Move reports: a producer's grouping of its moves, checked to be a partition,
// and the endpoint pairs a reader draws from it.
module ReportedMoves {
  import opened Prelude

  datatype Evidence = Evidence(fromXpaths: seq<string>, toXpaths: seq<string>, fromTexts: seq<string>,
      toTexts: seq<string>)

  // `inherited` marks a move taken over from annotations of the input XML.
  datatype Move = Move(id: string, inherited: bool, relationship: string,
                       fromNodeIds: seq<string>, toNodeIds: seq<string>, evidence: Evidence)

  datatype Report = Report(id: string, kind: string, members: seq<string>, relationship: string, evidence: Evidence)

  // `merged` says that producer metadata is kept apart from the merged moves.
  datatype MoveResults = MoveResults(moves: seq<Move>, merged: bool, reports: Option<seq<Report>>,
                                     reportedCount: Option<int>, reportedCounts: Option<map<string, int>>)

  datatype Record = Record(id: string, kind: Option<string>, members: seq<string>, relationship: string,
                           fromNodeIds: seq<string>, toNodeIds: seq<string>)

  const ATOMIC := "atomic"
  const ORDERED := "ordered_sequence"
  const EXACT := "type1"
  const RELATIONSHIPS := {"type1", "type2c", "type3"}

  type MoveIndex = map<string, Move>

  function PlainRecord(move: Move): Record {
    Record(move.id, None, [], move.relationship, move.fromNodeIds, move.toNodeIds)
  }

  function PlainRecords(moves: seq<Move>): (records: seq<Record>)
    ensures |records| == |moves| && forall i | 0 <= i < |moves| :: records[i] == PlainRecord(moves[i])
  {
    seq(|moves|, i requires 0 <= i < |moves| => PlainRecord(moves[i]))
  }

  // -- Moves --

  predicate MovesOk(moves: seq<Move>) {
    && (forall i | 0 <= i < |moves| :: moves[i].id != "")
    && (forall i, j | 0 <= i < j < |moves| :: moves[i].id != moves[j].id)
  }

  predicate IsXmlOnly(move: Move, merged: bool) {
    merged && move.inherited
  }

  function XmlOnly(moves: seq<Move>, merged: bool): seq<Move> {
    if moves == [] then []
    else
      var last := moves[|moves| - 1];
      XmlOnly(moves[..|moves| - 1], merged) + if IsXmlOnly(last, merged) then [last] else []
  }

  // The moves the reports have to account for.
  function ProducerIds(moves: seq<Move>, merged: bool): set<string> {
    set m | m in moves && !IsXmlOnly(m, merged) :: m.id
  }

  predicate HasId(moves: seq<Move>, id: string) {
    exists i :: 0 <= i < |moves| && moves[i].id == id
  }

  ghost predicate Indexes(byId: MoveIndex, moves: seq<Move>) {
    && (forall id :: id in byId <==> HasId(moves, id))
    && (forall i | 0 <= i < |moves| :: moves[i].id in byId && byId[moves[i].id] == moves[i])
  }

  method IndexMoves(moves: seq<Move>, merged: bool) returns (byId: Option<MoveIndex>, xmlOnly: seq<Move>)
    ensures byId.Some? <==> MovesOk(moves)
    ensures byId.Some? ==> Indexes(byId.value, moves) && xmlOnly == XmlOnly(moves, merged)
  {
    hide MovesOk, Indexes, XmlOnly;
    var index: MoveIndex := map[];
    xmlOnly := [];
    NothingIndexed(merged);
    for i := 0 to |moves|
      invariant MovesOk(moves[..i]) && Indexes(index, moves[..i]) && xmlOnly == XmlOnly(moves[..i], merged)
    {
      var move := moves[i];
      assert moves[..i + 1] == moves[..i] + [move];
      XmlOnlyNext(moves[..i], move, merged);
      if move.id == "" || move.id in index {
        RepeatedId(moves, i, index);
        return None, [];
      }
      IndexOne(index, moves[..i], move);
      index := index[move.id := move];
      if IsXmlOnly(move, merged) {
        xmlOnly := xmlOnly + [move];
      }
    }
    assert moves[..|moves|] == moves;
    byId := Some(index);
  }

  lemma NothingIndexed(merged: bool)
    ensures MovesOk([]) && Indexes(map[], []) && XmlOnly([], merged) == []
  {
  }

  lemma XmlOnlyNext(moves: seq<Move>, move: Move, merged: bool)
    ensures XmlOnly(moves + [move], merged) == XmlOnly(moves, merged) + if IsXmlOnly(move, merged) then [move] else []
  {
    assert (moves + [move])[..|moves|] == moves;
  }

  lemma IndexOne(index: MoveIndex, moves: seq<Move>, move: Move)
    requires MovesOk(moves) && Indexes(index, moves) && move.id != "" && move.id !in index
    ensures MovesOk(moves + [move]) && Indexes(index[move.id := move], moves + [move])
  {
    var more := moves + [move];
    forall id
      ensures id in index[move.id := move] <==> HasId(more, id)
    {
      if id in index {
        var i :| 0 <= i < |moves| && moves[i].id == id;
        assert more[i].id == id;
      }
      assert more[|moves|].id == move.id;
      if HasId(more, id) {
        var i :| 0 <= i < |more| && more[i].id == id;
        assert i < |moves| ==> moves[i].id == id;
      }
    }
  }

  lemma RepeatedId(moves: seq<Move>, i: nat, index: MoveIndex)
    requires i < |moves| && Indexes(index, moves[..i]) && (moves[i].id == "" || moves[i].id in index)
    ensures !MovesOk(moves)
  {
    if moves[i].id != "" {
      var j :| 0 <= j < |moves[..i]| && moves[..i][j].id == moves[i].id;
      assert moves[j].id == moves[i].id;
    }
  }

  // -- One report --

  predicate NoDuplicates(members: seq<string>) {
    forall i, j | 0 <= i < j < |members| :: members[i] != members[j]
  }

  predicate SingleEndpoints(move: Move) {
    |move.fromNodeIds| == 1 && |move.toNodeIds| == 1
  }

  predicate HasEvidence(evidence: Evidence) {
    evidence.fromXpaths != [] && evidence.toXpaths != [] && evidence.fromTexts != [] && evidence.toTexts != []
  }

  // The i-th entry of each list is the member's first.
  predicate EvidenceInOrder(report: Report, byId: MoveIndex)
    requires forall m | m in report.members :: m in byId
  {
    && |report.evidence.fromXpaths| == |report.evidence.toXpaths| == |report.evidence.fromTexts|
         == |report.evidence.toTexts| == |report.members|
    && forall i | 0 <= i < |report.members| ::
         var own := byId[report.members[i]].evidence;
         && HasEvidence(own)
         && report.evidence.fromXpaths[i] == own.fromXpaths[0] && report.evidence.toXpaths[i] == own.toXpaths[0]
         && report.evidence.fromTexts[i] == own.fromTexts[0] && report.evidence.toTexts[i] == own.toTexts[0]
  }

  predicate AtomicOk(report: Report, byId: MoveIndex)
    requires forall m | m in report.members :: m in byId
  {
    report.members == [report.id] && report.relationship == byId[report.id].relationship
        && report.evidence == byId[report.id].evidence
  }

  predicate OrderedOk(report: Report, byId: MoveIndex)
    requires forall m | m in report.members :: m in byId
  {
    && |report.members| >= 2 && report.relationship == EXACT
    && (forall i | 0 <= i < |report.members| ::
          byId[report.members[i]].relationship == EXACT && SingleEndpoints(byId[report.members[i]]))
    && EvidenceInOrder(report, byId)
  }

  predicate ReportOk(report: Report, byId: MoveIndex, producers: set<string>, seen: set<string>, ids: set<string>)
    requires producers <= byId.Keys
  {
    && report.id != "" && report.id !in ids
    && report.members != [] && NoDuplicates(report.members) && report.kind in {ATOMIC, ORDERED}
    && (forall i | 0 <= i < |report.members| :: report.members[i] in producers && report.members[i] !in seen)
    && MembersIndexed(report, byId)
    && (if report.kind == ATOMIC then AtomicOk(report, byId) else OrderedOk(report, byId))
  }

  predicate MembersIndexed(report: Report, byId: MoveIndex) {
    forall m | m in report.members :: m in byId
  }

  // What an accepted report becomes.
  ghost predicate Projects(record: Record, report: Report, byId: MoveIndex)
    requires MembersIndexed(report, byId)
  {
    && record.id == report.id && record.kind == Some(report.kind) && record.members == report.members
    && record.relationship == report.relationship
    && (report.kind == ATOMIC && report.members == [report.id] ==>
          record.fromNodeIds == byId[report.id].fromNodeIds && record.toNodeIds == byId[report.id].toNodeIds)
    && (report.kind == ORDERED ==>
          && |record.fromNodeIds| == |record.toNodeIds| == |report.members|
          && forall i | 0 <= i < |report.members| ::
               byId[report.members[i]].fromNodeIds == [record.fromNodeIds[i]]
                   && byId[report.members[i]].toNodeIds == [record.toNodeIds[i]])
  }

  method ProjectReport(report: Report, byId: MoveIndex, producers: set<string>, seen: set<string>, ids: set<string>)
    returns (record: Option<Record>)
    requires producers <= byId.Keys
    ensures record.Some? <==> ReportOk(report, byId, producers, seen, ids)
    ensures record.Some? ==> Projects(record.value, report, byId)
  {
    if report.id == "" || report.id in ids || report.members == [] || !NoDuplicates(report.members)
        || report.kind !in {ATOMIC, ORDERED} {
      return None;
    }
    if exists i :: 0 <= i < |report.members| && (report.members[i] !in producers || report.members[i] in seen) {
      return None;
    }
    if report.kind == ATOMIC {
      if !AtomicOk(report, byId) {
        return None;
      }
      var move := byId[report.id];
      return Some(Record(report.id, Some(ATOMIC), report.members, move.relationship, move.fromNodeIds, move.toNodeIds));
    }
    if !OrderedOk(report, byId) {
      return None;
    }
    var n := |report.members|;
    var from := seq(n, i requires 0 <= i < n => byId[report.members[i]].fromNodeIds[0]);
    var to := seq(n, i requires 0 <= i < n => byId[report.members[i]].toNodeIds[0]);
    record := Some(Record(report.id, Some(ORDERED), report.members, report.relationship, from, to));
  }

  // -- All reports --

  function MembersOf(reports: seq<Report>): set<string> {
    set r, m | r in reports && m in r.members :: m
  }

  function IdsOf(reports: seq<Report>): set<string> {
    set r | r in reports :: r.id
  }

  predicate ReportsOk(reports: seq<Report>, byId: MoveIndex, producers: set<string>)
    requires producers <= byId.Keys
  {
    forall i | 0 <= i < |reports| :: ReportOk(reports[i], byId, producers, MembersOf(reports[..i]), IdsOf(reports[..i]))
  }

  function CountOf(reports: seq<Report>, relationship: string): int {
    if reports == [] then 0
    else CountOf(reports[..|reports| - 1], relationship) + if reports[|reports| - 1].relationship
        == relationship then 1 else 0
  }

  predicate CountsAgree(reports: seq<Report>, count: Option<int>, counts: Option<map<string, int>>) {
    && (forall i | 0 <= i < |reports| :: reports[i].relationship in RELATIONSHIPS)
    && count == Some(|reports|)
    && counts == Some(map r | r in RELATIONSHIPS :: CountOf(reports, r))
  }

  // The conditions under which results with reports are accepted.
  ghost predicate Acceptable(results: MoveResults) {
    && results.reports.Some? && MovesOk(results.moves)
    && (exists byId: MoveIndex ::
          Indexes(byId, results.moves) && ProducerIds(results.moves, results.merged) <= byId.Keys
                    && ReportsOk(results.reports.value, byId, ProducerIds(results.moves, results.merged)))
    && MembersOf(results.reports.value) == ProducerIds(results.moves, results.merged)
    && CountsAgree(results.reports.value, results.reportedCount, results.reportedCounts)
  }

  lemma ProducersIndexed(byId: MoveIndex, moves: seq<Move>, merged: bool)
    requires Indexes(byId, moves)
    ensures ProducerIds(moves, merged) <= byId.Keys
  {
    forall id | id in ProducerIds(moves, merged)
      ensures id in byId
    {
      var m :| m in moves && m.id == id;
      var i :| 0 <= i < |moves| && moves[i] == m;
    }
  }

  lemma IndexIsUnique(a: MoveIndex, b: MoveIndex, moves: seq<Move>)
    requires Indexes(a, moves) && Indexes(b, moves)
    ensures a == b
  {
    forall id | id in a
      ensures id in b && a[id] == b[id]
    {
      var i :| 0 <= i < |moves| && moves[i].id == id;
    }
  }

  lemma MembersGrow(reports: seq<Report>, report: Report)
    ensures MembersOf(reports + [report]) == MembersOf(reports) + (set m | m in report.members)
    ensures IdsOf(reports + [report]) == IdsOf(reports) + {report.id}
  {
    assert forall r :: r in reports + [report] <==> r in reports || r == report;
  }

  method ProjectReports(reports: seq<Report>, byId: MoveIndex, producers: set<string>)
    returns (projected: Option<seq<Record>>)
    requires producers <= byId.Keys
    ensures projected.Some? <==> ReportsOk(reports, byId, producers) && MembersOf(reports) == producers
    ensures projected.Some? ==>
      |projected.value| == |reports| && forall i | 0 <= i < |reports| ::
        MembersIndexed(reports[i], byId) && Projects(projected.value[i], reports[i], byId)
  {
    hide ReportOk, Projects, MembersOf, IdsOf, MembersIndexed;
    var seen: set<string>, ids: set<string> := {}, {};
    var records: seq<Record> := [];
    NoReports();
    for i := 0 to |reports|
      invariant seen == MembersOf(reports[..i]) && ids == IdsOf(reports[..i])
      invariant forall k | 0 <= k < i ::
        ReportOk(reports[k], byId, producers, MembersOf(reports[..k]), IdsOf(reports[..k]))
      invariant |records| == i && forall k | 0 <= k < i ::
        MembersIndexed(reports[k], byId) && Projects(records[k], reports[k], byId)
    {
      var report := reports[i];
      var record := ProjectReport(report, byId, producers, seen, ids);
      if record.None? {
        return None;
      }
      ReportIsIndexed(report, byId, producers, seen, ids);
      assert reports[..i + 1] == reports[..i] + [report];
      MembersGrow(reports[..i], report);
      seen := seen + set m | m in report.members;
      ids := ids + {report.id};
      records := records + [record.value];
    }
    assert reports[..|reports|] == reports;
    if seen != producers {
      return None;
    }
    projected := Some(records);
  }

  lemma ReportIsIndexed(report: Report, byId: MoveIndex, producers: set<string>, seen: set<string>, ids: set<string>)
    requires producers <= byId.Keys && ReportOk(report, byId, producers, seen, ids)
    ensures MembersIndexed(report, byId)
  {
  }

  lemma NoReports()
    ensures MembersOf([]) == {} && IdsOf([]) == {}
  {
  }

  // None stands for the validation error.
  method ReportedMoveRecords(results: MoveResults) returns (records: Option<seq<Record>>)
    ensures results.reports.None? ==>
      && (records.Some? <==> results.reportedCount.None? && results.reportedCounts.None?)
      && (records.Some? ==> records.value == PlainRecords(results.moves))
    ensures results.reports.Some? ==> (records.Some? <==> Acceptable(results))
    ensures results.reports.Some? && records.Some? ==>
      var reports, inherited := results.reports.value, XmlOnly(results.moves, results.merged);
      && |records.value| == |reports| + |inherited|
      && records.value[|reports|..] == PlainRecords(inherited)
      && forall byId: MoveIndex | Indexes(byId, results.moves) ::
           forall i | 0 <= i < |reports| ::
             MembersIndexed(reports[i], byId) && Projects(records.value[i], reports[i], byId)
  {
    if results.reports.None? {
      if results.reportedCount.Some? || results.reportedCounts.Some? {
        return None;
      }
      return Some(PlainRecords(results.moves));
    }
    hide ReportsOk, ProducerIds, MembersOf, XmlOnly, Projects, MembersIndexed, MovesOk, CountsAgree;
    var reports := results.reports.value;
    var byId, xmlOnly := IndexMoves(results.moves, results.merged);
    if byId.None? {
      return None;
    }
    var producers := ProducerIds(results.moves, results.merged);
    ProducersIndexed(byId.value, results.moves, results.merged);
    forall other | Indexes(other, results.moves)
      ensures other == byId.value
    {
      IndexIsUnique(other, byId.value, results.moves);
    }
    var projected := ProjectReports(reports, byId.value, producers);
    if projected.None? || !CountsAgree(reports, results.reportedCount, results.reportedCounts) {
      return None;
    }
    records := Some(projected.value + PlainRecords(xmlOnly));
    assert records.value[|reports|..] == PlainRecords(xmlOnly);
  }

  // -- The reports partition the producer's moves --

  // Exactly one place names a move.
  ghost predicate NamedOnce(reports: seq<Report>, id: string) {
    && (exists i, j :: Names(reports, i, j, id))
    && forall i, j, k, l | Names(reports, i, j, id) && Names(reports, k, l, id) :: i == k && j == l
  }

  predicate Names(reports: seq<Report>, i: int, j: int, id: string) {
    0 <= i < |reports| && 0 <= j < |reports[i].members| && reports[i].members[j] == id
  }

  lemma AcceptedReportsPartition(results: MoveResults)
    requires Acceptable(results)
    ensures forall id :: id in ProducerIds(results.moves, results.merged) <==>
      exists i, j :: Names(results.reports.value, i, j, id)
    ensures forall id | id in ProducerIds(results.moves, results.merged) :: NamedOnce(results.reports.value, id)
  {
    hide MovesOk, Indexes, ReportsOk, MembersOf, ProducerIds, CountsAgree, Names;
    var reports, producers := results.reports.value, ProducerIds(results.moves, results.merged);
    MembersAreNamed(reports);
    var byId :| Indexes(byId, results.moves) && producers <= byId.Keys && ReportsOk(reports, byId, producers);
    forall id, i, j, k, l | Names(reports, i, j, id) && Names(reports, k, l, id)
      ensures i == k && j == l
    {
      NamedApart(reports, byId, producers, id, i, j, k, l);
      NamedApart(reports, byId, producers, id, k, l, i, j);
    }
  }

  lemma MembersAreNamed(reports: seq<Report>)
    ensures forall id :: id in MembersOf(reports) <==> exists i, j :: Names(reports, i, j, id)
  {
    forall id
      ensures id in MembersOf(reports) <==> exists i, j :: Names(reports, i, j, id)
    {
      if id in MembersOf(reports) {
        var r :| r in reports && id in r.members;
        var i :| 0 <= i < |reports| && reports[i] == r;
        var j :| 0 <= j < |r.members| && r.members[j] == id;
        assert Names(reports, i, j, id);
      }
      if i, j :| Names(reports, i, j, id) {
        assert reports[i] in reports && id in reports[i].members;
      }
    }
  }

  lemma NamedApart(
      reports: seq<Report>, byId: MoveIndex, producers: set<string>, id: string, i: int, j: int, k: int, l: int)
    requires producers <= byId.Keys && ReportsOk(reports, byId, producers)
    requires Names(reports, i, j, id) && Names(reports, k, l, id)
    ensures i >= k && (i == k ==> j >= l)
  {
    assert ReportOk(reports[k], byId, producers, MembersOf(reports[..k]), IdsOf(reports[..k]));
    if i < k {
      EarlierIsSeen(reports, id, i, j, k);
    }
  }

  lemma EarlierIsSeen(reports: seq<Report>, id: string, i: int, j: int, k: int)
    requires Names(reports, i, j, id) && i < k <= |reports|
    ensures id in MembersOf(reports[..k])
  {
    assert reports[..k][i] == reports[i] && reports[i] in reports[..k] && id in reports[i].members;
  }

  // -- The inherited moves appear once, in order --

  lemma {:induction false} XmlOnlyMembers(moves: seq<Move>, merged: bool)
    requires MovesOk(moves)
    ensures forall m :: m in XmlOnly(moves, merged) <==> m in moves && IsXmlOnly(m, merged)
    ensures MovesOk(XmlOnly(moves, merged))
  {
    if moves == [] {
    } else {
      var front, last := moves[..|moves| - 1], moves[|moves| - 1];
      assert moves == front + [last];
      XmlOnlyMembers(front, merged);
      forall i | 0 <= i < |XmlOnly(front, merged)|
        ensures XmlOnly(front, merged)[i].id != last.id
      {
        assert XmlOnly(front, merged)[i] in XmlOnly(front, merged);
      }
    }
  }

  // -- expandReportEndpoints --

  // None stands for the thrown error.
  method ExpandReportEndpoints(move: Record) returns (pairs: Option<seq<Record>>)
    ensures move.kind != Some(ORDERED) ==> pairs == Some([move])
    ensures move.kind == Some(ORDERED) ==>
      && (pairs.Some? <==> |move.members| == |move.fromNodeIds| == |move.toNodeIds|)
      && (pairs.Some? ==> IsExpansion(move, pairs.value))
  {
    if move.kind != Some(ORDERED) {
      return Some([move]);
    }
    if |move.members| != |move.fromNodeIds| || |move.members| != |move.toNodeIds| {
      return None;
    }
    var n := |move.members|;
    pairs := Some(seq(n, i requires 0 <= i < n =>
      Record(move.members[i], None, [], move.relationship, [move.fromNodeIds[i]], [move.toNodeIds[i]])));
  }

  // One connector per member, at the member's position.
  predicate IsExpansion(move: Record, pairs: seq<Record>) {
    && |pairs| == |move.members| == |move.fromNodeIds| == |move.toNodeIds|
    && forall i | 0 <= i < |pairs| ::
         pairs[i] == Record(move.members[i], None, [], move.relationship, [move.fromNodeIds[i]], [move.toNodeIds[i]])
  }

  // Expanding an accepted ordered report gives back each member's own endpoints, in order.
  lemma ExpansionRecoversMembers(report: Report, record: Record, byId: MoveIndex, pairs: seq<Record>)
    requires MembersIndexed(report, byId) && report.kind == ORDERED && Projects(record, report, byId)
    ensures |record.members| == |record.fromNodeIds| == |record.toNodeIds|
    ensures IsExpansion(record, pairs) ==>
      && |pairs| == |report.members|
      && forall i | 0 <= i < |pairs| ::
           var own := byId[report.members[i]];
           pairs[i].id == report.members[i] && pairs[i].fromNodeIds == own.fromNodeIds
               && pairs[i].toNodeIds == own.toNodeIds
  {
  }

  method ReadConnectors(results: MoveResults, i: nat) returns (pairs: Option<seq<Record>>)
    requires results.reports.Some? && Acceptable(results)
    requires i < |results.reports.value| && results.reports.value[i].kind == ORDERED
    ensures pairs.Some? && |pairs.value| == |results.reports.value[i].members|
    ensures forall byId: MoveIndex | Indexes(byId, results.moves) ::
      forall k | 0 <= k < |pairs.value| ::
        var member := results.reports.value[i].members[k];
        && member in byId && pairs.value[k].id == member
        && pairs.value[k].fromNodeIds == byId[member].fromNodeIds && pairs.value[k].toNodeIds == byId[member].toNodeIds
  {
    hide Acceptable, Projects, Indexes, IsExpansion;
    var records := ReportedMoveRecords(results);
    var record := records.value[i];
    ReportShape(results, record, i);
    pairs := ExpandReportEndpoints(record);
    ExpansionSize(record, pairs.value);
    forall byId: MoveIndex | Indexes(byId, results.moves)
      ensures forall k | 0 <= k < |pairs.value| ::
                var member := results.reports.value[i].members[k];
                && member in byId && pairs.value[k].id == member
                && pairs.value[k].fromNodeIds == byId[member].fromNodeIds
                     && pairs.value[k].toNodeIds == byId[member].toNodeIds
    {
      ExpansionRecoversMembers(results.reports.value[i], record, byId, pairs.value);
    }
  }

  lemma ExpansionSize(record: Record, pairs: seq<Record>)
    requires IsExpansion(record, pairs)
    ensures |pairs| == |record.members|
  {
  }

  lemma ReportShape(results: MoveResults, record: Record, i: nat)
    requires Acceptable(results) && i < |results.reports.value| && results.reports.value[i].kind == ORDERED
    requires forall byId: MoveIndex | Indexes(byId, results.moves) ::
      MembersIndexed(results.reports.value[i], byId) && Projects(record, results.reports.value[i], byId)
    ensures record.kind == Some(ORDERED) && record.members == results.reports.value[i].members
    ensures |record.members| == |record.fromNodeIds| == |record.toNodeIds|
  {
  }
}
