/** The offline validation receipt: five lanes run in order, each may end the run, and PASSED is only
    reached when the test lanes partition the ordinary collection. */
module LaneReceipt {
  import opened Outcomes

  const MAX_COLLECTION_BYTES := 16 * 1024 * 1024

  datatype Lane = Static | OrdinaryCollection | Parallel | Serial | Network

  const LANES: seq<Lane> := [Static, OrdinaryCollection, Parallel, Serial, Network]

  predicate TestLane(lane: Lane) { lane.Parallel? || lane.Serial? || lane.Network? }
  predicate CollectingLane(lane: Lane) { TestLane(lane) || lane.OrdinaryCollection? }

  /** A collection report on disk; `ids` is `None` when its bytes are not a JSON list of strings. */
  datatype ReportFile = Absent | Unopenable | Present(bytes: nat, ids: Option<seq<string>>)

  datatype Collection = MissingCollection | UnreadableCollection | Valid(ids: seq<string>)

  predicate Distinct(ids: seq<string>) {
    forall i, j :: 0 <= i < j < |ids| ==> ids[i] != ids[j]
  }

  /** `read_collection` */
  function ReadCollection(file: ReportFile): (c: Collection)
    ensures c.Valid? ==> Distinct(c.ids) && "" !in c.ids
  {
    match file
    case Absent => MissingCollection
    case Unopenable => UnreadableCollection
    case Present(bytes, ids) =>
      if bytes > MAX_COLLECTION_BYTES || ids.None? || "" in ids.value || !Distinct(ids.value) then UnreadableCollection
      else Valid(ids.value)
  }

  datatype Status =
    | Passed | InProgress | IncompleteTimeout | SkippedByScope | ValidationFailed | IncompleteTestReport
    | SubjectMoved | NotQualifiedDirtyWorktree | CollectionMismatch

  /** What happened when a lane's command ran, and the reports it left. `collected` is the number of
      cases in its JUnit report, if there is a readable one. */
  datatype LaneRun = LaneRun(timedOut: bool, code: int, report: ReportFile, collected: Option<nat>)

  datatype LaneResult = LaneResult(lane: Lane, status: Status, collectionCount: Option<nat>, collected: Option<nat>)

  /** `run_lane` */
  function LaneResultOf(lane: Lane, run: LaneRun): LaneResult {
    var collection := ReadCollection(run.report);
    var base :=
      if run.timedOut then IncompleteTimeout
      else if run.code == 0 then Passed
      else if run.code == 5 then SkippedByScope
      else ValidationFailed;
    var status :=
      if !run.timedOut && (collection.UnreadableCollection? || (run.code == 0 && CollectingLane(lane) && !collection.Valid?))
      then IncompleteTestReport else base;
    LaneResult(lane, status, if collection.Valid? then Some(|collection.ids|) else None, run.collected)
  }

  /** The subject: opaque digests, and whether the worktree was dirty. */
  datatype Identity = Identity(digest: string, dirty: bool)

  /** Everything the run meets: what each lane does, the identity read after it, and the three
      collection reports as they are re-read at the end. */
  datatype Environment = Environment(
    initial: Identity, runs: Lane -> LaneRun, identityAfter: Lane -> Identity, reread: Lane -> ReportFile)

  datatype Receipt = Receipt(status: Status, lanes: seq<LaneResult>)

  function Elements(ids: seq<string>): set<string> {
    set id | id in ids
  }

  /** The closing comparison: `None` when a report cannot be used. */
  function Equivalent(env: Environment): Option<bool> {
    var ordinary := ReadCollection(env.reread(OrdinaryCollection));
    var parallel := ReadCollection(env.reread(Parallel));
    var serial := ReadCollection(env.reread(Serial));
    if !ordinary.Valid? || !parallel.Valid? || !serial.Valid? then None
    else Some(Elements(ordinary.ids) == Elements(parallel.ids) + Elements(serial.ids)
              && Elements(parallel.ids) !! Elements(serial.ids))
  }

  /** The status recorded after lane `i`. */
  function StatusAfter(env: Environment, i: nat): Status
    requires i < |LANES|
  {
    var lane := LANES[i];
    var result := LaneResultOf(lane, env.runs(lane));
    if env.initial != env.identityAfter(lane) then SubjectMoved
    else if result.status != Passed then result.status
    else if TestLane(lane) && (result.collectionCount.None? || result.collected.None? || result.collected != result.collectionCount)
    then IncompleteTestReport
    else if env.initial.dirty then NotQualifiedDirtyWorktree
    else if i + 1 < |LANES| then InProgress
    else
      match Equivalent(env)
      case None => IncompleteTestReport
      case Some(equal) => if equal then Passed else CollectionMismatch
  }

  predicate Stops(env: Environment, i: nat)
    requires i < |LANES|
  {
    var status := StatusAfter(env, i);
    LaneResultOf(LANES[i], env.runs(LANES[i])).status != Passed
    || status.SubjectMoved? || status.IncompleteTestReport? || status.CollectionMismatch?
  }

  /** The receipt of a run that has reached lane `i`. */
  function ReceiptFrom(env: Environment, i: nat, lanes: seq<LaneResult>): Receipt
    requires i < |LANES|
    decreases |LANES| - i
  {
    var done := lanes + [LaneResultOf(LANES[i], env.runs(LANES[i]))];
    if Stops(env, i) || i + 1 == |LANES| then Receipt(StatusAfter(env, i), done)
    else ReceiptFrom(env, i + 1, done)
  }

  /** The lane loop of `main`. */
  method RunLanes(env: Environment) returns (receipt: Receipt)
    ensures receipt == ReceiptFrom(env, 0, [])
  {
    receipt := Receipt(InProgress, []);
    for i := 0 to |LANES|
      invariant |receipt.lanes| == i
      invariant i < |LANES| ==> ReceiptFrom(env, 0, []) == ReceiptFrom(env, i, receipt.lanes)
      invariant i == |LANES| ==> ReceiptFrom(env, 0, []) == receipt
    {
      var lane := LANES[i];
      var result := LaneResultOf(lane, env.runs(lane));
      var status;
      if env.initial != env.identityAfter(lane) {
        status := SubjectMoved;
      } else if result.status != Passed {
        status := result.status;
      } else if TestLane(lane) && (result.collectionCount.None? || result.collected.None? || result.collected != result.collectionCount) {
        status := IncompleteTestReport;
      } else if env.initial.dirty {
        status := NotQualifiedDirtyWorktree;
      } else {
        status := if |receipt.lanes| + 1 < |LANES| then InProgress else Passed;
      }
      if status == Passed {
        var equivalent := Equivalent(env);
        if equivalent.None? {
          status := IncompleteTestReport;
        } else if !equivalent.value {
          status := CollectionMismatch;
        }
      }
      receipt := Receipt(status, receipt.lanes + [result]);
      if result.status != Passed || status == SubjectMoved || status == IncompleteTestReport || status == CollectionMismatch {
        return;
      }
    }
  }

  // ---- What the statuses mean -----------------------------------------------------------------------

  /** The report reads as the collection `ids`: at most 16 MiB of JSON, a list of different nonempty ids. */
  ghost predicate Reads(file: ReportFile, ids: seq<string>) {
    && file.Present? && file.bytes <= 16_777_216 && file.ids == Some(ids) && "" !in ids
    && forall i, j :: 0 <= i < j < |ids| ==> ids[i] != ids[j]
  }

  ghost predicate Readable(file: ReportFile) {
    exists ids :: Reads(file, ids)
  }

  /** There is a report, but it reads as nothing. */
  ghost predicate Garbled(file: ReportFile) {
    !file.Absent? && !Readable(file)
  }

  lemma ReadsIff(file: ReportFile)
    ensures forall ids :: ReadCollection(file) == Valid(ids) <==> Reads(file, ids)
    ensures ReadCollection(file).Valid? <==> Readable(file)
    ensures ReadCollection(file).UnreadableCollection? <==> Garbled(file)
  {
    forall ids ensures ReadCollection(file) == Valid(ids) <==> Reads(file, ids) {}
    if ReadCollection(file).Valid? { assert Reads(file, ReadCollection(file).ids); }
  }

  /** The lane's command went through and left the report that its lane needs. */
  ghost predicate RanWell(lane: Lane, run: LaneRun) {
    && !run.timedOut && run.code == 0
    && if lane == Static then !Garbled(run.report) else Readable(run.report)
  }

  /** The lane ran well on the subject, and a test lane executed as many cases as it had collected. */
  ghost predicate InOrder(env: Environment, lane: Lane) {
    && env.identityAfter(lane) == env.initial && RanWell(lane, env.runs(lane))
    && (lane == Parallel || lane == Serial || lane == Network ==>
          forall ids :: Reads(env.runs(lane).report, ids) ==> env.runs(lane).collected == Some(|ids|))
  }

  /** The re-read collections of the two ordinary test lanes divide the ordinary collection between them. */
  ghost predicate Divides(env: Environment) {
    exists all, parallel, serial :: Reads(env.reread(OrdinaryCollection), all)
      && Reads(env.reread(Parallel), parallel) && Reads(env.reread(Serial), serial)
      && (forall id :: id in all <==> id in parallel || id in serial)
      && (forall id :: !(id in parallel && id in serial))
  }

  lemma DividesIff(env: Environment)
    ensures Equivalent(env) == Some(true) <==> Divides(env)
    ensures Equivalent(env).Some? <==>
      Readable(env.reread(OrdinaryCollection)) && Readable(env.reread(Parallel)) && Readable(env.reread(Serial))
  {
    hide ReadCollection, Reads, Readable;
    ReadsIff(env.reread(OrdinaryCollection));
    ReadsIff(env.reread(Parallel));
    ReadsIff(env.reread(Serial));
    if Equivalent(env).Some? {
      var all := ReadCollection(env.reread(OrdinaryCollection)).ids;
      var parallel := ReadCollection(env.reread(Parallel)).ids;
      var serial := ReadCollection(env.reread(Serial)).ids;
      assert Elements(all) == Elements(parallel) + Elements(serial) <==> forall id :: id in all <==> id in parallel || id in serial by {
        assert forall id :: id in all <==> id in Elements(all);
        assert forall id :: id in parallel || id in serial <==> id in Elements(parallel) + Elements(serial);
      }
      assert Elements(parallel) !! Elements(serial) <==> forall id :: !(id in parallel && id in serial) by {
        assert forall id :: id in parallel <==> id in Elements(parallel);
        assert forall id :: id in serial <==> id in Elements(serial);
      }
    }
  }

  /** The status of a lane of its own, by its cause. */
  lemma LaneStatus(lane: Lane, run: LaneRun)
    ensures LaneResultOf(lane, run).lane == lane && LaneResultOf(lane, run).collected == run.collected
    ensures forall n :: LaneResultOf(lane, run).collectionCount == Some(n) <==> exists ids :: Reads(run.report, ids) && |ids| == n
    ensures LaneResultOf(lane, run).status ==
      if run.timedOut then IncompleteTimeout
      else if Garbled(run.report) || (run.code == 0 && lane != Static && !Readable(run.report)) then IncompleteTestReport
      else if run.code == 0 then Passed
      else if run.code == 5 then SkippedByScope
      else ValidationFailed
    ensures LaneResultOf(lane, run).status == Passed <==> RanWell(lane, run)
  {
    hide ReadCollection, Reads, Readable;
    ReadsIff(run.report);
    var collection := ReadCollection(run.report);
    if collection.Valid? { assert Reads(run.report, collection.ids); }
  }

  lemma RanReadable(lane: Lane, run: LaneRun)
    requires RanWell(lane, run) && lane != Static
    ensures exists ids :: Reads(run.report, ids)
  {}

  /** Where the loop stands after a lane. */
  lemma AfterLane(env: Environment, i: nat)
    requires i < |LANES|
    ensures InOrder(env, LANES[i]) ==>
      && (i + 1 < |LANES| ==> !Stops(env, i))
      && StatusAfter(env, i) ==
        if env.initial.dirty then NotQualifiedDirtyWorktree
        else if i + 1 < |LANES| then InProgress
        else if Equivalent(env).None? then IncompleteTestReport
        else if Equivalent(env).value then Passed else CollectionMismatch
    ensures !InOrder(env, LANES[i]) ==>
      && Stops(env, i)
      && StatusAfter(env, i) ==
        if env.identityAfter(LANES[i]) != env.initial then SubjectMoved
        else if !RanWell(LANES[i], env.runs(LANES[i])) then LaneResultOf(LANES[i], env.runs(LANES[i])).status
        else IncompleteTestReport
  {
    hide LaneResultOf, Equivalent, RanWell, Reads, Readable, Garbled;
    var lane := LANES[i];
    var run := env.runs(lane);
    var result := LaneResultOf(lane, run);
    LaneStatus(lane, run);
    if RanWell(lane, run) && TestLane(lane) {
      RanReadable(lane, run);
      var ids :| Reads(run.report, ids);
      assert result.collectionCount == Some(|ids|);
      assert forall other :: Reads(run.report, other) ==> result.collectionCount == Some(|other|);
    }
  }

  /** What lanes `i` to `k` report. */
  function ResultsBetween(env: Environment, i: nat, k: nat): (rs: seq<LaneResult>)
    requires i <= k <= |LANES|
    ensures |rs| == k - i && forall j :: 0 <= j < |rs| ==> rs[j] == LaneResultOf(LANES[i + j], env.runs(LANES[i + j]))
  {
    seq(k - i, j requires 0 <= j < k - i => LaneResultOf(LANES[i + j], env.runs(LANES[i + j])))
  }

  lemma {:induction false} OrderlyUpto(env: Environment, i: nat, k: nat, lanes: seq<LaneResult>)
    requires i <= k < |LANES| && forall j :: i <= j < k ==> InOrder(env, LANES[j])
    ensures ReceiptFrom(env, i, lanes) == ReceiptFrom(env, k, lanes + ResultsBetween(env, i, k))
    decreases k - i
  {
    hide InOrder, LaneResultOf, StatusAfter, Stops;
    if i < k {
      AfterLane(env, i);
      var result := LaneResultOf(LANES[i], env.runs(LANES[i]));
      OrderlyUpto(env, i + 1, k, lanes + [result]);
      assert ResultsBetween(env, i, k) == [result] + ResultsBetween(env, i + 1, k);
      assert lanes + [result] + ResultsBetween(env, i + 1, k) == lanes + ResultsBetween(env, i, k);
    } else {
      assert lanes + ResultsBetween(env, i, k) == lanes;
    }
  }

  lemma ReceiptAt(env: Environment, k: nat)
    requires k < |LANES| && forall j :: 0 <= j < k ==> InOrder(env, LANES[j])
    requires Stops(env, k) || k + 1 == |LANES|
    ensures ReceiptFrom(env, 0, []) == Receipt(StatusAfter(env, k), ResultsBetween(env, 0, k + 1))
  {
    hide InOrder, LaneResultOf, StatusAfter, Stops;
    OrderlyUpto(env, 0, k, []);
    assert [] + ResultsBetween(env, 0, k) == ResultsBetween(env, 0, k);
    assert ResultsBetween(env, 0, k) + [LaneResultOf(LANES[k], env.runs(LANES[k]))] == ResultsBetween(env, 0, k + 1);
  }

  /** The order of the lanes. */
  function LaneAt(k: nat): (lane: Lane)
    requires k < 5
    ensures k < |LANES| == 5 && LANES[k] == lane
  {
    match k
    case 0 => Static
    case 1 => OrdinaryCollection
    case 2 => Parallel
    case 3 => Serial
    case _ => Network
  }

  /** A run with a lane that is not in order ends at the first such lane, for its reason. */
  lemma TroubleStatus(env: Environment, k: nat)
    requires k < 5 && !InOrder(env, LaneAt(k)) && forall j :: 0 <= j < k ==> InOrder(env, LaneAt(j))
    ensures var receipt, lane := ReceiptFrom(env, 0, []), LaneAt(k);
      var run := env.runs(lane);
      && |receipt.lanes| == k + 1
      && receipt.status ==
        if env.identityAfter(lane) != env.initial then SubjectMoved
        else if run.timedOut then IncompleteTimeout
        else if Garbled(run.report) || (run.code == 0 && lane != Static && !Readable(run.report)) then IncompleteTestReport
        else if run.code == 5 then SkippedByScope
        else if run.code != 0 then ValidationFailed
        else IncompleteTestReport
  {
    hide InOrder, LaneResultOf, StatusAfter, Stops, RanWell, Readable, Garbled, ReceiptFrom;
    AfterLane(env, k);
    forall j | 0 <= j < k ensures InOrder(env, LANES[j]) { assert LANES[j] == LaneAt(j); }
    ReceiptAt(env, k);
    LaneStatus(LaneAt(k), env.runs(LaneAt(k)));
  }

  /** A run with every lane in order records all five, and ends by the state of the tree and by the three
      collections as they are re-read. */
  lemma OrderlyStatus(env: Environment)
    requires forall lane :: InOrder(env, lane)
    ensures var receipt := ReceiptFrom(env, 0, []);
      && |receipt.lanes| == 5
      && receipt.status ==
        if env.initial.dirty then NotQualifiedDirtyWorktree
        else if !Readable(env.reread(OrdinaryCollection)) || !Readable(env.reread(Parallel)) || !Readable(env.reread(Serial))
        then IncompleteTestReport
        else if Divides(env) then Passed else CollectionMismatch
  {
    hide InOrder, LaneResultOf, StatusAfter, Stops, Equivalent, Readable, Divides, ReceiptFrom;
    AfterLane(env, 4);
    ReceiptAt(env, 4);
    DividesIff(env);
  }

  lemma FirstTrouble(env: Environment) returns (k: nat)
    ensures k < 5 && (forall j :: 0 <= j < k ==> InOrder(env, LANES[j]))
    ensures !InOrder(env, LANES[k]) || k == 4
    ensures Stops(env, k) || k == 4
  {
    hide InOrder, Stops;
    k := 0;
    while k < 4 && InOrder(env, LANES[k])
      invariant k <= 4 && forall j :: 0 <= j < k ==> InOrder(env, LANES[j])
    {
      k := k + 1;
    }
    AfterLane(env, k);
  }

  /** What the receipt records of each lane it reached. */
  lemma RecordMeans(env: Environment, j: nat, n: nat)
    requires j < |ReceiptFrom(env, 0, []).lanes|
    ensures j < 5
    ensures var record, run := ReceiptFrom(env, 0, []).lanes[j], env.runs(LaneAt(j));
      && record.lane == LaneAt(j) && record.collected == run.collected
      && (record.collectionCount == Some(n) <==> exists ids :: Reads(run.report, ids) && |ids| == n)
      && (record.status == Passed <==> RanWell(LaneAt(j), run))
  {
    hide InOrder, LaneResultOf, StatusAfter, Stops, RanWell, Readable, ReceiptFrom;
    var k := FirstTrouble(env);
    ReceiptAt(env, k);
    LaneStatus(LaneAt(j), env.runs(LaneAt(j)));
  }

  lemma PlaceOf(lane: Lane) returns (j: nat)
    ensures j < 5 && LaneAt(j) == lane
  {
    j := match lane case Static => 0 case OrdinaryCollection => 1 case Parallel => 2 case Serial => 3 case Network => 4;
  }

  /** PASSED, exactly: a clean start, every command exiting 0 in time with the subject unmoved after it, a
      usable report from every lane that needs one, every test lane executing as many cases as it had
      collected, and the ordinary collection divided between the other two. */
  lemma PassedIff(env: Environment)
    ensures ReceiptFrom(env, 0, []).status == Passed
      <==> !env.initial.dirty && (forall lane :: InOrder(env, lane)) && Divides(env)
  {
    hide InOrder, Divides, ReceiptFrom, RanWell, Garbled;
    var k := FirstTrouble(env);
    forall j | 0 <= j < k ensures InOrder(env, LaneAt(j)) { assert LANES[j] == LaneAt(j); }
    if InOrder(env, LaneAt(k)) {
      forall lane ensures InOrder(env, lane) { var j := PlaceOf(lane); }
      OrderlyStatus(env);
      DividesIff(env);
    } else {
      TroubleStatus(env, k);
    }
  }

  lemma {:induction false} CountDistinct(ids: seq<string>)
    requires Distinct(ids)
    ensures |Elements(ids)| == |ids|
  {
    if ids != [] {
      CountDistinct(ids[1..]);
      assert ids == [ids[0]] + ids[1..];
      assert forall k :: 0 <= k < |ids[1..]| ==> ids[1..][k] == ids[k + 1];
      assert ids[0] !in ids[1..];
      assert Elements(ids) == {ids[0]} + Elements(ids[1..]);
    }
  }

  /** A PASSED receipt conserves tests: each ordinary test is in exactly one of the two lanes, so the
      re-read collections add up. */
  lemma PassedConserves(env: Environment) returns (all: seq<string>, parallel: seq<string>, serial: seq<string>)
    requires ReceiptFrom(env, 0, []).status == Passed
    ensures Reads(env.reread(OrdinaryCollection), all) && Reads(env.reread(Parallel), parallel) && Reads(env.reread(Serial), serial)
    ensures |all| == |parallel| + |serial|
    ensures forall id :: id in all <==> (id in parallel) != (id in serial)
  {
    hide ReceiptFrom, InOrder;
    PassedIff(env);
    all, parallel, serial :| Reads(env.reread(OrdinaryCollection), all)
      && Reads(env.reread(Parallel), parallel) && Reads(env.reread(Serial), serial)
      && (forall id :: id in all <==> id in parallel || id in serial)
      && (forall id :: !(id in parallel && id in serial));
    CountDistinct(all);
    CountDistinct(parallel);
    CountDistinct(serial);
    assert Elements(all) == Elements(parallel) + Elements(serial) && Elements(parallel) !! Elements(serial);
  }

  /** The executed cases of the two test lanes add up to what the ordinary lane had collected. */
  ghost predicate CountsAddUp(env: Environment) {
    && env.runs(Parallel).collected.Some? && env.runs(Serial).collected.Some?
    && exists ids ::
      && Reads(env.runs(OrdinaryCollection).report, ids)
      && |ids| == env.runs(Parallel).collected.value + env.runs(Serial).collected.value
  }

  /** The lane's report is the same when it is read again at the end. */
  predicate Kept(env: Environment, lane: Lane) {
    env.reread(lane) == env.runs(lane).report
  }

  /** When the three compared reports stay put, the counts of a PASSED receipt add up. */
  lemma PassedCountsAddUp(env: Environment)
    requires ReceiptFrom(env, 0, []).status == Passed
    requires Kept(env, OrdinaryCollection) && Kept(env, Parallel) && Kept(env, Serial)
    ensures CountsAddUp(env)
  {
    hide ReceiptFrom, RanWell, Divides;
    PassedIff(env);
    var all, parallel, serial := PassedConserves(env);
    assert InOrder(env, Parallel) && InOrder(env, Serial);
  }

  // ---- A report rewritten after its lane -----------------------------------------------------------

  /** The bytes of a JSON list of plain ids, as Python's `json.dumps` writes it. */
  function JsonBytes(ids: seq<string>): nat {
    if ids == [] then 2 else if |ids| == 1 then |ids[0]| + 4 else |ids[0]| + 4 + JsonBytes(ids[1..])
  }

  function ReportOf(ids: seq<string>): ReportFile {
    Present(JsonBytes(ids), Some(ids))
  }

  /** What each report lists at the end: two tests, one in each lane. */
  function Closing(lane: Lane): seq<string> {
    match lane
    case OrdinaryCollection => ["a", "b"]
    case Parallel => ["a"]
    case Serial => ["b"]
    case _ => []
  }

  /** What the lane's report listed when it ran. */
  function Then(lane: Lane, rewritten: Lane): seq<string> {
    Closing(lane) + if lane == rewritten then ["c"] else []
  }

  /** A run in which one lane had collected a third test whose line has gone from its report since. */
  function Rewritten(rewritten: Lane): Environment {
    Environment(Identity("", false),
      (lane: Lane) => LaneRun(false, 0, ReportOf(Then(lane, rewritten)), Some(|Then(lane, rewritten)|)),
      (lane: Lane) => Identity("", false),
      (lane: Lane) => ReportOf(Closing(lane)))
  }

  lemma {:induction false} JsonSmall(ids: seq<string>)
    requires forall id :: id in ids ==> |id| == 1
    ensures JsonBytes(ids) <= 2 + 5 * |ids|
  {
    if ids != [] {
      assert ids[0] in ids;
      JsonSmall(ids[1..]);
    }
  }

  lemma ReportReads(ids: seq<string>)
    requires |ids| <= 3 && Distinct(ids) && forall id :: id in ids ==> |id| == 1
    ensures Reads(ReportOf(ids), ids) && forall other :: Reads(ReportOf(ids), other) ==> other == ids
  {
    JsonSmall(ids);
  }

  lemma RewrittenReads(lane: Lane, rewritten: Lane)
    ensures Rewritten(rewritten).reread(lane) == ReportOf(Closing(lane))
    ensures Rewritten(rewritten).runs(lane).report == ReportOf(Then(lane, rewritten))
    ensures Reads(ReportOf(Closing(lane)), Closing(lane))
    ensures forall ids :: Reads(ReportOf(Then(lane, rewritten)), ids) <==> ids == Then(lane, rewritten)
    ensures lane != rewritten ==> Kept(Rewritten(rewritten), lane)
  {
    hide Reads, ReportOf;
    ReportReads(Closing(lane));
    ReportReads(Then(lane, rewritten));
    assert Closing(lane) + [] == Closing(lane);
  }

  lemma RewrittenClean(lane: Lane, rewritten: Lane)
    ensures InOrder(Rewritten(rewritten), lane)
    ensures forall ids :: Reads(Rewritten(rewritten).runs(lane).report, ids) <==> ids == Then(lane, rewritten)
    ensures Rewritten(rewritten).runs(lane).collected == Some(|Then(lane, rewritten)|)
  {
    hide Reads, ReportOf, Closing;
    RewrittenReads(lane, rewritten);
    assert Reads(Rewritten(rewritten).runs(lane).report, Then(lane, rewritten));
  }

  lemma RewrittenDivides(rewritten: Lane)
    ensures Divides(Rewritten(rewritten))
  {
    hide Reads, ReportOf, Rewritten;
    RewrittenReads(OrdinaryCollection, rewritten);
    RewrittenReads(Parallel, rewritten);
    RewrittenReads(Serial, rewritten);
    var both, one, two := ["a", "b"], ["a"], ["b"];
    assert both == one + two && one[0] == "a" && two[0] == "b" && one[0][0] != two[0][0];
    assert forall id :: id in both <==> id in one || id in two;
  }

  /** Each of the three reports can undo the sum on its own: a run that ends PASSED, in which only that
      report was rewritten, and whose counts do not add up. */
  lemma RewrittenReportPasses(lane: Lane)
    requires lane.OrdinaryCollection? || lane.Parallel? || lane.Serial?
    ensures ReceiptFrom(Rewritten(lane), 0, []).status == Passed && !CountsAddUp(Rewritten(lane))
    ensures forall other :: other != lane ==> Kept(Rewritten(lane), other)
  {
    hide ReportOf, Reads, InOrder, Divides, ReceiptFrom, Kept;
    var env := Rewritten(lane);
    forall other ensures InOrder(env, other) { RewrittenClean(other, lane); }
    forall other | other != lane ensures Kept(env, other) { RewrittenReads(other, lane); }
    RewrittenDivides(lane);
    PassedIff(env);
    RewrittenClean(OrdinaryCollection, lane);
    RewrittenClean(Parallel, lane);
    RewrittenClean(Serial, lane);
  }

  /** Which reports must not be rewritten, exactly. Keep any set of lanes' reports: the counts of every
      PASSED run that keeps them add up if and only if the three compared reports are among them. */
  lemma CountsAddUpIff(kept: set<Lane>)
    ensures {OrdinaryCollection, Parallel, Serial} <= kept
      <==> forall env :: ReceiptFrom(env, 0, []).status == Passed && (forall lane :: lane in kept ==> Kept(env, lane)) ==> CountsAddUp(env)
  {
    hide ReceiptFrom, CountsAddUp, Rewritten;
    if {OrdinaryCollection, Parallel, Serial} <= kept {
      forall env | ReceiptFrom(env, 0, []).status == Passed && (forall lane :: lane in kept ==> Kept(env, lane)) ensures CountsAddUp(env) {
        PassedCountsAddUp(env);
      }
    } else {
      var lane := if OrdinaryCollection !in kept then OrdinaryCollection else if Parallel !in kept then Parallel else Serial;
      RewrittenReportPasses(lane);
    }
  }
}
