/**
 The load table as a value: what a report and a query do, with a query defined by a scan of all
 rows. LTable (in LTable.dfy) implements it with buckets of shared rows.
 */
module LoadTable {
  import opened Common

  const SCORE_BEST := 100
  const SCORE_GOOD := 86
  const SCORE_OK := 60
  const SCORE_BAD := 10

  /** A load whose percentage the server can compute without 32-bit overflow. */
  predicate InRange(load: Int32) {
    -0x8000_0000 <= load * 100 < 0x8000_0000
  }

  function CalcScore(load: Int32, loadMax: Int32): int
    requires InRange(load)
  {
    if loadMax == 0 then 0
    else
      var percent := TruncDiv(load * 100, loadMax);
      if percent >= 100 then SCORE_BAD
      else if percent >= 75 then SCORE_OK
      else if percent >= 50 then SCORE_GOOD
      else SCORE_BEST
  }

  datatype Report = Report(key: string, ip: string, port: Int16, load: Int32, loadMax: Int32, ext: string)

  datatype Row = Row(ip: string, port: Int16, load: Int32, loadMax: Int32, ext: string, score: int, reserve: int)

  type Table = map<string, Row>

  predicate HasRoom(r: Row) {
    r.load + r.reserve < r.loadMax
  }

  /** The three classes a query looks at. */
  predicate Searched(r: Row) {
    r.score == SCORE_BEST || r.score == SCORE_GOOD || r.score == SCORE_OK
  }

  predicate Candidate(t: Table, k: string) {
    k in t && HasRoom(t[k]) && Searched(t[k])
  }

  /** The row a plain scan would choose: best class first, then smallest key. */
  ghost predicate Best(t: Table, k: string) {
    && Candidate(t, k)
    && forall j :: Candidate(t, j) ==> t[j].score < t[k].score || (t[j].score == t[k].score && StrLe(k, j))
  }

  ghost function Pick(t: Table): Option<string> {
    if exists k :: Best(t, k) then
      var k :| Best(t, k);
      Some(k)
    else None
  }

  function AddRow(t: Table, r: Report): Table
    requires InRange(r.load)
  {
    var score := CalcScore(r.load, r.loadMax);
    if r.key in t then t[r.key := t[r.key].(load := r.load, loadMax := r.loadMax, score := score, reserve := 0)]
    else t[r.key := Row(r.ip, r.port, r.load, r.loadMax, r.ext, score, 0)]
  }

  ghost function Take(t: Table): Table {
    match Pick(t)
    case None => t
    case Some(k) => if k in t then t[k := t[k].(reserve := t[k].reserve + 1)] else t
  }

  // ---------------------------------------------------------------- score classes

  /** The truncated percentages put the class boundaries at exactly 1/2, 3/4 and 1. */
  lemma ScoreThresholds(load: Int32, loadMax: Int32)
    requires InRange(load) && loadMax > 0
    ensures CalcScore(load, loadMax) == SCORE_BAD <==> load >= loadMax
    ensures CalcScore(load, loadMax) == SCORE_OK <==> 4 * load >= 3 * loadMax && load < loadMax
    ensures CalcScore(load, loadMax) == SCORE_GOOD <==> 2 * load >= loadMax && 4 * load < 3 * loadMax
    ensures CalcScore(load, loadMax) == SCORE_BEST <==> 2 * load < loadMax
  {
    if load >= 0 {
      QuotientAtLeast(load * 100, loadMax, 100);
      QuotientAtLeast(load * 100, loadMax, 75);
      QuotientAtLeast(load * 100, loadMax, 50);
    } else {
      QuotientNonNegative(-(load * 100), loadMax);
    }
  }

  lemma QuotientNonNegative(a: int, b: int)
    requires a >= 0 && b > 0
    ensures a / b >= 0
  {
    QuotientAtLeast(a, b, 0);
  }

  /** A row in a better class carries a strictly smaller fraction of its capacity. */
  lemma BetterClassLessLoaded(load1: Int32, max1: Int32, load2: Int32, max2: Int32)
    requires InRange(load1) && InRange(load2) && max1 > 0 && max2 > 0
    requires CalcScore(load1, max1) > CalcScore(load2, max2)
    ensures load1 * max2 < load2 * max1
  {
    ScoreThresholds(load1, max1);
    ScoreThresholds(load2, max2);
    if load2 >= max2 && load1 < max1 {
      Across(load1, max1, load2, max2, 1, 1);
    } else if 4 * load2 >= 3 * max2 && 4 * load1 < 3 * max1 {
      Across(load1, max1, load2, max2, 4, 3);
    } else {
      Across(load1, max1, load2, max2, 2, 1);
    }
  }

  lemma Across(load1: int, max1: int, load2: int, max2: int, p: int, q: int)
    requires max1 > 0 && max2 > 0 && p > 0
    requires p * load1 < q * max1 && p * load2 >= q * max2
    ensures load1 * max2 < load2 * max1
  {
    assert (p * load1) * max2 < (q * max1) * max2;
    assert (p * load2) * max1 >= (q * max2) * max1;
    assert p * (load1 * max2) < p * (load2 * max1);
  }

  // ---------------------------------------------------------------- consistency

  predicate RowOk(r: Row) {
    && InRange(r.load)
    && r.score == CalcScore(r.load, r.loadMax)
    && 0 <= r.reserve
    && (r.reserve > 0 ==> r.load + r.reserve <= r.loadMax)
  }

  predicate Consistent(t: Table) {
    forall k :: k in t ==> RowOk(t[k])
  }

  /**
   Among rows with room the searched ones are exactly those with a positive capacity: the bad
   bucket and the unbucketed rows hide room only when a negative load meets a capacity of zero
   or less.
   */
  lemma RoomIsSearched(r: Row)
    requires RowOk(r) && HasRoom(r)
    ensures Searched(r) <==> r.loadMax > 0
    ensures r.load >= 0 ==> Searched(r)
  {
    if r.loadMax > 0 {
      ScoreThresholds(r.load, r.loadMax);
    } else if r.loadMax < 0 {
      QuotientAtLeast(-(r.load * 100), -r.loadMax, 100);
    }
  }

  predicate NoRoomIn(t: Table, score: int) {
    forall k :: k in t && t[k].score == score ==> !HasRoom(t[k])
  }

  /** k is the first row of its class, in key order, that has room. */
  predicate FirstWithRoom(t: Table, k: string, score: int) {
    && k in t && t[k].score == score && HasRoom(t[k])
    && forall j :: j in t && t[j].score == score && HasRoom(t[j]) ==> StrLe(k, j)
  }

  /** Searching class by class, best first, finds the scan's choice. */
  lemma FoundIsBest(t: Table, k: string)
    requires || FirstWithRoom(t, k, SCORE_BEST)
             || (NoRoomIn(t, SCORE_BEST) && FirstWithRoom(t, k, SCORE_GOOD))
             || (NoRoomIn(t, SCORE_BEST) && NoRoomIn(t, SCORE_GOOD) && FirstWithRoom(t, k, SCORE_OK))
    ensures Best(t, k)
  {
  }

  lemma NothingFound(t: Table)
    requires NoRoomIn(t, SCORE_BEST) && NoRoomIn(t, SCORE_GOOD) && NoRoomIn(t, SCORE_OK)
    ensures Pick(t) == None && Take(t) == t
  {
    assert forall k :: !Candidate(t, k);
    assert forall k :: !Best(t, k);
  }

  lemma BestExists(t: Table, k: string)
    requires Candidate(t, k)
    ensures exists b :: Best(t, b)
  {
    var all := set j | j in t && Candidate(t, j);
    var top := k;
    if j :| j in all && t[j].score == SCORE_BEST {
      top := j;
    } else if j :| j in all && t[j].score == SCORE_GOOD {
      top := j;
    }
    var s := set j | j in all && t[j].score == t[top].score;
    assert top in s;
    var b := LeastStrExists(s);
    forall j | Candidate(t, j)
      ensures t[j].score < t[b].score || (t[j].score == t[b].score && StrLe(b, j))
    {
      assert j in all;
    }
    assert Best(t, b);
  }

  lemma BestUnique(t: Table, a: string, b: string)
    requires Best(t, a) && Best(t, b)
    ensures a == b
  {
    StrLeTotal(a, b);
  }

  lemma PickIsBest(t: Table, k: string)
    requires Best(t, k)
    ensures Pick(t) == Some(k)
  {
    var j :| Best(t, j) && Pick(t) == Some(j);
    BestUnique(t, j, k);
  }

  /**
   A query comes back empty exactly when no row with positive capacity has room; and when no
   load is negative, exactly when no row at all has room, whatever bucket it is in.
   */
  lemma QueryEmptyExactly(t: Table)
    requires Consistent(t)
    ensures Pick(t) == None <==> forall k :: k in t && t[k].loadMax > 0 ==> !HasRoom(t[k])
    ensures (forall k :: k in t ==> t[k].load >= 0) ==>
              (Pick(t) == None <==> forall k :: k in t ==> !HasRoom(t[k]))
  {
    forall k | k in t && HasRoom(t[k])
      ensures Searched(t[k]) <==> t[k].loadMax > 0
      ensures t[k].load >= 0 ==> Searched(t[k])
    {
      RoomIsSearched(t[k]);
    }
    if k :| k in t && HasRoom(t[k]) && Searched(t[k]) {
      BestExists(t, k);
    } else {
      assert forall k :: !Best(t, k);
    }
  }

  lemma ReportKeepsConsistent(t: Table, r: Report)
    requires Consistent(t) && InRange(r.load)
    ensures Consistent(AddRow(t, r))
  {
  }

  lemma TakeKeepsConsistent(t: Table)
    requires Consistent(t)
    ensures Consistent(Take(t))
  {
  }

  // ---------------------------------------------------------------- capacity

  /** How often a row can still be handed out. */
  function FreeOf(r: Row): int {
    if Searched(r) && HasRoom(r) then r.loadMax - r.load - r.reserve else 0
  }

  ghost function Free(t: Table): int {
    MapSum(map k | k in t :: FreeOf(t[k]))
  }

  /** For non-negative loads this is the room left in the row. */
  lemma FreeIsRoom(r: Row)
    requires RowOk(r) && r.load >= 0
    ensures FreeOf(r) == Max(0, r.loadMax - r.load - r.reserve)
  {
    if HasRoom(r) {
      RoomIsSearched(r);
    }
  }

  lemma PickIsCandidate(t: Table)
    ensures Pick(t).Some? ==> Candidate(t, Pick(t).value)
    ensures Pick(t) == None ==> forall k :: !Candidate(t, k)
  {
    hide HasRoom, Searched, StrLe;
    if Pick(t) == None {
      forall k ensures !Candidate(t, k) {
        if Candidate(t, k) {
          BestExists(t, k);
        }
      }
    }
  }

  /** A query takes one from the free capacity of the row it picks, and touches no other. */
  lemma TakeFrees(t: Table)
    requires Pick(t).Some?
    ensures var m, u := map k | k in t :: FreeOf(t[k]), Take(t);
            && Pick(t).value in m
            && (map k | k in u :: FreeOf(u[k])) == m[Pick(t).value := m[Pick(t).value] - 1]
  {
    hide Pick;
    PickIsCandidate(t);
  }

  lemma FreeExactly(t: Table)
    ensures Free(t) >= 0 && (Free(t) == 0 <==> Pick(t) == None)
    ensures if Pick(t) == None then Take(t) == t else Free(Take(t)) == Free(t) - 1
  {
    hide Pick;
    var m := map k | k in t :: FreeOf(t[k]);
    MapSumNonNegative(m);
    PickIsCandidate(t);
    if Pick(t).Some? {
      var b := Pick(t).value;
      assert m[b] > 0;
      TakeFrees(t);
      MapSumUpdate(m, b, m[b] - 1);
    } else {
      forall k | k in t ensures m[k] == 0 {
        assert !Candidate(t, k);
      }
    }
  }

  ghost function AfterQueries(t: Table, n: nat): Table {
    if n == 0 then t else Take(AfterQueries(t, n - 1))
  }

  /**
   With no report in between, exactly Free(t) queries succeed: the n-th query (from 0) returns a
   row if and only if n < Free(t).
   */
  lemma {:induction false} QueriesServedExactly(t: Table, n: nat)
    ensures Pick(AfterQueries(t, n)).Some? <==> n < Free(t)
    ensures Free(AfterQueries(t, n)) == Max(0, Free(t) - n)
  {
    hide Take, Free, Pick;
    FreeExactly(t);
    if n > 0 {
      QueriesServedExactly(t, n - 1);
      FreeExactly(AfterQueries(t, n - 1));
    }
    FreeExactly(AfterQueries(t, n));
  }

  // ---------------------------------------------------------------- runs

  datatype Event = Reported(report: Report) | Queried

  predicate EventsInRange(es: seq<Event>) {
    forall i :: 0 <= i < |es| && es[i].Reported? ==> InRange(es[i].report.load)
  }

  ghost function Run(es: seq<Event>): Table
    requires EventsInRange(es)
  {
    if es == [] then map[]
    else
      var t := Run(es[..|es| - 1]);
      match es[|es| - 1]
      case Reported(r) => AddRow(t, r)
      case Queried => Take(t)
  }

  /** How often a key has been handed out since it was last reported. */
  ghost function HandOuts(es: seq<Event>, k: string): nat
    requires EventsInRange(es)
  {
    if es == [] then 0
    else
      var before := es[..|es| - 1];
      match es[|es| - 1]
      case Reported(r) => if r.key == k then 0 else HandOuts(before, k)
      case Queried => HandOuts(before, k) + if Pick(Run(before)) == Some(k) then 1 else 0
  }

  /**
   On every run the table is consistent, and the reservation of a row is exactly the number of
   times it has been handed out since its last report, which never exceeds its spare capacity.
   */
  lemma {:induction false} HandOutsBounded(es: seq<Event>, k: string)
    requires EventsInRange(es)
    ensures Consistent(Run(es))
    ensures k in Run(es) ==>
              && HandOuts(es, k) == Run(es)[k].reserve
              && HandOuts(es, k) <= Max(0, Run(es)[k].loadMax - Run(es)[k].load)
  {
    if es != [] {
      HandOutsBounded(es[..|es| - 1], k);
      if es[|es| - 1].Reported? {
        ReportKeepsConsistent(Run(es[..|es| - 1]), es[|es| - 1].report);
      } else {
        TakeKeepsConsistent(Run(es[..|es| - 1]));
      }
      if k !in Run(es[..|es| - 1]) && es[|es| - 1].Queried? {
        assert k !in Run(es);
      }
    }
  }

  /** No report claims a negative load. */
  predicate LoadsNonNegative(es: seq<Event>) {
    forall i :: 0 <= i < |es| && es[i].Reported? ==> es[i].report.load >= 0
  }

  lemma {:induction false} RowsNonNegative(es: seq<Event>)
    requires EventsInRange(es) && LoadsNonNegative(es)
    ensures forall k :: k in Run(es) ==> Run(es)[k].load >= 0
  {
    hide InRange, Pick, CalcScore;
    if es != [] {
      RowsNonNegative(es[..|es| - 1]);
    }
  }

  /** The room left in all rows together, each counted as max(0, load_max - load - reserve). */
  ghost function Room(t: Table): int {
    MapSum(map k | k in t :: Max(0, t[k].loadMax - t[k].load - t[k].reserve))
  }

  /**
   The capacity guarantee: from any table that reports of non-negative loads and queries have led
   to, exactly as many further queries succeed as the rows have room for, and every later one fails.
   */
  lemma CapacityExactly(es: seq<Event>, n: nat)
    requires EventsInRange(es) && LoadsNonNegative(es)
    ensures Pick(AfterQueries(Run(es), n)).Some? <==> n < Room(Run(es))
  {
    hide Run, Pick, FreeOf, RowOk, AfterQueries;
    var t := Run(es);
    HandOutsBounded(es, "");
    RowsNonNegative(es);
    forall k | k in t ensures FreeOf(t[k]) == Max(0, t[k].loadMax - t[k].load - t[k].reserve) {
      FreeIsRoom(t[k]);
    }
    assert (map k | k in t :: FreeOf(t[k])) == map k | k in t :: Max(0, t[k].loadMax - t[k].load - t[k].reserve);
    QueriesServedExactly(t, n);
  }

  /** A negative load under a capacity of zero: the row has room, and no query returns it. */
  lemma RoomNotFound()
    ensures var es := [Reported(Report("a", "", 0, -1, 0, ""))];
            && EventsInRange(es)
            && "a" in Run(es) && HasRoom(Run(es)["a"]) && Pick(Run(es)) == None
  {
    var es := [Reported(Report("a", "", 0, -1, 0, ""))];
    assert es[..0] == [] && Run([]) == map[];
    PickIsCandidate(Run(es));
  }

  // ---------------------------------------------------------------- what was reported

  /** What a key was first and last reported as, read off the events alone. */
  function FirstReport(es: seq<Event>, k: string): Option<Report> {
    if es == [] then None
    else
      var before, e := FirstReport(es[..|es| - 1], k), es[|es| - 1];
      if before == None && e.Reported? && e.report.key == k then Some(e.report) else before
  }

  function LastReport(es: seq<Event>, k: string): Option<Report> {
    if es == [] then None
    else
      var e := es[|es| - 1];
      if e.Reported? && e.report.key == k then Some(e.report) else LastReport(es[..|es| - 1], k)
  }

  /**
   What the table holds after any run: exactly the keys reported, each with the address of its first
   report, the loads of its last, the class those loads give, and its hand-outs since then.
   */
  lemma {:induction false} RowsAsReported(es: seq<Event>, k: string)
    requires EventsInRange(es)
    ensures k in Run(es) <==> LastReport(es, k).Some?
    ensures FirstReport(es, k).Some? <==> LastReport(es, k).Some?
    ensures LastReport(es, k).Some? ==>
              var first, last := FirstReport(es, k).value, LastReport(es, k).value;
              && InRange(last.load)
              && Run(es)[k] == Row(first.ip, first.port, last.load, last.loadMax, first.ext,
                                   CalcScore(last.load, last.loadMax), HandOuts(es, k))
  {
    hide CalcScore, Pick, InRange;
    if es != [] {
      RowsAsReported(es[..|es| - 1], k);
    }
  }

  /** Same class by load: the same side of one half, and of three quarters, of the capacity. */
  predicate SameFraction(load1: int, max1: int, load2: int, max2: int) {
    (2 * load1 < max1 <==> 2 * load2 < max2) && (4 * load1 < 3 * max1 <==> 4 * load2 < 3 * max2)
  }

  lemma PickLeastLoaded(t: Table, k: string, j: string)
    requires Consistent(t) && Pick(t) == Some(k)
    requires j in t && HasRoom(t[j]) && t[j].loadMax > 0
    ensures k in t && HasRoom(t[k]) && t[k].loadMax > 0
    ensures 2 * t[j].load < t[j].loadMax ==> 2 * t[k].load < t[k].loadMax
    ensures 4 * t[j].load < 3 * t[j].loadMax ==> 4 * t[k].load < 3 * t[k].loadMax
    ensures SameFraction(t[j].load, t[j].loadMax, t[k].load, t[k].loadMax) ==> StrLe(k, j)
  {
    hide CalcScore, InRange, StrLe;
    PickIsCandidate(t);
    RoomIsSearched(t[k]);
    RoomIsSearched(t[j]);
    ScoreThresholds(t[k].load, t[k].loadMax);
    ScoreThresholds(t[j].load, t[j].loadMax);
    assert t[j].score < t[k].score || (t[j].score == t[k].score && StrLe(k, j)) by {
      PickIsTheBest(t);
    }
  }

  lemma PickIsTheBest(t: Table)
    requires Pick(t).Some?
    ensures Best(t, Pick(t).value)
  {
  }

  /** A key that can be handed out, by its last report and the hand-outs since. */
  ghost predicate CanGive(es: seq<Event>, k: string)
    requires EventsInRange(es)
  {
    LastReport(es, k).Some? && LastReport(es, k).value.load + HandOuts(es, k) < LastReport(es, k).value.loadMax
  }

  /**
   Every query of every run, decided by the reports and hand-outs before it: the key handed out can
   be, and any other that can be has no smaller class of load; among keys of one class it is the
   smallest as a string.
   */
  lemma {:induction false} QueryAsReported(es: seq<Event>, k: string, j: string)
    requires EventsInRange(es) && Pick(Run(es)) == Some(k)
    requires CanGive(es, j) && LastReport(es, j).value.loadMax > 0
    ensures CanGive(es, k) && LastReport(es, k).value.loadMax > 0
    ensures var a, b := LastReport(es, j).value, LastReport(es, k).value;
            && (2 * a.load < a.loadMax ==> 2 * b.load < b.loadMax)
            && (4 * a.load < 3 * a.loadMax ==> 4 * b.load < 3 * b.loadMax)
            && (SameFraction(a.load, a.loadMax, b.load, b.loadMax) ==> StrLe(k, j))
  {
    hide Run, Pick, StrLe, LastReport, HandOuts, FirstReport, CalcScore, Consistent;
    HandOutsBounded(es, k);
    RowsAsReported(es, j);
    RowsAsReported(es, k);
    PickLeastLoaded(Run(es), k, j);
  }
}
