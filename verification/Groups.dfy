/**
 mcenter's choice of a media group, as a value: what the group index holds is a function of the
 reports received, and a group is searched for by ISP mask and area.
 */
module Groups {
  import opened Common
  import opened Keys
  import opened Masks

  datatype Grp = Grp(ip: string, port: Int16, isp: bv32, area: Int32, load: Int32, loadMax: Int32,
                     accessUrl: string, charged: int, lastUpdate: int)

  datatype Report = Report(name: string, ip: string, port: Int16, isp: bv32, area: Int32,
                           load: Int32, loadMax: Int32, accessUrl: string)

  /** Which name was reported under which mask and area. */
  datatype Filing = Filing(name: string, isp: bv32, area: Int32)

  /** The groups by name, and every filing made, oldest first. */
  datatype Center = Center(groups: map<string, Grp>, filings: seq<Filing>)

  const EmptyCenter := Center(map[], [])

  predicate WellFiled(c: Center) {
    forall i :: 0 <= i < |c.filings| ==> c.filings[i].name in c.groups
  }

  // ---------------------------------------------------------------- reports

  /** Loads on which the server's 32-bit subtraction and division are defined. */
  predicate LoadsDefined(load: Int32, loadMax: Int32) {
    -0x8000_0000 <= loadMax - load < 0x8000_0000 && !(load == -1 && loadMax == -0x8000_0000)
  }

  /** A known name keeps its ip, port, isp and area; but it is filed again, as reported this time. */
  function AddReport(c: Center, r: Report, time: int): Center {
    var g := if r.name in c.groups then
               c.groups[r.name].(load := r.load, loadMax := r.loadMax, accessUrl := r.accessUrl, lastUpdate := time)
             else Grp(r.ip, r.port, r.isp, r.area, r.load, r.loadMax, r.accessUrl, 0, time);
    Center(c.groups[r.name := g], c.filings + [Filing(r.name, r.isp, r.area)])
  }

  function Charge(c: Center, name: string, num: Int32): Center
    requires name in c.groups
  {
    c.(groups := c.groups[name := c.groups[name].(charged := c.groups[name].charged + num)])
  }

  // ---------------------------------------------------------------- the best group of a list

  function ScoreOf(g: Grp): int {
    if g.load == 0 then 100 else TruncDiv(g.loadMax, g.load)
  }

  /** Low load, or a lot of room: taken at once. */
  predicate Good(g: Grp) {
    ScoreOf(g) >= 3 || g.loadMax - g.load > 100000
  }

  predicate Usable(g: Grp) {
    Good(g) || ScoreOf(g) > 0
  }

  /** For non-negative loads a group is unusable exactly when its load exceeds its capacity. */
  lemma UsableExactly(g: Grp)
    requires g.load >= 0 && g.loadMax >= 0
    ensures Usable(g) <==> g.load <= g.loadMax
  {
    if g.load > 0 {
      QuotientAtLeast(g.loadMax, g.load, 1);
    }
  }

  /** A group is good exactly when it is idle, or at most a third full, or has room for more than 100000. */
  lemma GoodExactly(g: Grp)
    requires g.load >= 0 && g.loadMax >= 0
    ensures Good(g) <==> g.load == 0 || g.loadMax >= 3 * g.load || g.loadMax - g.load > 100000
  {
    if g.load > 0 {
      QuotientAtLeast(g.loadMax, g.load, 3);
    }
  }

  /** Of two busy groups the one with the higher score carries the smaller fraction of its capacity. */
  lemma HigherScoreLessLoaded(g: Grp, h: Grp)
    requires g.load > 0 && h.load > 0 && g.loadMax >= 0 && h.loadMax >= 0
    requires ScoreOf(g) > ScoreOf(h)
    ensures g.load * h.loadMax < h.load * g.loadMax
  {
    var k := h.loadMax / h.load;
    QuotientAtLeast(g.loadMax, g.load, k + 1);
    QuotientAtLeast(h.loadMax, h.load, k + 1);
    assert g.load * h.loadMax < g.load * ((k + 1) * h.load);
    assert h.load * ((k + 1) * g.load) <= h.load * g.loadMax;
    assert g.load * ((k + 1) * h.load) == h.load * ((k + 1) * g.load);
  }

  predicate Known(gs: map<string, Grp>, list: seq<string>) {
    forall i :: 0 <= i < |list| ==> list[i] in gs
  }

  /** Whether the list's best so far gives way to the next group. */
  function Better(gs: map<string, Grp>, best: Option<string>, next: string): Option<string>
    requires next in gs && (best.Some? ==> best.value in gs)
  {
    if best.Some? && Good(gs[best.value]) then best
    else if Good(gs[next]) then Some(next)
    else if ScoreOf(gs[next]) > (if best.Some? then ScoreOf(gs[best.value]) else 0) then Some(next)
    else best
  }

  function FreeGroup(gs: map<string, Grp>, list: seq<string>): (r: Option<string>)
    requires Known(gs, list)
    ensures r.Some? ==> r.value in gs
  {
    if list == [] then None else Better(gs, FreeGroup(gs, list[..|list| - 1]), list[|list| - 1])
  }

  /** The first good group of the list; without one, the first of those with the highest positive score. */
  ghost predicate Selected(gs: map<string, Grp>, list: seq<string>, i: nat)
    requires Known(gs, list)
  {
    && i < |list|
    && (forall j :: 0 <= j < i ==> !Good(gs[list[j]]))
    && (Good(gs[list[i]])
        || (&& ScoreOf(gs[list[i]]) > 0
            && (forall j :: 0 <= j < |list| ==> !Good(gs[list[j]]) && ScoreOf(gs[list[j]]) <= ScoreOf(gs[list[i]]))
            && (forall j :: 0 <= j < i ==> ScoreOf(gs[list[j]]) < ScoreOf(gs[list[i]]))))
  }

  /** getFreeGroup finds nothing exactly when nothing is usable, and otherwise selects as above. */
  lemma {:induction false} FreeGroupSelects(gs: map<string, Grp>, list: seq<string>) returns (i: nat)
    requires Known(gs, list)
    ensures FreeGroup(gs, list) == None <==> forall n :: n in list ==> !Usable(gs[n])
    ensures FreeGroup(gs, list).Some? ==> Selected(gs, list, i) && list[i] == FreeGroup(gs, list).value
  {
    hide Good, ScoreOf;
    i := 0;
    if list != [] {
      var front, last := list[..|list| - 1], list[|list| - 1];
      var j := FreeGroupSelects(gs, front);
      assert list == front + [last];
      assert forall n :: n in list <==> n in front || n == last;
      i := if FreeGroup(gs, list) == FreeGroup(gs, front) then j else |list| - 1;
      if FreeGroup(gs, front).Some? && FreeGroup(gs, list) == FreeGroup(gs, front) {
        assert Selected(gs, list, j) by {
          assert forall k :: 0 <= k < |front| ==> list[k] == front[k];
        }
      }
    }
  }

  lemma FreeGroupFound(gs: map<string, Grp>, list: seq<string>)
    requires Known(gs, list)
    ensures FreeGroup(gs, list) == None <==> forall n :: n in list ==> !Usable(gs[n])
    ensures FreeGroup(gs, list).Some? ==> FreeGroup(gs, list).value in list && Usable(gs[FreeGroup(gs, list).value])
  {
    hide Good, ScoreOf;
    var i := FreeGroupSelects(gs, list);
  }

  /** A group that is in the list already changes nothing when it comes again. */
  lemma RepeatAbsorbed(gs: map<string, Grp>, list: seq<string>, n: string)
    requires Known(gs, list) && n in list
    ensures Known(gs, list + [n]) && FreeGroup(gs, list + [n]) == FreeGroup(gs, list)
  {
    hide Good, ScoreOf;
    var i := FreeGroupSelects(gs, list);
    assert (list + [n])[..|list|] == list;
    var k :| 0 <= k < |list| && list[k] == n;
  }

  // ---------------------------------------------------------------- the index

  /** The list filed under an ISP mask. */
  function IspList(fs: seq<Filing>, isp: bv32): seq<string> {
    if fs == [] then []
    else IspList(fs[..|fs| - 1], isp) + if fs[|fs| - 1].isp == isp then [fs[|fs| - 1].name] else []
  }

  /** The list filed under an ISP mask and an area. */
  function AreaList(fs: seq<Filing>, isp: bv32, area: Int32): seq<string> {
    if fs == [] then []
    else
      var f := fs[|fs| - 1];
      AreaList(fs[..|fs| - 1], isp, area) + if f.isp == isp && f.area == area then [f.name] else []
  }

  lemma {:induction false} ListMembers(fs: seq<Filing>, isp: bv32, area: Int32, n: string)
    ensures n in IspList(fs, isp) <==> exists i :: 0 <= i < |fs| && fs[i].name == n && fs[i].isp == isp
    ensures n in AreaList(fs, isp, area) <==> Filing(n, isp, area) in fs
  {
    if fs != [] {
      var front, last := fs[..|fs| - 1], fs[|fs| - 1];
      ListMembers(front, isp, area, n);
      assert fs == front + [last];
      if i :| 0 <= i < |front| && front[i].name == n && front[i].isp == isp {
        assert fs[i] == front[i];
      }
    }
  }

  lemma ListsKnown(c: Center, isp: bv32, area: Int32)
    requires WellFiled(c)
    ensures Known(c.groups, IspList(c.filings, isp)) && Known(c.groups, AreaList(c.filings, isp, area))
  {
    forall n | n in IspList(c.filings, isp) || n in AreaList(c.filings, isp, area) ensures n in c.groups {
      ListMembers(c.filings, isp, area, n);
    }
  }

  function FindGroup(c: Center, isp: bv32, area: Int32): (r: Option<string>)
    requires WellFiled(c)
    ensures r.Some? ==> r.value in c.groups
  {
    ListsKnown(c, isp, area);
    var inArea := FreeGroup(c.groups, AreaList(c.filings, isp, area));
    if inArea.Some? then inArea else FreeGroup(c.groups, IspList(c.filings, isp))
  }

  /** A usable group that was reported under this very mask. */
  ghost predicate UsableUnder(c: Center, isp: bv32, n: string)
    requires WellFiled(c)
  {
    exists i :: 0 <= i < |c.filings| && c.filings[i].name == n && c.filings[i].isp == isp && Usable(c.groups[n])
  }

  /**
   An isp:area lookup falls back to the mask's whole list, which contains the area's: so it
   fails exactly when the mask has no usable group, whatever the area.
   */
  lemma FindGroupExactly(c: Center, isp: bv32, area: Int32)
    requires WellFiled(c)
    ensures FindGroup(c, isp, area) == None <==> forall n :: !UsableUnder(c, isp, n)
    ensures FindGroup(c, isp, area).Some? ==> UsableUnder(c, isp, FindGroup(c, isp, area).value)
  {
    hide Usable, FreeGroup;
    ListsKnown(c, isp, area);
    var a, l := AreaList(c.filings, isp, area), IspList(c.filings, isp);
    FreeGroupFound(c.groups, a);
    FreeGroupFound(c.groups, l);
    forall n
      ensures n in a ==> n in l
      ensures n in l && Usable(c.groups[n]) <==> UsableUnder(c, isp, n)
    {
      ListMembers(c.filings, isp, area, n);
      if Filing(n, isp, area) in c.filings {
        var i :| 0 <= i < |c.filings| && c.filings[i] == Filing(n, isp, area);
      }
    }
  }

  // ---------------------------------------------------------------- fetchGroup

  function Or(a: Option<string>, b: Option<string>): Option<string> {
    if a.Some? then a else b
  }

  ghost function Isps(fs: seq<Filing>): set<bv32> {
    set i | 0 <= i < |fs| :: fs[i].isp
  }

  /** The masks that cover both users' ISPs, in ascending order. */
  ghost function Fallback(c: Center, rest: set<bv32>, isps: bv32, area1: Int32, area2: Int32): (r: Option<string>)
    requires WellFiled(c)
    ensures r.Some? ==> r.value in c.groups
    decreases rest
  {
    if rest == {} then None
    else
      var m := FirstIsp(rest);
      var here := if Covers(m, isps) then Or(FindGroup(c, m, area1), FindGroup(c, m, area2)) else None;
      Or(here, Fallback(c, rest - {m}, isps, area1, area2))
  }

  lemma FallbackStep(c: Center, rest: set<bv32>, isps: bv32, area1: Int32, area2: Int32)
    requires WellFiled(c) && rest != {}
    ensures var m := FirstIsp(rest);
            Fallback(c, rest, isps, area1, area2) ==
            Or(if Covers(m, isps) then Or(FindGroup(c, m, area1), FindGroup(c, m, area2)) else None,
               Fallback(c, rest - {m}, isps, area1, area2))
  {
    hide FindGroup, Covers, FirstIsp;
  }

  /** The lookups made when both users have the same ISP mask. */
  function SameIsp(c: Center, isp: bv32, area1: Int32, area2: Int32): (r: Option<string>)
    requires WellFiled(c)
    ensures r.Some? ==> r.value in c.groups
  {
    if area1 == area2 then FindGroup(c, isp, area1)
    else Or(FindGroup(c, isp, area1), FindGroup(c, isp, area2))
  }

  /** findDiffIsp: the lookups made when the masks differ. */
  function DiffIsp(c: Center, isps: bv32, area1: Int32, area2: Int32): (r: Option<string>)
    requires WellFiled(c)
    ensures r.Some? ==> r.value in c.groups
  {
    Or(FindGroup(c, isps, area1), FindGroup(c, isps, area2))
  }

  ghost function FetchGroup(c: Center, q: Quad): (r: Option<string>)
    requires WellFiled(c)
    ensures r.Some? ==> r.value in c.groups
  {
    var isps := Join(q.isp1, q.isp2);
    var exact := if q.isp1 == q.isp2 then SameIsp(c, q.isp1, q.area1, q.area2)
                 else DiffIsp(c, isps, q.area1, q.area2);
    Or(exact, Fallback(c, Isps(c.filings), isps, q.area1, q.area2))
  }

  lemma {:induction false} FallbackExactly(c: Center, rest: set<bv32>, isps: bv32, area1: Int32, area2: Int32)
    requires WellFiled(c)
    ensures var r := Fallback(c, rest, isps, area1, area2);
            && (r == None <==> forall m, n :: m in rest && Covers(m, isps) ==> !UsableUnder(c, m, n))
            && (r.Some? ==> exists m :: m in rest && Covers(m, isps) && UsableUnder(c, m, r.value))
            && r == Fallback(c, rest, isps, area1, area1)
    decreases rest
  {
    hide FindGroup, UsableUnder, Covers, FirstIsp;
    if rest != {} {
      var m := FirstIsp(rest);
      FallbackExactly(c, rest - {m}, isps, area1, area2);
      FindGroupExactly(c, m, area1);
      FindGroupExactly(c, m, area2);
      assert forall x :: x in rest <==> x == m || x in rest - {m};
    }
  }

  /**
   Fallback takes the masks as std::set<int> orders them: the group comes from a mask that covers
   both, and no smaller mask that does has a usable group.
   */
  lemma {:induction false} SmallestMaskFirst(c: Center, rest: set<bv32>, isps: bv32, area: Int32) returns (m: bv32)
    requires WellFiled(c) && Fallback(c, rest, isps, area, area).Some?
    ensures m in rest && Covers(m, isps) && Fallback(c, rest, isps, area, area) == FindGroup(c, m, area)
    ensures forall k, n :: k in rest && Covers(k, isps) && UsableUnder(c, k, n) ==> Signed(m) <= Signed(k)
    decreases rest
  {
    hide FindGroup, UsableUnder, Covers, FirstIsp;
    m := FirstIsp(rest);
    FirstIspLeast(rest);
    FindGroupExactly(c, m, area);
    if !Covers(m, isps) || FindGroup(c, m, area) == None {
      var first := m;
      m := SmallestMaskFirst(c, rest - {first}, isps, area);
    }
  }

  /** The exact mask's lookups fail exactly when that mask has no usable group; area2 never matters. */
  lemma ExactMask(c: Center, isp: bv32, area1: Int32, area2: Int32)
    requires WellFiled(c)
    ensures Or(FindGroup(c, isp, area1), FindGroup(c, isp, area2)) == FindGroup(c, isp, area1)
  {
    hide FindGroup, UsableUnder;
    FindGroupExactly(c, isp, area1);
    FindGroupExactly(c, isp, area2);
  }

  /** Both branches of the search come to this. */
  lemma FetchGroupSimply(c: Center, q: Quad)
    requires WellFiled(c)
    ensures FetchGroup(c, q) ==
            Or(FindGroup(c, Join(q.isp1, q.isp2), q.area1), Fallback(c, Isps(c.filings), Join(q.isp1, q.isp2), q.area1, q.area1))
  {
    hide FindGroup, Fallback, Covers, Join, Isps;
    SameMask(q.isp1);
    ExactMask(c, Join(q.isp1, q.isp2), q.area1, q.area2);
    FallbackExactly(c, Isps(c.filings), Join(q.isp1, q.isp2), q.area1, q.area2);
  }

  /** The second area plays no part in the choice: every lookup under it is redundant. */
  lemma SecondAreaRedundant(c: Center, q: Quad, area2: Int32)
    requires WellFiled(c)
    ensures FetchGroup(c, q) == FetchGroup(c, q.(area2 := area2))
  {
    hide FindGroup, Fallback, FetchGroup, Covers, Join;
    FetchGroupSimply(c, q);
    FetchGroupSimply(c, q.(area2 := area2));
  }

  /** A group that could serve the request: reported under a covering mask, and not overloaded. */
  ghost predicate Serves(c: Center, q: Quad, f: Filing)
    requires WellFiled(c)
  {
    f in c.filings && Covers(f.isp, Join(q.isp1, q.isp2)) && Usable(c.groups[f.name])
  }

  /**
   The search is complete and sound: it fails exactly when no group reported under a mask that
   covers both users' ISPs is usable, and what it returns is such a group.
   */
  lemma FetchGroupExactly(c: Center, q: Quad)
    requires WellFiled(c)
    ensures FetchGroup(c, q) == None <==> forall f :: !Serves(c, q, f)
    ensures FetchGroup(c, q).Some? ==> exists f :: Serves(c, q, f) && f.name == FetchGroup(c, q).value
  {
    hide FindGroup, Fallback, FetchGroup, Usable, Covers, Join;
    var isps := Join(q.isp1, q.isp2);
    FetchGroupSimply(c, q);
    FindGroupExactly(c, isps, q.area1);
    FallbackExactly(c, Isps(c.filings), isps, q.area1, q.area1);
    SameMask(isps);
    forall f | Serves(c, q, f)
      ensures f.isp in Isps(c.filings) && UsableUnder(c, f.isp, f.name)
    {
      var i :| 0 <= i < |c.filings| && c.filings[i] == f;
    }
    forall m, n | Covers(m, isps) && UsableUnder(c, m, n)
      ensures exists f :: Serves(c, q, f) && f.name == n
    {
      var i :| 0 <= i < |c.filings| && c.filings[i].name == n && c.filings[i].isp == m && Usable(c.groups[n]);
      assert Serves(c, q, c.filings[i]);
    }
  }

  /**
   When the exact mask has no usable group, the group comes from the smallest wider mask that has
   one, as std::set<int> orders them.
   */
  lemma SmallestWiderMask(c: Center, q: Quad) returns (m: bv32)
    requires WellFiled(c) && FetchGroup(c, q).Some?
    requires forall n :: !UsableUnder(c, Join(q.isp1, q.isp2), n)
    ensures Covers(m, Join(q.isp1, q.isp2)) && UsableUnder(c, m, FetchGroup(c, q).value)
    ensures forall k, n :: Covers(k, Join(q.isp1, q.isp2)) && UsableUnder(c, k, n) ==> Signed(m) <= Signed(k)
  {
    hide FindGroup, Fallback, FetchGroup, Usable, Covers, Join, Signed;
    var isps := Join(q.isp1, q.isp2);
    FetchGroupSimply(c, q);
    FindGroupExactly(c, isps, q.area1);
    m := SmallestMaskFirst(c, Isps(c.filings), isps, q.area1);
    FindGroupExactly(c, m, q.area1);
  }

  /** Nearby first: a usable group filed under the exact mask and first area is always preferred. */
  lemma NearbyPreferred(c: Center, q: Quad)
    requires WellFiled(c)
    ensures var list := AreaList(c.filings, Join(q.isp1, q.isp2), q.area1);
            && Known(c.groups, list)
            && ((exists n :: n in list && Usable(c.groups[n])) ==> FetchGroup(c, q) == FreeGroup(c.groups, list))
  {
    hide Fallback, FetchGroup, Usable, FreeGroup, Join;
    ListsKnown(c, Join(q.isp1, q.isp2), q.area1);
    FetchGroupSimply(c, q);
    FreeGroupFound(c.groups, AreaList(c.filings, Join(q.isp1, q.isp2), q.area1));
  }

  /** Filing a group again where it is filed already, as every further report does, changes no choice. */
  lemma RefilingChangesNothing(c: Center, f: Filing, q: Quad)
    requires WellFiled(c) && f in c.filings
    ensures WellFiled(c.(filings := c.filings + [f]))
    ensures FetchGroup(c.(filings := c.filings + [f]), q) == FetchGroup(c, q)
  {
    hide FindGroup, Fallback, FetchGroup, Covers, Join;
    var d := c.(filings := c.filings + [f]);
    forall isp, area
      ensures FindGroup(d, isp, area) == FindGroup(c, isp, area)
    {
      RefilingFindsSame(c, f, isp, area);
    }
    FetchGroupSimply(c, q);
    FetchGroupSimply(d, q);
    assert Isps(d.filings) == Isps(c.filings) by {
      assert forall i :: 0 <= i < |c.filings| ==> d.filings[i] == c.filings[i];
    }
    FallbackSame(c, d, Isps(c.filings), Join(q.isp1, q.isp2), q.area1);
  }

  lemma RefilingFindsSame(c: Center, f: Filing, isp: bv32, area: Int32)
    requires WellFiled(c) && f in c.filings
    ensures WellFiled(c.(filings := c.filings + [f]))
    ensures FindGroup(c.(filings := c.filings + [f]), isp, area) == FindGroup(c, isp, area)
  {
    hide FreeGroup;
    var fs := c.filings + [f];
    assert fs[..|fs| - 1] == c.filings;
    ListsKnown(c, isp, area);
    ListMembers(c.filings, isp, area, f.name);
    if f.isp == isp {
      var i :| 0 <= i < |c.filings| && c.filings[i] == f;
      RepeatAbsorbed(c.groups, IspList(c.filings, isp), f.name);
      if f.area == area {
        RepeatAbsorbed(c.groups, AreaList(c.filings, isp, area), f.name);
      }
    }
    assert IspList(c.filings, isp) + [] == IspList(c.filings, isp);
    assert AreaList(c.filings, isp, area) + [] == AreaList(c.filings, isp, area);
  }

  lemma {:induction false} FallbackSame(c: Center, d: Center, rest: set<bv32>, isps: bv32, area: Int32)
    requires WellFiled(c) && WellFiled(d)
    requires forall isp, a :: FindGroup(d, isp, a) == FindGroup(c, isp, a)
    ensures Fallback(d, rest, isps, area, area) == Fallback(c, rest, isps, area, area)
    decreases rest
  {
    hide FindGroup, Covers, FirstIsp;
    if rest != {} {
      FallbackSame(c, d, rest - {FirstIsp(rest)}, isps, area);
    }
  }

  // ---------------------------------------------------------------- report-only runs

  datatype Timed = Timed(report: Report, time: int)

  function AfterReports(rs: seq<Timed>): Center {
    if rs == [] then EmptyCenter
    else AddReport(AfterReports(rs[..|rs| - 1]), rs[|rs| - 1].report, rs[|rs| - 1].time)
  }

  /** What a name was first and last reported as, read off the reports alone. */
  function FirstReport(rs: seq<Timed>, n: string): Option<Timed> {
    if rs == [] then None
    else
      var before := FirstReport(rs[..|rs| - 1], n);
      if before == None && rs[|rs| - 1].report.name == n then Some(rs[|rs| - 1]) else before
  }

  function LastReport(rs: seq<Timed>, n: string): Option<Timed> {
    if rs == [] then None
    else if rs[|rs| - 1].report.name == n then Some(rs[|rs| - 1])
    else LastReport(rs[..|rs| - 1], n)
  }

  /** The group that the first and the last report of a name make. */
  function AsReported(first: Timed, last: Timed): Grp {
    Grp(first.report.ip, first.report.port, first.report.isp, first.report.area,
        last.report.load, last.report.loadMax, last.report.accessUrl, 0, last.time)
  }

  /**
   What mcenter knows after any run of reports: exactly the names reported, each with the address,
   mask and area of its first report and the loads, url and time of its last.
   */
  lemma {:induction false} GroupsAsReported(rs: seq<Timed>, n: string)
    ensures n in AfterReports(rs).groups <==> LastReport(rs, n).Some?
    ensures FirstReport(rs, n).Some? <==> LastReport(rs, n).Some?
    ensures n in AfterReports(rs).groups ==>
              AfterReports(rs).groups[n] == AsReported(FirstReport(rs, n).value, LastReport(rs, n).value)
  {
    if rs != [] {
      GroupsAsReported(rs[..|rs| - 1], n);
    }
  }

  /** Every report files its name under its own mask and area, in the order of the reports. */
  lemma {:induction false} FilingsAsReported(rs: seq<Timed>)
    ensures WellFiled(AfterReports(rs)) && |AfterReports(rs).filings| == |rs|
    ensures forall i :: 0 <= i < |rs| ==>
              AfterReports(rs).filings[i] == Filing(rs[i].report.name, rs[i].report.isp, rs[i].report.area)
  {
    if rs != [] {
      FilingsAsReported(rs[..|rs| - 1]);
    }
  }

  lemma {:induction false} LastReportIsOne(rs: seq<Timed>, n: string)
    ensures LastReport(rs, n).Some? ==> LastReport(rs, n).value in rs && LastReport(rs, n).value.report.name == n
    ensures (exists i :: 0 <= i < |rs| && rs[i].report.name == n) <==> LastReport(rs, n).Some?
  {
    if rs != [] {
      var front := rs[..|rs| - 1];
      LastReportIsOne(front, n);
      if i :| 0 <= i < |rs| && rs[i].report.name == n {
        assert i < |front| ==> front[i] == rs[i];
      }
      if i :| 0 <= i < |front| && front[i].report.name == n {
        assert rs[i] == front[i];
      }
    }
  }

  predicate LoadsNonNegative(rs: seq<Timed>) {
    forall i :: 0 <= i < |rs| ==> rs[i].report.load >= 0 && rs[i].report.loadMax >= 0
  }

  /** A name whose last report was of more load than capacity. */
  predicate Overloaded(rs: seq<Timed>, n: string) {
    LastReport(rs, n).Some? && LastReport(rs, n).value.report.load > LastReport(rs, n).value.report.loadMax
  }

  /** Report i was made under a mask covering both users' ISPs, by a group not overloaded when last heard of. */
  predicate CanServe(rs: seq<Timed>, q: Quad, i: nat)
    requires i < |rs|
  {
    Covers(rs[i].report.isp, Join(q.isp1, q.isp2)) && !Overloaded(rs, rs[i].report.name)
  }

  /** On a centre whose groups are as reported, the groups that can serve are those of the reports. */
  lemma {:induction false} ServesAsReported(c: Center, rs: seq<Timed>, q: Quad, i: nat)
    requires WellFiled(c) && LoadsNonNegative(rs) && i < |rs| && |c.filings| == |rs|
    requires c.filings[i] == Filing(rs[i].report.name, rs[i].report.isp, rs[i].report.area)
    requires var last := LastReport(rs, c.filings[i].name);
             && last.Some?
             && c.groups[c.filings[i].name].load == last.value.report.load
             && c.groups[c.filings[i].name].loadMax == last.value.report.loadMax
    ensures Serves(c, q, c.filings[i]) <==> CanServe(rs, q, i)
  {
    hide Usable, Covers, Join, LastReport;
    LastReportIsOne(rs, c.filings[i].name);
    UsableExactly(c.groups[c.filings[i].name]);
  }

  /**
   On every run of reports: NULL comes back exactly when every name ever reported under a mask that
   covers both users' ISPs was last reported with more load than capacity; and a group returned was
   reported under such a mask and has room by its last report.
   */
  lemma {:induction false} FetchAsReported(rs: seq<Timed>, q: Quad)
    requires LoadsNonNegative(rs)
    ensures WellFiled(AfterReports(rs))
    ensures var r := FetchGroup(AfterReports(rs), q);
            && (r == None <==> forall i :: 0 <= i < |rs| ==> !CanServe(rs, q, i))
            && (r.Some? ==> exists i :: 0 <= i < |rs| && CanServe(rs, q, i) && rs[i].report.name == r.value)
  {
    hide FetchGroup, Usable, CanServe, AfterReports, LastReport;
    var c := AfterReports(rs);
    FilingsAsReported(rs);
    FetchGroupExactly(c, q);
    forall i: nat | i < |rs|
      ensures Serves(c, q, c.filings[i]) <==> CanServe(rs, q, i)
    {
      GroupsAsReported(rs, rs[i].report.name);
      ServesAsReported(c, rs, q, i);
    }
    if r :| Serves(c, q, r) {
      var i :| 0 <= i < |rs| && c.filings[i] == r;
      assert CanServe(rs, q, i);
    }
    if FetchGroup(c, q).Some? {
      var f :| Serves(c, q, f) && f.name == FetchGroup(c, q).value;
      var i :| 0 <= i < |rs| && c.filings[i] == f;
      assert CanServe(rs, q, i) && rs[i].report.name == f.name;
    }
  }

  /** No name is reported under two masks or two areas. */
  predicate Stable(rs: seq<Timed>) {
    forall i, j :: 0 <= i < |rs| && 0 <= j < |rs| && rs[i].report.name == rs[j].report.name ==>
      rs[i].report.isp == rs[j].report.isp && rs[i].report.area == rs[j].report.area
  }

  /**
   When names keep their masks: NULL comes back exactly when every group whose mask covers both
   users was last reported with more load than capacity, and any group returned covers both.
   */
  lemma {:induction false} StableFetchExactly(rs: seq<Timed>, q: Quad)
    requires Stable(rs) && LoadsNonNegative(rs)
    ensures WellFiled(AfterReports(rs))
    ensures var r := FetchGroup(AfterReports(rs), q);
            && (r == None <==>
                forall n :: LastReport(rs, n).Some? && Covers(LastReport(rs, n).value.report.isp, Join(q.isp1, q.isp2)) ==>
                  LastReport(rs, n).value.report.load > LastReport(rs, n).value.report.loadMax)
            && (r.Some? ==> LastReport(rs, r.value).Some? &&
                            Covers(LastReport(rs, r.value).value.report.isp, Join(q.isp1, q.isp2)))
  {
    hide FetchGroup, Covers, Join, AfterReports, LastReport;
    FetchAsReported(rs, q);
    forall i | 0 <= i < |rs|
      ensures LastReport(rs, rs[i].report.name).Some?
      ensures LastReport(rs, rs[i].report.name).value.report.isp == rs[i].report.isp
    {
      LastReportIsOne(rs, rs[i].report.name);
    }
    forall n | LastReport(rs, n).Some? && Covers(LastReport(rs, n).value.report.isp, Join(q.isp1, q.isp2)) && !Overloaded(rs, n)
      ensures exists i :: 0 <= i < |rs| && CanServe(rs, q, i)
    {
      LastReportIsOne(rs, n);
      var i :| 0 <= i < |rs| && rs[i].report.name == n;
      assert CanServe(rs, q, i);
    }
    if i :| 0 <= i < |rs| && CanServe(rs, q, i) {
      assert LastReport(rs, rs[i].report.name).Some?;
    }
  }
}
