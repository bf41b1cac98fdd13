/**
 mcenter itself: shared GrpInfo objects, the lists that index them under printed keys, and the
 pre-allocation handler. Proved against the values of Groups.
 */
module MCenter {
  import opened Common
  import opened Keys
  import opened Masks
  import opened Groups

  // ---------------------------------------------------------------- messages

  const RES_OK := 0
  const RES_FAIL := 1
  const RES_INVALID_ISP := 3
  const RES_NO_GROUP := 4

  datatype PreAllocReq = PreAllocReq(quad: Quad, num: Int32)

  datatype PreAllocRes = PreAllocRes(res: int, quad: Quad, num: Int32, ip: string, port: Int16)

  /** IspInfo: the single carriers, four composites, and the mask of all. */
  function ValidIsps(): set<bv32> {
    {0x0001, 0x0002, 0x0004, 0x0008, 0x0010, 0x0003, 0x0005, 0x0006, 0x0007, 0xffff}
  }

  ghost predicate Granted(c: Center, req: PreAllocReq)
    requires WellFiled(c)
  {
    req.quad.isp1 in ValidIsps() && req.quad.isp2 in ValidIsps() && FetchGroup(c, req.quad).Some?
  }

  /** The reply, which always carries the request's own four ints. */
  ghost function Reply(c: Center, req: PreAllocReq): PreAllocRes
    requires WellFiled(c)
  {
    if Granted(c, req) then
      var g := c.groups[FetchGroup(c, req.quad).value];
      PreAllocRes(RES_OK, req.quad, req.num, g.ip, g.port)
    else if req.quad.isp1 in ValidIsps() && req.quad.isp2 in ValidIsps() then
      PreAllocRes(RES_NO_GROUP, req.quad, 0, "", 0)
    else
      PreAllocRes(RES_INVALID_ISP, req.quad, 0, "", 0)
  }

  /** A granted request is charged to the group chosen. */
  ghost function AfterPreAlloc(c: Center, req: PreAllocReq): Center
    requires WellFiled(c)
  {
    if Granted(c, req) then Charge(c, FetchGroup(c, req.quad).value, req.num) else c
  }

  /**
   A request is granted exactly when both users have valid masks and some group reported under a
   mask covering both is usable; the failures are told apart, grant nothing and charge nothing.
   */
  lemma GrantedExactly(c: Center, req: PreAllocReq)
    requires WellFiled(c)
    ensures var res, valid := Reply(c, req), req.quad.isp1 in ValidIsps() && req.quad.isp2 in ValidIsps();
            && res.quad == req.quad
            && (res.res == RES_OK <==> valid && exists f :: Serves(c, req.quad, f))
            && (res.res == RES_INVALID_ISP <==> !valid)
            && (res.res == RES_NO_GROUP <==> valid && forall f :: !Serves(c, req.quad, f))
            && (res.res != RES_OK ==> res.num == 0 && AfterPreAlloc(c, req) == c)
  {
    hide FetchGroup, Serves, ValidIsps;
    FetchGroupExactly(c, req.quad);
  }

  /** A grant of num units names a group that can serve the request, and that group alone is charged, by num. */
  lemma GrantChargesNamed(c: Center, req: PreAllocReq) returns (f: Filing)
    requires WellFiled(c) && Reply(c, req).res == RES_OK
    ensures Serves(c, req.quad, f) && f.name in c.groups
    ensures var g, res := c.groups[f.name], Reply(c, req);
            && res.ip == g.ip && res.port == g.port && res.num == req.num
            && AfterPreAlloc(c, req) == c.(groups := c.groups[f.name := g.(charged := g.charged + req.num)])
  {
    hide FetchGroup, Covers, Join, Usable, ValidIsps;
    FetchGroupExactly(c, req.quad);
    f :| Serves(c, req.quad, f) && f.name == FetchGroup(c, req.quad).value;
  }

  function AfterReport(c: Center, r: Report, time: int): Center {
    if r.isp in ValidIsps() then AddReport(c, r, time) else c
  }

  // ---------------------------------------------------------------- objects

  class GrpInfo {
    const name: string
    const ip: string
    const port: Int16
    var isp: bv32
    var area: Int32
    var load: Int32
    var loadMax: Int32
    var accessUrl: string
    var charged: int
    var lastUpdate: int

    constructor (name: string, ip: string, port: Int16)
      ensures this.name == name && Value() == Grp(ip, port, 0, 0, 0, 0, "", 0, 0)
    {
      this.name, this.ip, this.port := name, ip, port;
      isp, area, load, loadMax, accessUrl, charged, lastUpdate := 0, 0, 0, 0, "", 0, 0;
    }

    function Value(): Grp
      reads this
    {
      Grp(ip, port, isp, area, load, loadMax, accessUrl, charged, lastUpdate)
    }
  }

  function NamesOf(infos: seq<GrpInfo>): seq<string> {
    if infos == [] then [] else NamesOf(infos[..|infos| - 1]) + [infos[|infos| - 1].name]
  }

  /** Once a good group heads the choice, no later group displaces it. */
  lemma {:induction false} GoodSticks(gs: map<string, Grp>, list: seq<string>, i: nat)
    requires i <= |list| && Known(gs, list)
    requires FreeGroup(gs, list[..i]).Some? && Good(gs[FreeGroup(gs, list[..i]).value])
    ensures FreeGroup(gs, list) == FreeGroup(gs, list[..i])
  {
    hide Good, ScoreOf;
    if i == |list| {
      assert list[..i] == list;
    } else {
      assert list[..|list| - 1][..i] == list[..i];
      GoodSticks(gs, list[..|list| - 1], i);
    }
  }

  lemma {:induction false} NamesAt(infos: seq<GrpInfo>, i: nat)
    requires i < |infos|
    ensures |NamesOf(infos)| == |infos|
    ensures NamesOf(infos)[i] == infos[i].name
    ensures NamesOf(infos)[..i] == NamesOf(infos[..i]) && NamesOf(infos)[..i + 1] == NamesOf(infos[..i + 1])
  {
    var front := infos[..|infos| - 1];
    if i < |front| {
      NamesAt(front, i);
      assert front[..i] == infos[..i] && front[..i + 1] == infos[..i + 1];
      assert NamesOf(infos)[..i] == NamesOf(front)[..i];
      assert NamesOf(infos)[..i + 1] == NamesOf(front)[..i + 1];
    } else {
      if front != [] {
        NamesAt(front, |front| - 1);
      }
      assert infos[..i + 1] == infos;
    }
  }

  lemma NamesSnoc(infos: seq<GrpInfo>, info: GrpInfo)
    ensures NamesOf(infos + [info]) == NamesOf(infos) + [info.name]
  {
    assert (infos + [info])[..|infos|] == infos;
  }

  lemma NamesOfNothing()
    ensures NamesOf([]) == []
  {
  }

  /** The objects of a list are the groups of these names. */
  ghost predicate Stands(gs: map<string, Grp>, infos: seq<GrpInfo>)
    reads infos
  {
    forall i :: 0 <= i < |infos| ==> infos[i].name in gs && gs[infos[i].name] == infos[i].Value()
  }

  lemma {:induction false} StandsKnown(gs: map<string, Grp>, infos: seq<GrpInfo>)
    requires Stands(gs, infos)
    ensures |NamesOf(infos)| == |infos| && Known(gs, NamesOf(infos))
  {
    if infos != [] {
      StandsKnown(gs, infos[..|infos| - 1]);
    }
  }

  class GrpList {
    var groups: seq<GrpInfo>

    constructor ()
      ensures groups == []
    {
      groups := [];
    }

    method AddGroup(group: GrpInfo)
      modifies this
      ensures groups == old(groups) + [group]
    {
      groups := groups + [group];
    }

    /** The list's free group, or null. */
    method GetFreeGroup(ghost gs: map<string, Grp>) returns (r: GrpInfo?)
      requires Stands(gs, groups)
      requires forall i :: 0 <= i < |groups| ==> LoadsDefined(groups[i].load, groups[i].loadMax)
      ensures Known(gs, NamesOf(groups))
      ensures r == null <==> FreeGroup(gs, NamesOf(groups)) == None
      ensures r != null ==> r in groups && FreeGroup(gs, NamesOf(groups)) == Some(r.name)
    {
      hide Good, FreeGroup, NamesOf;
      ghost var names := NamesOf(groups);
      StandsKnown(gs, groups);
      NothingFree(gs);
      var info: GrpInfo? := null;
      var score := 0;
      var i := 0;
      while i < |groups|
        invariant 0 <= i <= |groups|
        invariant info == null ==> FreeGroup(gs, names[..i]) == None && score == 0
        invariant info != null ==>
                    && info in groups && FreeGroup(gs, names[..i]) == Some(info.name)
                    && score == ScoreOf(info.Value()) && !Good(info.Value())
      {
        var next := groups[i];
        NamesAt(groups, i);
        FreeGroupNext(gs, names, i);
        IsGood(next.Value());
        var nextScore := if next.load == 0 then 100 else TruncDiv(next.loadMax, next.load);
        if nextScore >= 3 || next.loadMax - next.load > 10000 * 10 {
          GoodSticks(gs, names, i + 1);
          return next;
        }
        if nextScore > score {
          info := next;
          score := nextScore;
        }
        i := i + 1;
      }
      assert names[..|groups|] == names;
      return info;
    }
  }

  lemma FreeGroupNext(gs: map<string, Grp>, list: seq<string>, i: nat)
    requires i < |list| && Known(gs, list)
    ensures FreeGroup(gs, list[..i + 1]) == Better(gs, FreeGroup(gs, list[..i]), list[i])
  {
    assert list[..i + 1][..i] == list[..i];
  }

  lemma NothingFree(gs: map<string, Grp>)
    ensures FreeGroup(gs, []) == None
  {
  }

  lemma IsGood(g: Grp)
    ensures Good(g) <==> ScoreOf(g) >= 3 || g.loadMax - g.load > 100000
  {
  }

  // ---------------------------------------------------------------- the index

  /** The lists by key, as values; a missing key has an empty list. */
  type Lists = map<string, seq<GrpInfo>>

  function Under(lists: Lists, key: string): seq<GrpInfo> {
    if key in lists then lists[key] else []
  }

  function Appended(lists: Lists, key: string, info: GrpInfo): Lists {
    lists[key := Under(lists, key) + [info]]
  }

  /** Every object in some list. */
  function InfosOf(lists: Lists): set<GrpInfo> {
    set k, x | k in lists && x in lists[k] :: x
  }

  /** Under every printed key stand the groups filed there, in the order of the filings. */
  ghost predicate Filed(lists: Lists, fs: seq<Filing>) {
    && (forall i :: NamesOf(Under(lists, IspKey(i))) == IspList(fs, i))
    && (forall i, a :: NamesOf(Under(lists, IspAreaKey(i, a))) == AreaList(fs, i, a))
  }

  lemma AppendedNames(lists: Lists, key: string, info: GrpInfo)
    ensures forall k :: NamesOf(Under(Appended(lists, key, info), k)) ==
                        NamesOf(Under(lists, k)) + if k == key then [info.name] else []
  {
    hide NamesOf;
    NamesSnoc(Under(lists, key), info);
    forall k
      ensures NamesOf(Under(Appended(lists, key, info), k)) ==
              NamesOf(Under(lists, k)) + if k == key then [info.name] else []
    {
      assert NamesOf(Under(lists, k)) + [] == NamesOf(Under(lists, k));
    }
  }

  lemma AppendedInfos(lists: Lists, key: string, info: GrpInfo)
    ensures InfosOf(Appended(lists, key, info)) == InfosOf(lists) + {info}
  {
    var next := Appended(lists, key, info);
    forall x | x in InfosOf(next) ensures x in InfosOf(lists) + {info} {
      var k :| k in next && x in next[k];
      if x != info {
        assert k in lists && x in lists[k];
      }
    }
    forall x | x in InfosOf(lists) ensures x in InfosOf(next) {
      var k :| k in lists && x in lists[k];
      assert k in next && x in next[k];
    }
    assert key in next && info in next[key];
  }

  lemma UnderInfos(lists: Lists, key: string)
    ensures forall x :: x in Under(lists, key) ==> x in InfosOf(lists)
  {
  }

  /** Filing a group under its two keys keeps the index in step with the filings. */
  lemma FiledNext(lists: Lists, fs: seq<Filing>, f: Filing, info: GrpInfo)
    requires Filed(lists, fs) && f.name == info.name
    ensures Filed(Appended(Appended(lists, IspKey(f.isp), info), IspAreaKey(f.isp, f.area), info), fs + [f])
  {
    hide IspKey, IspAreaKey, Under, Appended, NamesOf;
    var once := Appended(lists, IspKey(f.isp), info);
    AppendedNames(lists, IspKey(f.isp), info);
    AppendedNames(once, IspAreaKey(f.isp, f.area), info);
    var next := Appended(once, IspAreaKey(f.isp, f.area), info);
    assert (fs + [f])[..|fs|] == fs;
    forall i
      ensures NamesOf(Under(next, IspKey(i))) == IspList(fs + [f], i)
    {
      IndexKeysApart(i, f.isp, f.area);
      if IspKey(i) == IspKey(f.isp) {
        IspKeyInjective(i, f.isp);
      }
    }
    forall i, a
      ensures NamesOf(Under(next, IspAreaKey(i, a))) == AreaList(fs + [f], i, a)
    {
      IndexKeysApart(f.isp, i, a);
      if IspAreaKey(i, a) == IspAreaKey(f.isp, f.area) {
        IspAreaKeyInjective(i, a, f.isp, f.area);
      }
    }
  }

  class GrpIspMap {
    var lists: map<string, GrpList>

    /** Two keys never share a list. */
    ghost predicate Valid()
      reads this
    {
      forall j, k :: j in lists && k in lists && lists[j] == lists[k] ==> j == k
    }

    ghost function Contents(): Lists
      reads this, lists.Values
    {
      map k | k in lists :: lists[k].groups
    }

    constructor ()
      ensures Valid() && lists == map[]
    {
      lists := map[];
    }

    method AddUnder(key: string, info: GrpInfo)
      requires Valid()
      modifies this, lists.Values
      ensures Valid() && fresh(lists.Values - old(lists.Values))
      ensures Contents() == Appended(old(Contents()), key, info)
    {
      if key in lists {
        lists[key].AddGroup(info);
      } else {
        var list := new GrpList();
        list.AddGroup(info);
        lists := lists[key := list];
      }
    }

    method Add(isp: bv32, area: Int32, info: GrpInfo)
      requires Valid()
      modifies this, lists.Values
      ensures Valid() && fresh(lists.Values - old(lists.Values))
      ensures Contents() == Appended(Appended(old(Contents()), IspKey(isp), info), IspAreaKey(isp, area), info)
    {
      hide IspKey, IspAreaKey, Appended;
      AddUnder(IspKey(isp), info);
      AddUnder(IspAreaKey(isp, area), info);
    }

    /** The objects the lists hold are the groups of c. */
    ghost predicate Holds(c: Center)
      reads this, lists.Values, InfosOf(Contents())
    {
      forall x :: x in InfosOf(Contents()) ==>
        x.name in c.groups && c.groups[x.name] == x.Value() && LoadsDefined(x.load, x.loadMax)
    }

    /** The free group of one list, if there is such a list. */
    method FreeUnder(key: string, ghost c: Center) returns (r: GrpInfo?)
      requires Holds(c)
      ensures Known(c.groups, NamesOf(Under(Contents(), key)))
      ensures r == null <==> FreeGroup(c.groups, NamesOf(Under(Contents(), key))) == None
      ensures r != null ==> FreeGroup(c.groups, NamesOf(Under(Contents(), key))) == Some(r.name)
      ensures r != null ==> r in InfosOf(Contents())
    {
      hide FreeGroup, LoadsDefined, NamesOf;
      UnderInfos(Contents(), key);
      NothingFree(c.groups);
      NamesOfNothing();
      if key in lists {
        r := lists[key].GetFreeGroup(c.groups);
      } else {
        r := null;
      }
    }

    /** First the isp:area list, then the isp list. */
    method FindGroup(isp: bv32, area: Int32, ghost c: Center) returns (r: GrpInfo?)
      requires WellFiled(c) && Filed(Contents(), c.filings) && Holds(c)
      ensures r == null <==> Groups.FindGroup(c, isp, area) == None
      ensures r != null ==> Groups.FindGroup(c, isp, area) == Some(r.name) && r in InfosOf(Contents())
    {
      hide IspKey, IspAreaKey, FreeGroup, NamesOf, Under, IspList, AreaList;
      r := FreeUnder(IspAreaKey(isp, area), c);
      assert NamesOf(Under(Contents(), IspAreaKey(isp, area))) == AreaList(c.filings, isp, area);
      if r != null {
        return;
      }
      r := FreeUnder(IspKey(isp), c);
      assert NamesOf(Under(Contents(), IspKey(isp))) == IspList(c.filings, isp);
    }
  }

  // ---------------------------------------------------------------- the group manager

  /** The objects in the lists are the very objects of the name map. */
  ghost predicate Shared(groups: map<string, GrpInfo>, lists: Lists) {
    && (forall n :: n in groups ==> groups[n].name == n)
    && (forall x :: x in InfosOf(lists) ==> x.name in groups && groups[x.name] == x)
  }

  lemma OwnNames(groups: map<string, GrpInfo>, lists: Lists)
    requires Shared(groups, lists)
    ensures forall n :: n in groups ==> groups[n].name == n
  {
  }

  lemma WellFiledNext(c: Center, r: Report, time: int)
    requires WellFiled(c)
    ensures WellFiled(AddReport(c, r, time))
  {
  }

  lemma SharedNext(groups: map<string, GrpInfo>, lists: Lists, info: GrpInfo, key1: string, key2: string)
    requires Shared(groups, lists) && (info.name in groups ==> groups[info.name] == info)
    ensures Shared(groups[info.name := info], Appended(Appended(lists, key1, info), key2, info))
  {
    hide InfosOf, Appended;
    AppendedInfos(lists, key1, info);
    AppendedInfos(Appended(lists, key1, info), key2, info);
  }

  class GrpMgr {
    var mapGroups: map<string, GrpInfo>
    var setIsps: set<bv32>
    const ispMap: GrpIspMap
    /** Every filing made, which the index is a function of. */
    ghost var filings: seq<Filing>

    ghost function Values(): map<string, Grp>
      reads this`mapGroups, mapGroups.Values
    {
      map n | n in mapGroups :: mapGroups[n].Value()
    }

    ghost function Contents(): Center
      reads this, mapGroups.Values
    {
      Center(Values(), filings)
    }

    ghost predicate LoadsOk()
      reads this`mapGroups, mapGroups.Values
    {
      forall n :: n in mapGroups ==> LoadsDefined(mapGroups[n].load, mapGroups[n].loadMax)
    }

    ghost predicate Valid()
      reads this, ispMap, ispMap.lists.Values, mapGroups.Values
    {
      && ispMap.Valid() && Shared(mapGroups, ispMap.Contents()) && LoadsOk()
      && WellFiled(Contents()) && Filed(ispMap.Contents(), filings) && setIsps == Isps(filings)
    }

    constructor ()
      ensures Valid() && Contents() == EmptyCenter && fresh(ispMap)
    {
      mapGroups, setIsps, filings := map[], {}, [];
      ispMap := new GrpIspMap();
    }

    /** A known group takes the new loads; an unknown one is made. */
    method UpdateGroup(r: Report, time: int) returns (info: GrpInfo)
      requires (forall n :: n in mapGroups ==> mapGroups[n].name == n) && LoadsOk() && LoadsDefined(r.load, r.loadMax)
      modifies this`mapGroups, mapGroups.Values
      ensures mapGroups == old(mapGroups)[r.name := info] && info.name == r.name
      ensures if r.name in old(mapGroups) then info == old(mapGroups[r.name]) else fresh(info)
      ensures Values() == AddReport(old(Contents()), r, time).groups
      ensures LoadsOk()
    {
      hide LoadsDefined, WellFiled, Filed;
      if r.name in mapGroups {
        info := mapGroups[r.name];
        info.load := r.load;
        info.loadMax := r.loadMax;
        info.accessUrl := r.accessUrl;
        info.lastUpdate := time;
      } else {
        info := new GrpInfo(r.name, r.ip, r.port);
        info.isp := r.isp;
        info.area := r.area;
        info.load := r.load;
        info.loadMax := r.loadMax;
        info.accessUrl := r.accessUrl;
        info.lastUpdate := time;
        mapGroups := mapGroups[r.name := info];
      }
      assert Values() == old(Values())[r.name := info.Value()];
    }

    method Add(r: Report, time: int)
      requires Valid() && LoadsDefined(r.load, r.loadMax)
      modifies this, ispMap, ispMap.lists.Values, mapGroups.Values
      ensures Valid() && Contents() == AddReport(old(Contents()), r, time)
    {
      hide LoadsDefined, LoadsOk, Filed, Isps, InfosOf, Shared, WellFiled, Values;
      assert forall n :: n in mapGroups ==> mapGroups[n].name == n by {
        OwnNames(mapGroups, ispMap.Contents());
      }
      ghost var next := AddReport(Contents(), r, time);
      WellFiledNext(Contents(), r, time);
      ghost var groups := mapGroups;
      var info := UpdateGroup(r, time);
      FileUnder(r.isp, r.area, info, groups);
      assert Contents() == next;
    }

    /** Files a group, once more, under the mask and area of a report. */
    method FileUnder(isp: bv32, area: Int32, info: GrpInfo, ghost groups: map<string, GrpInfo>)
      requires ispMap.Valid() && Filed(ispMap.Contents(), filings) && setIsps == Isps(filings)
      requires Shared(groups, ispMap.Contents()) && mapGroups == groups[info.name := info]
      requires info.name in groups ==> groups[info.name] == info
      modifies this`filings, this`setIsps, ispMap, ispMap.lists.Values
      ensures ispMap.Valid() && Filed(ispMap.Contents(), filings) && setIsps == Isps(filings)
      ensures Shared(mapGroups, ispMap.Contents())
      ensures filings == old(filings) + [Filing(info.name, isp, area)]
    {
      hide Filed, Isps, IspKey, IspAreaKey, InfosOf, Appended, Shared;
      ghost var f, lists := Filing(info.name, isp, area), ispMap.Contents();
      FiledNext(lists, filings, f, info);
      SharedNext(groups, lists, info, IspKey(isp), IspAreaKey(isp, area));
      IspsNext(filings, f);
      ispMap.Add(isp, area, info);
      filings := filings + [f];
      setIsps := setIsps + {isp};
    }

    /** findDiffIsp, and the branch of fetchGroup for users with the same ISP. */
    method FindExact(q: Quad) returns (info: GrpInfo?)
      requires Valid()
      ensures var isps := Join(q.isp1, q.isp2);
              Answers(info, if q.isp1 == q.isp2 then SameIsp(Contents(), q.isp1, q.area1, q.area2)
                            else DiffIsp(Contents(), isps, q.area1, q.area2))
    {
      hide Groups.FindGroup, LoadsDefined, LoadsOk, Filed, Isps, InfosOf, Shared, WellFiled, Values;
      if q.isp1 == q.isp2 {
        if q.area1 == q.area2 {
          info := Find(q.isp1, q.area1);
        } else {
          info := Find(q.isp1, q.area1);
          if info != null {
            return;
          }
          info := Find(q.isp1, q.area2);
        }
      } else {
        var ispAll := Join(q.isp1, q.isp2);
        info := Find(ispAll, q.area1);
        if info != null {
          return;
        }
        info := Find(ispAll, q.area2);
      }
    }

    /** A search result as an object: null, or the object of the name found. */
    ghost predicate Answers(info: GrpInfo?, r: Option<string>)
      reads this
    {
      if info == null then r == None else r == Some(info.name) && info.name in mapGroups && mapGroups[info.name] == info
    }

    method Find(isp: bv32, area: Int32) returns (info: GrpInfo?)
      requires Valid()
      ensures Answers(info, Groups.FindGroup(Contents(), isp, area))
    {
      hide Groups.FindGroup, LoadsDefined, Filed, InfosOf;
      info := ispMap.FindGroup(isp, area, Contents());
    }

    /** Every known mask that covers both, in ascending order. */
    method FindFallbackIsp(ispAll: bv32, area1: Int32, area2: Int32) returns (info: GrpInfo?)
      requires Valid()
      ensures Answers(info, Fallback(Contents(), Isps(filings), ispAll, area1, area2))
    {
      hide Groups.FindGroup, Covers, LeastIsp, FirstIsp, Fallback, Filed, InfosOf, LoadsDefined, LoadsOk, Isps, Shared, WellFiled, Values;
      var rest := setIsps;
      ghost var c := Contents();
      assert Fallback(c, {}, ispAll, area1, area2) == None by {
        FallbackEnds(c, ispAll, area1, area2);
      }
      while rest != {}
        invariant Fallback(c, Isps(filings), ispAll, area1, area2) == Fallback(c, rest, ispAll, area1, area2)
        decreases rest
      {
        FallbackStep(c, rest, ispAll, area1, area2);
        var isp := NextIsp(rest);
        if Covers(isp, ispAll) {
          info := Find(isp, area1);
          if info != null {
            return;
          }
          info := Find(isp, area2);
          if info != null {
            return;
          }
        }
        rest := rest - {isp};
      }
      return null;
    }

    /** GrpInfo::addAllocated on one of the groups. */
    method AddAllocated(grp: GrpInfo, num: Int32)
      requires Valid() && grp.name in mapGroups && mapGroups[grp.name] == grp
      modifies grp
      ensures Valid() && Contents() == Charge(old(Contents()), grp.name, num)
    {
      hide LoadsDefined, Filed, Isps, InfosOf;
      grp.charged := grp.charged + num;
      assert Values() == old(Values())[grp.name := grp.Value()];
    }

    method FetchGroup(q: Quad) returns (info: GrpInfo?)
      requires Valid()
      ensures Answers(info, Groups.FetchGroup(Contents(), q))
    {
      hide SameIsp, DiffIsp, Fallback;
      info := FindExact(q);
      if info != null {
        return;
      }
      info := FindFallbackIsp(Join(q.isp1, q.isp2), q.area1, q.area2);
    }
  }

  lemma FallbackEnds(c: Center, isps: bv32, area1: Int32, area2: Int32)
    requires WellFiled(c)
    ensures Fallback(c, {}, isps, area1, area2) == None
  {
  }

  lemma IspsNext(fs: seq<Filing>, f: Filing)
    ensures Isps(fs + [f]) == Isps(fs) + {f.isp}
  {
    assert forall i :: 0 <= i < |fs| ==> (fs + [f])[i] == fs[i];
    assert (fs + [f])[|fs|] == f;
  }

  // ---------------------------------------------------------------- the handler

  class MsgHandler {
    const grpMgr: GrpMgr

    ghost predicate Valid()
      reads grpMgr, grpMgr.ispMap, grpMgr.ispMap.lists.Values, grpMgr.mapGroups.Values
    {
      grpMgr.Valid()
    }

    constructor ()
      ensures Valid() && grpMgr.Contents() == EmptyCenter && fresh(grpMgr)
    {
      grpMgr := new GrpMgr();
    }

    /** Reports with an unknown ISP mask are dropped. */
    method OnMCReportReq(r: Report, time: int)
      requires Valid() && (r.isp in ValidIsps() ==> LoadsDefined(r.load, r.loadMax))
      modifies grpMgr, grpMgr.ispMap, grpMgr.ispMap.lists.Values, grpMgr.mapGroups.Values
      ensures Valid() && grpMgr.Contents() == AfterReport(old(grpMgr.Contents()), r, time)
    {
      if r.isp !in ValidIsps() {
        return;
      }
      grpMgr.Add(r, time);
    }

    /** One reply for each request, and a charge for each grant. */
    method OnMCPreAllocReq(req: PreAllocReq) returns (res: PreAllocRes)
      requires Valid()
      modifies grpMgr.mapGroups.Values
      ensures Valid()
      ensures res == Reply(old(grpMgr.Contents()), req)
      ensures grpMgr.Contents() == AfterPreAlloc(old(grpMgr.Contents()), req)
    {
      hide Groups.FetchGroup, LoadsDefined, Filed, Isps, InfosOf, Charge;
      if req.quad.isp1 !in ValidIsps() || req.quad.isp2 !in ValidIsps() {
        return PreAllocRes(RES_INVALID_ISP, req.quad, 0, "", 0);
      }
      var grp := grpMgr.FetchGroup(req.quad);
      if grp == null {
        return PreAllocRes(RES_NO_GROUP, req.quad, 0, "", 0);
      }
      res := PreAllocRes(RES_OK, req.quad, req.num, grp.ip, grp.port);
      grpMgr.AddAllocated(grp, req.num);
    }
  }
}
