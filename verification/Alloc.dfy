/**
 The pre-allocation protocol: one mcenter and any number of mcproxies, each connected to it by two
 FIFO links that stay up, run in every interleaving.
 */
module Alloc {
  import opened Common
  import opened Keys
  import opened Masks
  import opened Groups
  import opened MCenter
  import opened Proxy

  /** A proxy, the requests on their way from it, the replies on their way to it, and its ledger. */
  datatype Node = Node(state: State, requests: seq<PreAllocReq>, replies: seq<PreAllocRes>,
                       answers: multiset<Answer>, hits: nat, expired: int)

  datatype System = System(center: Center, nodes: map<int, Node>)

  datatype Event =
    | GroupReport(report: Groups.Report, time: int)
    | Ask(p: int, quad: Quad, link: int)
    | Serve(p: int)
    | Take(p: int, now: int)
    | Tick(p: int, now: int)

  const IdleNode := Node(State(map[], map[]), [], [], multiset{}, 0, 0)

  function Idle(ps: set<int>): System {
    System(EmptyCenter, map p | p in ps :: IdleNode)
  }

  // ---------------------------------------------------------------- steps

  predicate Hit(n: Node, q: Quad) {
    ItemsAt(n.state.cache, QuadKey(q)) != []
  }

  function AskNode(n: Node, q: Quad, link: int): Node {
    var e := OnAllocReq(n.state, q, link);
    n.(state := e.state, requests := n.requests + e.requests, answers := n.answers + e.answers,
       hits := n.hits + if Hit(n, q) then 1 else 0)
  }

  ghost function ServeNode(c: Center, n: Node): Node
    requires WellFiled(c) && n.requests != []
  {
    n.(requests := n.requests[1..], replies := n.replies + [Reply(c, n.requests[0])])
  }

  function TakeNode(n: Node, now: int): Node
    requires n.replies != []
  {
    var e := OnPreAllocRes(n.state, n.replies[0], now);
    n.(state := e.state, replies := n.replies[1..], answers := n.answers + e.answers)
  }

  ghost function TickNode(n: Node, now: int): Node {
    n.(state := OnTimer(n.state, now),
       expired := n.expired + MapSum(map k | k in n.state.cache :: SweptUnits(n.state.cache[k], now)))
  }

  ghost function Apply(s: System, e: Event): (t: System)
    requires WellFiled(s.center)
    ensures WellFiled(t.center)
  {
    match e
    case GroupReport(r, time) => s.(center := AfterReport(s.center, r, time))
    case Ask(p, q, link) => if p in s.nodes then s.(nodes := s.nodes[p := AskNode(s.nodes[p], q, link)]) else s
    case Serve(p) =>
      if p in s.nodes && s.nodes[p].requests != [] then
        System(AfterPreAlloc(s.center, s.nodes[p].requests[0]), s.nodes[p := ServeNode(s.center, s.nodes[p])])
      else s
    case Take(p, now) =>
      if p in s.nodes && s.nodes[p].replies != [] then s.(nodes := s.nodes[p := TakeNode(s.nodes[p], now)]) else s
    case Tick(p, now) => if p in s.nodes then s.(nodes := s.nodes[p := TickNode(s.nodes[p], now)]) else s
  }

  ghost function Run(ps: set<int>, es: seq<Event>): (s: System)
    ensures WellFiled(s.center)
  {
    if es == [] then Idle(ps) else Apply(Run(ps, es[..|es| - 1]), es[|es| - 1])
  }

  // ---------------------------------------------------------------- units

  /** Units in granting replies that have not arrived yet. */
  function InFlight(replies: seq<PreAllocRes>): int {
    if replies == [] then 0
    else InFlight(replies[..|replies| - 1]) +
         if replies[|replies| - 1].res == RES_OK then replies[|replies| - 1].num else 0
  }

  ghost function CacheUnits(cache: Caches): int {
    MapSum(map k | k in cache :: Units(cache[k]))
  }

  ghost function NodeUnits(n: Node): int {
    InFlight(n.replies) + CacheUnits(n.state.cache) + n.hits + n.expired
  }

  /** All units ever charged to groups. */
  ghost function Charged(c: Center): int {
    MapSum(map g | g in c.groups :: c.groups[g].charged)
  }

  ghost function AllUnits(s: System): int {
    MapSum(map p | p in s.nodes :: NodeUnits(s.nodes[p]))
  }

  /** Requests ask for, and granting replies carry, a fixed positive number. */
  predicate NodeOk(n: Node) {
    && (forall k :: k in n.state.cache ==> Positive(n.state.cache[k]))
    && (forall i :: 0 <= i < |n.requests| ==> n.requests[i].num == CACHE_SIZE)
    && (forall i :: 0 <= i < |n.replies| && n.replies[i].res == RES_OK ==> n.replies[i].num == CACHE_SIZE)
    && n.expired >= 0
  }

  lemma {:induction false} InFlightConcat(a: seq<PreAllocRes>, b: seq<PreAllocRes>)
    ensures InFlight(a + b) == InFlight(a) + InFlight(b)
  {
    if b == [] {
      assert a + b == a;
    } else {
      assert (a + b)[..|a + b| - 1] == a + b[..|b| - 1];
      InFlightConcat(a, b[..|b| - 1]);
    }
  }

  lemma InFlightOne(r: PreAllocRes)
    ensures InFlight([r]) == if r.res == RES_OK then r.num else 0
  {
    assert [r][..0] == [];
  }

  lemma UnitsOfNothing()
    ensures Units([]) == 0
  {
  }

  lemma CacheUpdated(cache: Caches, key: string, items: seq<Item>)
    ensures CacheUnits(cache[key := items]) == CacheUnits(cache) - Units(ItemsAt(cache, key)) + Units(items)
  {
    hide Units;
    UnitsOfNothing();
    var m := map k | k in cache :: Units(cache[k]);
    var next := cache[key := items];
    assert (map k | k in next :: Units(next[k])) == m[key := Units(items)];
    MapSumUpdate(m, key, Units(items));
  }

  lemma AskKeepsUnits(n: Node, q: Quad, link: int)
    requires NodeOk(n)
    ensures NodeOk(AskNode(n, q, link)) && NodeUnits(AskNode(n, q, link)) == NodeUnits(n)
  {
    hide QuadKey, AfterGet, Units, CacheUnits;
    var key := QuadKey(q);
    var items := ItemsAt(n.state.cache, key);
    if items != [] {
      GetTakesOne(items);
      CacheUpdated(n.state.cache, key, AfterGet(items));
    }
  }

  lemma TakeKeepsUnits(n: Node, now: int)
    requires NodeOk(n) && n.replies != []
    ensures NodeOk(TakeNode(n, now)) && NodeUnits(TakeNode(n, now)) == NodeUnits(n)
  {
    hide QuadKey, Units, CacheUnits, InFlight, FanOut;
    var r := n.replies[0];
    var key := QuadKey(r.quad);
    var items := ItemsAt(n.state.cache, key);
    assert n.replies == [r] + n.replies[1..];
    InFlightOne(r);
    InFlightConcat([r], n.replies[1..]);
    if r.res == RES_OK {
      var item := Item(now, r.num, Packet(r));
      assert Positive(items);
      AddGives(items, item);
      CacheUpdated(n.state.cache, key, items + [item]);
    }
  }

  lemma TickKeepsUnits(n: Node, now: int)
    requires NodeOk(n)
    ensures NodeOk(TickNode(n, now)) && NodeUnits(TickNode(n, now)) == NodeUnits(n)
  {
    hide Units, AfterSweep, SweptUnits;
    var cache := n.state.cache;
    var next := OnTimer(n.state, now).cache;
    var before, after := map k | k in cache :: Units(cache[k]), map k | k in next :: Units(next[k]);
    var swept := map k | k in cache :: SweptUnits(cache[k], now);
    forall k | k in cache
      ensures Positive(next[k]) && before[k] == after[k] + swept[k] && swept[k] >= 0
    {
      SweepTakes(cache[k], now);
    }
    MapSumSplit(before, after, swept);
    MapSumNonNegative(swept);
  }

  lemma {:induction false} MapSumSplit<K>(m: map<K, int>, a: map<K, int>, b: map<K, int>)
    requires m.Keys == a.Keys == b.Keys && forall k :: k in m ==> m[k] == a[k] + b[k]
    ensures MapSum(m) == MapSum(a) + MapSum(b)
    decreases |m|
  {
    if m != map[] {
      var k :| k in m;
      MapSumTake(m, k);
      MapSumTake(a, k);
      MapSumTake(b, k);
      MapSumSplit(m - {k}, a - {k}, b - {k});
    }
  }

  lemma ServeChargesUnits(c: Center, n: Node)
    requires WellFiled(c) && NodeOk(n) && n.requests != []
    ensures NodeOk(ServeNode(c, n))
    ensures NodeUnits(ServeNode(c, n)) - NodeUnits(n) == Charged(AfterPreAlloc(c, n.requests[0])) - Charged(c)
  {
    hide Units, CacheUnits, InFlight, FetchGroup;
    var req := n.requests[0];
    var res := Reply(c, req);
    InFlightOne(res);
    InFlightConcat(n.replies, [res]);
    if Granted(c, req) {
      var g := FetchGroup(c, req.quad).value;
      var m := map x | x in c.groups :: c.groups[x].charged;
      var d := Charge(c, g, req.num);
      assert (map x | x in d.groups :: d.groups[x].charged) == m[g := m[g] + req.num];
      MapSumUpdate(m, g, m[g] + req.num);
    }
  }

  lemma ReportChargesNothing(c: Center, r: Groups.Report, time: int)
    ensures Charged(AfterReport(c, r, time)) == Charged(c)
  {
    var m := map x | x in c.groups :: c.groups[x].charged;
    var d := AddReport(c, r, time);
    var v := if r.name in m then m[r.name] else 0;
    assert (map x | x in d.groups :: d.groups[x].charged) == m[r.name := v];
    MapSumUpdate(m, r.name, v);
  }

  lemma NodeChanged(s: System, p: int, n: Node)
    requires p in s.nodes
    ensures AllUnits(s.(nodes := s.nodes[p := n])) == AllUnits(s) + NodeUnits(n) - NodeUnits(s.nodes[p])
  {
    hide NodeUnits;
    var m := map x | x in s.nodes :: NodeUnits(s.nodes[x]);
    var t := s.nodes[p := n];
    assert (map x | x in t :: NodeUnits(t[x])) == m[p := NodeUnits(n)];
    MapSumUpdate(m, p, NodeUnits(n));
  }

  predicate NodesOk(s: System) {
    forall p :: p in s.nodes ==> NodeOk(s.nodes[p])
  }

  lemma StepConserves(s: System, e: Event)
    requires WellFiled(s.center) && NodesOk(s) && Charged(s.center) == AllUnits(s)
    ensures NodesOk(Apply(s, e)) && Charged(Apply(s, e).center) == AllUnits(Apply(s, e))
  {
    hide NodeOk, NodeUnits, AllUnits, Charged, AskNode, TakeNode, TickNode, ServeNode, AfterPreAlloc, AfterReport;
    match e
    case GroupReport(r, time) =>
      ReportChargesNothing(s.center, r, time);
      SameNodes(s, Apply(s, e));
    case Ask(p, q, link) =>
      if p in s.nodes {
        AskKeepsUnits(s.nodes[p], q, link);
        NodeChanged(s, p, AskNode(s.nodes[p], q, link));
      }
    case Serve(p) =>
      if p in s.nodes && s.nodes[p].requests != [] {
        var n := ServeNode(s.center, s.nodes[p]);
        ServeChargesUnits(s.center, s.nodes[p]);
        NodeChanged(s, p, n);
        SameNodes(s.(nodes := s.nodes[p := n]), Apply(s, e));
      }
    case Take(p, now) =>
      if p in s.nodes && s.nodes[p].replies != [] {
        TakeKeepsUnits(s.nodes[p], now);
        NodeChanged(s, p, TakeNode(s.nodes[p], now));
      }
    case Tick(p, now) =>
      if p in s.nodes {
        TickKeepsUnits(s.nodes[p], now);
        NodeChanged(s, p, TickNode(s.nodes[p], now));
      }
  }

  lemma SameNodes(s: System, t: System)
    requires s.nodes == t.nodes
    ensures AllUnits(s) == AllUnits(t)
  {
  }

  lemma MapSumZero<K>(m: map<K, int>)
    requires forall k :: k in m ==> m[k] == 0
    ensures MapSum(m) == 0
  {
    MapSumNonNegative(m);
  }

  /**
   Conservation, on every run: the units ever charged to groups are exactly those in granting
   replies in flight, left in caches, served as cache hits, and expired, over all proxies.
   */
  lemma {:induction false} UnitsConserved(ps: set<int>, es: seq<Event>)
    ensures NodesOk(Run(ps, es)) && Charged(Run(ps, es).center) == AllUnits(Run(ps, es))
  {
    hide NodesOk, Charged, AllUnits, Apply;
    if es == [] {
      IdleConserves(ps);
    } else {
      UnitsConserved(ps, es[..|es| - 1]);
      StepConserves(Run(ps, es[..|es| - 1]), es[|es| - 1]);
    }
  }

  lemma NothingCached(cache: Caches)
    requires |cache| == 0
    ensures CacheUnits(cache) == 0
  {
    hide Units;
    assert (map k | k in cache :: Units(cache[k])).Keys == cache.Keys;
  }

  lemma NothingCharged(c: Center)
    requires |c.groups| == 0
    ensures Charged(c) == 0
  {
    assert (map g | g in c.groups :: c.groups[g].charged).Keys == c.groups.Keys;
  }

  lemma NothingHeld(n: Node)
    requires |n.state.cache| == 0 && n.requests == [] && n.replies == [] && n.hits == 0 && n.expired == 0
    ensures NodeUnits(n) == 0 && NodeOk(n)
  {
    hide CacheUnits;
    NothingCached(n.state.cache);
    assert n.state.cache.Keys == {};
  }

  lemma IdleConserves(ps: set<int>)
    ensures NodesOk(Idle(ps)) && Charged(Idle(ps).center) == AllUnits(Idle(ps))
  {
    hide NodeUnits, NodeOk, Charged;
    NothingCharged(EmptyCenter);
    NothingHeld(IdleNode);
    var s := Idle(ps);
    var m := map p | p in s.nodes :: NodeUnits(s.nodes[p]);
    assert forall p :: p in m ==> m[p] == 0;
    MapSumZero(m);
  }

  lemma {:induction false} InFlightNonNegative(replies: seq<PreAllocRes>)
    requires forall i :: 0 <= i < |replies| && replies[i].res == RES_OK ==> replies[i].num >= 0
    ensures InFlight(replies) >= 0
  {
    if replies != [] {
      InFlightNonNegative(replies[..|replies| - 1]);
    }
  }

  lemma HitsWithinNode(n: Node)
    requires NodeOk(n)
    ensures n.hits <= NodeUnits(n)
  {
    hide Units, InFlight;
    InFlightNonNegative(n.replies);
    forall k | k in n.state.cache ensures Units(n.state.cache[k]) >= 0 {
      UnitsPositive(n.state.cache[k]);
    }
    MapSumNonNegative(map k | k in n.state.cache :: Units(n.state.cache[k]));
  }

  /** So the proxies together never serve more cache hits than were charged. */
  lemma HitsNeverExceedCharges(ps: set<int>, es: seq<Event>)
    ensures var s := Run(ps, es);
            MapSum(map p | p in s.nodes :: s.nodes[p].hits as int) <= Charged(s.center)
  {
    hide NodeUnits, Charged, NodeOk, Run;
    var s := Run(ps, es);
    UnitsConserved(ps, es);
    var units, hits := map p | p in s.nodes :: NodeUnits(s.nodes[p]), map p | p in s.nodes :: s.nodes[p].hits as int;
    var others := map p | p in s.nodes :: NodeUnits(s.nodes[p]) - s.nodes[p].hits;
    forall p | p in s.nodes ensures others[p] >= 0 {
      HitsWithinNode(s.nodes[p]);
    }
    MapSumSplit(units, hits, others);
    MapSumNonNegative(others);
  }

  // ---------------------------------------------------------------- what is granted

  /** Some group reported under a mask covering both users' ISPs has this address. */
  ghost predicate Suits(c: Center, q: Quad, ip: string, port: Int16) {
    exists f :: f in c.filings && Covers(f.isp, Join(q.isp1, q.isp2)) && f.name in c.groups &&
                c.groups[f.name].ip == ip && c.groups[f.name].port == port
  }

  /** The packet was granted for the very request its key was printed from. */
  ghost predicate Backed(c: Center, key: string, msg: AllocRes) {
    exists q :: QuadKey(q) == key && Suits(c, q, msg.ip, msg.port) && msg.isp1 == q.isp1 && msg.area1 == q.area1
  }

  ghost predicate CacheBacked(c: Center, cache: Caches) {
    forall k, x :: k in cache && x in cache[k] ==> Backed(c, k, x.msg)
  }

  ghost predicate AnswersBacked(c: Center, answers: multiset<Answer>) {
    forall a :: a in answers && a.msg.res == RES_OK ==> Backed(c, a.key, a.msg)
  }

  ghost predicate RepliesBacked(c: Center, replies: seq<PreAllocRes>) {
    forall r :: r in replies && r.res == RES_OK ==> Suits(c, r.quad, r.ip, r.port)
  }

  ghost predicate NodeBacked(c: Center, n: Node) {
    CacheBacked(c, n.state.cache) && AnswersBacked(c, n.answers) && RepliesBacked(c, n.replies)
  }

  /** The centre only gains filings, and its groups keep their addresses. */
  ghost predicate Grows(c: Center, d: Center) {
    && (forall f :: f in c.filings ==> f in d.filings)
    && (forall n :: n in c.groups ==> n in d.groups && d.groups[n].ip == c.groups[n].ip && d.groups[n].port == c.groups[n].port)
  }

  lemma SuitsStays(c: Center, d: Center, q: Quad, ip: string, port: Int16)
    requires Grows(c, d) && Suits(c, q, ip, port)
    ensures Suits(d, q, ip, port)
  {
    hide Covers, Join;
  }

  lemma BackedStays(c: Center, d: Center, key: string, msg: AllocRes)
    requires Grows(c, d) && Backed(c, key, msg)
    ensures Backed(d, key, msg)
  {
    hide QuadKey, Suits, Grows;
    var q :| QuadKey(q) == key && Suits(c, q, msg.ip, msg.port) && msg.isp1 == q.isp1 && msg.area1 == q.area1;
    SuitsStays(c, d, q, msg.ip, msg.port);
  }

  lemma NodeBackedStays(c: Center, d: Center, n: Node)
    requires Grows(c, d) && NodeBacked(c, n)
    ensures NodeBacked(d, n)
  {
    hide Suits, Backed, Grows;
    forall k, x | k in n.state.cache && x in n.state.cache[k] ensures Backed(d, k, x.msg) {
      BackedStays(c, d, k, x.msg);
    }
    forall a | a in n.answers && a.msg.res == RES_OK ensures Backed(d, a.key, a.msg) {
      BackedStays(c, d, a.key, a.msg);
    }
    forall r | r in n.replies && r.res == RES_OK ensures Suits(d, r.quad, r.ip, r.port) {
      SuitsStays(c, d, r.quad, r.ip, r.port);
    }
  }

  lemma CenterGrows(c: Center, r: Groups.Report, time: int, req: PreAllocReq)
    requires WellFiled(c)
    ensures Grows(c, AfterReport(c, r, time)) && Grows(c, AfterPreAlloc(c, req))
  {
    hide FetchGroup;
  }

  lemma ReplySuits(c: Center, req: PreAllocReq)
    requires WellFiled(c) && Reply(c, req).res == RES_OK
    ensures Suits(c, req.quad, Reply(c, req).ip, Reply(c, req).port)
  {
    hide FetchGroup, Covers, Join, Usable;
    FetchGroupExactly(c, req.quad);
    var f :| Serves(c, req.quad, f) && f.name == FetchGroup(c, req.quad).value;
  }

  lemma AskBacked(c: Center, n: Node, q: Quad, link: int)
    requires NodeBacked(c, n)
    ensures NodeBacked(c, AskNode(n, q, link))
  {
    hide Backed, QuadKey, Units, RepliesBacked;
    var key := QuadKey(q);
    var items := ItemsAt(n.state.cache, key);
    if items != [] {
      assert items[0] in n.state.cache[key];
      forall x | x in AfterGet(items) ensures Backed(c, key, x.msg) {
        assert x.msg == items[0].msg || x in n.state.cache[key];
      }
    }
  }

  lemma TakeBacked(c: Center, n: Node, now: int)
    requires NodeBacked(c, n) && n.replies != []
    ensures NodeBacked(c, TakeNode(n, now))
  {
    hide Backed, QuadKey, Suits;
    var r := n.replies[0];
    var key := QuadKey(r.quad);
    if r.res == RES_OK {
      PacketBacked(c, r);
    }
    var msg := if r.res == RES_OK then Packet(r) else BadGroup;
    forall a | a in FanOut(ParkedAt(n.state.pend, key), key, msg) ensures a == Answer(a.link, key, msg) {
      FanOutOnce(ParkedAt(n.state.pend, key), key, msg, a);
    }
  }

  lemma PacketBacked(c: Center, r: PreAllocRes)
    requires Suits(c, r.quad, r.ip, r.port)
    ensures Backed(c, QuadKey(r.quad), Packet(r))
  {
    hide QuadKey, Suits;
  }

  lemma TickBacked(c: Center, n: Node, now: int)
    requires NodeBacked(c, n)
    ensures NodeBacked(c, TickNode(n, now))
  {
    hide Backed, FirstExpired, AnswersBacked, RepliesBacked;
    forall k, x | k in n.state.cache && x in AfterSweep(n.state.cache[k], now) ensures Backed(c, k, x.msg) {
      assert x in n.state.cache[k];
    }
  }

  lemma StepBacked(s: System, e: Event, p: int)
    requires WellFiled(s.center) && p in s.nodes && NodeBacked(s.center, s.nodes[p])
    ensures p in Apply(s, e).nodes && NodeBacked(Apply(s, e).center, Apply(s, e).nodes[p])
  {
    hide NodeBacked, AskNode, TakeNode, TickNode, ServeNode, AfterPreAlloc, AfterReport, Grows, WellFiled;
    var n := s.nodes[p];
    match e
    case GroupReport(r, time) =>
      CenterGrows(s.center, r, time, PreAllocReq(Quad(0, 0, 0, 0), 0));
      NodeBackedStays(s.center, AfterReport(s.center, r, time), n);
    case Ask(x, q, link) => AskBacked(s.center, n, q, link);
    case Serve(x) =>
      if x in s.nodes && s.nodes[x].requests != [] {
        var d := AfterPreAlloc(s.center, s.nodes[x].requests[0]);
        CenterGrows(s.center, Report("", "", 0, 0, 0, 0, 0, ""), 0, s.nodes[x].requests[0]);
        NodeBackedStays(s.center, d, n);
        if x == p {
          ServeBacked(s.center, d, n);
        }
      }
    case Take(x, now) =>
      if n.replies != [] {
        TakeBacked(s.center, n, now);
      }
    case Tick(x, now) => TickBacked(s.center, n, now);
  }

  lemma {:induction false} AllBacked(ps: set<int>, es: seq<Event>, p: int)
    requires p in Run(ps, es).nodes
    ensures NodeBacked(Run(ps, es).center, Run(ps, es).nodes[p])
  {
    if es == [] {
      IdleBacked();
    } else {
      hide NodeBacked, Apply;
      SameProxies(Run(ps, es[..|es| - 1]), es[|es| - 1]);
      AllBacked(ps, es[..|es| - 1], p);
      StepBacked(Run(ps, es[..|es| - 1]), es[|es| - 1], p);
    }
  }

  lemma SameProxies(s: System, e: Event)
    requires WellFiled(s.center)
    ensures Apply(s, e).nodes.Keys == s.nodes.Keys
  {
    hide AskNode, TakeNode, TickNode, ServeNode, AfterPreAlloc, AfterReport;
  }

  lemma IdleBacked()
    ensures NodeBacked(EmptyCenter, IdleNode)
  {
  }

  lemma ServeBacked(c: Center, d: Center, n: Node)
    requires WellFiled(c) && Grows(c, d) && NodeBacked(d, n) && n.requests != []
    ensures NodeBacked(d, ServeNode(c, n))
  {
    hide Suits, CacheBacked, AnswersBacked, Reply, Grows;
    var r := Reply(c, n.requests[0]);
    if r.res == RES_OK {
      ReplySuits(c, n.requests[0]);
      assert r.quad == n.requests[0].quad by {
        EchoesQuad(c, n.requests[0]);
      }
      SuitsStays(c, d, r.quad, r.ip, r.port);
    }
  }

  lemma EchoesQuad(c: Center, req: PreAllocReq)
    requires WellFiled(c)
    ensures Reply(c, req).quad == req.quad
  {
  }

  /**
   Safety end to end, on every run: whatever a proxy answers with OK for the key of a request, from
   its cache or to a parked link, names a group that was reported under an ISP mask covering both
   users of that very request, and carries the request's own first ISP and area.
   */
  lemma AnswersSuitTheirRequests(ps: set<int>, es: seq<Event>, p: int, a: Answer, q: Quad)
    requires p in Run(ps, es).nodes && a in Run(ps, es).nodes[p].answers
    requires a.msg.res == RES_OK && a.key == QuadKey(q)
    ensures Suits(Run(ps, es).center, q, a.msg.ip, a.msg.port)
    ensures a.msg.isp1 == q.isp1 && a.msg.area1 == q.area1
  {
    hide Run, QuadKey, Suits;
    AllBacked(ps, es, p);
    var c := Run(ps, es).center;
    assert Backed(c, a.key, a.msg);
    var r :| QuadKey(r) == a.key && Suits(c, r, a.msg.ip, a.msg.port) && a.msg.isp1 == r.isp1 && a.msg.area1 == r.area1;
    QuadKeyInjective(r, q);
  }

  // ---------------------------------------------------------------- parked links

  ghost predicate Outstanding(n: Node, key: string) {
    || (exists i :: 0 <= i < |n.requests| && QuadKey(n.requests[i].quad) == key)
    || (exists i :: 0 <= i < |n.replies| && QuadKey(n.replies[i].quad) == key)
  }

  ghost predicate Awaited(n: Node) {
    forall key :: key in n.state.pend ==> n.state.pend[key] != {} && Outstanding(n, key)
  }

  lemma AskAwaited(n: Node, q: Quad, link: int)
    requires Awaited(n)
    ensures Awaited(AskNode(n, q, link))
  {
    hide QuadKey, AfterGet, Units;
    var m := AskNode(n, q, link);
    forall key | key in m.state.pend ensures m.state.pend[key] != {} && Outstanding(m, key) {
      if key in n.state.pend {
        OutstandingStays(n, m, key);
      } else {
        assert key == QuadKey(q) && m.requests[|m.requests| - 1] == Refill(q);
      }
    }
  }

  lemma OutstandingStays(n: Node, m: Node, key: string)
    requires Outstanding(n, key) && m.replies == n.replies
    requires |n.requests| <= |m.requests| && m.requests[..|n.requests|] == n.requests
    ensures Outstanding(m, key)
  {
    hide QuadKey;
    if i :| 0 <= i < |n.requests| && QuadKey(n.requests[i].quad) == key {
      assert m.requests[i] == m.requests[..|n.requests|][i];
    }
  }

  lemma ServeAwaited(c: Center, n: Node)
    requires WellFiled(c) && Awaited(n) && n.requests != []
    ensures Awaited(ServeNode(c, n))
  {
    hide QuadKey, Reply;
    var m := ServeNode(c, n);
    EchoesQuad(c, n.requests[0]);
    forall key | key in n.state.pend ensures Outstanding(m, key) {
      if i :| 0 <= i < |n.requests| && QuadKey(n.requests[i].quad) == key {
        if i == 0 {
          assert m.replies[|n.replies|] == Reply(c, n.requests[0]);
        } else {
          assert m.requests[i - 1] == n.requests[i];
        }
      } else {
        var i :| 0 <= i < |n.replies| && QuadKey(n.replies[i].quad) == key;
        assert m.replies[i] == n.replies[i];
      }
    }
  }

  lemma TakeAwaited(n: Node, now: int)
    requires Awaited(n) && n.replies != []
    ensures Awaited(TakeNode(n, now))
  {
    hide QuadKey, FanOut;
    var m := TakeNode(n, now);
    forall key | key in m.state.pend ensures m.state.pend[key] != {} && Outstanding(m, key) {
      assert key in n.state.pend && key != QuadKey(n.replies[0].quad);
      if !(exists i :: 0 <= i < |n.requests| && QuadKey(n.requests[i].quad) == key) {
        var i :| 0 <= i < |n.replies| && QuadKey(n.replies[i].quad) == key;
        assert m.replies[i - 1] == n.replies[i];
      }
    }
  }

  lemma StepAwaited(s: System, e: Event, p: int)
    requires WellFiled(s.center) && p in s.nodes && Awaited(s.nodes[p])
    ensures p in Apply(s, e).nodes && Awaited(Apply(s, e).nodes[p])
  {
    hide Awaited, AskNode, TakeNode, TickNode, ServeNode, AfterPreAlloc, AfterReport, WellFiled;
    var n := s.nodes[p];
    match e
    case GroupReport(r, time) =>
    case Ask(x, q, link) => AskAwaited(n, q, link);
    case Serve(x) =>
      if n.requests != [] {
        ServeAwaited(s.center, n);
      }
    case Take(x, now) =>
      if n.replies != [] {
        TakeAwaited(n, now);
      }
    case Tick(x, now) => TickAwaited(n, now);
  }

  /** On every run, every parked key has a request or a reply under way. */
  lemma {:induction false} ParkedAreAwaited(ps: set<int>, es: seq<Event>, p: int)
    requires p in Run(ps, es).nodes
    ensures Awaited(Run(ps, es).nodes[p])
  {
    if es != [] {
      hide Awaited, Apply;
      SameProxies(Run(ps, es[..|es| - 1]), es[|es| - 1]);
      ParkedAreAwaited(ps, es[..|es| - 1], p);
      StepAwaited(Run(ps, es[..|es| - 1]), es[|es| - 1], p);
    }
  }

  lemma TickAwaited(n: Node, now: int)
    requires Awaited(n)
    ensures Awaited(TickNode(n, now))
  {
    hide QuadKey;
    forall key | key in n.state.pend ensures Outstanding(TickNode(n, now), key) {
      assert Outstanding(n, key);
    }
  }

  /** So when nothing is under way on a proxy's links, none of its clients is left waiting. */
  lemma QuietLeavesNobodyParked(ps: set<int>, es: seq<Event>, p: int)
    requires p in Run(ps, es).nodes
    requires Run(ps, es).nodes[p].requests == [] && Run(ps, es).nodes[p].replies == []
    ensures Run(ps, es).nodes[p].state.pend == map[]
  {
    hide Run, QuadKey;
    ParkedAreAwaited(ps, es, p);
    var n := Run(ps, es).nodes[p];
    assert forall key :: key in n.state.pend ==> Outstanding(n, key);
  }

  /**
   The reply for a key answers each link parked under it exactly once, and nobody else, and leaves
   none parked there; other keys keep theirs.
   */
  lemma ReplyAnswersParked(n: Node, now: int, a: Answer)
    requires n.replies != []
    ensures var key := QuadKey(n.replies[0].quad);
            var m := TakeNode(n, now);
            && m.state.pend == n.state.pend - {key}
            && m.answers[a] == n.answers[a] +
                 (if a.key == key && a.link in ParkedAt(n.state.pend, key) &&
                     a.msg == (if n.replies[0].res == RES_OK then Packet(n.replies[0]) else BadGroup) then 1 else 0)
  {
    hide QuadKey, FanOut;
    var key := QuadKey(n.replies[0].quad);
    FanOutOnce(ParkedAt(n.state.pend, key), key, if n.replies[0].res == RES_OK then Packet(n.replies[0]) else BadGroup, a);
  }

  // ---------------------------------------------------------------- every request accounted for

  function One(a: Answer, link: int, key: string): nat {
    if a.link == link && a.key == key then 1 else 0
  }

  /** How many answers a link has been sent for a key. */
  ghost function AnswersFor(answers: multiset<Answer>, link: int, key: string): nat
    decreases |answers|
  {
    if answers == multiset{} then 0
    else
      var a :| a in answers;
      One(a, link, key) + AnswersFor(answers - multiset{a}, link, key)
  }

  lemma {:induction false} AnswersForTake(answers: multiset<Answer>, a: Answer, link: int, key: string)
    requires a in answers
    ensures AnswersFor(answers, link, key) == One(a, link, key) + AnswersFor(answers - multiset{a}, link, key)
    decreases |answers|
  {
    hide One;
    var b :| b in answers && AnswersFor(answers, link, key) == One(b, link, key) + AnswersFor(answers - multiset{b}, link, key);
    if a != b {
      AnswersForTake(answers - multiset{b}, a, link, key);
      AnswersForTake(answers - multiset{a}, b, link, key);
      assert answers - multiset{b} - multiset{a} == answers - multiset{a} - multiset{b};
    }
  }

  lemma {:induction false} AnswersForUnion(x: multiset<Answer>, y: multiset<Answer>, link: int, key: string)
    ensures AnswersFor(x + y, link, key) == AnswersFor(x, link, key) + AnswersFor(y, link, key)
    decreases |y|
  {
    if y == multiset{} {
      assert x + y == x;
    } else {
      var a :| a in y;
      AnswersForTake(y, a, link, key);
      AnswersForTake(x + y, a, link, key);
      assert x + y - multiset{a} == x + (y - multiset{a});
      AnswersForUnion(x, y - multiset{a}, link, key);
    }
  }

  lemma AnswersForOne(a: Answer, link: int, key: string)
    ensures AnswersFor(multiset{a}, link, key) == One(a, link, key)
  {
    AnswersForTake(multiset{a}, a, link, key);
    assert multiset{a} - multiset{a} == multiset{};
  }

  lemma {:induction false} AnswersForFanOut(links: set<int>, k: string, msg: AllocRes, link: int, key: string)
    ensures AnswersFor(FanOut(links, k, msg), link, key) == if k == key && link in links then 1 else 0
    decreases links
  {
    if links == {} {
      assert FanOut(links, k, msg) == multiset{};
    } else {
      hide FanOut;
      var l := Member(links);
      var rest := links - {l};
      assert links == rest + {l};
      FanOutNext(rest, l, k, msg);
      AnswersForFanOut(rest, k, msg, link, key);
      AnswersForOne(Answer(l, k, msg), link, key);
      AnswersForUnion(FanOut(rest, k, msg), multiset{Answer(l, k, msg)}, link, key);
    }
  }

  function Parked(n: Node, link: int, key: string): nat {
    if link in ParkedAt(n.state.pend, key) then 1 else 0
  }

  /** What a link has been sent for a key, and whether it still waits for more. */
  ghost function Account(n: Node, link: int, key: string): nat {
    AnswersFor(n.answers, link, key) + Parked(n, link, key)
  }

  /** A request that misses while the same link is already parked for the same key is parked only once. */
  predicate Merges(n: Node, q: Quad, link: int) {
    !Hit(n, q) && link in ParkedAt(n.state.pend, QuadKey(q))
  }

  lemma AskAccounted(n: Node, q: Quad, l: int, link: int, key: string)
    ensures Account(AskNode(n, q, l), link, key) ==
            Account(n, link, key) + if l == link && QuadKey(q) == key && !Merges(n, q, l) then 1 else 0
  {
    hide QuadKey, AnswersFor, AfterGet, Units;
    var e := OnAllocReq(n.state, q, l);
    AnswersForUnion(n.answers, e.answers, link, key);
    if Hit(n, q) {
      AnswersForOne(Answer(l, QuadKey(q), ItemsAt(n.state.cache, QuadKey(q))[0].msg), link, key);
    } else {
      assert n.answers + multiset{} == n.answers;
    }
  }

  lemma TakeAccounted(n: Node, now: int, link: int, key: string)
    requires n.replies != []
    ensures Account(TakeNode(n, now), link, key) == Account(n, link, key)
  {
    hide QuadKey, AnswersFor, FanOut;
    var r := n.replies[0];
    var k := QuadKey(r.quad);
    var msg := if r.res == RES_OK then Packet(r) else BadGroup;
    AnswersForUnion(n.answers, FanOut(ParkedAt(n.state.pend, k), k, msg), link, key);
    AnswersForFanOut(ParkedAt(n.state.pend, k), k, msg, link, key);
  }

  /** How often a link has asked a proxy for a key. */
  function Asks(es: seq<Event>, p: int, link: int, key: string): nat {
    if es == [] then 0
    else
      Asks(es[..|es| - 1], p, link, key) +
      match es[|es| - 1]
      case Ask(x, q, l) => if x == p && l == link && QuadKey(q) == key then 1 else 0
      case _ => 0
  }

  /** How many of those requests were made while an earlier one was still parked. */
  ghost function Merged(ps: set<int>, es: seq<Event>, p: int, link: int, key: string): nat {
    if es == [] then 0
    else
      var s := Run(ps, es[..|es| - 1]);
      Merged(ps, es[..|es| - 1], p, link, key) +
      match es[|es| - 1]
      case Ask(x, q, l) =>
        if x == p && l == link && QuadKey(q) == key && p in s.nodes && Merges(s.nodes[p], q, l) then 1 else 0
      case _ => 0
  }

  lemma StepAccounted(s: System, e: Event, p: int, link: int, key: string)
    requires WellFiled(s.center) && p in s.nodes
    ensures p in Apply(s, e).nodes
    ensures Account(Apply(s, e).nodes[p], link, key) ==
            Account(s.nodes[p], link, key) +
            match e
            case Ask(x, q, l) =>
              if x == p && l == link && QuadKey(q) == key && !Merges(s.nodes[p], q, l) then 1 else 0
            case _ => 0
  {
    hide QuadKey, AnswersFor, Merges, AskNode, TakeNode, AfterPreAlloc, AfterReport, WellFiled;
    var n := s.nodes[p];
    match e
    case GroupReport(r, time) =>
    case Ask(x, q, l) => AskAccounted(n, q, l, link, key);
    case Serve(x) =>
    case Take(x, now) =>
      if n.replies != [] {
        TakeAccounted(n, now, link, key);
      }
    case Tick(x, now) =>
  }

  /**
   Every request is accounted for, on every run: what a link has asked a proxy for a key is what it
   has been answered, and the one request it may still have parked, and the requests it made while
   one was parked. So no link is ever answered more often than it asked.
   */
  lemma {:induction false} RequestsAccounted(ps: set<int>, es: seq<Event>, p: int, link: int, key: string)
    requires p in Run(ps, es).nodes
    ensures var n := Run(ps, es).nodes[p];
            Asks(es, p, link, key) == AnswersFor(n.answers, link, key) + Parked(n, link, key) + Merged(ps, es, p, link, key)
    ensures AnswersFor(Run(ps, es).nodes[p].answers, link, key) <= Asks(es, p, link, key)
  {
    if es == [] {
      assert AnswersFor(IdleNode.answers, link, key) == 0;
    } else {
      hide QuadKey, Merges, Apply, AnswersFor, Parked;
      var s := Run(ps, es[..|es| - 1]);
      SameProxies(s, es[|es| - 1]);
      RequestsAccounted(ps, es[..|es| - 1], p, link, key);
      StepAccounted(s, es[|es| - 1], p, link, key);
    }
  }
}
