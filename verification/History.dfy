/**
 What the runs of the pre-allocation protocol owe to their own past: grants to the reports made,
 refills to the requests that ran a key low, answers to replies, and cached items to both.
 */
module History {
  import opened Common
  import opened Keys
  import opened Masks
  import opened Groups
  import opened MCenter
  import opened Proxy
  import opened Alloc

  lemma {:induction false} ProxiesStay(ps: set<int>, es: seq<Event>)
    ensures Run(ps, es).nodes.Keys == ps
  {
    if es != [] {
      hide Apply;
      ProxiesStay(ps, es[..|es| - 1]);
      SameProxies(Run(ps, es[..|es| - 1]), es[|es| - 1]);
    }
  }

  // ---------------------------------------------------------------- grants and reports

  /** The reports the centre has accepted. */
  function ReportsIn(es: seq<Event>): seq<Timed> {
    if es == [] then []
    else
      var last := es[|es| - 1];
      ReportsIn(es[..|es| - 1]) +
      if last.GroupReport? && last.report.isp in ValidIsps() then [Timed(last.report, last.time)] else []
  }

  /** Only what has been charged tells a centre from one that has had the reports alone. */
  ghost predicate SameButCharges(c: Center, d: Center) {
    && c.filings == d.filings && c.groups.Keys == d.groups.Keys
    && forall n :: n in c.groups ==> c.groups[n] == d.groups[n].(charged := c.groups[n].charged)
  }

  lemma ReportKeepsSame(c: Center, d: Center, r: Groups.Report, time: int)
    requires SameButCharges(c, d)
    ensures SameButCharges(AddReport(c, r, time), AddReport(d, r, time))
  {
  }

  lemma ChargeKeepsSame(c: Center, d: Center, req: PreAllocReq)
    requires WellFiled(c) && SameButCharges(c, d)
    ensures SameButCharges(AfterPreAlloc(c, req), d)
  {
    hide FetchGroup;
  }

  lemma AfterOneMore(rs: seq<Timed>, r: Timed)
    ensures AfterReports(rs + [r]) == AddReport(AfterReports(rs), r.report, r.time)
  {
    assert (rs + [r])[..|rs|] == rs;
  }

  /** Whatever is asked for in between, the centre knows what the reports have told it. */
  lemma {:induction false} CenterAsReported(ps: set<int>, es: seq<Event>)
    ensures SameButCharges(Run(ps, es).center, AfterReports(ReportsIn(es)))
  {
    hide AddReport, AfterPreAlloc, ServeNode, AskNode, TakeNode, TickNode, ValidIsps, SameButCharges, WellFiled;
    if es == [] {
      NothingReported();
    } else {
      var before, last := es[..|es| - 1], es[|es| - 1];
      var s, d := Run(ps, before), AfterReports(ReportsIn(before));
      CenterAsReported(ps, before);
      match last
      case GroupReport(r, time) =>
        if r.isp in ValidIsps() {
          ReportKeepsSame(s.center, d, r, time);
          AfterOneMore(ReportsIn(before), Timed(r, time));
        } else {
          assert ReportsIn(es) == ReportsIn(before);
        }
      case Serve(p) =>
        assert ReportsIn(es) == ReportsIn(before);
        if p in s.nodes && s.nodes[p].requests != [] {
          ChargeKeepsSame(s.center, d, s.nodes[p].requests[0]);
        }
      case Ask(p, q, link) => assert ReportsIn(es) == ReportsIn(before);
      case Take(p, now) => assert ReportsIn(es) == ReportsIn(before);
      case Tick(p, now) => assert ReportsIn(es) == ReportsIn(before);
    }
  }

  lemma NothingReported()
    ensures SameButCharges(EmptyCenter, AfterReports([]))
  {
  }

  /** Which filings can serve is decided by the reports. */
  lemma {:induction false} ServersAsReported(ps: set<int>, es: seq<Event>, q: Quad)
    requires LoadsNonNegative(ReportsIn(es))
    ensures var c, rs := Run(ps, es).center, ReportsIn(es);
            && |c.filings| == |rs|
            && forall i :: 0 <= i < |rs| ==>
                 && c.filings[i].name == rs[i].report.name
                 && (Serves(c, q, c.filings[i]) <==> CanServe(rs, q, i))
  {
    hide Run, AfterReports, Serves, CanServe, LastReport, FirstReport;
    var c, rs := Run(ps, es).center, ReportsIn(es);
    CenterAsReported(ps, es);
    FilingsAsReported(rs);
    forall i | 0 <= i < |rs|
      ensures Serves(c, q, c.filings[i]) <==> CanServe(rs, q, i)
    {
      GroupsAsReported(rs, rs[i].report.name);
      ServesAsReported(c, rs, q, i);
    }
  }

  /** A group with the address of a name's first report. */
  predicate AddressOf(rs: seq<Timed>, n: string, ip: string, port: Int16) {
    FirstReport(rs, n).Some? && FirstReport(rs, n).value.report.ip == ip && FirstReport(rs, n).value.report.port == port
  }

  ghost predicate Grantable(rs: seq<Timed>, q: Quad) {
    q.isp1 in ValidIsps() && q.isp2 in ValidIsps() && exists i :: 0 <= i < |rs| && CanServe(rs, q, i)
  }

  /**
   Every reply of every run, decided by the reports before it: the request is granted exactly when
   both users' masks are valid and some name reported under a mask covering both was not overloaded
   when last heard of. A grant is for all units asked for, carries the address such a name was first
   reported with, and charges that name alone.
   */
  lemma {:induction false} RepliesAsReported(ps: set<int>, es: seq<Event>, req: PreAllocReq) returns (n: string)
    requires LoadsNonNegative(ReportsIn(es))
    ensures var c, rs := Run(ps, es).center, ReportsIn(es);
            var res := Reply(c, req);
            && res.quad == req.quad
            && (res.res == RES_OK <==> Grantable(rs, req.quad))
            && (res.res == RES_OK ==>
                  && res.num == req.num && AddressOf(rs, n, res.ip, res.port)
                  && (exists i :: 0 <= i < |rs| && CanServe(rs, req.quad, i) && rs[i].report.name == n)
                  && n in c.groups
                  && AfterPreAlloc(c, req) ==
                     c.(groups := c.groups[n := c.groups[n].(charged := c.groups[n].charged + req.num)]))
            && (res.res != RES_OK ==> AfterPreAlloc(c, req) == c)
  {
    hide Run, AfterReports, Serves, CanServe, LastReport, FirstReport, ValidIsps, Reply, AfterPreAlloc;
    var c, rs := Run(ps, es).center, ReportsIn(es);
    ServersAsReported(ps, es, req.quad);
    GrantedExactly(c, req);
    FiledServes(c, req.quad);
    n := "";
    if Reply(c, req).res == RES_OK {
      var f := GrantChargesNamed(c, req);
      n := f.name;
      FiledServe(c, req.quad, f);
      CenterAsReported(ps, es);
      GroupsAsReported(rs, n);
    }
  }

  lemma FiledServe(c: Center, q: Quad, f: Filing)
    requires WellFiled(c) && Serves(c, q, f)
    ensures exists i :: 0 <= i < |c.filings| && c.filings[i] == f
  {
  }

  lemma FiledServes(c: Center, q: Quad)
    requires WellFiled(c)
    ensures (exists f :: Serves(c, q, f)) <==> exists i :: 0 <= i < |c.filings| && Serves(c, q, c.filings[i])
  {
    hide Serves;
    forall f | Serves(c, q, f)
      ensures exists i :: 0 <= i < |c.filings| && c.filings[i] == f
    {
      FiledServe(c, q, f);
    }
  }

  lemma OneMoreEvent(ps: set<int>, es: seq<Event>, e: Event)
    ensures Run(ps, es + [e]) == Apply(Run(ps, es), e)
  {
    assert (es + [e])[..|es|] == es;
  }

  /**
   So for every step in which the centre serves a proxy, on every run: it takes the oldest request
   off that proxy's link and puts one reply on it, whose verdict, units and address the reports
   made so far decide, and charges only the group that the reply names.
   */
  lemma {:induction false} ServedAsReported(ps: set<int>, es: seq<Event>, p: int) returns (res: PreAllocRes, n: string)
    requires p in Run(ps, es).nodes && Run(ps, es).nodes[p].requests != [] && LoadsNonNegative(ReportsIn(es))
    ensures var s, t, rs := Run(ps, es), Run(ps, es + [Serve(p)]), ReportsIn(es);
            var node, req := s.nodes[p], s.nodes[p].requests[0];
            && t.nodes == s.nodes[p := node.(requests := node.requests[1..], replies := node.replies + [res])]
            && res.quad == req.quad
            && (res.res == RES_OK <==> Grantable(rs, req.quad))
            && (res.res != RES_OK ==> t.center == s.center)
            && (res.res == RES_OK ==>
                  && res.num == 300 && AddressOf(rs, n, res.ip, res.port)
                  && (exists i :: 0 <= i < |rs| && CanServe(rs, req.quad, i) && rs[i].report.name == n)
                  && n in s.center.groups
                  && t.center == s.center.(groups :=
                       s.center.groups[n := s.center.groups[n].(charged := s.center.groups[n].charged + 300)]))
  {
    hide Run, Reply, AfterPreAlloc, CanServe, ValidIsps, AddressOf, LoadsNonNegative, ReportsIn, Grantable, Charged, AllUnits;
    var s := Run(ps, es);
    var req := s.nodes[p].requests[0];
    OneMoreEvent(ps, es, Serve(p));
    UnitsConserved(ps, es);
    n := RepliesAsReported(ps, es, req);
    res := Reply(s.center, req);
    assert NodeOk(s.nodes[p]);
  }

  // ---------------------------------------------------------------- requests and replies, first in first out

  /** What asking does to the link: a key left with fewer than fifty units, or found empty, is refilled. */
  lemma AskSends(n: Node, q: Quad, link: int)
    requires NodeOk(n)
    ensures AskNode(n, q, link).requests ==
            n.requests + if Units(ItemsAt(n.state.cache, QuadKey(q))) <= 50 then [PreAllocReq(q, 300)] else []
  {
    hide QuadKey, Units, AfterGet;
    var items := ItemsAt(n.state.cache, QuadKey(q));
    GetTakesOne(items);
  }

  /** The request a step makes a proxy send: one for each client request that finds at most fifty units. */
  function Sends(s: System, e: Event, p: int): seq<PreAllocReq> {
    match e
    case Ask(x, q, _) =>
      if x == p && p in s.nodes && Units(ItemsAt(s.nodes[p].state.cache, QuadKey(q))) <= 50 then [PreAllocReq(q, 300)] else []
    case _ => []
  }

  /** Whether a step has the centre serve the proxy, or the proxy take a reply. */
  predicate Serving(s: System, e: Event, p: int) {
    e == Serve(p) && p in s.nodes && s.nodes[p].requests != []
  }

  predicate Taking(s: System, e: Event, p: int) {
    e.Take? && e.p == p && p in s.nodes && s.nodes[p].replies != []
  }

  function Off(s: System, e: Event, p: int): seq<PreAllocReq> {
    if Serving(s, e, p) then [s.nodes[p].requests[0]] else []
  }

  ghost function On(s: System, e: Event, p: int): seq<PreAllocRes>
    requires WellFiled(s.center)
  {
    if Serving(s, e, p) then [Reply(s.center, s.nodes[p].requests[0])] else []
  }

  function Read(s: System, e: Event, p: int): seq<PreAllocRes> {
    if Taking(s, e, p) then [s.nodes[p].replies[0]] else []
  }

  /** The requests a proxy has sent. */
  ghost function Refills(ps: set<int>, es: seq<Event>, p: int): seq<PreAllocReq> {
    if es == [] then [] else Refills(ps, es[..|es| - 1], p) + Sends(Run(ps, es[..|es| - 1]), es[|es| - 1], p)
  }

  /** The requests the centre has taken off the proxy's link, and the replies it has put on it. */
  ghost function Served(ps: set<int>, es: seq<Event>, p: int): seq<PreAllocReq> {
    if es == [] then [] else Served(ps, es[..|es| - 1], p) + Off(Run(ps, es[..|es| - 1]), es[|es| - 1], p)
  }

  ghost function Replied(ps: set<int>, es: seq<Event>, p: int): seq<PreAllocRes> {
    if es == [] then [] else Replied(ps, es[..|es| - 1], p) + On(Run(ps, es[..|es| - 1]), es[|es| - 1], p)
  }

  /** The replies the proxy has taken off its link. */
  ghost function Taken(ps: set<int>, es: seq<Event>, p: int): seq<PreAllocRes> {
    if es == [] then [] else Taken(ps, es[..|es| - 1], p) + Read(Run(ps, es[..|es| - 1]), es[|es| - 1], p)
  }

  lemma StepLinks(s: System, e: Event, p: int)
    requires WellFiled(s.center) && p in s.nodes && NodeOk(s.nodes[p])
    ensures p in Apply(s, e).nodes
    ensures var n, m := s.nodes[p], Apply(s, e).nodes[p];
            && n.requests + Sends(s, e, p) == Off(s, e, p) + m.requests
            && n.replies + On(s, e, p) == Read(s, e, p) + m.replies
  {
    hide NodeOk, Units, QuadKey, ItemsAt, AskNode, Reply, AfterPreAlloc, AfterReport, OnPreAllocRes, OnTimer, SweptUnits, WellFiled;
    var n := s.nodes[p];
    match e
    case Ask(x, q, link) =>
      if x == p {
        AskSends(n, q, link);
        AskKeepsReplies(n, q, link);
      }
    case Serve(x) =>
    case Take(x, now) =>
    case Tick(x, now) =>
    case GroupReport(r, time) =>
  }

  lemma Chain<T>(sent: seq<T>, done: seq<T>, left: seq<T>, more: seq<T>, off: seq<T>, rest: seq<T>)
    requires sent == done + left && left + more == off + rest
    ensures sent + more == (done + off) + rest
  {
    assert sent + more == done + (left + more);
  }

  /**
   On every run the requests a proxy has sent, in order, are those the centre has served and those
   still on the link; and the replies made are those taken and those still on the link. Every
   request served has its own reply, in the same place, for the same four ints.
   */
  lemma {:induction false} LinksAccounted(ps: set<int>, es: seq<Event>, p: int)
    requires p in ps
    ensures p in Run(ps, es).nodes
    ensures var n := Run(ps, es).nodes[p];
            && Refills(ps, es, p) == Served(ps, es, p) + n.requests
            && Replied(ps, es, p) == Taken(ps, es, p) + n.replies
            && |Replied(ps, es, p)| == |Served(ps, es, p)|
            && forall i :: 0 <= i < |Served(ps, es, p)| ==> Replied(ps, es, p)[i].quad == Served(ps, es, p)[i].quad
  {
    hide NodeOk, Apply, Charged, AllUnits, WellFiled, Reply, Sends, Read;
    ProxiesStay(ps, es);
    if es != [] {
      var before, last := es[..|es| - 1], es[|es| - 1];
      var s := Run(ps, before);
      ProxiesStay(ps, before);
      LinksAccounted(ps, before, p);
      UnitsConserved(ps, before);
      StepLinks(s, last, p);
      var n, m := s.nodes[p], Apply(s, last).nodes[p];
      Chain(Refills(ps, before, p), Served(ps, before, p), n.requests, Sends(s, last, p), Off(s, last, p), m.requests);
      Chain(Replied(ps, before, p), Taken(ps, before, p), n.replies, On(s, last, p), Read(s, last, p), m.replies);
      if Serving(s, last, p) {
        EchoesQuad(s.center, n.requests[0]);
      }
    }
  }

  lemma AskKeepsReplies(n: Node, q: Quad, link: int)
    ensures AskNode(n, q, link).replies == n.replies
  {
  }

  // ---------------------------------------------------------------- successes and failures

  /** What a reply tells a client: its own address and first pair if it grants, and failure otherwise. */
  predicate Tells(res: PreAllocRes, msg: AllocRes) {
    if res.res == RES_OK then
      msg.res == RES_OK && msg.ip == res.ip && msg.port == res.port && msg.isp1 == res.quad.isp1 && msg.area1 == res.quad.area1
    else msg.res == RES_FAIL
  }

  /** The next reply gives each link parked under its key exactly one answer, which tells what the reply says. */
  lemma ParkedAreTold(n: Node, now: int, link: int) returns (msg: AllocRes)
    requires n.replies != [] && link in ParkedAt(n.state.pend, QuadKey(n.replies[0].quad))
    ensures var key := QuadKey(n.replies[0].quad);
            && Tells(n.replies[0], msg)
            && TakeNode(n, now).answers[Answer(link, key, msg)] == n.answers[Answer(link, key, msg)] + 1
            && AnswersFor(TakeNode(n, now).answers, link, key) == AnswersFor(n.answers, link, key) + 1
            && link !in ParkedAt(TakeNode(n, now).state.pend, key)
  {
    hide QuadKey, FanOut, AnswersFor;
    var key := QuadKey(n.replies[0].quad);
    msg := if n.replies[0].res == RES_OK then Packet(n.replies[0]) else BadGroup;
    ReplyAnswersParked(n, now, Answer(link, key, msg));
    TakeAccounted(n, now, link, key);
  }

  /** A request of this key was refused: served when, by the reports till then, it could not be granted. */
  ghost predicate RefusedBefore(es: seq<Event>, p: int, key: string) {
    exists k, q :: 0 <= k < |es| && es[k] == Serve(p) && QuadKey(q) == key && !Grantable(ReportsIn(es[..k]), q)
  }

  predicate CacheSucceeds(cache: Caches) {
    forall k, x :: k in cache && x in cache[k] ==> x.msg.res == RES_OK
  }

  ghost predicate AnswersExplained(es: seq<Event>, p: int, answers: multiset<Answer>) {
    forall a :: a in answers && a.msg.res != RES_OK ==> a.msg.res == RES_FAIL && RefusedBefore(es, p, a.key)
  }

  ghost predicate RepliesExplained(es: seq<Event>, p: int, replies: seq<PreAllocRes>) {
    forall r :: r in replies && r.res != RES_OK ==> RefusedBefore(es, p, QuadKey(r.quad))
  }

  ghost predicate Explained(es: seq<Event>, p: int, n: Node) {
    CacheSucceeds(n.state.cache) && AnswersExplained(es, p, n.answers) && RepliesExplained(es, p, n.replies)
  }

  lemma RefusedStays(es: seq<Event>, e: Event, p: int, key: string)
    requires RefusedBefore(es, p, key)
    ensures RefusedBefore(es + [e], p, key)
  {
    hide Grantable, QuadKey, ReportsIn;
    var k, q :| 0 <= k < |es| && es[k] == Serve(p) && QuadKey(q) == key && !Grantable(ReportsIn(es[..k]), q);
    assert (es + [e])[..k] == es[..k] && (es + [e])[k] == Serve(p);
  }

  lemma ExplainedStays(es: seq<Event>, e: Event, p: int, n: Node)
    requires Explained(es, p, n)
    ensures Explained(es + [e], p, n)
  {
    hide RefusedBefore, QuadKey;
    forall key | RefusedBefore(es, p, key) ensures RefusedBefore(es + [e], p, key) {
      RefusedStays(es, e, p, key);
    }
  }

  lemma AskExplained(es: seq<Event>, p: int, n: Node, q: Quad, link: int) returns (msg: AllocRes)
    requires Explained(es, p, n)
    ensures Explained(es, p, AskNode(n, q, link))
    ensures Hit(n, q) ==>
              msg.res == RES_OK && AskNode(n, q, link).answers == n.answers + multiset{Answer(link, QuadKey(q), msg)}
  {
    hide RefusedBefore, QuadKey, Units;
    var items := ItemsAt(n.state.cache, QuadKey(q));
    msg := if items != [] then items[0].msg else BadGroup;
    if items != [] {
      assert items[0] in n.state.cache[QuadKey(q)];
      forall x | x in AfterGet(items) ensures x.msg.res == RES_OK {
        assert x.msg == items[0].msg || x in n.state.cache[QuadKey(q)];
      }
    }
  }

  lemma TakeExplained(es: seq<Event>, p: int, n: Node, now: int)
    requires Explained(es, p, n) && n.replies != []
    ensures Explained(es, p, TakeNode(n, now))
  {
    hide RefusedBefore, QuadKey;
    var r := n.replies[0];
    var key := QuadKey(r.quad);
    assert r in n.replies;
    var msg := if r.res == RES_OK then Packet(r) else BadGroup;
    forall a | a in FanOut(ParkedAt(n.state.pend, key), key, msg) ensures a == Answer(a.link, key, msg) {
      FanOutOnce(ParkedAt(n.state.pend, key), key, msg, a);
    }
  }

  lemma TickExplained(es: seq<Event>, p: int, n: Node, now: int)
    requires Explained(es, p, n)
    ensures Explained(es, p, TickNode(n, now))
  {
    hide RefusedBefore, AnswersExplained, RepliesExplained, FirstExpired;
    forall k, x | k in n.state.cache && x in AfterSweep(n.state.cache[k], now) ensures x.msg.res == RES_OK {
      assert x in n.state.cache[k];
    }
  }

  lemma ServeExplained(es: seq<Event>, p: int, c: Center, n: Node)
    requires WellFiled(c) && Explained(es, p, n) && n.requests != []
    requires Reply(c, n.requests[0]).res != RES_OK ==> RefusedBefore(es, p, QuadKey(Reply(c, n.requests[0]).quad))
    ensures Explained(es, p, ServeNode(c, n))
  {
    hide RefusedBefore, QuadKey, Reply, CacheSucceeds, AnswersExplained;
  }

  lemma {:induction false} AllExplained(ps: set<int>, es: seq<Event>, p: int)
    requires p in ps && LoadsNonNegative(ReportsIn(es))
    ensures p in Run(ps, es).nodes && Explained(es, p, Run(ps, es).nodes[p])
  {
    hide Explained, QuadKey, AskNode, TakeNode, TickNode, ServeNode, AfterPreAlloc, AfterReport, WellFiled, Reply, Grantable;
    ProxiesStay(ps, es);
    if es == [] {
      IdleExplained(p);
    } else {
      var before, e := es[..|es| - 1], es[|es| - 1];
      var s := Run(ps, before);
      var n := s.nodes[p];
      ProxiesStay(ps, before);
      FewerReports(before, e);
      assert es == before + [e];
      AllExplained(ps, before, p);
      ExplainedStays(before, e, p, n);
      match e
      case GroupReport(r, time) =>
      case Ask(x, q, link) =>
        if x == p {
          var msg := AskExplained(es, p, n, q, link);
        }
      case Serve(x) =>
        if x == p && n.requests != [] {
          var name := RepliesAsReported(ps, before, n.requests[0]);
          if Reply(s.center, n.requests[0]).res != RES_OK {
            RefusedNow(es, p, n.requests[0].quad);
          }
          ServeExplained(es, p, s.center, n);
        }
      case Take(x, now) =>
        if x == p && n.replies != [] {
          TakeExplained(es, p, n, now);
        }
      case Tick(x, now) =>
        if x == p {
          TickExplained(es, p, n, now);
        }
    }
  }

  lemma RefusedNow(es: seq<Event>, p: int, q: Quad)
    requires es != [] && es[|es| - 1] == Serve(p) && !Grantable(ReportsIn(es[..|es| - 1]), q)
    ensures RefusedBefore(es, p, QuadKey(q))
  {
    hide QuadKey, Grantable, ReportsIn;
  }

  lemma FewerReports(es: seq<Event>, e: Event)
    requires LoadsNonNegative(ReportsIn(es + [e]))
    ensures LoadsNonNegative(ReportsIn(es))
  {
    hide ValidIsps;
    assert (es + [e])[..|es|] == es;
    var rs, all := ReportsIn(es), ReportsIn(es + [e]);
    assert forall i :: 0 <= i < |rs| ==> all[i] == rs[i];
  }

  lemma IdleExplained(p: int)
    ensures Explained([], p, IdleNode)
  {
  }

  /**
   On every run: a request that finds its key cached is answered at once, and with success.
   */
  lemma {:induction false} HitsSucceed(ps: set<int>, es: seq<Event>, p: int, q: Quad, link: int) returns (msg: AllocRes)
    requires p in ps && LoadsNonNegative(ReportsIn(es))
    ensures p in Run(ps, es).nodes
    ensures var n := Run(ps, es).nodes[p];
            Hit(n, q) ==> msg.res == RES_OK && AskNode(n, q, link).answers == n.answers + multiset{Answer(link, QuadKey(q), msg)}
  {
    hide Run, Explained, QuadKey, AskNode, ReportsIn;
    AllExplained(ps, es, p);
    msg := AskExplained(es, p, Run(ps, es).nodes[p], q, link);
  }

  /**
   On every run no client is told of failure without cause: for every failing answer there is an
   earlier moment at which the centre served a request of the same key that, by the reports made
   till then, no group could serve.
   */
  lemma {:induction false} FailuresHaveCause(ps: set<int>, es: seq<Event>, p: int, a: Answer)
    requires p in ps && LoadsNonNegative(ReportsIn(es))
    requires p in Run(ps, es).nodes && a in Run(ps, es).nodes[p].answers && a.msg.res != RES_OK
    ensures a.msg.res == RES_FAIL && RefusedBefore(es, p, a.key)
  {
    hide Run, RefusedBefore, ReportsIn;
    AllExplained(ps, es, p);
  }

  // ---------------------------------------------------------------- cached items

  /** What a step does to one key's list: a get for a request, an item for a grant, a sweep for a tick. */
  function OpsOf(s: System, e: Event, p: int, key: string): seq<ListOp> {
    match e
    case Ask(x, q, _) => if x == p && QuadKey(q) == key then [Get] else []
    case Take(_, now) =>
      if Taking(s, e, p) && s.nodes[p].replies[0].res == RES_OK && QuadKey(s.nodes[p].replies[0].quad) == key then
        [Add(now, 300, Packet(s.nodes[p].replies[0]))]
      else []
    case Tick(x, now) => if x == p then [Sweep(now)] else []
    case _ => []
  }

  ghost function ListOps(ps: set<int>, es: seq<Event>, p: int, key: string): seq<ListOp> {
    if es == [] then [] else ListOps(ps, es[..|es| - 1], p, key) + OpsOf(Run(ps, es[..|es| - 1]), es[|es| - 1], p, key)
  }

  /** A step makes one operation at most. */
  function AfterOps(items: seq<Item>, ops: seq<ListOp>): seq<Item> {
    if ops == [] then items else AfterOp(items, ops[0])
  }

  lemma OnwardsMore(items: seq<Item>, ops: seq<ListOp>, op: ListOp)
    ensures Onwards(items, ops + [op]) == AfterOp(Onwards(items, ops), op)
  {
    assert (ops + [op])[..|ops|] == ops;
  }

  lemma StepList(s: System, e: Event, p: int, key: string)
    requires WellFiled(s.center) && p in s.nodes && NodeOk(s.nodes[p])
    ensures p in Apply(s, e).nodes && |OpsOf(s, e, p, key)| <= 1 && NumsPositive(OpsOf(s, e, p, key))
    ensures ItemsAt(Apply(s, e).nodes[p].state.cache, key) == AfterOps(ItemsAt(s.nodes[p].state.cache, key), OpsOf(s, e, p, key))
  {
    hide QuadKey, AfterGet, AfterSweep, ItemsAt, NodeOk, AskNode, TakeNode, TickNode, AfterPreAlloc, AfterReport, Reply, WellFiled, Packet;
    var n := s.nodes[p];
    match e
    case GroupReport(r, time) =>
    case Ask(x, q, link) => AskList(n, q, link, key);
    case Serve(x) =>
    case Take(x, now) =>
      if Taking(s, e, p) {
        TakeList(n, now, key);
        var items := ItemsAt(n.state.cache, key);
        assert items + [] == items;
      }
    case Tick(x, now) => TickList(n, now, key);
  }

  /** On every run each cached list is the list these operations make, so what is proved of lists holds of caches. */
  lemma {:induction false} CachesAreLists(ps: set<int>, es: seq<Event>, p: int, key: string)
    requires p in ps
    ensures p in Run(ps, es).nodes
    ensures ItemsAt(Run(ps, es).nodes[p].state.cache, key) == ListRun(ListOps(ps, es, p, key))
    ensures NumsPositive(ListOps(ps, es, p, key))
  {
    hide NodeOk, AfterOp, Onwards, Apply, OpsOf, WellFiled, Charged, AllUnits;
    ProxiesStay(ps, es);
    if es == [] {
      NewList();
    } else {
      var before, e := es[..|es| - 1], es[|es| - 1];
      var s := Run(ps, before);
      var ops, more := ListOps(ps, before, p, key), OpsOf(s, e, p, key);
      ProxiesStay(ps, before);
      CachesAreLists(ps, before, p, key);
      UnitsConserved(ps, before);
      StepList(s, e, p, key);
      if more == [] {
        assert ops + more == ops;
      } else {
        assert more == [more[0]];
        OnwardsMore([], ops, more[0]);
      }
    }
  }

  lemma NewList()
    ensures ListRun([]) == []
  {
  }

  lemma AskList(n: Node, q: Quad, link: int, key: string)
    ensures ItemsAt(AskNode(n, q, link).state.cache, key) ==
            if key == QuadKey(q) then AfterGet(ItemsAt(n.state.cache, key)) else ItemsAt(n.state.cache, key)
  {
    hide QuadKey, Units;
  }

  lemma TakeList(n: Node, now: int, key: string)
    requires NodeOk(n) && n.replies != []
    ensures ItemsAt(TakeNode(n, now).state.cache, key) ==
            ItemsAt(n.state.cache, key) +
            if key == QuadKey(n.replies[0].quad) && n.replies[0].res == RES_OK then [Item(now, 300, Packet(n.replies[0]))] else []
  {
    hide QuadKey, FanOut, Packet;
    assert ItemsAt(n.state.cache, key) + [] == ItemsAt(n.state.cache, key);
  }

  lemma TickList(n: Node, now: int, key: string)
    ensures ItemsAt(TickNode(n, now).state.cache, key) == AfterSweep(ItemsAt(n.state.cache, key), now)
  {
    hide SweptUnits, FirstExpired;
    SweepNothing(now);
  }

  lemma SweepNothing(now: int)
    ensures AfterSweep([], now) == []
  {
  }

  /** The proxy's clock does not go back between the replies it takes, and has not passed latest. */
  predicate TakesInOrder(es: seq<Event>, p: int, latest: int) {
    && (forall i :: 0 <= i < |es| && es[i].Take? && es[i].p == p ==> es[i].now <= latest)
    && forall i, j :: 0 <= i < j < |es| && es[i].Take? && es[j].Take? && es[i].p == es[j].p == p ==> es[i].now <= es[j].now
  }

  predicate AddsUpTo(ops: seq<ListOp>, latest: int) {
    forall i :: 0 <= i < |ops| && ops[i].Add? ==> ops[i].stamp <= latest
  }

  lemma {:induction false} OpsInOrder(ps: set<int>, es: seq<Event>, p: int, key: string, latest: int)
    requires TakesInOrder(es, p, latest)
    ensures ClockMonotone(ListOps(ps, es, p, key)) && AddsUpTo(ListOps(ps, es, p, key), latest)
  {
    hide QuadKey, Packet, Run;
    if es != [] {
      var before, e := es[..|es| - 1], es[|es| - 1];
      assert forall i :: 0 <= i < |before| ==> before[i] == es[i];
      OpsInOrder(ps, before, p, key, if e.Take? && e.p == p then e.now else latest);
    }
  }

  /**
   On every run whose clock does not go back: a request that finds its key cached is served from the
   oldest item, which loses one unit and goes when that was its last; the other items stay.
   */
  lemma {:induction false} HitServesOldest(ps: set<int>, es: seq<Event>, p: int, q: Quad, link: int, latest: int)
    returns (x: Item, rest: seq<Item>)
    requires p in ps && TakesInOrder(es, p, latest)
    ensures p in Run(ps, es).nodes
    ensures var n, m := Run(ps, es).nodes[p], AskNode(Run(ps, es).nodes[p], q, link);
            Hit(n, q) ==>
              && ItemsAt(n.state.cache, QuadKey(q)) == [x] + rest && x.remain > 0
              && (forall y :: y in rest ==> x.stamp <= y.stamp)
              && m.answers == n.answers + multiset{Answer(link, QuadKey(q), x.msg)}
              && ItemsAt(m.state.cache, QuadKey(q)) == (if x.remain > 1 then [x.(remain := x.remain - 1)] else []) + rest
  {
    hide Run, QuadKey, Onwards, Units, ListOps;
    CachesAreLists(ps, es, p, QuadKey(q));
    OpsInOrder(ps, es, p, QuadKey(q), latest);
    ReachableLists(ListOps(ps, es, p, QuadKey(q)), latest);
    var items := ItemsAt(Run(ps, es).nodes[p].state.cache, QuadKey(q));
    x, rest := Item(0, 1, BadGroup), [];
    if items != [] {
      x, rest := items[0], items[1..];
      assert items == [x] + rest;
      assert [] + rest == rest;
    }
  }
}
