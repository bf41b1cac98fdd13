/**
 A load-table server forwards each report it applies to its slaves, which are load-table servers
 themselves. Master and slaves are run as one system over FIFO links.
 */
module Replication {
  import opened Common
  import opened LoadTable
  import LTable

  // ---------------------------------------------------------------- the system

  /** A registered slave: its own table, and the reports still on the way to it. */
  datatype Slave = Slave(table: Table, channel: seq<Report>)

  datatype System = System(master: Table, slaves: map<int, Slave>)

  datatype Event =
    | Report(report: Report)
    | MasterQuery
    | SlaveQuery(id: int)
    | Deliver(id: int)
    | Register(id: int, table: Table)
    | Disconnect(id: int)

  /** The reports a run contains are such that no load overflows. */
  predicate Legal(e: Event) {
    e.Report? ==> InRange(e.report.load)
  }

  predicate ChannelsOk(s: System) {
    forall id :: id in s.slaves ==> ReportsOk(s.slaves[id].channel)
  }

  predicate ReportsOk(rs: seq<LoadTable.Report>) {
    forall i :: 0 <= i < |rs| ==> InRange(rs[i].load)
  }

  function Sent(s: Slave, r: LoadTable.Report): Slave {
    s.(channel := s.channel + [r])
  }

  ghost function Apply(s: System, e: Event): System
    requires Legal(e) && ChannelsOk(s)
  {
    match e
    case Report(r) => System(AddRow(s.master, r), map id | id in s.slaves :: Sent(s.slaves[id], r))
    case MasterQuery => s.(master := Take(s.master))
    case SlaveQuery(id) =>
      if id in s.slaves then s.(slaves := s.slaves[id := s.slaves[id].(table := Take(s.slaves[id].table))]) else s
    case Deliver(id) =>
      if id in s.slaves && s.slaves[id].channel != [] then
        var ch := s.slaves[id].channel;
        s.(slaves := s.slaves[id := Slave(AddRow(s.slaves[id].table, ch[0]), ch[1..])])
      else s
    case Register(id, t) => if id in s.slaves then s else s.(slaves := s.slaves[id := Slave(t, [])])
    case Disconnect(id) => s.(slaves := s.slaves - {id})
  }

  predicate AllLegal(es: seq<Event>) {
    forall i :: 0 <= i < |es| ==> Legal(es[i])
  }

  ghost function Run(es: seq<Event>): (s: System)
    requires AllLegal(es)
    ensures ChannelsOk(s)
  {
    if es == [] then System(map[], map[]) else Apply(Run(es[..|es| - 1]), es[|es| - 1])
  }

  /** The keys reported since a slave last registered. */
  ghost function ReportedSince(es: seq<Event>, id: int): set<string>
    requires AllLegal(es)
  {
    if es == [] then {}
    else
      var before := es[..|es| - 1];
      match es[|es| - 1]
      case Report(r) => ReportedSince(before, id) + {r.key}
      case Register(i, _) => if i == id && id !in Run(before).slaves then {} else ReportedSince(before, id)
      case _ => ReportedSince(before, id)
  }

  // ---------------------------------------------------------------- agreement

  /** What replication keeps equal: the loads and the class, not the reservations. */
  datatype View = View(load: Int32, loadMax: Int32, score: int)

  function ViewOf(t: Table, k: string): Option<View> {
    if k in t then Some(View(t[k].load, t[k].loadMax, t[k].score)) else None
  }

  function Delivered(t: Table, rs: seq<LoadTable.Report>): Table
    requires ReportsOk(rs)
  {
    if rs == [] then t else AddRow(Delivered(t, rs[..|rs| - 1]), rs[|rs| - 1])
  }

  lemma {:induction false} DeliveredHead(t: Table, rs: seq<LoadTable.Report>)
    requires ReportsOk(rs) && rs != []
    ensures Delivered(AddRow(t, rs[0]), rs[1..]) == Delivered(t, rs)
  {
    if |rs| > 1 {
      var front := rs[..|rs| - 1];
      DeliveredHead(t, front);
      assert rs[1..][..|rs| - 2] == front[1..];
    } else {
      assert rs[..0] == [];
    }
  }

  /** A local query shows in no view, now or after any further reports. */
  lemma {:induction false} QueriesInvisible(t: Table, rs: seq<LoadTable.Report>, k: string)
    requires ReportsOk(rs)
    ensures ViewOf(Delivered(Take(t), rs), k) == ViewOf(Delivered(t, rs), k)
  {
    if rs != [] {
      QueriesInvisible(t, rs[..|rs| - 1], k);
    }
  }

  /** Once the reports in flight arrive, the slave sees what the master sees. */
  lemma {:induction false} InFlightAgreement(es: seq<Event>, id: int, k: string)
    requires AllLegal(es) && id in Run(es).slaves && k in ReportedSince(es, id)
    ensures k in Run(es).master
    ensures var s := Run(es).slaves[id];
            ViewOf(Delivered(s.table, s.channel), k) == ViewOf(Run(es).master, k)
  {
    hide CalcScore, InRange, Pick, Delivered;
    var before, e := es[..|es| - 1], es[|es| - 1];
    var s := Run(before);
    if id in s.slaves && k in ReportedSince(before, id) {
      InFlightAgreement(before, id, k);
    }
    match e {
      case Report(r) =>
        var ch := s.slaves[id].channel;
        AfterSend(s.slaves[id].table, ch, r);
      case MasterQuery =>
        QueriesInvisible(s.master, [], k);
        DeliveredNone(s.master);
        DeliveredNone(Take(s.master));
      case SlaveQuery(i) =>
        if i == id {
          QueriesInvisible(s.slaves[id].table, s.slaves[id].channel, k);
        }
      case Deliver(i) =>
        if i == id && s.slaves[id].channel != [] {
          DeliveredHead(s.slaves[id].table, s.slaves[id].channel);
        }
      case Register(i, t) =>
      case Disconnect(i) =>
    }
  }

  lemma AfterSend(t: Table, ch: seq<LoadTable.Report>, r: LoadTable.Report)
    requires ReportsOk(ch) && InRange(r.load)
    ensures ReportsOk(ch + [r]) && Delivered(t, ch + [r]) == AddRow(Delivered(t, ch), r)
  {
    assert (ch + [r])[..|ch|] == ch;
  }

  lemma DeliveredNone(t: Table)
    ensures Delivered(t, []) == t
  {
  }

  /**
   On every run, whatever queries are made on either side and whatever table the slave brought
   along: when nothing is in flight to a slave, every key reported since it registered has the
   same loads and the same score class there as on the master.
   */
  lemma ReplicasAgree(es: seq<Event>, id: int, k: string)
    requires AllLegal(es) && id in Run(es).slaves && Run(es).slaves[id].channel == []
    requires k in ReportedSince(es, id)
    ensures ViewOf(Run(es).slaves[id].table, k) == ViewOf(Run(es).master, k) && k in Run(es).slaves[id].table
  {
    InFlightAgreement(es, id, k);
    DeliveredNone(Run(es).slaves[id].table);
  }

  /** What the master's own table has seen of a run. */
  function AtMaster(es: seq<Event>): seq<LoadTable.Event> {
    if es == [] then []
    else
      AtMaster(es[..|es| - 1]) +
      match es[|es| - 1]
      case Report(r) => [Reported(r)]
      case MasterQuery => [Queried]
      case _ => []
  }

  lemma RunMore(es: seq<LoadTable.Event>, e: LoadTable.Event)
    requires EventsInRange(es) && (e.Reported? ==> InRange(e.report.load))
    ensures EventsInRange(es + [e])
    ensures LoadTable.Run(es + [e]) == if e.Reported? then AddRow(LoadTable.Run(es), e.report) else Take(LoadTable.Run(es))
  {
    hide InRange;
    assert (es + [e])[..|es|] == es;
  }

  /** The slaves do not touch the master's table. */
  lemma {:induction false} MasterIsTable(es: seq<Event>)
    requires AllLegal(es)
    ensures EventsInRange(AtMaster(es)) && Run(es).master == LoadTable.Run(AtMaster(es))
  {
    hide InRange, AddRow, Take, LoadTable.Run;
    if es == [] {
      NoEvents();
    } else {
      var before := AtMaster(es[..|es| - 1]);
      MasterIsTable(es[..|es| - 1]);
      match es[|es| - 1]
      case Report(r) => RunMore(before, Reported(r));
      case MasterQuery => RunMore(before, Queried);
      case SlaveQuery(id) => assert AtMaster(es) == before;
      case Deliver(id) => assert AtMaster(es) == before;
      case Register(id, t) => assert AtMaster(es) == before;
      case Disconnect(id) => assert AtMaster(es) == before;
    }
  }

  lemma NoEvents()
    ensures LoadTable.Run([]) == map[]
  {
  }

  /** And the loads agreed on are those last reported: nothing a slave brought along or missed survives. */
  lemma {:induction false} ReplicasAsReported(es: seq<Event>, id: int, k: string)
    requires AllLegal(es) && id in Run(es).slaves && Run(es).slaves[id].channel == []
    requires k in ReportedSince(es, id)
    ensures EventsInRange(AtMaster(es)) && k in Run(es).slaves[id].table
    ensures var row, last := Run(es).slaves[id].table[k], LastReport(AtMaster(es), k);
            && last.Some? && InRange(last.value.load)
            && row.load == last.value.load && row.loadMax == last.value.loadMax
            && row.score == CalcScore(last.value.load, last.value.loadMax)
  {
    hide Run, ReportedSince, LoadTable.Run, CalcScore, LastReport, FirstReport, InRange, HandOuts;
    ReplicasAgree(es, id, k);
    MasterIsTable(es);
    RowsAsReported(AtMaster(es), k);
  }

  // ---------------------------------------------------------------- the server

  /** The steps at one slave's link, as changes of that slave alone. */
  lemma OneSlaveSteps(s: System, id: int, t: Table)
    requires ChannelsOk(s)
    ensures Apply(s, Disconnect(id)) == System(s.master, s.slaves - {id})
    ensures Apply(s, Register(id, t)) == if id in s.slaves then s else System(s.master, s.slaves[id := Slave(t, [])])
    ensures id in s.slaves ==>
              var slave := s.slaves[id];
              && Apply(s, SlaveQuery(id)) == System(s.master, s.slaves[id := Slave(Take(slave.table), slave.channel)])
              && (slave.channel != [] ==>
                    Apply(s, Event.Deliver(id)) ==
                    System(s.master, s.slaves[id := Slave(AddRow(slave.table, slave.channel[0]), slave.channel[1..])]))
  {
  }

  /** What each link has been sent and its peer has not yet read, after a report went out to some of them. */
  function SentTo(out: map<int, seq<LoadTable.Report>>, ids: set<int>, r: LoadTable.Report): map<int, seq<LoadTable.Report>> {
    map id | id in out :: if id in ids then out[id] + [r] else out[id]
  }

  /** The registered slaves as the system has them: the table at the far end, and what is on the way. */
  function SlavesOf(ids: set<int>, replicas: map<int, Table>, out: map<int, seq<LoadTable.Report>>): (slaves: map<int, Slave>)
    requires ids <= replicas.Keys && ids <= out.Keys
    ensures slaves.Keys == ids
  {
    map id | id in ids :: Slave(replicas[id], out[id])
  }

  lemma SentToSlaves(ids: set<int>, replicas: map<int, Table>, out: map<int, seq<LoadTable.Report>>, r: LoadTable.Report)
    requires ids <= replicas.Keys && ids <= out.Keys
    ensures var slaves := SlavesOf(ids, replicas, out);
            SlavesOf(ids, replicas, SentTo(out, ids, r)) == map id | id in slaves :: Sent(slaves[id], r)
  {
  }

  lemma OneSlave(ids: set<int>, replicas: map<int, Table>, out: map<int, seq<LoadTable.Report>>,
                 id: int, t: Table, ch: seq<LoadTable.Report>)
    requires ids <= replicas.Keys && ids <= out.Keys
    ensures SlavesOf(ids + {id}, replicas[id := t], out[id := ch]) == SlavesOf(ids, replicas, out)[id := Slave(t, ch)]
    ensures id in ids ==> SlavesOf(ids, replicas, out)[id] == Slave(replicas[id], out[id])
  {
  }

  lemma OtherLink(ids: set<int>, replicas: map<int, Table>, out: map<int, seq<LoadTable.Report>>, id: int)
    requires ids <= replicas.Keys && ids <= out.Keys && id !in ids
    ensures SlavesOf(ids, replicas, out[id := []]) == SlavesOf(ids, replicas, out)
  {
  }

  lemma NoReports()
    ensures ReportsOk([])
  {
  }

  lemma OneSlaveLess(ids: set<int>, replicas: map<int, Table>, out: map<int, seq<LoadTable.Report>>, id: int)
    requires ids <= replicas.Keys && ids <= out.Keys
    ensures SlavesOf(ids - {id}, replicas - {id}, out - {id}) == SlavesOf(ids, replicas, out) - {id}
  {
  }

  /** The reply to a JSON query. */
  datatype QueryAnswer = Fail | Found(ip: string, port: Int16, load: Int32, loadMax: Int32)

  /** What a query must answer: the row the scan of the whole table picks. */
  ghost function Answer(t: Table): QueryAnswer {
    match Pick(t)
    case None => Fail
    case Some(k) => Found(t[k].ip, t[k].port, t[k].load, t[k].loadMax)
  }

  /**
   On every run of a table the answer names the key handed out: the address it was first reported
   with, and its last loads. It fails exactly when no key of positive capacity can be handed out.
   */
  lemma {:induction false} AnswerAsReported(es: seq<LoadTable.Event>)
    requires EventsInRange(es)
    ensures Answer(LoadTable.Run(es)) == Fail <==>
            forall k :: CanGive(es, k) ==> LastReport(es, k).value.loadMax <= 0
    ensures Answer(LoadTable.Run(es)) != Fail ==>
              var k := Pick(LoadTable.Run(es)).value;
              && CanGive(es, k) && FirstReport(es, k).Some?
              && Answer(LoadTable.Run(es)) == Found(FirstReport(es, k).value.ip, FirstReport(es, k).value.port,
                                                    LastReport(es, k).value.load, LastReport(es, k).value.loadMax)
  {
    hide LoadTable.Run, Pick, LastReport, FirstReport, HandOuts, CalcScore, InRange;
    var t := LoadTable.Run(es);
    HandOutsBounded(es, "");
    QueryEmptyExactly(t);
    PickIsCandidate(t);
    forall k
      ensures k in t <==> LastReport(es, k).Some?
      ensures FirstReport(es, k).Some? <==> LastReport(es, k).Some?
      ensures k in t ==>
                && t[k].ip == FirstReport(es, k).value.ip && t[k].port == FirstReport(es, k).value.port
                && t[k].load == LastReport(es, k).value.load && t[k].loadMax == LastReport(es, k).value.loadMax
                && (HasRoom(t[k]) <==> CanGive(es, k))
    {
      RowsAsReported(es, k);
    }
    if k :| k in t && t[k].loadMax > 0 && HasRoom(t[k]) {
      assert CanGive(es, k);
    }
  }

  class Server {
    const table: LTable.LTable
    /** SlaveMgr::m_mapSlaves, by link; the value is the slave's name. */
    var slaves: map<int, string>
    /** The reports written to each open link and not yet read at its other end. */
    var out: map<int, seq<LoadTable.Report>>
    /** m_queryRes.res, which nothing sends. */
    var queryOk: bool
    /** The table at the other end of each slave's link. */
    ghost var replicas: map<int, Table>

    ghost predicate Linked()
      reads this
    {
      && slaves.Keys <= out.Keys && slaves.Keys == replicas.Keys
      && (forall id :: id in out ==> ReportsOk(out[id]) && (id !in slaves ==> out[id] == []))
    }

    ghost predicate Valid()
      reads this, table, table.m_mapItems.Values
    {
      table.Valid() && Linked()
    }

    /** The server and its slaves as one system. */
    ghost function State(): (s: System)
      requires Linked()
      reads this, table, table.m_mapItems.Values
      ensures ChannelsOk(s) && s.master == table.Rows()
    {
      System(table.Rows(), SlavesOf(slaves.Keys, replicas, out))
    }

    constructor ()
      ensures Valid() && fresh(table) && State() == System(map[], map[]) && out == map[]
    {
      table := new LTable.LTable();
      slaves, out, queryOk, replicas := map[], map[], false, map[];
    }

    /** A client or slave connects. */
    method Accept(linkid: int)
      requires Valid() && linkid !in out
      modifies this
      ensures Valid() && out == old(out)[linkid := []] && State() == old(State())
    {
      hide SlavesOf, ReportsOk, LTable.LTable.Valid, LTable.LTable.Rows;
      OtherLink(slaves.Keys, replicas, out, linkid);
      assert ReportsOk([]) by {
        NoReports();
      }
      out := out[linkid := []];
    }

    /** Applies the report, then copies the same report to every slave. */
    method OnLTReport(r: LoadTable.Report)
      requires Valid() && InRange(r.load)
      modifies this`out, table, table.m_mapItems.Values
      ensures Valid() && State() == Apply(old(State()), Event.Report(r))
      ensures out.Keys == old(out.Keys)
      ensures forall k :: k in table.m_mapItems ==> table.m_mapItems[k] in old(table.m_mapItems.Values) || fresh(table.m_mapItems[k])
    {
      hide AddRow, InRange, SlavesOf, LTable.LTable.Valid, LTable.LTable.Rows;
      table.AddRow(r);
      SentToSlaves(slaves.Keys, replicas, out, r);
      Send(r);
    }

    method Send(r: LoadTable.Report)
      requires slaves.Keys <= out.Keys
      modifies this`out
      ensures out == SentTo(old(out), slaves.Keys, r)
    {
      var rest := slaves.Keys;
      assert SentTo(out, {}, r) == out;
      while rest != {}
        invariant rest <= slaves.Keys
        invariant out == SentTo(old(out), slaves.Keys - rest, r)
        decreases rest
      {
        var id :| id in rest && forall j :: j in rest ==> id <= j by {
          var least := LeastInt(rest);
        }
        out := out[id := out[id] + [r]];
        rest := rest - {id};
      }
      assert slaves.Keys - {} == slaves.Keys;
    }

    /** A link asks to be a slave; t is the table it brings along. Asking again only renames it. */
    method OnLTRegSlaveReq(linkid: int, name: string, ghost t: Table)
      requires Valid() && linkid in out
      modifies this`slaves, this`replicas
      ensures Valid() && State() == Apply(old(State()), Register(linkid, t))
      ensures slaves == old(slaves)[linkid := name]
    {
      hide SlavesOf, ReportsOk, Apply, LTable.LTable.Valid, LTable.LTable.Rows;
      OneSlaveSteps(State(), linkid, t);
      if linkid !in slaves {
        OneSlave(slaves.Keys, replicas, out, linkid, t, []);
        assert out[linkid := []] == out;
        replicas := replicas[linkid := t];
        assert slaves[linkid := name].Keys == slaves.Keys + {linkid};
      } else {
        assert slaves[linkid := name].Keys == slaves.Keys;
      }
      slaves := slaves[linkid := name];
    }

    /** The query of the load table. Its result is only stored. */
    method OnLTQueryReq()
      requires Valid()
      modifies this`queryOk, table.m_mapItems.Values
      ensures Valid() && State() == Apply(old(State()), MasterQuery)
      ensures queryOk <==> Answer(old(table.Rows())) != Fail
    {
      hide Take, Pick, LTable.LTable.Valid, LTable.LTable.Rows;
      var item := table.Query();
      queryOk := item != null;
    }

    /** The same query, answered with the row found. */
    method OnLTQueryJsonReq() returns (res: QueryAnswer)
      requires Valid()
      modifies table.m_mapItems.Values
      ensures Valid() && State() == Apply(old(State()), MasterQuery)
      ensures res == Answer(old(table.Rows()))
    {
      hide Take, Pick, LTable.LTable.Valid, LTable.LTable.Rows;
      var item := table.Query();
      table.RowOf(if item == null then "" else item.key);
      if item == null {
        return Fail;
      }
      TakeKeepsLoads(old(table.Rows()), item.key);
      return Found(item.ip, item.port, item.load, item.load_max);
    }

    method OnDisconnect(linkid: int)
      requires Valid()
      modifies this
      ensures Valid() && State() == Apply(old(State()), Disconnect(linkid))
      ensures out == old(out) - {linkid}
    {
      hide SlavesOf, ReportsOk, Apply, LTable.LTable.Valid, LTable.LTable.Rows;
      OneSlaveSteps(State(), linkid, map[]);
      OneSlaveLess(slaves.Keys, replicas, out, linkid);
      slaves := slaves - {linkid};
      out := out - {linkid};
      replicas := replicas - {linkid};
      assert slaves.Keys == old(slaves.Keys) - {linkid};
    }

    /** Whether another server stands at the other end of a slave's link. */
    ghost predicate Peer(linkid: int, slave: Server)
      reads this, table, table.m_mapItems.Values, slave, slave.table, slave.table.m_mapItems.Values
    {
      && slave.Valid() && slave != this && slave.table != table
      && table.m_mapItems.Values !! slave.table.m_mapItems.Values
      && linkid in slaves && linkid in replicas && replicas[linkid] == slave.table.Rows()
    }

    /** The oldest report in flight is read off the link by the slave. */
    method ReadReport(linkid: int) returns (r: LoadTable.Report)
      requires Valid() && linkid in slaves && out[linkid] != []
      modifies this`out, this`replicas
      ensures Valid() && r == old(out[linkid])[0] && InRange(r.load)
      ensures replicas == old(replicas)[linkid := AddRow(old(replicas[linkid]), r)]
      ensures State() == Apply(old(State()), Event.Deliver(linkid))
    {
      hide AddRow, InRange, SlavesOf, Apply, LTable.LTable.Valid, LTable.LTable.Rows;
      OneSlaveSteps(State(), linkid, map[]);
      r := out[linkid][0];
      OneSlave(slaves.Keys, replicas, out, linkid, AddRow(replicas[linkid], r), out[linkid][1..]);
      assert slaves.Keys + {linkid} == slaves.Keys;
      out := out[linkid := out[linkid][1..]];
      replicas := replicas[linkid := AddRow(replicas[linkid], r)];
    }

    /** The slave is a server itself and handles the report as one. */
    method Deliver(linkid: int, slave: Server)
      requires Valid() && Peer(linkid, slave) && out[linkid] != []
      modifies this`out, this`replicas, slave`out, slave.table, slave.table.m_mapItems.Values
      ensures Valid() && Peer(linkid, slave)
      ensures State() == Apply(old(State()), Event.Deliver(linkid))
      ensures slave.State() == Apply(old(slave.State()), Event.Report(old(out[linkid][0])))
    {
      hide AddRow, InRange, SlavesOf, Apply, ReportsOk, Linked, State, LTable.LTable.Valid, LTable.LTable.Rows;
      var r := ReadReport(linkid);
      slave.OnLTReport(r);
      slave.MasterAfterReport(old(slave.State()), r);
    }

    /** What a query at a slave does to the system its master sees. */
    ghost method QueriedAt(linkid: int)
      requires Valid() && linkid in slaves
      modifies this`replicas
      ensures Valid() && replicas == old(replicas)[linkid := Take(old(replicas[linkid]))]
      ensures State() == Apply(old(State()), SlaveQuery(linkid))
    {
      hide Take, Pick, SlavesOf, Apply, ReportsOk, LTable.LTable.Valid, LTable.LTable.Rows;
      OneSlaveSteps(State(), linkid, map[]);
      OneSlave(slaves.Keys, replicas, out, linkid, Take(replicas[linkid]), out[linkid]);
      assert slaves.Keys + {linkid} == slaves.Keys && out[linkid := out[linkid]] == out;
      replicas := replicas[linkid := Take(replicas[linkid])];
    }

    method QueryAtSlave(linkid: int, slave: Server)
      requires Valid() && Peer(linkid, slave)
      modifies this`replicas, slave`queryOk, slave.table.m_mapItems.Values
      ensures Valid() && Peer(linkid, slave)
      ensures State() == Apply(old(State()), SlaveQuery(linkid))
      ensures slave.State() == Apply(old(slave.State()), MasterQuery)
    {
      hide Take, Pick, SlavesOf, Apply, ReportsOk, Answer, Linked, State, LTable.LTable.Valid, LTable.LTable.Rows;
      QueriedAt(linkid);
      slave.OnLTQueryReq();
      slave.MasterAfterQuery(old(slave.State()));
    }

    lemma MasterAfterReport(before: System, r: LoadTable.Report)
      requires Linked() && ChannelsOk(before) && InRange(r.load) && State() == Apply(before, Event.Report(r))
      ensures table.Rows() == AddRow(before.master, r)
    {
    }

    lemma MasterAfterQuery(before: System)
      requires Linked() && ChannelsOk(before) && State() == Apply(before, MasterQuery)
      ensures table.Rows() == Take(before.master)
    {
    }
  }

  lemma TakeKeepsLoads(t: Table, k: string)
    requires k in Take(t)
    ensures k in t && Take(t)[k].ip == t[k].ip && Take(t)[k].port == t[k].port
    ensures Take(t)[k].load == t[k].load && Take(t)[k].loadMax == t[k].loadMax
  {
  }
}
