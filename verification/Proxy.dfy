/**
 mcproxy as a value: the cache of pre-allocated units, the parked links, and what its two handlers
 do to them and send.
 */
module Proxy {
  import opened Common
  import opened Keys
  import MCenter

  const CACHE_EXPIRE_INTERVAL := 20
  const CACHE_SIZE := 300
  const CACHE_MINIMAL := 50

  /** The packet a client is answered with. */
  datatype AllocRes = AllocRes(res: int, ip: string, port: Int16, isp1: bv32, area1: Int32, isp2: bv32, area2: Int32)

  // ---------------------------------------------------------------- one key's list

  datatype Item = Item(stamp: int, remain: int, msg: AllocRes)

  /** No item is ever left with nothing remaining. */
  predicate Positive(items: seq<Item>) {
    forall i :: 0 <= i < |items| ==> items[i].remain > 0
  }

  /** Where get() looks there is something to give. */
  predicate HeadHasUnits(items: seq<Item>) {
    items != [] ==> items[0].remain > 0
  }

  function Units(items: seq<Item>): int {
    if items == [] then 0 else Units(items[..|items| - 1]) + items[|items| - 1].remain
  }

  /** get(): one unit of the oldest item. */
  function AfterGet(items: seq<Item>): seq<Item> {
    if items == [] then []
    else if items[0].remain - 1 <= 0 then items[1..]
    else [items[0].(remain := items[0].remain - 1)] + items[1..]
  }

  predicate Expired(item: Item, now: int) {
    item.stamp + CACHE_EXPIRE_INTERVAL < now
  }

  /** The first expired item, or the length if there is none. */
  function FirstExpired(items: seq<Item>, now: int): (i: nat)
    ensures i <= |items| && (i < |items| ==> Expired(items[i], now))
    ensures forall j :: 0 <= j < i ==> !Expired(items[j], now)
  {
    if items == [] then 0
    else if Expired(items[0], now) then 0
    else 1 + FirstExpired(items[1..], now)
  }

  /** clearExpire(): at most one item goes, the first expired one. */
  function AfterSweep(items: seq<Item>, now: int): seq<Item> {
    var i := FirstExpired(items, now);
    if i < |items| then items[..i] + items[i + 1..] else items
  }

  function SweptUnits(items: seq<Item>, now: int): int {
    var i := FirstExpired(items, now);
    if i < |items| then items[i].remain else 0
  }

  lemma {:induction false} UnitsConcat(a: seq<Item>, b: seq<Item>)
    ensures Units(a + b) == Units(a) + Units(b)
  {
    if b == [] {
      assert a + b == a;
    } else {
      assert (a + b)[..|a + b| - 1] == a + b[..|b| - 1];
      UnitsConcat(a, b[..|b| - 1]);
    }
  }

  lemma UnitsOne(x: Item)
    ensures Units([x]) == x.remain
  {
    assert [x][..0] == [];
  }

  lemma {:induction false} UnitsPositive(items: seq<Item>)
    requires Positive(items)
    ensures Units(items) >= |items|
  {
    if items != [] {
      UnitsPositive(items[..|items| - 1]);
    }
  }

  /** A get takes exactly one unit, and fails exactly when there is none. */
  lemma GetTakesOne(items: seq<Item>)
    requires Positive(items)
    ensures Positive(AfterGet(items))
    ensures items == [] <==> Units(items) == 0
    ensures items != [] ==> Units(AfterGet(items)) == Units(items) - 1
  {
    UnitsPositive(items);
    if items != [] {
      var x := items[0];
      assert items == [x] + items[1..];
      UnitsOne(x);
      UnitsConcat([x], items[1..]);
      if x.remain > 1 {
        UnitsOne(x.(remain := x.remain - 1));
        UnitsConcat([x.(remain := x.remain - 1)], items[1..]);
      }
    }
  }

  lemma UnitsAround(items: seq<Item>, i: nat)
    requires i < |items|
    ensures Units(items) == Units(items[..i] + items[i + 1..]) + items[i].remain
  {
    hide Units;
    assert items == items[..i] + ([items[i]] + items[i + 1..]);
    UnitsOne(items[i]);
    UnitsConcat([items[i]], items[i + 1..]);
    UnitsConcat(items[..i], [items[i]] + items[i + 1..]);
    UnitsConcat(items[..i], items[i + 1..]);
  }

  lemma SweepTakes(items: seq<Item>, now: int)
    requires Positive(items)
    ensures Positive(AfterSweep(items, now))
    ensures Units(AfterSweep(items, now)) == Units(items) - SweptUnits(items, now)
    ensures SweptUnits(items, now) >= 0
  {
    hide FirstExpired, Units;
    var i := FirstExpired(items, now);
    if i < |items| {
      UnitsAround(items, i);
    }
  }

  /** For twenty seconds after its stamp an item is safe from every sweep. */
  lemma YoungItemsStay(items: seq<Item>, now: int, x: Item)
    requires x in items && now <= x.stamp + 20
    ensures x in AfterSweep(items, now)
  {
    var i := FirstExpired(items, now);
    if i < |items| {
      assert items == items[..i] + [items[i]] + items[i + 1..];
    }
  }

  lemma AddGives(items: seq<Item>, x: Item)
    requires Positive(items) && x.remain > 0
    ensures Positive(items + [x]) && Units(items + [x]) == Units(items) + x.remain
  {
    UnitsOne(x);
    UnitsConcat(items, [x]);
  }

  // ---------------------------------------------------------------- runs of one list

  datatype ListOp = Add(stamp: int, num: int, msg: AllocRes) | Get | Sweep(now: int)

  function AfterOp(items: seq<Item>, op: ListOp): seq<Item> {
    match op
    case Add(stamp, num, msg) => items + [Item(stamp, num, msg)]
    case Get => AfterGet(items)
    case Sweep(now) => AfterSweep(items, now)
  }

  function Onwards(items: seq<Item>, ops: seq<ListOp>): seq<Item> {
    if ops == [] then items else AfterOp(Onwards(items, ops[..|ops| - 1]), ops[|ops| - 1])
  }

  /** What a new list has become. */
  function ListRun(ops: seq<ListOp>): seq<Item> {
    Onwards([], ops)
  }

  predicate NumsPositive(ops: seq<ListOp>) {
    forall i :: 0 <= i < |ops| && ops[i].Add? ==> ops[i].num > 0
  }

  predicate ClockMonotone(ops: seq<ListOp>) {
    forall i, j :: 0 <= i < j < |ops| && ops[i].Add? && ops[j].Add? ==> ops[i].stamp <= ops[j].stamp
  }

  predicate Sorted(items: seq<Item>) {
    forall i, j :: 0 <= i < j < |items| ==> items[i].stamp <= items[j].stamp
  }

  predicate UpTo(items: seq<Item>, latest: int) {
    forall i :: 0 <= i < |items| ==> items[i].stamp <= latest
  }

  /** In a sorted list the first expired item is the head. */
  lemma SweepTakesHead(items: seq<Item>, now: int)
    requires Sorted(items)
    ensures if items != [] && Expired(items[0], now) then AfterSweep(items, now) == items[1..]
            else AfterSweep(items, now) == items
  {
    assert forall j :: 0 < j < |items| ==> items[0].stamp <= items[j].stamp;
  }

  lemma StepKeepsSorted(items: seq<Item>, latest: int, now: int)
    requires Sorted(items) && UpTo(items, latest)
    ensures Sorted(AfterGet(items)) && UpTo(AfterGet(items), latest)
    ensures Sorted(AfterSweep(items, now)) && UpTo(AfterSweep(items, now), latest)
  {
    hide FirstExpired, AfterSweep;
    SweepTakesHead(items, now);
  }

  /**
   In every reachable list each item has units left, so the branches of get that erase an item and
   then step the erased iterator are never taken; and with a monotone clock the list is sorted by age.
   */
  lemma {:induction false} ReachableLists(ops: seq<ListOp>, latest: int)
    requires NumsPositive(ops) && ClockMonotone(ops)
    requires forall i :: 0 <= i < |ops| && ops[i].Add? ==> ops[i].stamp <= latest
    ensures Positive(ListRun(ops)) && Sorted(ListRun(ops)) && UpTo(ListRun(ops), latest)
  {
    hide AfterSweep, AfterGet;
    if ops != [] {
      var front, last := ops[..|ops| - 1], ops[|ops| - 1];
      assert forall i :: 0 <= i < |front| ==> front[i] == ops[i];
      var items := ListRun(front);
      match last
      case Add(stamp, num, msg) =>
        ReachableLists(front, stamp);
        AddGives(items, Item(stamp, num, msg));
      case Get =>
        ReachableLists(front, latest);
        GetTakesOne(items);
        StepKeepsSorted(items, latest, 0);
      case Sweep(now) =>
        ReachableLists(front, latest);
        SweepTakes(items, now);
        StepKeepsSorted(items, latest, now);
    }
  }

  /** How many items have expired; in a sorted list they come first. */
  function ExpiredCount(items: seq<Item>, now: int): (k: nat)
    ensures k <= |items|
  {
    if items == [] then 0
    else ExpiredCount(items[..|items| - 1], now) + if Expired(items[|items| - 1], now) then 1 else 0
  }

  lemma {:induction false} ExpiredFirst(items: seq<Item>, now: int)
    requires Sorted(items)
    ensures forall i :: 0 <= i < |items| ==> (Expired(items[i], now) <==> i < ExpiredCount(items, now))
  {
    if items != [] {
      var front := items[..|items| - 1];
      ExpiredFirst(front, now);
      assert forall i :: 0 <= i < |front| ==> items[i] == front[i];
    }
  }

  function SweepsIn(ops: seq<ListOp>): nat {
    if ops == [] then 0 else SweepsIn(ops[..|ops| - 1]) + if ops[|ops| - 1].Sweep? then 1 else 0
  }

  /** Everything in ops happens at the time now or later, by a clock that does not go back. */
  predicate From(ops: seq<ListOp>, now: int) {
    && ClockMonotone(ops)
    && forall i :: 0 <= i < |ops| ==> (ops[i].Add? ==> now <= ops[i].stamp) && (ops[i].Sweep? ==> now <= ops[i].now)
  }

  lemma ExpiredAfterAdd(items: seq<Item>, x: Item, now: int)
    requires now <= x.stamp
    ensures ExpiredCount(items + [x], now) == ExpiredCount(items, now)
  {
    assert (items + [x])[..|items|] == items;
  }

  /** Dropping the head, or running it down, leaves no more expired items, and one fewer if the head had expired. */
  lemma {:induction false} ExpiredTail(items: seq<Item>, now: int)
    requires items != []
    ensures ExpiredCount(items, now) == ExpiredCount(items[1..], now) + if Expired(items[0], now) then 1 else 0
  {
    if |items| > 1 {
      var front := items[..|items| - 1];
      ExpiredTail(front, now);
      assert items[1..][..|items| - 2] == front[1..];
    }
  }

  lemma ExpiredAfterGet(items: seq<Item>, now: int)
    ensures ExpiredCount(AfterGet(items), now) <= ExpiredCount(items, now)
  {
    if items != [] {
      var head := items[0].(remain := items[0].remain - 1);
      ExpiredTail(items, now);
      ExpiredTail([head] + items[1..], now);
    }
  }

  lemma ExpiredAfterSweep(items: seq<Item>, now: int, stamp: int)
    requires Sorted(items) && now <= stamp
    ensures ExpiredCount(AfterSweep(items, stamp), now) <= Max(0, ExpiredCount(items, now) - 1)
  {
    hide AfterSweep;
    SweepTakesHead(items, stamp);
    ExpiredFirst(items, now);
    if items != [] {
      ExpiredTail(items, now);
    }
  }

  /**
   Each sweep removes one item at most, but the items expired at some moment are all gone once as
   many sweeps have come as there were of them, whatever units are taken and added meanwhile.
   */
  lemma {:induction false} ExpiredItemsSwept(items: seq<Item>, ops: seq<ListOp>, now: int, latest: int)
    requires Sorted(items) && UpTo(items, now) && From(ops, now) && now <= latest
    requires forall i :: 0 <= i < |ops| && ops[i].Add? ==> ops[i].stamp <= latest
    ensures Sorted(Onwards(items, ops)) && UpTo(Onwards(items, ops), latest)
    ensures ExpiredCount(Onwards(items, ops), now) <= Max(0, ExpiredCount(items, now) - SweepsIn(ops))
    ensures SweepsIn(ops) >= ExpiredCount(items, now) ==> forall x :: x in Onwards(items, ops) ==> now <= x.stamp + 20
  {
    hide AfterSweep, AfterGet, ExpiredCount;
    if ops != [] {
      var front, last := ops[..|ops| - 1], ops[|ops| - 1];
      assert forall i :: 0 <= i < |front| ==> front[i] == ops[i];
      var before := Onwards(items, front);
      var bound := if last.Add? then last.stamp else latest;
      ExpiredItemsSwept(items, front, now, bound);
      match last
      case Add(stamp, num, msg) =>
        ExpiredAfterAdd(before, Item(stamp, num, msg), now);
      case Get =>
        StepKeepsSorted(before, latest, 0);
        ExpiredAfterGet(before, now);
      case Sweep(stamp) =>
        StepKeepsSorted(before, latest, stamp);
        ExpiredAfterSweep(before, now, stamp);
    }
    ExpiredFirst(Onwards(items, ops), now);
  }

  // ---------------------------------------------------------------- the proxy

  type Caches = map<string, seq<Item>>

  function ItemsAt(cache: Caches, key: string): seq<Item> {
    if key in cache then cache[key] else []
  }

  /** What a client link is sent, and for which key. */
  datatype Answer = Answer(link: int, key: string, msg: AllocRes)

  datatype State = State(cache: Caches, pend: map<string, set<int>>)

  /** A handler's result: the new state, the requests sent to the centre, and the answers sent. */
  datatype Effect = Effect(state: State, requests: seq<MCenter.PreAllocReq>, answers: multiset<Answer>)

  function ParkedAt(pend: map<string, set<int>>, key: string): set<int> {
    if key in pend then pend[key] else {}
  }

  function Refill(q: Quad): MCenter.PreAllocReq {
    MCenter.PreAllocReq(q, CACHE_SIZE)
  }

  /** A hit is answered from the cache, with a refill at the low-water mark; a miss is parked. */
  function OnAllocReq(s: State, q: Quad, link: int): Effect {
    var key := QuadKey(q);
    var items := ItemsAt(s.cache, key);
    if items == [] then
      Effect(s.(pend := s.pend[key := ParkedAt(s.pend, key) + {link}]), [Refill(q)], multiset{})
    else
      var rest := AfterGet(items);
      Effect(s.(cache := s.cache[key := rest]),
             if Units(rest) < CACHE_MINIMAL then [Refill(q)] else [],
             multiset{Answer(link, key, items[0].msg)})
  }

  const BadGroup := AllocRes(MCenter.RES_FAIL, "", 0, 0, 0, 0, 0)

  /** The cached packet; its second ISP and area are copies of the first. */
  function Packet(res: MCenter.PreAllocRes): AllocRes {
    AllocRes(MCenter.RES_OK, res.ip, res.port, res.quad.isp1, res.quad.area1, res.quad.isp1, res.quad.area1)
  }

  /** One answer for each link. */
  function FanOut(links: set<int>, key: string, msg: AllocRes): multiset<Answer> {
    multiset(set l | l in links :: Answer(l, key, msg))
  }

  /** A reply stocks the cache if it grants, and answers everything parked under its key. */
  function OnPreAllocRes(s: State, res: MCenter.PreAllocRes, now: int): Effect {
    var key := QuadKey(res.quad);
    var links := ParkedAt(s.pend, key);
    if res.res != MCenter.RES_OK then
      Effect(s.(pend := s.pend - {key}), [], FanOut(links, key, BadGroup))
    else
      var items := ItemsAt(s.cache, key) + [Item(now, res.num, Packet(res))];
      Effect(State(s.cache[key := items], s.pend - {key}), [], FanOut(links, key, Packet(res)))
  }

  function OnTimer(s: State, now: int): State {
    s.(cache := map k | k in s.cache :: AfterSweep(s.cache[k], now))
  }

  /** Each parked link is answered exactly once, and nobody else is. */
  lemma FanOutOnce(links: set<int>, key: string, msg: AllocRes, a: Answer)
    ensures FanOut(links, key, msg)[a] == if a.link in links && a == Answer(a.link, key, msg) then 1 else 0
  {
    assert a in (set l | l in links :: Answer(l, key, msg)) <==> a.link in links && a == Answer(a.link, key, msg);
  }

  lemma FanOutNext(links: set<int>, link: int, key: string, msg: AllocRes)
    requires link !in links
    ensures FanOut(links + {link}, key, msg) == FanOut(links, key, msg) + multiset{Answer(link, key, msg)}
  {
    var a, b := (set l | l in links :: Answer(l, key, msg)), (set l | l in links + {link} :: Answer(l, key, msg));
    assert b == a + {Answer(link, key, msg)};
  }
}
