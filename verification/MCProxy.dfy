/**
 mcproxy itself: cache items whose counters run down in place, lists of them by key, parked links,
 and the two handlers. Proved against the values of Proxy.
 */
module MCProxy {
  import opened Common
  import opened Keys
  import opened Proxy
  import MCenter

  class CacheItem {
    const stamp: int
    const msg: AllocRes
    var remain: int

    constructor (stamp: int, remain: int, msg: AllocRes)
      ensures Value() == Item(stamp, remain, msg)
    {
      this.stamp, this.remain, this.msg := stamp, remain, msg;
    }

    function Value(): Item
      reads this
    {
      Item(stamp, remain, msg)
    }
  }

  ghost function ValuesOf(items: seq<CacheItem>): (r: seq<Item>)
    reads items
    ensures |r| == |items| && forall i :: 0 <= i < |items| ==> r[i] == items[i].Value()
  {
    if items == [] then [] else ValuesOf(items[..|items| - 1]) + [items[|items| - 1].Value()]
  }

  class CacheList {
    var items: seq<CacheItem>
    /** This list and every item it has held. */
    ghost var Repr: set<object>

    ghost predicate Valid()
      reads this, Repr
      ensures Valid() ==> this in Repr
    {
      && this in Repr
      && (forall i :: 0 <= i < |items| ==> items[i] in Repr)
      && (forall i, j :: 0 <= i < j < |items| ==> items[i] != items[j])
    }

    ghost function Contents(): seq<Item>
      requires Valid()
      reads this, Repr
    {
      ValuesOf(items)
    }

    constructor ()
      ensures Valid() && Contents() == [] && fresh(Repr)
    {
      items := [];
      Repr := {this};
    }

    method Add(stamp: int, num: int, msg: AllocRes)
      requires Valid()
      modifies this
      ensures Valid() && fresh(Repr - old(Repr)) && old(Repr) <= Repr
      ensures Contents() == old(Contents()) + [Item(stamp, num, msg)]
    {
      hide ValuesOf;
      var item := new CacheItem(stamp, num, msg);
      items := items + [item];
      Repr := Repr + {item};
      assert ValuesOf(items) == old(ValuesOf(items)) + [item.Value()];
    }

    /**
     One unit of the oldest item; null exactly when the list is empty. An item with nothing left at
     the head would be erased and the iterator to it stepped, which is undefined; ReachableLists
     shows that there never is one.
     */
    method Get() returns (item: CacheItem?)
      requires Valid() && HeadHasUnits(Contents())
      modifies Repr
      ensures Valid() && Repr == old(Repr) && Contents() == AfterGet(old(Contents()))
      ensures item == null <==> old(Contents()) == []
      ensures item != null ==> item.msg == old(Contents())[0].msg
    {
      hide ValuesOf;
      if items == [] {
        return null;
      }
      item := items[0];
      assert item.Value() == ValuesOf(items)[0];
      item.remain := item.remain - 1;
      if item.remain <= 0 {
        items := items[1..];
      }
      assert ValuesOf(items) == AfterGet(old(ValuesOf(items)));
    }

    method Size() returns (count: int)
      requires Valid()
      ensures count == Units(Contents())
    {
      count := 0;
      for i := 0 to |items|
        invariant count == Units(Contents()[..i])
      {
        assert Contents()[..i + 1][..i] == Contents()[..i];
        count := count + items[i].remain;
      }
      assert Contents()[..|items|] == Contents();
    }

    /** Removes at most one item, the first that has expired. */
    method ClearExpire(now: int)
      requires Valid()
      modifies this`items
      ensures Valid() && Contents() == AfterSweep(old(Contents()), now)
    {
      hide FirstExpired, ValuesOf;
      for i := 0 to |items|
        invariant items == old(items)
        invariant forall j :: 0 <= j < i ==> !Expired(Contents()[j], now)
      {
        if items[i].stamp + CACHE_EXPIRE_INTERVAL < now {
          FirstExpiredIs(Contents(), now, i);
          Erase(i);
          return;
        }
      }
      FirstExpiredIs(Contents(), now, |items|);
    }

    method Erase(i: nat)
      requires Valid() && i < |items|
      modifies this`items
      ensures Valid() && Contents() == old(Contents())[..i] + old(Contents())[i + 1..]
    {
      hide ValuesOf;
      items := items[..i] + items[i + 1..];
      assert ValuesOf(items) == old(ValuesOf(items))[..i] + old(ValuesOf(items))[i + 1..];
    }
  }

  lemma FirstExpiredIs(items: seq<Item>, now: int, i: nat)
    requires i <= |items| && (i < |items| ==> Expired(items[i], now))
    requires forall j :: 0 <= j < i ==> !Expired(items[j], now)
    ensures FirstExpired(items, now) == i
  {
  }

  class Cache {
    var lists: map<string, CacheList>
    /** This cache, its lists, and their items. */
    ghost var Repr: set<object>

    ghost predicate Valid()
      reads this, Repr
      ensures Valid() ==> this in Repr
    {
      && this in Repr
      && (forall k :: k in lists ==> lists[k] in Repr && lists[k].Repr <= Repr && this !in lists[k].Repr)
      && (forall k :: k in lists ==> lists[k].Valid())
      && (forall j, k :: j in lists && k in lists && j != k ==> lists[j].Repr !! lists[k].Repr)
    }

    ghost function Contents(): Caches
      requires Valid()
      reads this, Repr
    {
      map k | k in lists :: lists[k].Contents()
    }

    constructor ()
      ensures Valid() && Contents() == map[] && fresh(Repr)
    {
      lists := map[];
      Repr := {this};
    }

    method Add(key: string, stamp: int, num: int, msg: AllocRes)
      requires Valid()
      modifies Repr
      ensures Valid() && fresh(Repr - old(Repr))
      ensures Contents() == old(Contents())[key := ItemsAt(old(Contents()), key) + [Item(stamp, num, msg)]]
    {
      hide CacheList.Valid, CacheList.Contents;
      if key !in lists {
        NewList(key);
      }
      AddTo(key, stamp, num, msg);
    }

    method AddTo(key: string, stamp: int, num: int, msg: AllocRes)
      requires Valid() && key in lists
      modifies Repr
      ensures Valid() && fresh(Repr - old(Repr))
      ensures key in old(Contents())
      ensures Contents() == old(Contents())[key := old(Contents())[key] + [Item(stamp, num, msg)]]
    {
      hide CacheList.Valid, CacheList.Contents;
      ghost var expected := Contents()[key := Contents()[key] + [Item(stamp, num, msg)]];
      var list := lists[key];
      list.Add(stamp, num, msg);
      Repr := Repr + list.Repr;
      assert forall k :: k in lists && k != key ==> lists[k].Repr == old(lists[k].Repr) && lists[k].Repr !! list.Repr;
      ListsAre(expected);
    }

    /** The contents, list by list. */
    lemma ListsAre(expected: Caches)
      requires Valid() && expected.Keys == lists.Keys && forall k :: k in lists ==> lists[k].Contents() == expected[k]
      ensures Contents() == expected
    {
    }

    method NewList(key: string)
      requires Valid() && key !in lists
      modifies this
      ensures Valid() && fresh(Repr - old(Repr)) && old(Repr) <= Repr
      ensures key in lists && Contents() == old(Contents())[key := []]
    {
      hide CacheList.Valid, CacheList.Contents;
      ghost var expected := Contents()[key := []];
      var list := new CacheList();
      assert list.Repr !! Repr;
      lists := lists[key := list];
      Repr := Repr + list.Repr;
      assert forall k :: k in lists && k != key ==> lists[k].Repr <= old(Repr);
      ListsAre(expected);
    }

    /** The packet of one unit; None stands for the empty string. */
    method Get(key: string) returns (r: Option<AllocRes>)
      requires Valid() && HeadHasUnits(ItemsAt(Contents(), key))
      modifies Repr
      ensures Valid() && Repr == old(Repr)
      ensures r == None <==> ItemsAt(old(Contents()), key) == []
      ensures r.Some? ==> r.value == ItemsAt(old(Contents()), key)[0].msg
      ensures Contents() ==
              if key in old(Contents()) then old(Contents())[key := AfterGet(old(Contents())[key])] else old(Contents())
    {
      hide CacheList.Valid, CacheList.Contents, AfterGet;
      if key !in lists {
        return None;
      }
      ghost var expected := Contents()[key := AfterGet(Contents()[key])];
      var list := lists[key];
      var item := list.Get();
      assert forall k :: k in lists && k != key ==> lists[k].Repr == old(lists[k].Repr) && lists[k].Repr !! list.Repr;
      ListsAre(expected);
      r := if item == null then None else Some(item.msg);
    }

    method GetSize(key: string) returns (n: int)
      requires Valid()
      ensures n == Units(ItemsAt(Contents(), key))
    {
      if key !in lists {
        return 0;
      }
      n := lists[key].Size();
    }

    method ClearExpire(now: int)
      requires Valid()
      modifies Repr
      ensures Valid() && Repr == old(Repr)
      ensures Contents() == map k | k in old(Contents()) :: AfterSweep(old(Contents())[k], now)
    {
      hide AfterSweep, StrLe, Valid, Contents, CacheList.Valid, CacheList.Contents;
      var rest := lists.Keys;
      ghost var before, current := Contents(), Contents();
      assert rest == before.Keys by {
        SameKeys();
      }
      while rest != {}
        invariant Valid() && Repr == old(Repr) && Contents() == current
        invariant rest <= before.Keys == current.Keys
        invariant forall k :: k in before ==> current[k] == if k in rest then before[k] else AfterSweep(before[k], now)
        decreases rest
      {
        ghost var least := LeastStrExists(rest);
        var k :| k in rest && forall j :: j in rest ==> StrLe(k, j);
        ClearExpireAt(k, now);
        current := current[k := AfterSweep(current[k], now)];
        rest := rest - {k};
      }
      assert current == map k | k in before :: AfterSweep(before[k], now);
    }

    lemma SameKeys()
      requires Valid()
      ensures lists.Keys == Contents().Keys
    {
    }

    method ClearExpireAt(key: string, now: int)
      requires Valid() && key in Contents()
      modifies Repr
      ensures Valid() && Repr == old(Repr)
      ensures Contents() == old(Contents())[key := AfterSweep(old(Contents())[key], now)]
    {
      hide CacheList.Valid, CacheList.Contents, AfterSweep;
      lists[key].ClearExpire(now);
    }
  }

  class PendList {
    var mapPendLinks: map<string, set<int>>

    constructor ()
      ensures mapPendLinks == map[]
    {
      mapPendLinks := map[];
    }

    method Add(key: string, linkid: int)
      modifies this
      ensures mapPendLinks == old(mapPendLinks)[key := ParkedAt(old(mapPendLinks), key) + {linkid}]
    {
      if key !in mapPendLinks {
        var links := {};
        links := links + {linkid};
        mapPendLinks := mapPendLinks[key := links];
      } else {
        mapPendLinks := mapPendLinks[key := mapPendLinks[key] + {linkid}];
      }
    }

    method Remove(key: string)
      modifies this
      ensures mapPendLinks == old(mapPendLinks) - {key}
    {
      mapPendLinks := mapPendLinks - {key};
    }

    method Get(key: string) returns (links: set<int>)
      ensures links == ParkedAt(mapPendLinks, key)
    {
      links := if key in mapPendLinks then mapPendLinks[key] else {};
    }
  }

  class MsgHandler {
    const cache: Cache
    const pendList: PendList
    /** Requests sent to the centre, in order. */
    var toCenter: seq<MCenter.PreAllocReq>
    /** Everything sent to client links. */
    var answers: multiset<Answer>

    ghost predicate Valid()
      reads this, pendList, cache, cache.Repr
    {
      cache.Valid() && pendList !in cache.Repr && this !in cache.Repr
    }

    ghost function Contents(): State
      requires Valid()
      reads this, pendList, cache, cache.Repr
    {
      State(cache.Contents(), pendList.mapPendLinks)
    }

    constructor ()
      ensures Valid() && Contents() == State(map[], map[]) && toCenter == [] && answers == multiset{}
    {
      cache := new Cache();
      pendList := new PendList();
      toCenter, answers := [], multiset{};
    }

    /** A client asks for a group: a hit is served from the cache, a miss is parked. */
    method OnMCAllocReq(q: Quad, linkid: int)
      requires Valid() && HeadHasUnits(ItemsAt(Contents().cache, QuadKey(q)))
      modifies this, pendList, cache, cache.Repr
      ensures Valid() && cache.Repr == old(cache.Repr)
      ensures var e := OnAllocReq(old(Contents()), q, linkid);
              Contents() == e.state && toCenter == old(toCenter) + e.requests && answers == old(answers) + e.answers
    {
      hide Cache.Valid, Cache.Contents, QuadKey, AfterGet, Units;
      var strisp := QuadKey(q);
      var data := cache.Get(strisp);
      if data == None {
        assert cache.Contents() == old(cache.Contents()) by {
          NothingTaken(old(cache.Contents()), strisp);
        }
        toCenter := toCenter + [MCenter.PreAllocReq(q, CACHE_SIZE)];
        pendList.Add(strisp, linkid);
      } else {
        answers := answers + multiset{Answer(linkid, strisp, data.value)};
        var size := cache.GetSize(strisp);
        if size < CACHE_MINIMAL {
          toCenter := toCenter + [MCenter.PreAllocReq(q, CACHE_SIZE)];
        }
      }
    }

    /** The centre replies: the cache is stocked, and every parked link answered. */
    method OnMCPreAllocRes(res: MCenter.PreAllocRes, time: int)
      requires Valid()
      modifies this, pendList, cache, cache.Repr
      ensures Valid() && fresh(cache.Repr - old(cache.Repr))
      ensures var e := OnPreAllocRes(old(Contents()), res, time);
              Contents() == e.state && toCenter == old(toCenter) && answers == old(answers) + e.answers
    {
      hide Cache.Valid, Cache.Contents, QuadKey;
      var strisp := QuadKey(res.quad);
      var msg := BadGroup;
      if res.res == MCenter.RES_OK {
        msg := Packet(res);
        cache.Add(strisp, time, res.num, msg);
      }
      var links := pendList.Get(strisp);
      AnswerAll(links, strisp, msg);
      pendList.Remove(strisp);
    }

    /** Sends one packet to each link of a set, in ascending order. */
    method AnswerAll(links: set<int>, key: string, msg: AllocRes)
      modifies this`answers
      ensures answers == old(answers) + FanOut(links, key, msg)
    {
      var rest := links;
      assert FanOut({}, key, msg) == multiset{};
      while rest != {}
        invariant rest <= links
        invariant answers == old(answers) + FanOut(links - rest, key, msg)
        decreases rest
      {
        hide FanOut;
        ghost var least := LeastInt(rest);
        var link :| link in rest && forall j :: j in rest ==> link <= j;
        FanOutNext(links - rest, link, key, msg);
        assert links - (rest - {link}) == links - rest + {link};
        answers := answers + multiset{Answer(link, key, msg)};
        rest := rest - {link};
      }
      assert links - {} == links;
    }

    method OnTimer(time: int)
      requires Valid()
      modifies cache.Repr
      ensures Valid() && cache.Repr == old(cache.Repr)
      ensures Contents() == Proxy.OnTimer(old(Contents()), time)
    {
      cache.ClearExpire(time);
    }
  }

  lemma NothingTaken(cache: Caches, key: string)
    requires ItemsAt(cache, key) == []
    ensures key in cache ==> cache[key := AfterGet(cache[key])] == cache
  {
  }
}
