/**
 LTable of loadtable_d: row objects shared between a main map and four score buckets, moved from
 bucket to bucket as reports arrive. It is proved against the scan of LoadTable.
 */
module LTable {
  import opened Common
  import opened LoadTable

  class LTItem {
    const key: string
    var ip: string
    var port: Int16
    var load: Int32
    var load_max: Int32
    var ext: string
    var score: int
    var reserve: int

    constructor (r: Report, score: int)
      ensures key == r.key && Value() == Row(r.ip, r.port, r.load, r.loadMax, r.ext, score, 0)
    {
      key, ip, port, load, load_max, ext := r.key, r.ip, r.port, r.load, r.loadMax, r.ext;
      this.score, reserve := score, 0;
    }

    function Value(): Row
      reads this
    {
      Row(ip, port, load, load_max, ext, score, reserve)
    }
  }

  /** Every row stands under its own key; so two keys never share a row. */
  predicate OwnKeys(m: map<string, LTItem>) {
    forall k :: k in m ==> m[k].key == k
  }

  /**
   The bucket of a score: the very row objects of the main map that have this score, each under
   its own key, and no others.
   */
  ghost predicate IsBucket(bucket: map<string, LTItem>, items: map<string, LTItem>, scores: map<string, int>, score: int)
    requires items.Keys == scores.Keys
  {
    && (forall k :: k in bucket <==> k in items && scores[k] == score)
    && (forall k :: k in bucket ==> bucket[k] == items[k])
  }

  /** Filing a row under its score, after taking it out from under its old one if it had one. */
  function Refiled(bucket: map<string, LTItem>, score: int, item: LTItem, from: Option<int>, to: int): map<string, LTItem> {
    var popped := if from == Some(score) then bucket - {item.key} else bucket;
    if to == score then popped[item.key := item] else popped
  }

  lemma RefiledIsBucket(bucket: map<string, LTItem>, items: map<string, LTItem>, scores: map<string, int>, score: int,
                        item: LTItem, to: int)
    requires items.Keys == scores.Keys && IsBucket(bucket, items, scores, score)
    requires item.key in items ==> items[item.key] == item
    ensures var from := if item.key in items then Some(scores[item.key]) else None;
            IsBucket(Refiled(bucket, score, item, from, to), items[item.key := item], scores[item.key := to], score)
  {
  }

  /** The list holds the rows of t that have this score, each under its own key. */
  ghost predicate Shelf(list: map<string, LTItem>, t: Table, score: int)
    reads list.Values
  {
    && OwnKeys(list)
    && (forall k :: k in list ==> k in t && t[k] == list[k].Value() && t[k].score == score)
    && (forall k :: k in t && t[k].score == score ==> k in list)
  }

  class LTable {
    var m_mapItems: map<string, LTItem>
    var m_mapBestItems: map<string, LTItem>
    var m_mapGoodItems: map<string, LTItem>
    var m_mapOkItems: map<string, LTItem>
    var m_mapBadItems: map<string, LTItem>

    ghost function Scores(): map<string, int>
      reads this, m_mapItems.Values
    {
      map k | k in m_mapItems :: m_mapItems[k].score
    }

    ghost predicate Filed()
      reads this, m_mapItems.Values
    {
      && IsBucket(m_mapBestItems, m_mapItems, Scores(), SCORE_BEST)
      && IsBucket(m_mapGoodItems, m_mapItems, Scores(), SCORE_GOOD)
      && IsBucket(m_mapOkItems, m_mapItems, Scores(), SCORE_OK)
      && IsBucket(m_mapBadItems, m_mapItems, Scores(), SCORE_BAD)
    }

    ghost predicate Valid()
      reads this, m_mapItems.Values
    {
      OwnKeys(m_mapItems) && Consistent(Rows()) && Filed()
    }

    ghost function Rows(): Table
      reads this, m_mapItems.Values
    {
      map k | k in m_mapItems :: m_mapItems[k].Value()
    }

    constructor ()
      ensures Valid() && Rows() == map[] && m_mapItems == map[]
    {
      m_mapItems := map[];
      m_mapBestItems, m_mapGoodItems, m_mapOkItems, m_mapBadItems := map[], map[], map[], map[];
    }

    /** A report: a new row, or new loads for an old one, filed under the score they give. */
    method AddRow(r: Report)
      requires Valid() && InRange(r.load)
      modifies this, m_mapItems.Values
      ensures Valid() && Rows() == LoadTable.AddRow(old(Rows()), r)
      ensures forall k :: k in m_mapItems ==>
                (k in old(m_mapItems) && m_mapItems[k] == old(m_mapItems[k])) || fresh(m_mapItems[k])
    {
      hide IsBucket, CalcScore, Consistent, InRange, Rows, Scores;
      ReportKeepsConsistent(Rows(), r);
      RowOf(r.key);
      var score := CalcScore(r.load, r.loadMax);
      if r.key !in m_mapItems {
        var item := new LTItem(r, score);
        RefiledIn(item, score);
        m_mapItems := m_mapItems[r.key := item];
        PushItem(item);
        OneRowAdded(item);
      } else {
        UpdateRow(m_mapItems[r.key], r, score);
      }
    }

    /** The row stays where it is when its score does not change; otherwise it changes bucket. */
    method UpdateRow(item: LTItem, r: Report, score: int)
      requires Valid() && InRange(r.load) && score == CalcScore(r.load, r.loadMax)
      requires r.key in m_mapItems && m_mapItems[r.key] == item
      modifies this`m_mapBestItems, this`m_mapGoodItems, this`m_mapOkItems, this`m_mapBadItems, item
      ensures Valid() && Rows() == LoadTable.AddRow(old(Rows()), r)
    {
      hide IsBucket, CalcScore, Consistent, InRange, Rows, Scores;
      ReportKeepsConsistent(Rows(), r);
      RefiledIn(item, score);
      ghost var before := item.Value();
      assert Rows()[r.key] == before by {
        RowOf(r.key);
      }
      if score == item.score {
        item.load := r.load;
        item.load_max := r.loadMax;
        item.reserve := 0;
      } else {
        PopItem(item);
        item.load := r.load;
        item.load_max := r.loadMax;
        item.reserve := 0;
        item.score := score;
        PushItem(item);
      }
      OneRowChanged(item);
      assert m_mapItems == m_mapItems[r.key := item];
    }

    lemma RowOf(k: string)
      ensures k in m_mapItems <==> k in Rows()
      ensures k in m_mapItems ==> Rows()[k] == m_mapItems[k].Value()
    {
    }

    /** What the four buckets become when a row is filed under a score. */
    lemma RefiledIn(item: LTItem, to: int)
      requires Filed() && (item.key in m_mapItems ==> m_mapItems[item.key] == item)
      ensures var from := if item.key in m_mapItems then Some(item.score) else None;
              var items, scores := m_mapItems[item.key := item], Scores()[item.key := to];
              && IsBucket(Refiled(m_mapBestItems, SCORE_BEST, item, from, to), items, scores, SCORE_BEST)
              && IsBucket(Refiled(m_mapGoodItems, SCORE_GOOD, item, from, to), items, scores, SCORE_GOOD)
              && IsBucket(Refiled(m_mapOkItems, SCORE_OK, item, from, to), items, scores, SCORE_OK)
              && IsBucket(Refiled(m_mapBadItems, SCORE_BAD, item, from, to), items, scores, SCORE_BAD)
    {
      RefiledIsBucket(m_mapBestItems, m_mapItems, Scores(), SCORE_BEST, item, to);
      RefiledIsBucket(m_mapGoodItems, m_mapItems, Scores(), SCORE_GOOD, item, to);
      RefiledIsBucket(m_mapOkItems, m_mapItems, Scores(), SCORE_OK, item, to);
      RefiledIsBucket(m_mapBadItems, m_mapItems, Scores(), SCORE_BAD, item, to);
    }

    method PushItem(item: LTItem)
      modifies this`m_mapBestItems, this`m_mapGoodItems, this`m_mapOkItems, this`m_mapBadItems
      ensures m_mapBestItems == if item.score == SCORE_BEST then old(m_mapBestItems)[item.key := item] else old(m_mapBestItems)
      ensures m_mapGoodItems == if item.score == SCORE_GOOD then old(m_mapGoodItems)[item.key := item] else old(m_mapGoodItems)
      ensures m_mapOkItems == if item.score == SCORE_OK then old(m_mapOkItems)[item.key := item] else old(m_mapOkItems)
      ensures m_mapBadItems == if item.score == SCORE_BAD then old(m_mapBadItems)[item.key := item] else old(m_mapBadItems)
    {
      if item.score == SCORE_BEST {
        m_mapBestItems := m_mapBestItems[item.key := item];
      } else if item.score == SCORE_GOOD {
        m_mapGoodItems := m_mapGoodItems[item.key := item];
      } else if item.score == SCORE_OK {
        m_mapOkItems := m_mapOkItems[item.key := item];
      } else if item.score == SCORE_BAD {
        m_mapBadItems := m_mapBadItems[item.key := item];
      }
    }

    method PopItem(item: LTItem)
      modifies this`m_mapBestItems, this`m_mapGoodItems, this`m_mapOkItems, this`m_mapBadItems
      ensures m_mapBestItems == if item.score == SCORE_BEST then old(m_mapBestItems) - {item.key} else old(m_mapBestItems)
      ensures m_mapGoodItems == if item.score == SCORE_GOOD then old(m_mapGoodItems) - {item.key} else old(m_mapGoodItems)
      ensures m_mapOkItems == if item.score == SCORE_OK then old(m_mapOkItems) - {item.key} else old(m_mapOkItems)
      ensures m_mapBadItems == if item.score == SCORE_BAD then old(m_mapBadItems) - {item.key} else old(m_mapBadItems)
    {
      if item.score == SCORE_BEST {
        m_mapBestItems := m_mapBestItems - {item.key};
      } else if item.score == SCORE_GOOD {
        m_mapGoodItems := m_mapGoodItems - {item.key};
      } else if item.score == SCORE_OK {
        m_mapOkItems := m_mapOkItems - {item.key};
      } else if item.score == SCORE_BAD {
        m_mapBadItems := m_mapBadItems - {item.key};
      }
    }

    /**
     The first row with room, in key order, gets one more reservation. The list is the bucket of
     a score; t is the whole table before the call.
     */
    method QueryInList(list: map<string, LTItem>, ghost t: Table, ghost score: int) returns (item: LTItem?)
      requires Shelf(list, t, score)
      modifies list.Values
      ensures item == null ==> NoRoomIn(t, score) && unchanged(list.Values)
      ensures item != null ==>
                && item.key in list && list[item.key] == item && FirstWithRoom(t, item.key, score)
                && item.Value() == old(item.Value()).(reserve := old(item.reserve) + 1)
                && unchanged(list.Values - {item})
    {
      hide StrLe;
      var rest := list.Keys;
      while rest != {}
        invariant rest <= list.Keys
        invariant forall k :: k in list && k !in rest ==> !HasRoom(t[k])
        invariant unchanged(list.Values)
        decreases rest
      {
        ghost var least := LeastStrExists(rest);
        var k :| k in rest && forall j :: j in rest ==> StrLe(k, j);
        assert t[k] == list[k].Value();
        if list[k].load + list[k].reserve < list[k].load_max {
          assert FirstWithRoom(t, k, score) by {
            forall j | j in t && t[j].score == score && HasRoom(t[j]) ensures StrLe(k, j) {
              assert j in list;
            }
          }
          list[k].reserve := list[k].reserve + 1;
          return list[k];
        }
        rest := rest - {k};
      }
      return null;
    }

    /** NULL when the scan finds nothing; otherwise the scan's choice, with one more reservation. */
    method Query() returns (item: LTItem?)
      requires Valid()
      modifies m_mapItems.Values
      ensures Valid() && Rows() == Take(old(Rows()))
      ensures item == null <==> Pick(old(Rows())) == None
      ensures item != null ==>
                && Pick(old(Rows())) == Some(item.key)
                && item.key in m_mapItems && m_mapItems[item.key] == item
    {
      hide Consistent, FirstWithRoom, NoRoomIn, Pick, Take, Shelf, Rows, IsBucket, OwnKeys, Best, LTItem.Value;
      BucketsOfRows();
      ghost var t := Rows();
      item := QueryInList(m_mapBestItems, t, SCORE_BEST);
      if item == null {
        item := QueryInList(m_mapGoodItems, t, SCORE_GOOD);
        if item == null {
          item := QueryInList(m_mapOkItems, t, SCORE_OK);
          if item == null {
            NothingFound(t);
            return;
          }
        }
      }
      FoundIsBest(t, item.key);
      Found(item);
    }

    /** The buckets hold the rows of their class, as objects of the main map. */
    lemma BucketsOfRows()
      requires Valid()
      ensures Shelf(m_mapBestItems, Rows(), SCORE_BEST) && OnShelf(m_mapBestItems)
      ensures Shelf(m_mapGoodItems, Rows(), SCORE_GOOD) && OnShelf(m_mapGoodItems)
      ensures Shelf(m_mapOkItems, Rows(), SCORE_OK) && OnShelf(m_mapOkItems)
    {
      hide Consistent;
    }

    ghost predicate OnShelf(list: map<string, LTItem>)
      reads this
    {
      && list.Values <= m_mapItems.Values
      && forall k :: k in list ==> k in m_mapItems && m_mapItems[k] == list[k]
    }

    /** The row found is the scan's choice, and its new reservation is all that changed. */
    twostate lemma Found(item: LTItem)
      requires old(Valid()) && unchanged(this)
      requires item.key in m_mapItems && m_mapItems[item.key] == item
      requires Best(old(Rows()), item.key)
      requires item.Value() == old(item.Value()).(reserve := old(item.reserve) + 1)
      requires unchanged(m_mapItems.Values - {item})
      ensures Valid() && Rows() == Take(old(Rows())) && Pick(old(Rows())) == Some(item.key)
    {
      hide CalcScore, StrLe, IsBucket, RowOk, Best, InRange, Scores;
      var t := old(Rows());
      PickIsBest(t, item.key);
      TakeKeepsConsistent(t);
      OneRowChanged(item);
    }

    /** Adding a row object adds one row. */
    twostate lemma OneRowAdded(new item: LTItem)
      requires item.key !in old(m_mapItems) && m_mapItems == old(m_mapItems)[item.key := item]
      requires unchanged(old(m_mapItems).Values)
      ensures Rows() == old(Rows())[item.key := item.Value()]
      ensures Scores() == old(Scores())[item.key := item.score]
    {
    }

    /** Changing one row object changes one row. */
    twostate lemma OneRowChanged(item: LTItem)
      requires old(OwnKeys(m_mapItems)) && unchanged(this`m_mapItems)
      requires item.key in m_mapItems && m_mapItems[item.key] == item
      requires unchanged(m_mapItems.Values - {item})
      ensures Rows() == old(Rows())[item.key := item.Value()]
      ensures Scores() == old(Scores())[item.key := item.score]
      ensures item.score == old(item.score) ==> Scores() == old(Scores())
    {
    }
  }
}
