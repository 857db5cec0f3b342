/**
 * The read-only routes of app.py: the home page, the admin dashboard and the
 * admin's entry list. Each is a filter on the store followed by ORDER BY.
 *
 * SQL leaves the order of rows with equal sort keys open; this model breaks
 * such ties by ascending id, so each query has one answer. A descending
 * order is the ascending order of the negated key.
 */
module Listings {
  import opened Wrappers
  import opened Models
  import opened Helpers
  import Sets

  /** `a` sorts strictly before `b`: smaller key, or equal key and smaller id. */
  predicate Before(key: map<int, int>, a: int, b: int)
    requires a in key && b in key
  {
    key[a] < key[b] || (key[a] == key[b] && a < b)
  }

  predicate IsLeast(ids: set<int>, key: map<int, int>, m: int)
    requires ids <= key.Keys
  {
    m in ids && forall x :: x in ids && x != m ==> Before(key, m, x)
  }

  /** Every non-empty finite set of ids has a first element in the sort order. */
  lemma {:induction false} LeastExists(ids: set<int>, key: map<int, int>) returns (m: int)
    requires ids != {} && ids <= key.Keys
    ensures IsLeast(ids, key, m)
    decreases ids
  {
    var y := Sets.Pick(ids);
    if ids == {y} {
      m := y;
    } else {
      var rest := LeastExists(ids - {y}, key);
      if Before(key, y, rest) {
        m := y;
        forall x | x in ids && x != y ensures Before(key, y, x) {
          assert x == rest || Before(key, rest, x);
        }
      } else {
        m := rest;
        assert y != rest && Before(key, rest, y);
      }
    }
  }

  function Least(ids: set<int>, key: map<int, int>): (m: int)
    requires ids != {} && ids <= key.Keys
    ensures IsLeast(ids, key, m)
  {
    assert exists m :: IsLeast(ids, key, m) by {
      var w := LeastExists(ids, key);
    }
    var m :| IsLeast(ids, key, m);
    m
  }

  /** The ids of `ids` in ORDER BY key, id: each exactly once, strictly increasing. */
  function SortByKey(ids: set<int>, key: map<int, int>): (r: seq<int>)
    requires ids <= key.Keys
    ensures |r| == |ids|
    ensures forall i :: 0 <= i < |r| ==> r[i] in ids
    ensures forall x :: x in ids ==> x in r
    ensures forall i, j :: 0 <= i < j < |r| ==> Before(key, r[i], r[j])
    decreases ids
  {
    if ids == {} then []
    else
      var m := Least(ids, key);
      [m] + SortByKey(ids - {m}, key)
  }

  function EndDateKey(giveaways: map<int, Giveaway>): (k: map<int, int>)
    ensures k.Keys == giveaways.Keys
    ensures forall id :: id in giveaways ==> k[id] == giveaways[id].endDate
  {
    map id | id in giveaways :: giveaways[id].endDate
  }

  function NegatedEndDateKey(giveaways: map<int, Giveaway>): (k: map<int, int>)
    ensures k.Keys == giveaways.Keys
    ensures forall id :: id in giveaways ==> k[id] == -giveaways[id].endDate
  {
    map id | id in giveaways :: -giveaways[id].endDate
  }

  function ActiveIds(giveaways: map<int, Giveaway>, now: int): (r: set<int>)
    ensures r <= giveaways.Keys
    ensures forall id :: id in r <==> id in giveaways && now <= giveaways[id].endDate
  {
    set id | id in giveaways && now <= giveaways[id].endDate
  }

  function PastIds(giveaways: map<int, Giveaway>, now: int): (r: set<int>)
    ensures r <= giveaways.Keys
    ensures forall id :: id in r <==> id in giveaways && giveaways[id].endDate < now
  {
    set id | id in giveaways && giveaways[id].endDate < now
  }

  /** `filter(end_date >= now).order_by(end_date)`: the open giveaways, soonest-ending first. */
  function ActiveGiveaways(giveaways: map<int, Giveaway>, now: int): (r: seq<int>)
    ensures forall i :: 0 <= i < |r| ==> r[i] in giveaways && now <= giveaways[r[i]].endDate
    ensures forall id :: id in giveaways && now <= giveaways[id].endDate ==> id in r
    ensures forall i, j :: 0 <= i < j < |r| ==>
              giveaways[r[i]].endDate <= giveaways[r[j]].endDate && r[i] != r[j]
  {
    SortByKey(ActiveIds(giveaways, now), EndDateKey(giveaways))
  }

  /**
   * `filter(end_date < now).order_by(end_date.desc())`, with `.limit(n)` when
   * `limit` is given: the ended giveaways, most recently ended first. A past
   * giveaway is left out only when the cap is reached, and then it ended no
   * later than every listed one.
   */
  function PastGiveaways(giveaways: map<int, Giveaway>, now: int, limit: Option<nat>): (r: seq<int>)
    ensures limit.Some? ==> |r| <= limit.value
    ensures forall i :: 0 <= i < |r| ==> r[i] in giveaways && giveaways[r[i]].endDate < now
    ensures forall i, j :: 0 <= i < j < |r| ==>
              giveaways[r[i]].endDate >= giveaways[r[j]].endDate && r[i] != r[j]
    ensures forall id :: id in giveaways && giveaways[id].endDate < now && id !in r ==>
              && limit.Some? && |r| == limit.value
              && forall i :: 0 <= i < |r| ==> giveaways[id].endDate <= giveaways[r[i]].endDate
  {
    var key := NegatedEndDateKey(giveaways);
    var all := SortByKey(PastIds(giveaways, now), key);
    var r := Cap(all, limit);
    forall i, j | 0 <= i < j < |r|
      ensures giveaways[r[i]].endDate >= giveaways[r[j]].endDate && r[i] != r[j]
    {
      assert Before(key, all[i], all[j]);
    }
    OmittedEndedEarlier(giveaways, now, limit, all, r);
    r
  }

  /** `.limit(n)` when a cap is given: the first `n` rows, or all when fewer. */
  function Cap(rows: seq<int>, limit: Option<nat>): (r: seq<int>)
    ensures limit.Some? ==> |r| <= limit.value
    ensures limit.Some? && limit.value < |rows| ==> |r| == limit.value
    ensures limit.None? || |rows| <= limit.value ==> r == rows
    ensures |r| <= |rows| && forall i :: 0 <= i < |r| ==> r[i] == rows[i]
  {
    if limit.Some? && limit.value < |rows| then rows[..limit.value] else rows
  }

  /** What the cap cuts from the sorted past list ended no later than what it keeps. */
  lemma OmittedEndedEarlier(giveaways: map<int, Giveaway>, now: int, limit: Option<nat>, all: seq<int>, r: seq<int>)
    requires all == SortByKey(PastIds(giveaways, now), NegatedEndDateKey(giveaways))
    requires r == Cap(all, limit)
    ensures forall id :: id in giveaways && giveaways[id].endDate < now && id !in r ==>
              && limit.Some? && |r| == limit.value
              && forall i :: 0 <= i < |r| ==> giveaways[id].endDate <= giveaways[r[i]].endDate
  {
    var key := NegatedEndDateKey(giveaways);
    forall id | id in giveaways && giveaways[id].endDate < now && id !in r
      ensures limit.Some? && |r| == limit.value
      ensures forall i :: 0 <= i < |r| ==> giveaways[id].endDate <= giveaways[r[i]].endDate
    {
      var k :| 0 <= k < |all| && all[k] == id;
      assert |r| <= k;
      forall i | 0 <= i < |r| ensures giveaways[id].endDate <= giveaways[r[i]].endDate {
        assert Before(key, all[i], all[k]);
      }
    }
  }

  /**
   * The home page: every open giveaway, and the five most recently ended. Each
   * query reads the clock itself: `activeNow` for the first, `pastNow` for the second.
   */
  function IndexPage(giveaways: map<int, Giveaway>, activeNow: int, pastNow: int): (page: (seq<int>, seq<int>))
    ensures page.0 == ActiveGiveaways(giveaways, activeNow)
    ensures page.1 == PastGiveaways(giveaways, pastNow, Some(5)) && |page.1| <= 5
  {
    (ActiveGiveaways(giveaways, activeNow), PastGiveaways(giveaways, pastNow, Some(5)))
  }

  /**
   * The admin dashboard behind admin_required: every open and every ended
   * giveaway, each list with its own clock reading.
   */
  function DashboardPage(loggedIn: bool, requestUrl: string, giveaways: map<int, Giveaway>, activeNow: int, pastNow: int)
    : (r: Guarded<(seq<int>, seq<int>)>)
    ensures !loggedIn ==> r == LoginRedirect(requestUrl)
    ensures loggedIn ==> r == Handled((ActiveGiveaways(giveaways, activeNow), PastGiveaways(giveaways, pastNow, None)))
  {
    AdminRequired(loggedIn, requestUrl,
      (gs: map<int, Giveaway>) => (ActiveGiveaways(gs, activeNow), PastGiveaways(gs, pastNow, None)),
      giveaways)
  }

  /**
   * How the two lists of the dashboard cover the giveaways. A giveaway is in both
   * exactly when it ended between the two clock readings; when the clock has not
   * gone back it is in at least one, and with equal readings in exactly one.
   */
  lemma ListingsPartition(giveaways: map<int, Giveaway>, activeNow: int, pastNow: int, id: int)
    ensures id in ActiveGiveaways(giveaways, activeNow) ==> id in giveaways
    ensures id in PastGiveaways(giveaways, pastNow, None) ==> id in giveaways
    ensures id in giveaways ==>
              (id in ActiveGiveaways(giveaways, activeNow) && id in PastGiveaways(giveaways, pastNow, None)
               <==> activeNow <= giveaways[id].endDate < pastNow)
    ensures id in giveaways && activeNow <= pastNow ==>
              id in ActiveGiveaways(giveaways, activeNow) || id in PastGiveaways(giveaways, pastNow, None)
    ensures id in giveaways && activeNow == pastNow ==>
              (id in ActiveGiveaways(giveaways, activeNow) <==> id !in PastGiveaways(giveaways, pastNow, None))
  {
    var active := ActiveGiveaways(giveaways, activeNow);
    var past := PastGiveaways(giveaways, pastNow, None);
    if id in active {
      var i :| 0 <= i < |active| && active[i] == id;
    }
    if id in past {
      var i :| 0 <= i < |past| && past[i] == id;
    }
  }

  /**
   * Listing as active depends on the end date alone: an is_active giveaway is
   * listed, and so is one that has not started yet.
   */
  lemma ActiveListingVersusIsActive(giveaways: map<int, Giveaway>, now: int, id: int)
    requires id in giveaways
    ensures IsActive(giveaways[id], now) ==> id in ActiveGiveaways(giveaways, now)
    ensures now < giveaways[id].startDate < giveaways[id].endDate ==>
              id in ActiveGiveaways(giveaways, now) && !IsActive(giveaways[id], now)
  {
  }

  function NegatedCreatedKey(entries: map<int, Entry>): (k: map<int, int>)
    ensures k.Keys == entries.Keys
    ensures forall id :: id in entries ==> k[id] == -entries[id].createdAt
  {
    map id | id in entries :: -entries[id].createdAt
  }

  /**
   * giveaway_entries after the guard: not found for an unknown giveaway,
   * otherwise all its entries, newest first.
   */
  function GiveawayEntries(giveaways: map<int, Giveaway>, entries: map<int, Entry>, giveawayId: int)
    : (r: Option<seq<int>>)
    ensures r.None? <==> giveawayId !in giveaways
    ensures r.Some? ==>
              && |r.value| == EntryCount(entries, giveawayId)
              && (forall i :: 0 <= i < |r.value| ==>
                    r.value[i] in entries && entries[r.value[i]].giveawayId == giveawayId)
              && (forall id :: id in entries && entries[id].giveawayId == giveawayId ==> id in r.value)
              && (forall i, j :: 0 <= i < j < |r.value| ==>
                    entries[r.value[i]].createdAt >= entries[r.value[j]].createdAt && r.value[i] != r.value[j])
  {
    if giveawayId !in giveaways then None
    else Some(SortByKey(EntryIds(entries, giveawayId), NegatedCreatedKey(entries)))
  }

  /** The entries page behind admin_required. */
  function EntriesPage(loggedIn: bool, requestUrl: string, giveaways: map<int, Giveaway>,
                       entries: map<int, Entry>, giveawayId: int): (r: Guarded<Option<seq<int>>>)
    ensures !loggedIn ==> r == LoginRedirect(requestUrl)
    ensures loggedIn ==> r == Handled(GiveawayEntries(giveaways, entries, giveawayId))
  {
    AdminRequired(loggedIn, requestUrl, (id: int) => GiveawayEntries(giveaways, entries, id), giveawayId)
  }
}
