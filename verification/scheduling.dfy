/** The timed publication paths: a post scheduled by the admin for later
    (`final_schedule_callback` and the `publish_later` task of
    `check_scheduled_posts`) and the daily auto-post loop
    (`auto_post_scheduler`). Sleeping is not modelled; one loop iteration
    is one call, and the random pick is a parameter. */
module Scheduling {
  import opened Core
  import opened Text
  import opened Dict
  import opened Catalog
  import opened Publication

  /** The delay, in minutes, named by the `schedule_<kind>_<id>` button:
      "30m" is half an hour, "1h" an hour, and any other kind zero. */
  function DelayMinutes(kind: string): (r: nat)
    ensures r == 30 <==> kind == "30m"
    ensures r == 60 <==> kind == "1h"
    ensures r == 0 <==> kind != "30m" && kind != "1h"
  {
    if kind == "30m" then 30 else if kind == "1h" then 60 else 0
  }

  /** What `final_schedule_callback` does with a request. */
  datatype ScheduleOutcome =
    | UnknownMovie                         // the id has no catalog entry
    | Queued(entry: Entry, minutes: nat)   // `(movie_info, delay)` put on the queue

  /** `final_schedule_callback`: the entry found for the id at the moment
      of scheduling is queued with the mapped delay; an id with no entry
      queues nothing. The catalog itself is not written. */
  function ScheduleRequest(db: Catalog, kind: string, movieId: int): (r: ScheduleOutcome)
    ensures r.UnknownMovie? <==> forall j :: 0 <= j < |db| ==> db[j].1.id != movieId
    ensures r.Queued? ==> r.minutes == DelayMinutes(kind) && r.entry.id == movieId && r.entry in Values(db)
    ensures r.Queued? ==> Some(r.entry) == MovieById(db, movieId)
  {
    match MovieById(db, movieId)
    case None => UnknownMovie
    case Some(e) => Queued(e, DelayMinutes(kind))
  }

  /** `publish_later` once its delay has elapsed: with TMDB details it
      publishes the queued entry's id against the catalog as it is then,
      otherwise nothing happens. Only the queued entry's id is used, so if
      no entry carries that id any more the post goes out but is recorded
      nowhere. Only posts of that id can change. */
  function RunScheduled(db: Catalog, queued: Entry, detailsFound: bool, deleteOk: bool, sent: Option<int>): (r: (Catalog, Option<SendReply>))
    ensures !detailsFound ==> r == (db, None)
    ensures detailsFound ==> r.1 == Some(SendReply(sent.Some?, sent))
    ensures detailsFound && sent.Some? && IndexOfId(db, queued.id).Some? ==>
              MovieById(r.0, queued.id).Some? && MovieById(r.0, queued.id).value.lastMessageId == sent
    ensures IndexOfId(db, queued.id).None? ==> r.0 == db
    ensures PostsSet(db, r.0, queued.id, {None, sent})
    ensures sent.None? && (!deleteOk || DeleteRequest(db, queued.id).None?) ==> r.0 == db
  {
    if !detailsFound then (db, None)
    else
      var (d, reply) := Publish(db, queued.id, deleteOk, sent);
      assert IndexOfId(db, queued.id).Some? && sent.Some? ==> MovieById(d, queued.id).Some? by {
        if IndexOfId(db, queued.id).Some? {
          PublishIsFoundById(db, queued.id, deleteOk, sent);
        }
      }
      (d, Some(reply))
  }

  /** `24 * 60 * 60`. */
  const SecondsPerDay: int := 86400

  /** The counts the configuration keyboard offers (`set_auto_2` …
      `set_auto_8`); the default `AUTO_POST_COUNT` is 4. */
  const OfferedCounts: set<int> := {2, 4, 6, 8}

  /** `24 * 60 * 60 / AUTO_POST_COUNT`: the seconds between two auto-posts,
      so that `count` of them fill a day. */
  function AutoPostInterval(count: int): (r: real)
    requires count > 0
    ensures r > 0.0 && r * count as real == SecondsPerDay as real
  {
    SecondsPerDay as real / count as real
  }

  /** Every offered count divides the day into whole seconds, and the
      default count gives six hours. */
  lemma OfferedIntervalsAreWholeSeconds()
    ensures forall c :: c in OfferedCounts ==> SecondsPerDay % c == 0 && AutoPostInterval(c) == (SecondsPerDay / c) as real
    ensures AutoPostInterval(4) == 21600.0
  {
    assert AutoPostInterval(2) == 43200.0;
    assert AutoPostInterval(4) == 21600.0;
    assert AutoPostInterval(6) == 14400.0;
    assert AutoPostInterval(8) == 10800.0;
  }

  /** More posts a day means a shorter wait between them. */
  lemma IntervalShrinksWithCount(a: int, b: int)
    requires 0 < a < b
    ensures AutoPostInterval(b) < AutoPostInterval(a)
  {
    var x := AutoPostInterval(a);
    var y := AutoPostInterval(b);
    assert y * b as real == x * a as real;
    assert (x - y) * b as real == x * (b as real - a as real);
    assert x * (b as real - a as real) > 0.0;
  }

  /** With unique ids, the first entry carrying an unposted entry's id is
      that entry itself. */
  lemma {:induction false} UnpostedIsFirstWithItsId(db: Catalog, e: Entry)
    requires UniqueIds(db) && e in Unposted(db)
    ensures IndexOfId(db, e.id).Some? && db[IndexOfId(db, e.id).value].1 == e
  {
    var j :| 0 <= j < |db| && Values(db)[j] == e;
    assert db[j].1.id == e.id;
    var i := IndexOfId(db, e.id).value;
    assert i == j;
  }

  /** Publishing an unposted entry of a catalog with unique ids keeps the
      ids unique, and a successful post takes exactly that entry out of
      the unposted filter. */
  lemma PublishUnposted(db: Catalog, e: Entry, deleteOk: bool, sent: Option<int>)
    requires UniqueIds(db) && e in Unposted(db)
    ensures UniqueIds(Publish(db, e.id, deleteOk, sent).0)
    ensures sent.Some? ==>
              && e !in Unposted(Publish(db, e.id, deleteOk, sent).0)
              && |Unposted(Publish(db, e.id, deleteOk, sent).0)| == |Unposted(db)| - 1
              && MovieById(Publish(db, e.id, deleteOk, sent).0, e.id) == Some(e.(lastMessageId := sent))
    ensures sent.None? ==> Publish(db, e.id, deleteOk, sent).0 == db
  {
    UnpostedIsFirstWithItsId(db, e);
    var i := IndexOfId(db, e.id).value;
    var d := Publish(db, e.id, deleteOk, sent).0;
    assert forall j :: 0 <= j < |db| ==> d[j].1.id == db[j].1.id;
    assert DeleteRequest(db, e.id).None?;
    if sent.Some? {
      assert DeleteOldPost(db, e.id, deleteOk) == db;
      assert d == SetMessage(db, i, sent);
      UnpostedShrinks(db, i, sent.value);
      PublishIsFoundById(db, e.id, deleteOk, sent);
    }
  }

  /** One iteration of `auto_post_scheduler`. The interval is always the
      day divided by the count. With no unposted entry nothing happens;
      otherwise the picked unposted entry is published when TMDB has its
      details. With unique ids a successful post takes that entry out of
      the unposted filter, which then holds one entry fewer, and ids stay
      unique. */
  function AutoPostCycle(db: Catalog, count: int, pick: nat, detailsFound: bool, deleteOk: bool, sent: Option<int>)
    : (r: (Catalog, real, Option<SendReply>))
    requires count > 0
    requires pick < |Unposted(db)| || |Unposted(db)| == 0
    ensures r.1 == AutoPostInterval(count)
    ensures |Unposted(db)| == 0 || !detailsFound ==> r.0 == db && r.2.None?
    ensures |Unposted(db)| > 0 && detailsFound ==> r.2 == Some(SendReply(sent.Some?, sent))
    ensures UniqueIds(db) ==> UniqueIds(r.0)
    ensures UniqueIds(db) && |Unposted(db)| > 0 && detailsFound && sent.Some? ==>
              && Unposted(db)[pick] !in Unposted(r.0)
              && |Unposted(r.0)| == |Unposted(db)| - 1
    ensures |Unposted(db)| > 0 ==> PostsSet(db, r.0, Unposted(db)[pick].id, {None, sent})
    ensures UniqueIds(db) && |Unposted(db)| > 0 && detailsFound && sent.Some? ==>
              MovieById(r.0, Unposted(db)[pick].id) == Some(Unposted(db)[pick].(lastMessageId := sent))
    ensures UniqueIds(db) && sent.None? ==> r.0 == db
  {
    var interval := AutoPostInterval(count);
    var unposted := Unposted(db);
    if |unposted| == 0 || !detailsFound then (db, interval, None)
    else
      var e := unposted[pick];
      var (d, reply) := Publish(db, e.id, deleteOk, sent);
      assert UniqueIds(db) ==>
               && UniqueIds(d)
               && (sent.Some? ==> e !in Unposted(d) && |Unposted(d)| == |unposted| - 1
                                  && MovieById(d, e.id) == Some(e.(lastMessageId := sent)))
               && (sent.None? ==> d == db) by {
        if UniqueIds(db) {
          PublishUnposted(db, e, deleteOk, sent);
        }
      }
      (d, interval, Some(reply))
  }

  /** The life of one movie: added to an empty catalog, it is the only
      unposted entry; an auto-post cycle that picks it and sends message 7
      leaves it recorded as message 7 and the unposted filter empty. */
  lemma AddThenAutoPost()
    ensures var db := AddEntry([], "X", ["X"], 42, "http://a");
            && Unposted(db) == [NewEntry(["X"], 42, "http://a")]
            && var r := AutoPostCycle(db, 4, 0, true, true, Some(7));
               && MovieById(r.0, 42) == Some(Entry(["X"], 42, "http://a", Some(7)))
               && Unposted(r.0) == []
  {
    var db := AddEntry([], "X", ["X"], 42, "http://a");
    var e := NewEntry(["X"], 42, "http://a");
    assert Lower("X") == "x";
    assert db == [("x", e)];
    assert Unposted(db[1..]) == [];
    assert UniqueIds(db);
    var r := AutoPostCycle(db, 4, 0, true, true, Some(7));
    assert |Unposted(r.0)| == 0;
  }
}
