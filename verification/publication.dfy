/** Publishing a movie to the channel: retiring the stale post
    (`delete_old_post`), sending the new one and recording its message id
    (`send_movie_post`), and the handlers that chain the two. The
    transport's outcomes are parameters: `deleteOk` says whether Telegram
    accepted the delete, `sent` is the new message's id or `None` when
    sending raised. */
module Publication {
  import opened Core
  import opened Text
  import opened Dict
  import opened Catalog

  /** The channel every catalog post goes to (`TELEGRAM_CHANNEL_ID`). */
  const ChannelId: int := -1001945286271

  /** Python truthiness of a stored `last_message_id`: `None` and `0` are
      both treated as "no post to delete". */
  predicate HasLivePost(lm: Option<int>)
  {
    lm.Some? && lm.value != 0
  }

  /** `db` with the entry at position `i` pointing at message `lm`. */
  function SetMessage(db: Catalog, i: nat, lm: Option<int>): (r: Catalog)
    requires i < |db|
    ensures |r| == |db| && Keys(r) == Keys(db)
    ensures r[i].1 == db[i].1.(lastMessageId := lm)
    ensures forall j :: 0 <= j < |db| && j != i ==> r[j] == db[j]
  {
    db[i := (db[i].0, db[i].1.(lastMessageId := lm))]
  }

  /** `after` is `before` with, at most, the posts of entries carrying `id`
      set to one of `posts`: same keys in the same order, and every other
      field of every entry as it was. */
  predicate PostsSet(before: Catalog, after: Catalog, id: int, posts: set<Option<int>>)
  {
    && |after| == |before|
    && forall j :: 0 <= j < |before| ==>
         && after[j].0 == before[j].0
         && (after[j] == before[j]
             || (before[j].1.id == id && after[j].1 == before[j].1.(lastMessageId := after[j].1.lastMessageId)
                 && after[j].1.lastMessageId in posts))
  }

  /** Two steps that each set posts of `id` make one such step. */
  lemma PostsSetTrans(a: Catalog, b: Catalog, c: Catalog, id: int, p: set<Option<int>>, q: set<Option<int>>)
    requires PostsSet(a, b, id, p) && PostsSet(b, c, id, q)
    ensures PostsSet(a, c, id, p + q)
  {
  }

  /** Seen through `get`: a key is present afterwards exactly when it was
      before, and its entry is unchanged unless it carries `id`, in which
      case only its post may now be one of `posts`. */
  lemma PostsSetGet(before: Catalog, after: Catalog, id: int, posts: set<Option<int>>, k: string)
    requires PostsSet(before, after, id, posts)
    ensures Get(after, k).Some? <==> Get(before, k).Some?
    ensures Get(before, k).Some? ==>
              || Get(after, k) == Get(before, k)
              || (Get(before, k).value.id == id && Get(after, k).value.lastMessageId in posts
                  && Get(after, k) == Some(Get(before, k).value.(lastMessageId := Get(after, k).value.lastMessageId)))
  {
    match IndexOf(before, k)
    case None =>
      assert forall j :: 0 <= j < |after| ==> after[j].0 != k;
    case Some(i) =>
      IndexOfIs(after, k, i);
  }

  /** The message `delete_old_post(id)` asks Telegram to delete: the stored
      post of the first entry with that id, when it has one. */
  function DeleteRequest(db: Catalog, id: int): (r: Option<int>)
    ensures r.Some? <==> IndexOfId(db, id).Some? && HasLivePost(db[IndexOfId(db, id).value].1.lastMessageId)
    ensures r.Some? ==> Some(r.value) == db[IndexOfId(db, id).value].1.lastMessageId && r.value != 0
  {
    match IndexOfId(db, id)
    case None => None
    case Some(i) =>
      if HasLivePost(db[i].1.lastMessageId) then db[i].1.lastMessageId else None
  }

  /** `delete_old_post(id)`, with the key test read as "an entry was found".
      Only the first entry with that id can change, and only when it has a
      stored post and the delete succeeded: then it becomes unposted. A
      failed delete, a missing id or an entry without a post leaves the
      catalog as it was. */
  function DeleteOldPost(db: Catalog, id: int, deleteOk: bool): (r: Catalog)
    ensures PostsSet(db, r, id, {None})
    ensures !deleteOk || DeleteRequest(db, id).None? ==> r == db
    ensures deleteOk && DeleteRequest(db, id).Some? ==>
              var i := IndexOfId(db, id).value;
              && Keys(r) == Keys(db)
              && r[i].1 == db[i].1.(lastMessageId := None)
              && (forall j :: 0 <= j < |db| && j != i ==> r[j] == db[j])
  {
    if deleteOk && DeleteRequest(db, id).Some? then SetMessage(db, IndexOfId(db, id).value, None)
    else db
  }

  /** After a successful retirement there is nothing left to delete for
      that id: a second `delete_old_post` asks for nothing. */
  lemma RetiredPostIsNotDeletedTwice(db: Catalog, id: int)
    ensures DeleteRequest(DeleteOldPost(db, id, true), id).None?
  {
    var r := DeleteOldPost(db, id, true);
    if DeleteRequest(db, id).Some? {
      var i := IndexOfId(db, id).value;
      assert IndexOfId(r, id) == Some(i) by {
        assert forall j :: 0 <= j < |db| ==> r[j].1.id == db[j].1.id;
      }
    }
  }

  /** The reply of `send_movie_post`: `(True, message_id)` or `(False, None)`. */
  datatype SendReply = SendReply(success: bool, messageId: Option<int>)

  /** `send_movie_post(chat_id, movie_data, ...)`, where `movieId` is
      `movie_data.get("id")`, with the key test read as "an entry was
      found". The catalog changes only when the send succeeded and went to
      the channel: the first entry whose id equals the posted movie's id
      records the new message and so leaves the unposted filter. A failed
      send returns `(False, None)` and changes nothing. */
  function SendMoviePost(db: Catalog, chatId: int, movieId: Option<int>, sent: Option<int>): (r: (Catalog, SendReply))
    ensures movieId.Some? ==> PostsSet(db, r.0, movieId.value, {sent})
    ensures sent.None? ==> r == (db, SendReply(false, None))
    ensures sent.Some? ==> r.1 == SendReply(true, sent)
    ensures sent.Some? && chatId == ChannelId && movieId.Some? && IndexOfId(db, movieId.value).Some? ==>
              var i := IndexOfId(db, movieId.value).value;
              && Keys(r.0) == Keys(db)
              && r.0[i].1 == db[i].1.(lastMessageId := sent)
              && r.0[i].1 !in Unposted(r.0)
              && (forall j :: 0 <= j < |db| && j != i ==> r.0[j] == db[j])
    ensures chatId != ChannelId || movieId.None? || IndexOfId(db, movieId.value).None? ==> r.0 == db
  {
    match sent
    case None => (db, SendReply(false, None))
    case Some(m) =>
      if chatId == ChannelId && movieId.Some? && IndexOfId(db, movieId.value).Some? then
        (SetMessage(db, IndexOfId(db, movieId.value).value, sent), SendReply(true, sent))
      else (db, SendReply(true, sent))
  }

  /** The pair every publishing handler runs: `delete_old_post(id)` and then
      `send_movie_post` to the channel for the same id. The reply is the
      send's. An id with no entry leaves the catalog as it was; for a
      catalogued id only its first entry changes: on success it points at
      the new message and is no longer unposted, on failure it keeps what
      the delete step left (no post when the delete went through, its old
      post otherwise). */
  function Publish(db: Catalog, id: int, deleteOk: bool, sent: Option<int>): (r: (Catalog, SendReply))
    ensures r.1 == SendReply(sent.Some?, sent)
    ensures PostsSet(db, r.0, id, {None, sent})
    ensures IndexOfId(db, id).None? ==> r.0 == db
    ensures IndexOfId(db, id).Some? ==>
              var i := IndexOfId(db, id).value;
              && Keys(r.0) == Keys(db)
              && (forall j :: 0 <= j < |db| && j != i ==> r.0[j] == db[j])
              && (sent.Some? ==> r.0[i].1 == db[i].1.(lastMessageId := sent) && r.0[i].1 !in Unposted(r.0))
              && (sent.None? && deleteOk && DeleteRequest(db, id).Some? ==> r.0[i].1 == db[i].1.(lastMessageId := None))
              && (sent.None? && (!deleteOk || DeleteRequest(db, id).None?) ==> r.0 == db)
  {
    var d := DeleteOldPost(db, id, deleteOk);
    assert |d| == |db| && forall j :: 0 <= j < |db| ==> d[j].1.id == db[j].1.id;
    SameIdsSameIndex(d, db, id);
    PostsSetTrans(db, d, SendMoviePost(d, ChannelId, Some(id), sent).0, id, {None}, {sent});
    SendMoviePost(d, ChannelId, Some(id), sent)
  }

  /** After publishing a catalogued id, looking the id up again finds the
      same entry, now pointing at the new message when the send went
      through. */
  lemma PublishIsFoundById(db: Catalog, id: int, deleteOk: bool, sent: Option<int>)
    requires IndexOfId(db, id).Some?
    ensures IndexOfId(Publish(db, id, deleteOk, sent).0, id) == IndexOfId(db, id)
    ensures sent.Some? ==>
              MovieById(Publish(db, id, deleteOk, sent).0, id) == Some(db[IndexOfId(db, id).value].1.(lastMessageId := sent))
  {
    var d := Publish(db, id, deleteOk, sent).0;
    assert forall j :: 0 <= j < |db| ==> d[j].1.id == db[j].1.id;
  }

  /** Turning one unposted entry into a posted one shrinks the unposted
      filter by exactly one. */
  lemma {:induction false} UnpostedShrinks(db: Catalog, i: nat, m: int)
    requires i < |db| && db[i].1.lastMessageId.None?
    ensures |Unposted(SetMessage(db, i, Some(m)))| == |Unposted(db)| - 1
    decreases |db|
  {
    var r := SetMessage(db, i, Some(m));
    if i == 0 {
      assert r[1..] == db[1..];
    } else {
      UnpostedShrinks(db[1..], i - 1, m);
      assert r[1..] == SetMessage(db[1..], i - 1, Some(m));
    }
  }

  /** What a publishing handler reports. */
  datatype PublishOutcome =
    | NotInCatalog      // the id has no catalog entry
    | NoDetails         // TMDB returned no details for the movie
    | BrokenEntry       // the entry has no id or no link
    | FormatFailed      // `create_movie_message` raised before anything was sent
    | Attempted(reply: SendReply)

  /** `publish_from_catalog`: the movie must be in the catalog and TMDB
      must return its details; otherwise nothing is published and the
      catalog is untouched. When it is attempted, the reply is the send's
      outcome and a successful send is recorded on the movie's entry. */
  function PublishFromCatalog(db: Catalog, id: int, detailsFound: bool, deleteOk: bool, sent: Option<int>): (r: (Catalog, PublishOutcome))
    ensures |r.0| == |db|
    ensures MovieById(db, id).None? ==> r == (db, NotInCatalog)
    ensures MovieById(db, id).Some? && !detailsFound ==> r == (db, NoDetails)
    ensures MovieById(db, id).Some? && detailsFound ==> r.1 == Attempted(SendReply(sent.Some?, sent))
    ensures MovieById(db, id).Some? && detailsFound && sent.Some? ==>
              r.0[IndexOfId(db, id).value].1.lastMessageId == sent
    ensures PostsSet(db, r.0, id, {None, sent})
    ensures sent.None? && (!deleteOk || DeleteRequest(db, id).None?) ==> r.0 == db
  {
    if MovieById(db, id).None? then (db, NotInCatalog)
    else if !detailsFound then (db, NoDetails)
    else
      var (d, reply) := Publish(db, id, deleteOk, sent);
      (d, Attempted(reply))
  }

  /** `publish_now_manual_callback`: like publishing from the catalog, but
      missing TMDB details are replaced by a placeholder that still carries
      the id, so the post goes out and is recorded either way. */
  function PublishNowManual(db: Catalog, id: int, deleteOk: bool, sent: Option<int>): (r: (Catalog, PublishOutcome))
    ensures |r.0| == |db|
    ensures MovieById(db, id).None? ==> r == (db, NotInCatalog)
    ensures MovieById(db, id).Some? ==> r.1 == Attempted(SendReply(sent.Some?, sent))
    ensures MovieById(db, id).Some? && sent.Some? ==>
              r.0[IndexOfId(db, id).value].1.lastMessageId == sent
    ensures PostsSet(db, r.0, id, {None, sent})
    ensures sent.None? && (!deleteOk || DeleteRequest(db, id).None?) ==> r.0 == db
  {
    if MovieById(db, id).None? then (db, NotInCatalog)
    else
      var (d, reply) := Publish(db, id, deleteOk, sent);
      (d, Attempted(reply))
  }

  /** `process_movie_request`: the requested title (stripped) is looked up
      by name. An unknown title goes to the admin, an entry with id 0 or an
      empty link cannot be published, missing TMDB details stop the
      request, and otherwise the movie is re-published and a successful
      send is recorded on the first entry with its id. */
  function RequestByName(db: Catalog, text: string, detailsFound: bool, deleteOk: bool, sent: Option<int>): (r: (Catalog, PublishOutcome))
    ensures |r.0| == |db|
    ensures FindMovie(db, Strip(text)).None? ==> r == (db, NotInCatalog)
    ensures FindMovie(db, Strip(text)).Some? && (FindMovie(db, Strip(text)).value.1.id == 0 || FindMovie(db, Strip(text)).value.1.link == "") ==>
              r == (db, BrokenEntry)
    ensures r.1.Attempted? <==> detailsFound && FindMovie(db, Strip(text)).Some?
                                && FindMovie(db, Strip(text)).value.1.id != 0 && FindMovie(db, Strip(text)).value.1.link != ""
    ensures !r.1.Attempted? ==> r.0 == db
    ensures r.1.Attempted? ==> r.1.reply == SendReply(sent.Some?, sent)
    ensures r.1.Attempted? && sent.Some? ==>
              r.0[IndexOfId(db, FindMovie(db, Strip(text)).value.1.id).value].1.lastMessageId == sent
    ensures FindMovie(db, Strip(text)).Some? ==> PostsSet(db, r.0, FindMovie(db, Strip(text)).value.1.id, {None, sent})
    ensures FindMovie(db, Strip(text)).Some? && sent.None? &&
            (!deleteOk || DeleteRequest(db, FindMovie(db, Strip(text)).value.1.id).None?) ==>
              r.0 == db
  {
    match FindMovie(db, Strip(text))
    case None => (db, NotInCatalog)
    case Some((_, e)) =>
      if e.id == 0 || e.link == "" then (db, BrokenEntry)
      else if !detailsFound then (db, NoDetails)
      else
        assert IndexOfId(db, e.id).Some? by {
          var i :| 0 <= i < |db| && db[i] == FindMovie(db, Strip(text)).value;
          assert db[i].1.id == e.id;
        }
        var (d, reply) := Publish(db, e.id, deleteOk, sent);
        (d, Attempted(reply))
  }

  // ---------------------------------------------------------------------
  // The key tests as written: `if found_key:` and `if movie_key:` are
  // Python truthiness tests on the key, so an entry stored under the empty
  // key "" counts as "not found".

  /** `delete_old_post` as written. */
  function DeleteOldPostAsWritten(db: Catalog, id: int, deleteOk: bool): (r: Catalog)
    ensures PostsSet(db, r, id, {None})
    ensures IndexOfId(db, id).Some? && db[IndexOfId(db, id).value].0 == "" ==> r == db
    ensures IndexOfId(db, id).Some? && db[IndexOfId(db, id).value].0 != "" ==> r == DeleteOldPost(db, id, deleteOk)
  {
    match IndexOfId(db, id)
    case None => db
    case Some(i) =>
      if db[i].0 != "" && deleteOk && HasLivePost(db[i].1.lastMessageId) then SetMessage(db, i, None)
      else db
  }

  /** `send_movie_post` as written. */
  function SendMoviePostAsWritten(db: Catalog, chatId: int, movieId: Option<int>, sent: Option<int>): (r: (Catalog, SendReply))
    ensures movieId.Some? ==> PostsSet(db, r.0, movieId.value, {sent})
    ensures movieId.Some? && IndexOfId(db, movieId.value).Some? && db[IndexOfId(db, movieId.value).value].0 == "" ==> r.0 == db
    ensures r.1 == SendMoviePost(db, chatId, movieId, sent).1
    ensures movieId.Some? && IndexOfId(db, movieId.value).Some? && db[IndexOfId(db, movieId.value).value].0 != "" ==>
              r == SendMoviePost(db, chatId, movieId, sent)
  {
    match sent
    case None => (db, SendReply(false, None))
    case Some(m) =>
      if chatId == ChannelId && movieId.Some? && IndexOfId(db, movieId.value).Some?
         && db[IndexOfId(db, movieId.value).value].0 != "" then
        (SetMessage(db, IndexOfId(db, movieId.value).value, sent), SendReply(true, sent))
      else (db, SendReply(true, sent))
  }

  /** The discrepancy: a movie stored under the key "" that has a live post
      (message 5) is re-published successfully as message 9. As written,
      message 5 is never retired, message 9 is never recorded, and the
      movie stays in the unposted filter, so it will be published again
      while both posts stay up. With the key test read as "found", 5 is
      asked for deletion and 9 is recorded. */
  lemma EmptyKeyPostIsNeverTracked()
    ensures var db := [("", Entry(["(2020)"], 7, "https://t.me/x", Some(5)))];
            && DeleteOldPostAsWritten(db, 7, true) == db
            && SendMoviePostAsWritten(db, ChannelId, Some(7), Some(9)).0 == db
            && SendMoviePostAsWritten(DeleteOldPostAsWritten(db, 7, true), ChannelId, Some(7), Some(9)).1.success
            && DeleteRequest(db, 7) == Some(5)
            && Publish(db, 7, true, Some(9)).0[0].1.lastMessageId == Some(9)
  {
    var db := [("", Entry(["(2020)"], 7, "https://t.me/x", Some(5)))];
    assert IndexOfId(db, 7) == Some(0);
  }

  // ---------------------------------------------------------------------
  // `publish_and_notify_callback` builds its movie data from the catalog
  // entry with the placeholder "N/A" as `vote_average`, without an "id"
  // field, and skips `delete_old_post`.

  /** `publish_and_notify_callback` as written. `create_movie_message`
      formats the score with `{vote_average:.1f}`, and the `f` format code
      raises `ValueError` for the string "N/A" the handler puts there. So
      for a catalogued id the handler stops with that exception before
      sending: nothing is posted, nobody is notified and the catalog is
      untouched, whatever Telegram would have answered. */
  function PublishAndNotifyAsWritten(db: Catalog, id: int, user: int): (r: (Catalog, PublishOutcome, Option<int>))
    ensures r.0 == db && r.2.None?
    ensures MovieById(db, id).None? <==> r.1 == NotInCatalog
    ensures MovieById(db, id).Some? <==> r.1 == FormatFailed
  {
    if MovieById(db, id).None? then (db, NotInCatalog, None)
    else (db, FormatFailed, None)
  }

  /** `publish_and_notify_callback` with only the score fixed: the movie
      data handed to `send_movie_post` still carries no id, so no entry
      ever matches and the catalog is never updated, whatever the send's
      outcome, while the user is notified on success. */
  function PublishAndNotifyWithoutId(db: Catalog, id: int, user: int, sent: Option<int>): (r: (Catalog, PublishOutcome, Option<int>))
    ensures r.0 == db
    ensures MovieById(db, id).None? ==> r.1 == NotInCatalog && r.2.None?
    ensures MovieById(db, id).Some? ==> r.1 == Attempted(SendReply(sent.Some?, sent)) && (r.2.Some? <==> sent.Some?)
  {
    if MovieById(db, id).None? then (db, NotInCatalog, None)
    else
      var (d, reply) := SendMoviePost(db, ChannelId, None, sent);
      (d, Attempted(reply), if reply.success then Some(user) else None)
  }

  /** `publish_and_notify_callback` with the id passed along and the stale
      post retired first, as every other publishing handler does: a
      successful send is recorded, so the movie leaves the unposted filter
      and the user is told about a post the catalog knows. */
  function PublishAndNotify(db: Catalog, id: int, user: int, deleteOk: bool, sent: Option<int>): (r: (Catalog, PublishOutcome, Option<int>))
    ensures |r.0| == |db|
    ensures MovieById(db, id).None? ==> r == (db, NotInCatalog, None)
    ensures MovieById(db, id).Some? ==> r.1 == Attempted(SendReply(sent.Some?, sent)) && (r.2 == if sent.Some? then Some(user) else None)
    ensures MovieById(db, id).Some? && sent.Some? ==>
              var i := IndexOfId(db, id).value;
              r.0[i].1.lastMessageId == sent && r.0[i].1 !in Unposted(r.0)
    ensures PostsSet(db, r.0, id, {None, sent})
    ensures sent.None? && (!deleteOk || DeleteRequest(db, id).None?) ==> r.0 == db
  {
    if MovieById(db, id).None? then (db, NotInCatalog, None)
    else
      var (d, reply) := Publish(db, id, deleteOk, sent);
      (d, Attempted(reply), if reply.success then Some(user) else None)
  }

  /** The first discrepancy: "publish and notify" on a catalogued movie
      never posts and never tells the user, whichever id and user it is
      given, while the corrected handler posts and notifies whenever
      Telegram accepts the message. */
  lemma NotifyNeverPosts(db: Catalog, id: int, user: int, deleteOk: bool, m: int)
    requires MovieById(db, id).Some?
    ensures PublishAndNotifyAsWritten(db, id, user) == (db, FormatFailed, None)
    ensures PublishAndNotify(db, id, user, deleteOk, Some(m)).2 == Some(user)
    ensures MovieById(PublishAndNotify(db, id, user, deleteOk, Some(m)).0, id).value.lastMessageId == Some(m)
  {
    PublishIsFoundById(db, id, deleteOk, Some(m));
  }

  /** The second discrepancy, once the score is formatted: an unposted
      catalog movie published through "publish and notify" is announced to
      the user, yet stays in the unposted filter (so the auto-poster will
      post it again), while the corrected handler records the post. */
  lemma NotifiedPostStaysUnposted()
    ensures var db := [("dune", Entry(["Dune"], 438631, "https://t.me/x", None))];
            && PublishAndNotifyWithoutId(db, 438631, 42, Some(9)).2 == Some(42)
            && Entry(["Dune"], 438631, "https://t.me/x", None) in Unposted(PublishAndNotifyWithoutId(db, 438631, 42, Some(9)).0)
            && Unposted(PublishAndNotify(db, 438631, 42, true, Some(9)).0) == []
  {
    var db := [("dune", Entry(["Dune"], 438631, "https://t.me/x", None))];
    assert Values(db)[0] == db[0].1;
    assert IndexOfId(db, 438631) == Some(0);
    var r := PublishAndNotify(db, 438631, 42, true, Some(9)).0;
    assert r[0].1.lastMessageId == Some(9);
    assert Unposted(r[1..]) == [];
  }
}
