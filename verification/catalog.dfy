/** The in-memory movie catalog (`movies_db`): an insertion-ordered dict
    from the lower-cased main title to the movie's entry. */
module Catalog {
  import opened Core
  import opened Text
  import opened Dict

  /** One catalog entry: display names (the first is the canonical one),
      the TMDB id, the viewing link, and the channel message currently
      showing the movie (`None` while unposted). */
  datatype Entry = Entry(names: seq<string>, id: int, link: string, lastMessageId: Option<int>)

  type Catalog = Dict<string, Entry>

  /** The entries in iteration order (`movies_db.values()`). */
  function Values(db: Catalog): seq<Entry>
  {
    seq(|db|, i requires 0 <= i < |db| => db[i].1)
  }

  /** The name that lists and buttons show for an entry. */
  function DisplayTitle(e: Entry): string
  {
    if |e.names| > 0 then e.names[0] else "Título desconocido"
  }

  /** The test `find_movie_in_db` applies to one entry: the query equals,
      ignoring case, one of the entry's names or its key. Equality, not
      substring containment. */
  predicate MatchesName(key: string, e: Entry, query: string)
  {
    (exists n :: n in e.names && Lower(n) == Lower(query)) || Lower(key) == Lower(query)
  }

  /** `find_movie_in_db`: the first entry, in catalog order, that matches
      the query; `None` exactly when no entry matches. */
  function FindMovie(db: Catalog, query: string): (r: Option<(string, Entry)>)
    ensures r.None? <==> forall i :: 0 <= i < |db| ==> !MatchesName(db[i].0, db[i].1, query)
    ensures r.Some? ==> exists i :: 0 <= i < |db| && db[i] == r.value && MatchesName(db[i].0, db[i].1, query)
                                 && forall j :: 0 <= j < i ==> !MatchesName(db[j].0, db[j].1, query)
  {
    match FirstIndex(db, (kv: (string, Entry)) => MatchesName(kv.0, kv.1, query))
    case None => None
    case Some(i) => Some(db[i])
  }

  lemma MatchesLowered(key: string, e: Entry, query: string)
    ensures MatchesName(key, e, Lower(query)) <==> MatchesName(key, e, query)
  {
    LowerIdempotent(query);
  }

  /** The lookup does not care how the query is capitalised: asking for
      the lower-cased query finds the same entry. */
  lemma FindMovieIgnoresCase(db: Catalog, query: string)
    ensures FindMovie(db, Lower(query)) == FindMovie(db, query)
  {
    forall j | 0 <= j < |db| ensures MatchesName(db[j].0, db[j].1, Lower(query)) <==> MatchesName(db[j].0, db[j].1, query) {
      MatchesLowered(db[j].0, db[j].1, query);
    }
    var a := FindMovie(db, Lower(query));
    var b := FindMovie(db, query);
    if a.Some? {
      var i :| 0 <= i < |db| && db[i] == a.value && MatchesName(db[i].0, db[i].1, Lower(query))
                && forall j :: 0 <= j < i ==> !MatchesName(db[j].0, db[j].1, Lower(query));
      var k :| 0 <= k < |db| && db[k] == b.value && MatchesName(db[k].0, db[k].1, query)
                && forall j :: 0 <= j < k ==> !MatchesName(db[j].0, db[j].1, query);
      assert !(i < k) && !(k < i);
    }
  }

  /** Position of the first entry carrying TMDB id `id`. */
  function IndexOfId(db: Catalog, id: int): (r: Option<nat>)
    ensures r.Some? ==> r.value < |db| && db[r.value].1.id == id
    ensures r.Some? ==> forall j :: 0 <= j < r.value ==> db[j].1.id != id
    ensures r.None? <==> forall j :: 0 <= j < |db| ==> db[j].1.id != id
  {
    FirstIndex(db, (kv: (string, Entry)) => kv.1.id == id)
  }

  /** `get_movie_by_tmdb_id`: the first entry with that id, or `None`
      exactly when no entry has it. */
  function MovieById(db: Catalog, id: int): (r: Option<Entry>)
    ensures r.None? <==> forall j :: 0 <= j < |db| ==> db[j].1.id != id
    ensures r.Some? ==> r.value.id == id && r.value in Values(db)
    ensures r.Some? ==> exists i :: 0 <= i < |db| && db[i].1 == r.value && forall j :: 0 <= j < i ==> db[j].1.id != id
  {
    match IndexOfId(db, id)
    case None => None
    case Some(i) =>
      assert Values(db)[i] == db[i].1;
      Some(db[i].1)
  }

  /** Two catalogs whose entries carry the same ids position by position
      give the same answer to every lookup by id. */
  lemma SameIdsSameIndex(a: Catalog, b: Catalog, id: int)
    requires |a| == |b| && forall j :: 0 <= j < |a| ==> a[j].1.id == b[j].1.id
    ensures IndexOfId(a, id) == IndexOfId(b, id)
  {
  }

  /** The "unposted" filter `[m for m in movies_db.values() if
      m.get("last_message_id") is None]`: exactly the entries without a
      channel post, in catalog order. */
  function Unposted(db: Catalog): (r: seq<Entry>)
    ensures |r| <= |db|
    ensures forall e :: e in r <==> e in Values(db) && e.lastMessageId.None?
  {
    if |db| == 0 then []
    else
      var rest := Unposted(db[1..]);
      assert Values(db) == [db[0].1] + Values(db[1..]);
      if db[0].1.lastMessageId.None? then [db[0].1] + rest else rest
  }

  /** No two entries share a TMDB id. Nothing in the bot enforces this:
      adding the same movie under two titles breaks it. */
  predicate UniqueIds(db: Catalog)
  {
    forall i, j :: 0 <= i < j < |db| ==> db[i].1.id != db[j].1.id
  }

  /** The entry every add flow writes: a fresh, unposted record. */
  function NewEntry(names: seq<string>, id: int, link: string): Entry
  {
    Entry(names, id, link, None)
  }

  /** `movies_db[title.lower()] = {...}` as done by every add flow:
      exactly one key is written, the new entry is unposted, every other
      key keeps its entry, key order is kept (a new key goes last), and
      keys stay distinct. An entry already stored under that key is
      replaced, forgetting its channel post. */
  function AddEntry(db: Catalog, title: string, names: seq<string>, id: int, link: string): (r: Catalog)
    ensures Get(r, Lower(title)) == Some(NewEntry(names, id, link))
    ensures forall k :: k != Lower(title) ==> Get(r, k) == Get(db, k)
    ensures Get(db, Lower(title)).Some? ==> Keys(r) == Keys(db)
    ensures Get(db, Lower(title)).None? ==> Keys(r) == Keys(db) + [Lower(title)]
    ensures DistinctKeys(db) ==> DistinctKeys(r)
    ensures NewEntry(names, id, link) in Unposted(r)
    ensures IndexOfId(r, id).Some?
  {
    var key := Lower(title);
    var r := Put(db, key, NewEntry(names, id, link));
    PutEffect(db, key, NewEntry(names, id, link));
    PutKeys(db, key, NewEntry(names, id, link));
    assert DistinctKeys(db) ==> DistinctKeys(r) by {
      if DistinctKeys(db) {
        PutDistinct(db, key, NewEntry(names, id, link));
      }
    }
    var i := IndexOf(r, key).value;
    assert Values(r)[i] == NewEntry(names, id, link);
    assert r[i].1.id == id;
    r
  }

  /** A movie just added is found again by the title it was added under:
      its key is that title lower-cased, which `find_movie_in_db` compares
      against. The first match may be an earlier entry that shares a name. */
  lemma AddedMovieIsFindable(db: Catalog, title: string, names: seq<string>, id: int, link: string)
    ensures FindMovie(AddEntry(db, title, names, id, link), title).Some?
  {
    var r := AddEntry(db, title, names, id, link);
    var p := IndexOf(r, Lower(title)).value;
    LowerIdempotent(title);
    assert MatchesName(r[p].0, r[p].1, title);
  }
}
