/** The admin flows that write the catalog: the "Title (YYYY) | names |
    link" form (`add_movie_info`), the link sent for a requested movie
    (`process_requested_movie_link`) and the manual five-field form
    (`process_manual_movie_info`). TMDB lookups and the random id are
    parameters. */
module Admin {
  import opened Core
  import opened Text
  import opened Dict
  import opened Catalog
  import opened Publication

  predicate IsDigit(c: char)
  {
    '0' <= c <= '9'
  }

  /** The pattern `\((19|20)\d{2}\)` matches at index `i` of `s`. */
  predicate IsYearAt(s: string, i: int)
  {
    && 0 <= i && i + 6 <= |s|
    && s[i] == '('
    && ((s[i + 1] == '1' && s[i + 2] == '9') || (s[i + 1] == '2' && s[i + 2] == '0'))
    && IsDigit(s[i + 3]) && IsDigit(s[i + 4])
    && s[i + 5] == ')'
  }

  /** `re.search` for the year pattern from index `from`: the leftmost match. */
  function FindYear(s: string, from: nat): (r: Option<nat>)
    ensures r.Some? ==> from <= r.value && IsYearAt(s, r.value)
    ensures r.Some? ==> forall j :: from <= j < r.value ==> !IsYearAt(s, j)
    ensures r.None? <==> forall j :: from <= j ==> !IsYearAt(s, j)
    decreases |s| - from
  {
    if from + 6 > |s| then None
    else if IsYearAt(s, from) then Some(from)
    else FindYear(s, from + 1)
  }

  /** `s.replace(c, '')` for a one-character `s` pattern: `s` with a
      trailing `c` removed is `s` itself when `c` does not occur in it. */
  lemma {:induction false} RemoveTrailing(s: string, c: char)
    requires c !in s
    ensures RemoveAll(s + [c], [c]) == s
    decreases |s|
  {
    if |s| > 0 {
      assert (s + [c])[..1] == [s[0]];
      assert (s + [c])[1..] == s[1..] + [c];
      RemoveTrailing(s[1..], c);
      assert [s[0]] + s[1..] == s;
    }
  }

  /** `match.group(0).replace('(', '').replace(')', '')` leaves the four
      digits between the parentheses. */
  lemma YearDigits(token: string)
    requires |token| == 6 && IsYearAt(token, 0)
    ensures RemoveAll(RemoveAll(token, "("), ")") == token[1..5]
  {
    var inner := token[1..];
    assert forall i :: !OccursAt("(", inner, i) by {
      forall i ensures !OccursAt("(", inner, i) {
        if 0 <= i < |inner| {
          assert inner[i..i + 1] == [inner[i]];
        }
      }
    }
    assert RemoveAll(token, "(") == inner;
    assert inner == token[1..5] + [')'];
    RemoveTrailing(token[1..5], ')');
  }

  datatype ParsedMovie = ParsedMovie(title: string, year: string, names: seq<string>, link: string)

  datatype ParseError = TooFewParts | BadYear

  function StripEach(parts: seq<string>): (r: seq<string>)
    ensures |r| == |parts| && forall i :: 0 <= i < |r| ==> r[i] == Strip(parts[i])
  {
    seq(|parts|, i requires 0 <= i < |parts| => Strip(parts[i]))
  }

  /** `[name.strip() for name in field.strip().split(',')]`: one name per
      comma-separated piece, none holding a comma or surrounding space. */
  function ParseNames(field: string): (names: seq<string>)
    ensures |names| == Count(Strip(field), ',') + 1
    ensures forall k :: 0 <= k < |names| ==> ',' !in names[k] && names[k] == Strip(names[k])
  {
    var pieces := Split(Strip(field), ',');
    var names := StripEach(pieces);
    assert forall k :: 0 <= k < |names| ==> ',' !in names[k] && names[k] == Strip(names[k]) by {
      forall k | 0 <= k < |names| ensures ',' !in names[k] && names[k] == Strip(names[k]) {
        StripIdempotent(pieces[k]);
        StripKeepsChars(pieces[k], ',');
      }
    }
    names
  }

  /** The year text of a matched `(YYYY)`: its four digits. */
  function YearOf(token: string): (year: string)
    requires |token| == 6 && IsYearAt(token, 0)
    ensures year == token[1..5] && "(" + year + ")" == token
    ensures (year[0] == '1' && year[1] == '9') || (year[0] == '2' && year[1] == '0')
    ensures IsDigit(year[2]) && IsDigit(year[3])
  {
    YearDigits(token);
    RemoveAll(RemoveAll(token, "("), ")")
  }

  /** The title and year read from the stripped first field: the year is
      the four digits of the leftmost `(19dd)`/`(20dd)`, and the title is
      the field with every copy of that parenthesised year removed and
      stripped again. `None` exactly when the field holds no such year. */
  function ParseHead(head: string): (r: Option<(string, string)>)
    ensures r.None? <==> forall j :: !IsYearAt(head, j)
    ensures r.Some? ==>
              var (title, year) := r.value;
              && |year| == 4 && IsDigit(year[2]) && IsDigit(year[3])
              && ((year[0] == '1' && year[1] == '9') || (year[0] == '2' && year[1] == '0'))
              && exists i :: IsYearAt(head, i) && head[i..i + 6] == "(" + year + ")"
                             && (forall j :: 0 <= j < i ==> !IsYearAt(head, j))
                             && title == Strip(RemoveAll(head, head[i..i + 6]))
  {
    match FindYear(head, 0)
    case None => None
    case Some(i) =>
      var token := head[i..i + 6];
      assert IsYearAt(token, 0);
      var year := YearOf(token);
      Some((Strip(RemoveAll(head, token)), year))
  }

  /** The parser of `add_movie_info`. Fewer than two `|` is a format error;
      a first field (stripped) without a year is a year error. Otherwise the
      title and year come from the first field, the names are the stripped
      comma-separated pieces of the second field, and the link is the
      stripped third field; anything after a third `|` is ignored. */
  function ParseMovieInfo(text: string): (r: Result<ParsedMovie, ParseError>)
    ensures r == Err(TooFewParts) <==> Count(text, '|') < 2
    ensures r == Err(BadYear) <==>
              Count(text, '|') >= 2 && forall j :: !IsYearAt(Strip(Split(text, '|')[0]), j)
    ensures r.Ok? ==>
              && ParseHead(Strip(Split(text, '|')[0])) == Some((r.value.title, r.value.year))
              && r.value.names == ParseNames(Split(text, '|')[1])
              && r.value.link == Strip(Split(text, '|')[2])
  {
    var parts := Split(text, '|');
    if |parts| < 3 then Err(TooFewParts)
    else
      match ParseHead(Strip(parts[0]))
      case None => Err(BadYear)
      case Some((title, year)) => Ok(ParsedMovie(title, year, ParseNames(parts[1]), Strip(parts[2])))
  }

  /** The form as the admin is asked to write it:
      "Title (YYYY) | name, name | link". */
  function FormatMovieInfo(m: ParsedMovie): string
    requires |m.names| >= 1
  {
    m.title + " (" + m.year + ") | " + Join(m.names, ',') + " | " + m.link
  }

  /** The movies the form can describe: a title with no surrounding space,
      no `|` and no parenthesised year of its own, a year the pattern
      accepts, and names and a link without surrounding space or
      separators. */
  predicate Formattable(m: ParsedMovie)
  {
    && |m.title| > 0 && Stripped(m.title) && '|' !in m.title
    && (forall j :: 0 <= j < |m.title| ==> !IsYearAt(m.title, j))
    && |m.year| == 4 && IsYearAt("(" + m.year + ")", 0)
    && |m.names| >= 1
    && (forall k :: 0 <= k < |m.names| ==> Stripped(m.names[k]) && ',' !in m.names[k] && '|' !in m.names[k])
    && Stripped(m.link) && '|' !in m.link
  }

  /** In "Title (YYYY)" the leftmost year match is the appended one. */
  lemma AppendedYearIsLeftmost(title: string, tok: string)
    requires |tok| == 6 && IsYearAt(tok, 0)
    requires forall j :: 0 <= j < |title| ==> !IsYearAt(title, j)
    ensures IsYearAt(title + " " + tok, |title| + 1)
    ensures (title + " " + tok)[|title| + 1..|title| + 7] == tok
    ensures forall i :: 0 <= i <= |title| ==> !IsYearAt(title + " " + tok, i)
  {
    var head := title + " " + tok;
    assert head[|title| + 1..] == tok;
    assert head[|title| + 1..|title| + 7] == head[|title| + 1..];
    forall i | 0 <= i <= |title| ensures !IsYearAt(head, i) {
      if i + 6 <= |title| {
        assert !IsYearAt(title, i);
        assert head[i..i + 6] == title[i..i + 6];
      } else {
        assert head[|title|] == ' ';
      }
    }
  }

  /** Removing the appended year from "Title (YYYY)" and stripping gives
      the title back. */
  lemma RemoveAppendedYear(title: string, tok: string)
    requires |tok| == 6 && IsYearAt(tok, 0) && Stripped(title)
    requires forall j :: 0 <= j < |title| ==> !IsYearAt(title, j)
    ensures Strip(RemoveAll(title + " " + tok, tok)) == title
  {
    var head := title + " " + tok;
    AppendedYearIsLeftmost(title, tok);
    assert head == (title + " ") + tok;
    forall j | 0 <= j < |title + " "| ensures !OccursAt(tok, head, j) {
      if OccursAt(tok, head, j) {
        assert head[j..j + 6] == tok;
        assert IsYearAt(head, j);
      }
    }
    RemoveTrailingPattern(title + " ", tok);
    StripTrailingSpace(title);
  }

  /** "Title (YYYY)" parses to the title and the four digits. */
  lemma ParseHeadAppended(title: string, tok: string)
    requires |tok| == 6 && IsYearAt(tok, 0) && Stripped(title)
    requires forall j :: 0 <= j < |title| ==> !IsYearAt(title, j)
    ensures ParseHead(title + " " + tok) == Some((title, tok[1..5]))
  {
    var head := title + " " + tok;
    var k := |title| + 1;
    AppendedYearIsLeftmost(title, tok);
    assert IsYearAt(head, k);
    var r := ParseHead(head);
    assert r.Some?;
    var y := r.value.1;
    var i :| IsYearAt(head, i) && head[i..i + 6] == "(" + y + ")"
             && (forall j :: 0 <= j < i ==> !IsYearAt(head, j))
             && r.value.0 == Strip(RemoveAll(head, head[i..i + 6]));
    SameLeftmostYear(head, i, k);
    RemoveAppendedYear(title, tok);
  }

  /** Two leftmost year matches are the same match. */
  lemma SameLeftmostYear(head: string, i: int, k: int)
    requires IsYearAt(head, i) && IsYearAt(head, k)
    requires forall j :: 0 <= j < i ==> !IsYearAt(head, j)
    requires forall j :: 0 <= j < k ==> !IsYearAt(head, j)
    ensures i == k
  {
  }

  /** The first field read back: "Title (YYYY) " parses to the title and
      the year. */
  lemma ParseHeadOfFormat(m: ParsedMovie)
    requires Formattable(m)
    ensures ParseHead(Strip(m.title + " (" + m.year + ") ")) == Some((m.title, m.year))
  {
    var tok := "(" + m.year + ")";
    var head := m.title + " " + tok;
    assert m.title + " (" + m.year + ") " == head + " ";
    assert head[|head| - 1] == ')' && head[0] == m.title[0];
    StripTrailingSpace(head);
    ParseHeadAppended(m.title, tok);
    assert tok[1..5] == m.year;
  }

  lemma StripEachStripped(names: seq<string>)
    requires forall k :: 0 <= k < |names| ==> Stripped(names[k])
    ensures StripEach(names) == names
  {
    forall k | 0 <= k < |names| ensures Strip(names[k]) == names[k] {
      StripFixedPoint(names[k]);
    }
  }

  lemma StripNamesField(names: seq<string>)
    requires |names| >= 1
    requires forall k :: 0 <= k < |names| ==> Stripped(names[k])
    ensures Strip(" " + Join(names, ',') + " ") == Join(names, ',')
  {
    JoinStripped(names, ',');
    StripSpaced(Join(names, ','));
  }

  lemma ParseNamesOfFormat(names: seq<string>)
    requires |names| >= 1
    requires forall k :: 0 <= k < |names| ==> Stripped(names[k]) && ',' !in names[k]
    ensures ParseNames(" " + Join(names, ',') + " ") == names
  {
    StripNamesField(names);
    SplitJoin(names, ',');
    StripEachStripped(names);
  }

  /** Round trip: a movie written in the form's layout is read back as the
      same title, year, names and link. */
  lemma ParseFormatRoundTrip(m: ParsedMovie)
    requires Formattable(m)
    ensures ParseMovieInfo(FormatMovieInfo(m)) == Ok(m)
  {
    var p0 := m.title + " (" + m.year + ") ";
    var p1 := " " + Join(m.names, ',') + " ";
    var p2 := " " + m.link;
    SplitFormat(m);
    ParseHeadOfFormat(m);
    ParseNamesOfFormat(m.names);
    StripLeadingSpace(m.link);
  }

  /** The form splits at its two `|` into the three fields. */
  lemma SplitFormat(m: ParsedMovie)
    requires Formattable(m)
    ensures Split(FormatMovieInfo(m), '|') == [m.title + " (" + m.year + ") ", " " + Join(m.names, ',') + " ", " " + m.link]
  {
    var p0 := m.title + " (" + m.year + ") ";
    var p1 := " " + Join(m.names, ',') + " ";
    var p2 := " " + m.link;
    var parts := [p0, p1, p2];
    assert parts[1..] == [p1, p2] && parts[1..][1..] == [p2];
    assert Join([p2], '|') == p2;
    assert Join([p1, p2], '|') == p1 + "|" + p2;
    assert Join(parts, '|') == p0 + "|" + (p1 + "|" + p2);
    assert FormatMovieInfo(m) == Join(parts, '|');
    JoinAvoids(m.names, ',', '|');
    assert '|' !in m.year by {
      assert forall k :: 0 <= k < 4 ==> m.year[k] == ("(" + m.year + ")")[k + 1];
    }
    SplitJoin(parts, '|');
  }

  /** What `add_movie_info` tells the admin. */
  datatype AddOutcome = Rejected(error: ParseError) | NotOnTmdb | Added(id: int)

  /** What `add_movie_info` does with the parsed form: a parse error is
      reported and stores nothing; otherwise TMDB is asked for the id of
      (title, year), a search that yields nothing (or id 0) stores nothing,
      and a found id stores the movie under the lower-cased title and
      nowhere else. */
  function StoreParsed(db: Catalog, parsed: Result<ParsedMovie, ParseError>, search: (string, string) -> Option<int>)
    : (r: (Catalog, AddOutcome))
    ensures parsed.Err? ==> r == (db, Rejected(parsed.error))
    ensures r.1.Rejected? <==> parsed.Err?
    ensures parsed.Ok? && search(parsed.value.title, parsed.value.year) !in {None, Some(0)} ==>
              r.1 == Added(search(parsed.value.title, parsed.value.year).value)
    ensures r.1.NotOnTmdb? <==> parsed.Ok? && search(parsed.value.title, parsed.value.year) in {None, Some(0)}
    ensures !r.1.Added? ==> r.0 == db
    ensures r.1.Added? ==>
              var m := parsed.value;
              && parsed.Ok? && search(m.title, m.year) == Some(r.1.id) && r.1.id != 0
              && Get(r.0, Lower(m.title)) == Some(NewEntry(m.names, r.1.id, m.link))
              && (forall k :: k != Lower(m.title) ==> Get(r.0, k) == Get(db, k))
  {
    match parsed
    case Err(e) => (db, Rejected(e))
    case Ok(m) =>
      match search(m.title, m.year)
      case None => (db, NotOnTmdb)
      case Some(id) =>
        if id == 0 then (db, NotOnTmdb)
        else (AddEntry(db, m.title, m.names, id, m.link), Added(id))
  }

  /** `add_movie_info`: parse the form, then store what it describes. A
      malformed form is rejected with the parser's error; a well-formed
      form whose search finds a non-zero id is added under the lower-cased
      title and nowhere else; any other search stores nothing. */
  function AddMovieInfo(db: Catalog, text: string, search: (string, string) -> Option<int>): (r: (Catalog, AddOutcome))
    ensures r.1.Rejected? <==> ParseMovieInfo(text).Err?
    ensures r.1.Rejected? ==> r == (db, Rejected(ParseMovieInfo(text).error))
    ensures ParseMovieInfo(text).Ok? ==>
              var m := ParseMovieInfo(text).value;
              && (search(m.title, m.year) in {None, Some(0)} ==> r == (db, NotOnTmdb))
              && (search(m.title, m.year) !in {None, Some(0)} ==>
                    && r.1 == Added(search(m.title, m.year).value)
                    && Get(r.0, Lower(m.title)) == Some(NewEntry(m.names, r.1.id, m.link))
                    && (forall k :: k != Lower(m.title) ==> Get(r.0, k) == Get(db, k)))
  {
    StoreParsed(db, ParseMovieInfo(text), search)
  }

  /** A form written in the documented format for a movie TMDB finds adds
      exactly that movie: its names and link under its lower-cased title,
      with the id the search returned. */
  lemma AddFormattedMovie(db: Catalog, m: ParsedMovie, search: (string, string) -> Option<int>)
    requires Formattable(m) && search(m.title, m.year) !in {None, Some(0)}
    ensures var r := AddMovieInfo(db, FormatMovieInfo(m), search);
            && r.1 == Added(search(m.title, m.year).value)
            && Get(r.0, Lower(m.title)) == Some(NewEntry(m.names, search(m.title, m.year).value, m.link))
  {
    ParseFormatRoundTrip(m);
  }

  /** The part of a TMDB movie record the requested-link flow reads. */
  datatype Details = Details(title: string, originalTitle: string)

  /** The names stored for a requested movie: its title, then its original
      title when that differs. */
  function RequestedNames(d: Details): (r: seq<string>)
    ensures |r| >= 1 && r[0] == d.title
    ensures |r| == 2 <==> d.originalTitle != d.title
    ensures d.originalTitle in r
  {
    [d.title] + (if d.originalTitle != d.title then [d.originalTitle] else [])
  }

  /** What the requested-link flow did: whether it stopped early, the
      message it asked Telegram to delete, and the send's reply. */
  datatype LinkOutcome =
    | MissingRequest
    | MissingDetails
    | Stored(deleteAsked: Option<int>, reply: SendReply)

  /** The message the as-written flow asks Telegram to delete: what
      `delete_old_post` finds once the requested movie has been stored. */
  function AskedAfterOverwrite(db: Catalog, d: Details, tmdbId: int, link: string): Option<int>
  {
    var db1 := AddEntry(db, d.title, RequestedNames(d), tmdbId, link);
    match IndexOfId(db1, tmdbId)
    case None => None
    case Some(i) => if db1[i].0 != "" then DeleteRequest(db1, tmdbId) else None
  }

  /** A message asked for deletion after the overwrite is the post of an
      entry under another key: the overwritten entry's post is never it. */
  lemma OverwrittenPostIsNotAsked(db: Catalog, d: Details, tmdbId: int, link: string)
    requires DistinctKeys(db)
    ensures var asked := AskedAfterOverwrite(db, d, tmdbId, link);
            asked.Some? ==> exists j :: 0 <= j < |db| && db[j].0 != Lower(d.title) && db[j].1.id == tmdbId
                                        && db[j].1.lastMessageId == asked
  {
    var db1 := AddEntry(db, d.title, RequestedNames(d), tmdbId, link);
    var asked := AskedAfterOverwrite(db, d, tmdbId, link);
    if asked.Some? {
      var i := IndexOfId(db1, tmdbId).value;
      var key := Lower(d.title);
      match IndexOf(db, key)
      case Some(p) =>
        assert i != p;
        assert db1[i] == db[i];
      case None =>
        assert i < |db|;
        assert db1[i] == db[i];
    }
  }

  /** One key's entry after two steps that only set posts of `id`, to
      `None` or `sent`, with the key's lookup untouched in between: the
      key is present exactly when it was, and its entry is what it was,
      or, when it carries `id`, that entry with the post `None` or `sent`. */
  lemma KeptBetweenPosts(a: Catalog, b: Catalog, c: Catalog, d: Catalog, id: int,
                         p: set<Option<int>>, q: set<Option<int>>, sent: Option<int>, k: string)
    requires PostsSet(a, b, id, p) && PostsSet(c, d, id, q)
    requires p <= {None, sent} && q <= {None, sent}
    requires Get(c, k) == Get(b, k)
    ensures Get(d, k).Some? <==> Get(a, k).Some?
    ensures Get(a, k).Some? ==>
              Get(d, k) in {Get(a, k), Some(Get(a, k).value.(lastMessageId := None)),
                            Some(Get(a, k).value.(lastMessageId := sent))}
    ensures Get(a, k).Some? && Get(a, k).value.id != id ==> Get(d, k) == Get(a, k)
  {
    PostsSetGet(a, b, id, p, k);
    PostsSetGet(c, d, id, q, k);
  }

  /** Storing the unposted entry `e` under `key` between two steps that
      only set posts of `id`, to `None` or `sent` (from `a` to `b`, then
      from `c` to `d`): `key` ends up holding `e`, or `e` with the post
      `sent`, and every other key keeps its entry, up to the post of an
      entry carrying `id`. */
  lemma StoreBetweenPosts(a: Catalog, b: Catalog, c: Catalog, d: Catalog, key: string, e: Entry, id: int,
                          p: set<Option<int>>, q: set<Option<int>>, sent: Option<int>)
    requires PostsSet(a, b, id, p) && PostsSet(c, d, id, q)
    requires p <= {None, sent} && q <= {None, sent} && e.lastMessageId.None?
    requires Get(c, key) == Some(e) && forall k :: k != key ==> Get(c, k) == Get(b, k)
    ensures Get(d, key) in {Some(e), Some(e.(lastMessageId := sent))}
    ensures forall k :: k != key ==>
              && (Get(d, k).Some? <==> Get(a, k).Some?)
              && (Get(a, k).Some? ==>
                    Get(d, k) in {Get(a, k), Some(Get(a, k).value.(lastMessageId := None)),
                                  Some(Get(a, k).value.(lastMessageId := sent))})
              && (Get(a, k).Some? && Get(a, k).value.id != id ==> Get(d, k) == Get(a, k))
  {
    PostsSetGet(c, d, id, q, key);
    forall k | k != key
      ensures Get(d, k).Some? <==> Get(a, k).Some?
      ensures Get(a, k).Some? ==>
                Get(d, k) in {Get(a, k), Some(Get(a, k).value.(lastMessageId := None)),
                              Some(Get(a, k).value.(lastMessageId := sent))}
      ensures Get(a, k).Some? && Get(a, k).value.id != id ==> Get(d, k) == Get(a, k)
    {
      KeptBetweenPosts(a, b, c, d, id, p, q, sent, k);
    }
  }

  /** `process_requested_movie_link` as written: the movie is stored first,
      with no post, and only then is `delete_old_post` run for its id, so
      it looks for the old post in a catalog that has just forgotten it.
      Any message it does ask to delete belongs to another key holding the
      same id; the post recorded under the overwritten key never is. */
  function RequestedLinkAsWritten(db: Catalog, tmdbId: int, requestTitle: string, linkText: string,
                                  details: Option<Details>, deleteOk: bool, sent: Option<int>): (r: (Catalog, LinkOutcome))
    requires DistinctKeys(db)
    ensures r.1.MissingRequest? <==> tmdbId == 0 || requestTitle == ""
    ensures r.1.MissingDetails? <==> tmdbId != 0 && requestTitle != "" && details.None?
    ensures !r.1.Stored? ==> r.0 == db
    ensures r.1.Stored? <==> tmdbId != 0 && requestTitle != "" && details.Some?
    ensures r.1.Stored? ==> r.1.reply == SendReply(sent.Some?, sent)
    ensures r.1.Stored? ==>
              var key := Lower(details.value.title);
              var e := NewEntry(RequestedNames(details.value), tmdbId, Strip(linkText));
              && Get(r.0, key) in {Some(e), Some(e.(lastMessageId := sent))}
              && (sent.None? ==> Get(r.0, key) == Some(e))
    ensures r.1.Stored? ==>
              forall k :: k != Lower(details.value.title) ==>
                && (Get(r.0, k).Some? <==> Get(db, k).Some?)
                && (Get(db, k).Some? ==>
                      Get(r.0, k) in {Get(db, k), Some(Get(db, k).value.(lastMessageId := None)),
                                      Some(Get(db, k).value.(lastMessageId := sent))})
                && (Get(db, k).Some? && Get(db, k).value.id != tmdbId ==> Get(r.0, k) == Get(db, k))
    ensures r.1.Stored? && r.1.deleteAsked.Some? ==>
              exists j :: 0 <= j < |db| && db[j].0 != Lower(details.value.title) && db[j].1.id == tmdbId
                          && db[j].1.lastMessageId == r.1.deleteAsked
  {
    if tmdbId == 0 || requestTitle == "" then (db, MissingRequest)
    else match details
      case None => (db, MissingDetails)
      case Some(d) =>
        var db1 := AddEntry(db, d.title, RequestedNames(d), tmdbId, Strip(linkText));
        var asked := AskedAfterOverwrite(db, d, tmdbId, Strip(linkText));
        OverwrittenPostIsNotAsked(db, d, tmdbId, Strip(linkText));
        var db2 := DeleteOldPostAsWritten(db1, tmdbId, deleteOk);
        var (db3, reply) := SendMoviePostAsWritten(db2, ChannelId, Some(tmdbId), sent);
        PostsSetTrans(db1, db2, db3, tmdbId, {None}, {sent});
        StoreBetweenPosts(db, db, db1, db3, Lower(d.title), NewEntry(RequestedNames(d), tmdbId, Strip(linkText)), tmdbId, {None}, {None, sent}, sent);
        (db3, Stored(asked, reply))
  }

  /** The corrected order of the requested-link flow, on the catalog:
      retire the stale post of `id`, store the requested movie under its
      lower-cased title, then post it. The title's key holds the new entry,
      with the new post when the send went through; every other key keeps
      its entry, up to the post of an entry carrying `id`; and a successful
      send is found again by id. */
  lemma RetireThenStore(db: Catalog, d: Details, id: int, link: string, deleteOk: bool, sent: Option<int>)
    ensures var r := SendMoviePost(AddEntry(DeleteOldPost(db, id, deleteOk), d.title, RequestedNames(d), id, link),
                                   ChannelId, Some(id), sent).0;
            var e := NewEntry(RequestedNames(d), id, link);
            && Get(r, Lower(d.title)) in {Some(e), Some(e.(lastMessageId := sent))}
            && (forall k :: k != Lower(d.title) ==>
                  && (Get(r, k).Some? <==> Get(db, k).Some?)
                  && (Get(db, k).Some? ==>
                        Get(r, k) in {Get(db, k), Some(Get(db, k).value.(lastMessageId := None)),
                                      Some(Get(db, k).value.(lastMessageId := sent))})
                  && (Get(db, k).Some? && Get(db, k).value.id != id ==> Get(r, k) == Get(db, k)))
            && (sent.Some? ==> MovieById(r, id).Some? && MovieById(r, id).value.lastMessageId == sent)
  {
    var db1 := DeleteOldPost(db, id, deleteOk);
    var db2 := AddEntry(db1, d.title, RequestedNames(d), id, link);
    var db3 := SendMoviePost(db2, ChannelId, Some(id), sent).0;
    StoreBetweenPosts(db, db1, db2, db3, Lower(d.title), NewEntry(RequestedNames(d), id, link), id, {None}, {sent}, sent);
    if sent.Some? {
      SameIdsSameIndex(db3, db2, id);
    }
  }

  /** `process_requested_movie_link` with the stale post retired before the
      entry is overwritten: the message asked for deletion is exactly the
      post the catalog recorded for the id beforehand, and a successful
      send is recorded on the first entry with that id. */
  function RequestedLink(db: Catalog, tmdbId: int, requestTitle: string, linkText: string,
                         details: Option<Details>, deleteOk: bool, sent: Option<int>): (r: (Catalog, LinkOutcome))
    ensures r.1.MissingRequest? <==> tmdbId == 0 || requestTitle == ""
    ensures r.1.MissingDetails? <==> tmdbId != 0 && requestTitle != "" && details.None?
    ensures !r.1.Stored? ==> r.0 == db
    ensures r.1.Stored? <==> tmdbId != 0 && requestTitle != "" && details.Some?
    ensures r.1.Stored? ==> r.1.reply == SendReply(sent.Some?, sent)
    ensures r.1.Stored? ==> r.1.deleteAsked == DeleteRequest(db, tmdbId)
    ensures r.1.Stored? ==>
              var key := Lower(details.value.title);
              var e := NewEntry(RequestedNames(details.value), tmdbId, Strip(linkText));
              && Get(r.0, key) in {Some(e), Some(e.(lastMessageId := sent))}
              && (sent.None? ==> Get(r.0, key) == Some(e))
    ensures r.1.Stored? ==>
              forall k :: k != Lower(details.value.title) ==>
                && (Get(r.0, k).Some? <==> Get(db, k).Some?)
                && (Get(db, k).Some? ==>
                      Get(r.0, k) in {Get(db, k), Some(Get(db, k).value.(lastMessageId := None)),
                                      Some(Get(db, k).value.(lastMessageId := sent))})
                && (Get(db, k).Some? && Get(db, k).value.id != tmdbId ==> Get(r.0, k) == Get(db, k))
    ensures r.1.Stored? && sent.Some? ==> MovieById(r.0, tmdbId).Some? && MovieById(r.0, tmdbId).value.lastMessageId == sent
  {
    if tmdbId == 0 || requestTitle == "" then (db, MissingRequest)
    else match details
      case None => (db, MissingDetails)
      case Some(d) =>
        var db1 := DeleteOldPost(db, tmdbId, deleteOk);
        var db2 := AddEntry(db1, d.title, RequestedNames(d), tmdbId, Strip(linkText));
        var (db3, reply) := SendMoviePost(db2, ChannelId, Some(tmdbId), sent);
        RetireThenStore(db, d, tmdbId, Strip(linkText), deleteOk, sent);
        (db3, Stored(DeleteRequest(db, tmdbId), reply))
  }

  /** The discrepancy, for every catalog with unique keys and ids: the
      admin sends a new link for a movie that is on the channel under the
      key its title gives. As written, no message is asked for deletion,
      so the old post stays up with nothing pointing at it any more; with
      the stale post retired first, exactly that post is asked for. For
      instance "Dune" (id 438631) stored under "dune" with message 100. */
  lemma ResentLinkOrphansOldPost(db: Catalog, tmdbId: int, requestTitle: string, linkText: string,
                                 d: Details, deleteOk: bool, sent: Option<int>)
    requires DistinctKeys(db) && UniqueIds(db)
    requires tmdbId != 0 && requestTitle != ""
    requires IndexOf(db, Lower(d.title)).Some?
    requires db[IndexOf(db, Lower(d.title)).value].1.id == tmdbId
    requires HasLivePost(db[IndexOf(db, Lower(d.title)).value].1.lastMessageId)
    ensures RequestedLinkAsWritten(db, tmdbId, requestTitle, linkText, Some(d), deleteOk, sent).1
            == Stored(None, SendReply(sent.Some?, sent))
    ensures RequestedLink(db, tmdbId, requestTitle, linkText, Some(d), deleteOk, sent).1
            == Stored(db[IndexOf(db, Lower(d.title)).value].1.lastMessageId, SendReply(sent.Some?, sent))
  {
    var i := IndexOf(db, Lower(d.title)).value;
    var r := RequestedLinkAsWritten(db, tmdbId, requestTitle, linkText, Some(d), deleteOk, sent);
    assert r.1.deleteAsked.None?;
    assert IndexOfId(db, tmdbId) == Some(i) by {
      var f := IndexOfId(db, tmdbId).value;
      assert !(f < i) && !(i < f);
    }
  }

  /** `s.replace(c, '', 1)`: the first `c` removed. */
  function RemoveFirst(s: string, c: char): (r: string)
    ensures c !in s ==> r == s
    ensures c in s ==> |r| == |s| - 1
  {
    if |s| == 0 then s
    else if s[0] == c then s[1..]
    else
      assert c in s ==> c in s[1..];
      [s[0]] + RemoveFirst(s[1..], c)
  }

  /** `s.isdigit()`: a non-empty string of digits. */
  predicate AllDigits(s: string)
  {
    |s| > 0 && forall k :: 0 <= k < |s| ==> IsDigit(s[k])
  }

  /** The score test of the manual form, `s.replace('.', '', 1).isdigit()`. */
  predicate IsScoreText(s: string)
  {
    AllDigits(RemoveFirst(s, '.'))
  }

  /** Every character is a digit (the empty string included). */
  predicate DigitsOnly(s: string)
  {
    forall k :: 0 <= k < |s| ==> IsDigit(s[k])
  }

  /** Every character is a digit or a dot. */
  predicate DigitsAndDots(s: string)
  {
    forall k :: 0 <= k < |s| ==> s[k] == '.' || IsDigit(s[k])
  }

  /** Removing the first dot leaves only digits exactly when there were
      only digits and at most one dot. */
  lemma {:induction false} DigitsAfterRemovingDot(s: string)
    ensures DigitsOnly(RemoveFirst(s, '.')) <==> Count(s, '.') <= 1 && DigitsAndDots(s)
    decreases |s|
  {
    if |s| > 0 {
      var t := s[1..];
      assert forall k :: 0 <= k < |t| ==> t[k] == s[k + 1];
      if s[0] == '.' {
        assert RemoveFirst(s, '.') == t;
        if DigitsOnly(t) {
          assert '.' !in t;
          NoCharCount(t, '.');
        }
        if Count(t, '.') == 0 {
          CountZero(t, '.');
          assert forall k :: 0 <= k < |t| ==> t[k] != '.' by {
            forall k | 0 <= k < |t| ensures t[k] != '.' {
              assert t[k] in t;
            }
          }
        }
      } else {
        DigitsAfterRemovingDot(t);
        var u := RemoveFirst(t, '.');
        assert RemoveFirst(s, '.') == [s[0]] + u;
        assert ([s[0]] + u)[0] == s[0];
        assert forall k :: 0 <= k < |u| ==> ([s[0]] + u)[k + 1] == u[k];
      }
    }
  }

  /** Removing the first `c` keeps every other character. */
  lemma {:induction false} RemoveFirstKeeps(s: string, c: char, x: char)
    requires x != c
    ensures x in RemoveFirst(s, c) <==> x in s
    decreases |s|
  {
    if |s| > 0 && s[0] != c {
      RemoveFirstKeeps(s[1..], c, x);
      assert s == [s[0]] + s[1..];
    } else if |s| > 0 {
      assert s == [c] + s[1..];
    }
  }

  /** The score test accepts exactly the strings made of digits and at most
      one dot that hold at least one digit: "9", "9.0", ".5" and "9." pass,
      "", ".", "9.0.1" and "-1" do not. */
  lemma ScoreTextShape(s: string)
    ensures IsScoreText(s) <==>
              && Count(s, '.') <= 1
              && DigitsAndDots(s)
              && (exists k :: 0 <= k < |s| && IsDigit(s[k]))
  {
    var u := RemoveFirst(s, '.');
    DigitsAfterRemovingDot(s);
    if IsScoreText(s) {
      RemoveFirstKeeps(s, '.', u[0]);
      var k :| 0 <= k < |s| && s[k] == u[0];
      assert IsDigit(s[k]);
    }
    if exists k :: 0 <= k < |s| && IsDigit(s[k]) {
      var k :| 0 <= k < |s| && IsDigit(s[k]);
      RemoveFirstKeeps(s, '.', s[k]);
      assert s[k] in s;
    }
  }

  lemma {:induction false} NoCharCount(s: string, c: char)
    requires c !in s
    ensures Count(s, c) == 0
    decreases |s|
  {
    if |s| > 0 {
      assert c !in s[1..] by { assert forall x :: x in s[1..] ==> x in s; }
      NoCharCount(s[1..], c);
    }
  }

  lemma {:induction false} CountZero(s: string, c: char)
    requires Count(s, c) == 0
    ensures c !in s
    decreases |s|
  {
    if |s| > 0 {
      CountZero(s[1..], c);
      assert s == [s[0]] + s[1..];
    }
  }

  /** The five fields of the manual form, stripped. The score is kept as
      the text that passed the test; its float value is not modelled. */
  datatype ManualMovie = ManualMovie(title: string, overview: string, score: string, link: string, poster: string)

  datatype ManualError = TooFewFields | Incomplete

  /** The checks `process_manual_movie_info` makes on the five stripped
      fields: all non-empty and a score that passes the test. */
  predicate IsComplete(m: ManualMovie)
  {
    m.title != "" && m.overview != "" && IsScoreText(m.score) && m.link != "" && m.poster != ""
  }

  /** The parser of `process_manual_movie_info`: fewer than four `|` is a
      format error; an empty field (after stripping) or a score that fails
      the test is an "incomplete data" error. Otherwise the fields are the
      stripped first five `|`-pieces; anything after a fifth `|` is
      ignored. The title keeps its "(YYYY)": nothing here reads the year. */
  function ParseManualInfo(text: string): (r: Result<ManualMovie, ManualError>)
    ensures r == Err(TooFewFields) <==> Count(text, '|') < 4
    ensures Count(text, '|') >= 4 ==>
              var f := Split(text, '|');
              var m := ManualMovie(Strip(f[0]), Strip(f[1]), Strip(f[2]), Strip(f[3]), Strip(f[4]));
              && (r == Err(Incomplete) <==> !IsComplete(m))
              && (r.Ok? ==> r.value == m)
  {
    var f := Split(text, '|');
    if |f| < 5 then Err(TooFewFields)
    else
      var m := ManualMovie(Strip(f[0]), Strip(f[1]), Strip(f[2]), Strip(f[3]), Strip(f[4]));
      if IsComplete(m) then Ok(m) else Err(Incomplete)
  }

  /** Ids `random.randint(1000000, 9999999)` can draw for a manual entry. */
  predicate IsManualId(id: int)
  {
    1000000 <= id <= 9999999
  }

  /** `process_manual_movie_info`: a well-formed form stores the movie
      under its lower-cased title (year included), with that title as its
      only name and the drawn id; a rejected form stores nothing. */
  function AddManualMovie(db: Catalog, text: string, drawnId: int): (r: (Catalog, Result<int, ManualError>))
    requires IsManualId(drawnId)
    ensures ParseManualInfo(text).Err? ==> r == (db, Err(ParseManualInfo(text).error))
    ensures ParseManualInfo(text).Ok? ==>
              var m := ParseManualInfo(text).value;
              && IsComplete(m)
              && r.1 == Ok(drawnId)
              && Get(r.0, Lower(m.title)) == Some(Entry([m.title], drawnId, m.link, None))
              && (forall k :: k != Lower(m.title) ==> Get(r.0, k) == Get(db, k))
              && FindMovie(r.0, m.title).Some?
  {
    match ParseManualInfo(text)
    case Err(e) => (db, Err(e))
    case Ok(m) =>
      AddedMovieIsFindable(db, m.title, [m.title], drawnId, m.link);
      (AddEntry(db, m.title, [m.title], drawnId, m.link), Ok(drawnId))
  }
}
