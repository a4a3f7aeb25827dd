# Movie channel bot — catalog, publication, voting and scheduling

The bot runs a Telegram movie channel from one file, `bot.py`. It keeps a
catalog (`movies_db`): an insertion-ordered dict from the lower-cased main
title to an entry with the movie's display names, its TMDB id, a viewing
link and `last_message_id`, the channel post that currently shows the movie
(`None` while the movie is unposted). The admin fills the catalog through
three forms:

- "Title (YYYY) | names | link", handled by `add_movie_info`;
- a link sent for a movie a user requested, handled by
  `process_requested_movie_link`;
- a five-field manual form, handled by `process_manual_movie_info`.

As written, the manual form is almost never reached. Its only entry is the
"add manually" button of `add_manually_callback`. That button carries
`add_manually_<title>_<user id>` (bot.py:764), and the handler looks the
request up under `"<title>_<user id>".lower()` (bot.py:827-829). The request
itself was stored under the title alone (bot.py:766). So the lookup fails,
and the form is not opened, unless another pending request happens to be
stored under exactly `"<title>_<user id>"`. The model describes the form,
and the "publish and notify" button it offers, as if the form were reached.

Most ways of publishing run the same pair: `delete_old_post` retires the
stored post, then `send_movie_post` sends the new one and records its
message id. This pair is triggered by:

- catalog buttons;
- "publish now";
- user requests by name;
- posts scheduled 30 or 60 minutes ahead;
- a daily auto-poster that picks a random unposted movie every
  `86400 / AUTO_POST_COUNT` seconds;
- a vote among three random unposted movies, started by the admin. As written, only the admin's own press is counted; see Findings.

Two flows differ:

- The link the admin sends for a requested movie stores the movie first,
  overwriting its entry with no post, and only then runs the pair.
- "Publish and notify" never calls `delete_old_post`. It builds its own movie
  data, with no id and the placeholder "N/A" as score. Formatting that score
  raises before anything is sent. Its button is offered only by the manual
  form, for the id that form has just drawn.

The Dafny model follows the program's structure:

- `Core`: `Option` and `Result`, and the first index matching a predicate.
- `Text`: Python's `str.strip`, `lower`, `split` and `replace`, with the lemmas that relate them.
- `Dict`: an insertion-ordered `dict` as a sequence of pairs: `get`, `d[k] = v`, `d[k] += 1` and sums.
- `Catalog`: entries, the lookups by name and by id, the unposted filter, and the insertion every add flow performs.
- `Publication`: retiring and sending posts, and the handlers that publish.
- `Admin`: the three add flows and their parsers.
- `Paging`: the catalog browser.
- `Scheduling`: delayed posts and the auto-post loop.
- `Voting`: starting a vote, voting, and resolving it.

Telegram, TMDB and randomness are represented by parameters:

- `deleteOk` says whether Telegram accepted a delete.
- `sent` is the new message's id, or `None` when sending raised.
- `detailsFound` says whether TMDB returned details.
- `search` stands for the TMDB search.
- `pick` and `drawnId` stand for the random draws.

The model follows the code. Four of its behaviours are easy to miss:

- `find_movie_in_db` compares the lower-cased query for *equality* with the lower-cased names and key. It does not look for substrings.
- The vote has no minimum-vote threshold; any winner with at least one vote is published.
- There is no per-user rate limiting of requests.
- The auto-post count is never checked for zero. The model requires it to be positive. The offered counts are 2, 4, 6 and 8.

## Model

| member | source | states |
|---|---|---|
| Catalog.FindMovie | bot.py:106-112 | the result is the first entry in catalog order whose key or one of whose names equals the query ignoring case; `None` exactly when no entry matches |
| Catalog.FindMovieIgnoresCase | bot.py:106-112 | looking up the lower-cased query finds the same entry as the query itself |
| Catalog.MovieById | bot.py:114-118 | the first entry carrying the id; `None` exactly when no entry carries it |
| Catalog.Unposted | bot.py:958 | an entry is in the filter exactly when it is in the catalog with no stored post; never longer than the catalog |
| Catalog.AddEntry | bot.py:450-455 | exactly the lower-cased title is written, with a fresh unposted entry; every other key keeps its entry; an existing key keeps its place, a new key goes last; keys stay distinct; the id becomes findable |
| Catalog.AddedMovieIsFindable | bot.py:450-455 | after an add, looking up the title it was added under finds an entry |
| Publication.SetMessage | bot.py:284-286 | only the chosen entry's post changes; keys and every other entry are unchanged |
| Publication.DeleteRequest | bot.py:246-256 | Telegram is asked to delete a message exactly when the first entry with the id has a truthy stored post, and the message asked for is that post |
| Publication.DeleteOldPost | bot.py:246-262 | a failed delete, an unknown id or no stored post leaves the catalog alone; otherwise only the first entry with the id loses its post |
| Publication.RetiredPostIsNotDeletedTwice | bot.py:246-262 | after a successful retirement, a second call asks for no deletion |
| Publication.SendMoviePost | bot.py:264-291 | a failed send returns `(False, None)` and changes nothing; a successful send to the channel records the message on the first entry with the movie's id, which leaves the unposted filter; other entries and keys are unchanged |
| Publication.PostsSetGet | bot.py:246-262 | when only the posts of entries with one id change, every key stays present or absent as before, and an entry changes only if it carries that id, and then only in its post |
| Publication.Publish | bot.py:390-392 | the delete-then-send pair: the reply is the send's; an uncatalogued id changes nothing; for a catalogued id only its first entry changes: on success it points at the new message and leaves the unposted filter, on failure it keeps what the delete left; only posts of that id change |
| Publication.PublishIsFoundById | bot.py:390-392 | publishing keeps the id at the same position, and on success the lookup by id returns the entry with the new message |
| Publication.UnpostedShrinks | bot.py:284-286 | recording a post on an unposted entry shrinks the unposted filter by exactly one |
| Publication.PublishFromCatalog | bot.py:380-396 | an unknown id or missing details publishes nothing and leaves the catalog; otherwise the reply is the send's outcome and a success is recorded on the entry; only posts of that id can change, and a failed send that retires nothing leaves the catalog as it was |
| Publication.PublishNowManual | bot.py:475-507 | like the catalog button, but missing details do not stop the post; only posts of that id can change, and a failed send that retires nothing leaves the catalog as it was |
| Publication.RequestByName | bot.py:741-797 | an unknown title, an entry with id 0 or an empty link, or missing details publishes nothing; otherwise the matched movie is re-published and a success recorded; only posts of that id can change, and a failed send that retires nothing leaves the catalog as it was |
| Publication.DeleteOldPostAsWritten | bot.py:246-262 | with the key test as written, an entry under the key "" is never cleared; under any other key it agrees with `DeleteOldPost` |
| Publication.SendMoviePostAsWritten | bot.py:264-291 | with the key test as written, a post for an entry under "" is never recorded; under any other key it agrees with `SendMoviePost` |
| Publication.EmptyKeyPostIsNeverTracked | bot.py:253 | for an entry under "" with post 5, the as-written pair neither retires 5 nor records the new post 9, while the corrected pair asks to delete 5 and records 9 |
| Publication.PublishAndNotifyAsWritten | bot.py:911-920 | an uncatalogued id is refused; for a catalogued id, formatting the "N/A" score raises before sending, so nothing is posted, nobody is notified and the catalog does not change |
| Publication.PublishAndNotifyWithoutId | bot.py:912-929 | with the score formatted but still no id in the movie data: the catalog never changes, and the user is notified exactly when the send succeeds |
| Publication.PublishAndNotify | bot.py:898-930 | with the id passed along, a successful send is recorded on the entry, which leaves the unposted filter, and the user is notified; only posts of that id can change, and a failed send that retires nothing leaves the catalog as it was |
| Publication.NotifyNeverPosts | bot.py:915 | for every catalogued movie the as-written handler posts nothing and notifies nobody, while the corrected handler, on a successful send, notifies the user and records the post on the movie |
| Publication.NotifiedPostStaysUnposted | bot.py:912-921 | with only the score fixed, a notified user's movie stays unposted; the corrected handler posts it |
| Admin.FindYear | bot.py:435 | the leftmost `(19dd)`/`(20dd)` from a position; `None` exactly when there is none |
| Admin.YearDigits | bot.py:439 | removing both parentheses from the matched token leaves its four digits |
| Admin.YearOf | bot.py:439 | the year is the token's four digits, starting 19 or 20 |
| Admin.ParseNames | bot.py:441 | one name per comma-separated piece of the stripped field, none holding a comma or surrounding whitespace |
| Admin.ParseHead | bot.py:435-440 | `None` exactly when no year occurs; otherwise the year is that of the leftmost match and the title is the field with that token removed everywhere, stripped |
| Admin.ParseMovieInfo | bot.py:428-441 | fewer than two `\|` is a format error; no year in the stripped first field is a year error; otherwise title, year, names and link come from the first three fields |
| Admin.ParseFormatRoundTrip | bot.py:428-441 | a movie written as "Title (YYYY) \| names \| link" parses back to the same title, year, names and link |
| Admin.StoreParsed | bot.py:443-456 | after parsing: a parse error is reported and stores nothing; a search that finds nothing or id 0 stores nothing; a found id is added under the lower-cased title with the parsed names and link, and no other key changes |
| Admin.AddMovieInfo | bot.py:423-456 | it is rejected exactly when the form is malformed, with the parser's error; a search that finds nothing or id 0 stores nothing; a well-formed form with a non-zero search result is added, under exactly the lower-cased title, with the parsed names, the found id and the link |
| Admin.AddFormattedMovie | bot.py:428-456 | a form written as "Title (YYYY) \| names \| link" for a movie the search finds adds exactly that movie, under its lower-cased title |
| Admin.RequestedNames | bot.py:550-553 | the title first, then the original title exactly when it differs |
| Admin.OverwrittenPostIsNotAsked | bot.py:554-561 | after the overwrite, any message asked for deletion belongs to another key; it is never the overwritten entry's post |
| Admin.StoreBetweenPosts | bot.py:554-563 | storing an unposted entry under a key, with steps that only retire or record posts of one id before and after, leaves that entry under the key, with at most the new post, and every other key's entry as it was up to a post of that id |
| Admin.RetireThenStore | bot.py:554-563 | retiring, then storing the requested movie, then posting it: the title's key holds the new entry, every other key keeps its entry up to the post of the same id, and a success is found by id |
| Admin.RequestedLinkAsWritten | bot.py:533-563 | a missing id or title, or missing details, stores nothing; otherwise the lower-cased title holds the new names, id and stripped link, with no post or the new one; every other key keeps its entry, up to the post of an entry with the same id; any deletion asked for is another key's post |
| Admin.RequestedLink | bot.py:533-563 | the same outcomes and the same entry written under the title, with every other key kept up to the post of the same id; the message asked for deletion is exactly the post the catalog held for the id beforehand, and a success is recorded |
| Admin.ResentLinkOrphansOldPost | bot.py:554-561 | for a movie already posted under its title's key, the as-written flow asks for no deletion; the corrected flow asks for exactly the old post |
| Admin.RemoveFirst | bot.py:860 | a string without the character is unchanged; otherwise exactly one character shorter |
| Admin.DigitsAfterRemovingDot | bot.py:860 | after removing the first dot, only digits remain exactly when the text was digits with at most one dot |
| Admin.ScoreTextShape | bot.py:860 | the score test accepts exactly digits with at most one dot and at least one digit |
| Admin.ParseManualInfo | bot.py:853-866 | fewer than four `\|` is a format error; otherwise an "incomplete" error exactly when a stripped field is empty or the score fails, and the result is the five stripped fields |
| Admin.AddManualMovie | bot.py:847-883 | a rejected form stores nothing; an accepted one stores the title, year included, as key and sole name, with the drawn id; the movie is then findable by that title |
| Paging.SliceBound | bot.py:355 | Python's slice bound: negative counts from the end, clamped into the sequence |
| Paging.PySlice | bot.py:355 | for non-negative bounds, the clamped infix; never longer than the bounds' distance |
| Paging.TotalPages | bot.py:356 | the fewest pages of five that hold all entries; zero exactly for an empty catalog |
| Paging.PageItems | bot.py:352-355 | the at most five entries from `5·page` on |
| Paging.CatalogPage | bot.py:351-371 | one button per entry of the page, in order, naming its title and id; "previous" exactly when `page > 0`; "next" exactly when a later page exists |
| Paging.NextPageIsNonEmpty | bot.py:366-367 | "next" exists exactly when the next page has entries |
| Paging.PagesFromCoverRest | bot.py:351-355 | paging from a page on shows the rest of the catalog, in order |
| Paging.PagesCoverCatalog | bot.py:351-355 | the pages from the first partition the whole catalog, in order |
| Paging.EntryOnItsPage | bot.py:351-356 | entry `i` is button `i % 5` on page `i / 5`, and that page is below the page count |
| Scheduling.DelayMinutes | bot.py:594-599 | "30m" gives 30, "1h" 60, anything else 0 |
| Scheduling.ScheduleRequest | bot.py:591-604 | an unknown id queues nothing; otherwise the entry found for the id is queued with the mapped delay |
| Scheduling.RunScheduled | bot.py:1057-1068 | without details nothing happens; otherwise the queued id is published and, if still catalogued, a success is recorded; only posts of that id can change, and a failed send that retires nothing leaves the catalog as it was |
| Scheduling.AutoPostInterval | bot.py:1029 | the interval is positive and `count` of them make exactly one day |
| Scheduling.OfferedIntervalsAreWholeSeconds | bot.py:403-408 | each offered count divides the day into whole seconds; the default of 4 gives 21600 s |
| Scheduling.IntervalShrinksWithCount | bot.py:1029 | more posts a day means a strictly shorter interval |
| Scheduling.UnpostedIsFirstWithItsId | bot.py:1030-1033 | with unique ids, the first entry with an unposted entry's id is that entry |
| Scheduling.PublishUnposted | bot.py:1037-1039 | publishing an unposted movie keeps ids unique; on success that movie carries the new message and exactly it leaves the unposted filter; a failed send leaves the catalog as it was |
| Scheduling.AutoPostCycle | bot.py:1025-1046 | no unposted movie or no details changes nothing; otherwise the picked movie is published; unique ids stay unique; only posts of the pick's id can change; with unique ids, on success the pick carries the new message and leaves the unposted filter, which shrinks by one, and a failed send leaves the catalog as it was |
| Scheduling.AddThenAutoPost | bot.py:1025-1046 | a movie added to an empty catalog is auto-posted as message 7 and the unposted filter is then empty |
| Voting.ZeroVotes | bot.py:966 | every candidate is a key exactly once, all counts are zero, and a repeated id keeps one place; distinct ids become the keys in the order given |
| Voting.ZeroVotesLength | bot.py:966 | distinct candidates give one tally entry each |
| Voting.StartVoting | bot.py:958-968 | fewer than three unposted movies refuses; otherwise the three sampled unposted movies are the candidates, in sample order, all at zero, nobody has voted, and the record is consistent; with unique ids the tally lists the candidates in that same order |
| Voting.UnpostedUniqueIds | bot.py:958 | with unique catalog ids the unposted movies have unique ids |
| Voting.CandidatesAreDistinct | bot.py:962-966 | with unique ids, the three candidates differ and the tally has three entries |
| Voting.Vote | bot.py:1010-1021 | a repeat voter or an unknown candidate changes nothing; otherwise that count rises by one, the user joins the voters, and nothing else changes |
| Voting.VoteKeepsTally | bot.py:1018-1019 | a vote keeps the counts summing to the number of voters, none negative |
| Voting.VotesKeepTally | bot.py:1010-1021 | any run of votes from a consistent record leaves it consistent |
| Voting.FirstMax | bot.py:994 | the winner's count is the largest and every earlier count is strictly smaller |
| Voting.FirstMaxIsUnique | bot.py:994 | those two properties determine the winner |
| Voting.Resolve | bot.py:989-1005 | an empty tally, a winner with no votes or not catalogued ends without a winner and changes nothing; otherwise the first most-voted candidate wins, with a positive count, and is published when details exist; conversely, when that candidate has a positive count and is catalogued, it wins; only posts of the winner's id can change, and a failed send that retires nothing leaves the catalog as it was |
| Voting.PressAsWritten | bot.py:1009-1021 | a press by anyone but the user who started the vote changes nothing; the starter's press is handled as a vote |
| Voting.OnlyTheStarterVotes | bot.py:969-970 | from a consistent record with no voter but the starter, any run of presses leaves at most the starter among the voters and at most one vote in all |
| Voting.AudienceVotesAreLost | bot.py:1009 | two other users voting for one movie leave the record unchanged as written, while a shared record counts two votes |
| Voting.SomeVoteMeansWinner | bot.py:997 | one positive count for catalogued candidates guarantees a winner |
| Voting.VotesKeepOrder | bot.py:1017-1019 | presses never change the candidates or the order of the tally's keys, and keep the keys distinct |
| Voting.FirstMaxInCandidateOrder | bot.py:994 | when the tally lists the candidates in order, `max` picks a candidate no other candidate beats, and every candidate offered before it has fewer votes |
| Voting.WinnerInCandidateOrder | bot.py:994-998 | when the tally lists the candidates in order, a winner is the first candidate, in the order offered, with the most votes |
| Voting.StartedVoteKeepsOrder | bot.py:962-966 | a vote started on a catalog with unique ids keeps, after any presses, its candidates in sample order and its tally in that same order, which is what WinnerInCandidateOrder needs |
| Text.Strip | bot.py:432-434 | the result is the infix after the leading whitespace and before trailing whitespace only, starting and ending with non-whitespace |
| Text.StripIdempotent | bot.py:441 | stripping twice is stripping once |
| Text.StripPadded | bot.py:432-434 | whitespace around a stripped string is exactly what strip removes |
| Text.Split | bot.py:428 | one more part than separators, no part holds the separator, and joining the parts gives the input back |
| Text.SplitJoin | bot.py:428 | splitting a join of separator-free parts gives the parts back |
| Text.RemoveAll | bot.py:440 | never longer than the input, and unchanged when the pattern does not occur |
| Text.RemoveTrailingPattern | bot.py:440 | removing a pattern that occurs only at the end leaves the rest |
| Dict.Put | bot.py:450 | an existing key is replaced in place; a new key is appended |
| Dict.PutEffect | bot.py:450 | after `d[k] = v`, `k` maps to `v` and every other key is unchanged |
| Dict.Increment | bot.py:1018 | `d[k] += 1` raises that count by one, keeps every other value and the key order, and raises the total by one |

## Left out

- Telegram I/O is out of scope: message texts, keyboards, photos, parse modes, answers to callbacks, and deleting the admin's own messages. Only the catalog and the delete and send requests are modelled.
- TMDB and Trakt calls are represented by parameters: the search result, whether details were found, and the `Details` titles. `create_movie_message` and its formatting are not modelled, except that its score format fails on the "N/A" placeholder of "publish and notify"; a missing poster is not modelled either.
- Persistence is out of scope. `load_movies_db` and `save_movies_db` (JSON files) are not modelled; the catalog is a value.
- asyncio is not modelled:
  - no sleeps, tasks or queue;
  - the ten-minute vote window, the 30/60-minute delay and the auto-post interval are values, not waits;
  - the 60-second retry after an exception is not modelled.
- Random draws are parameters: `random.choice`, `random.sample` (`ValidSample`) and `random.randint` (`IsManualId`).
- Scheduling.AutoPostInterval requires a positive count. In the bot a count of zero raises `ZeroDivisionError`, which the loop catches before sleeping 60 seconds. That path is left out.
- Admin.ParseManualInfo keeps the score as validated text. Its `float` value is not modelled, because floating point is out of scope.
- Text.Lower covers ASCII and Latin-1 letters only. `IsDigit` and the regex `\d` are ASCII only, and other Unicode digits are not modelled.
- Admin checks (`ADMIN_ID`) are left out. Every modelled handler behaves as for the admin.
- FSM storage is left out: the voting record is a `Session` value, and the request and link data are explicit parameters. Voting.Vote and Voting.VotesKeepTally describe the shared record the vote evidently intends. As written, the dispatcher keeps one FSM context per user, so only the starter's presses reach it; Voting.PressAsWritten models that, and it is the last Findings row.
- Catalog entries without a `"names"` field, or without an `"id"` field, are not represented. Every entry has both.
- Publication.Publish, and the handlers built on it (Publication.PublishFromCatalog, Publication.PublishNowManual, Publication.RequestByName, Publication.PublishAndNotify, Scheduling.RunScheduled, Scheduling.AutoPostCycle and Voting.Resolve), use the corrected key test of Publication.DeleteOldPost and Publication.SendMoviePost: an entry stored under the key "" is retired and recorded like any other. As written, the bot does neither for that entry; this is the first Findings row. A "" key arises only from an empty title, such as the form "(2020) | names | link".
- Publication.RequestByName uses the entry's id for the delete and the send. The bot uses the id in TMDB's details, which is that same id.
- Other handlers are out of scope: start, spam deletion, menus, new releases, genre and actor search, `add_manually` (its request lookup is described above: it stores nothing, and it almost never opens the manual form), `request_movie_by_id`, and the content ("meme") scheduler. None of them writes the catalog.
- The webhook server, logging and exception logging are not modelled.

## Findings

| source | as written | input that shows it | evidently intended | confidence | as-written member | corrected member |
|---|---|---|---|---|---|---|
| bot.py:253 and bot.py:284 | `if found_key:` / `if movie_key:` test the key for truthiness, so an entry stored under "" is treated as not found | catalog `{"": {names ["(2020)"], id 7, last_message_id 5}}`, re-published as message 9: post 5 is never deleted, 9 is never recorded, the movie stays unposted | treat any found key, "" included, as found | low: a "" key needs an empty title; not executed | Publication.DeleteOldPostAsWritten, Publication.SendMoviePostAsWritten, Publication.EmptyKeyPostIsNeverTracked | Publication.DeleteOldPost, Publication.SendMoviePost |
| bot.py:554-561 | the entry is overwritten with `last_message_id: None` before `delete_old_post`, so the old post is never found | "Dune" (id 438631) under "dune" with post 100; the admin sends a new link: post 100 is not deleted and nothing refers to it any more | retire the stored post before overwriting the entry | medium; not executed | Admin.RequestedLinkAsWritten, Admin.ResentLinkOrphansOldPost | Admin.RequestedLink |
| bot.py:915 and bot.py:228 | "publish and notify" sets `vote_average` to the string "N/A", and `create_movie_message` formats it with `:.1f`, which raises `ValueError` for a string, before anything is sent | the movie the manual form has just stored, under its drawn seven-digit id, published with "publish and notify": nothing is posted and the requesting user is never told | give the score a number, or format a placeholder without `:.1f` | medium: the button exists only once the manual form is reached, which the request lookup at bot.py:827-829 almost always prevents; not executed | Publication.PublishAndNotifyAsWritten, Publication.NotifyNeverPosts | Publication.PublishAndNotify |
| bot.py:912-921 | once the score is formatted, the movie data handed to `send_movie_post` still has no `"id"`, so the post is never recorded, and `delete_old_post` is not called | the movie the manual form has just stored, still unposted, published with "publish and notify" as message 9: the user is notified, the entry stays unposted and will be auto-posted again | pass the id and retire the old post, as every other publishing handler does | low: only reachable once the score is fixed and the manual form is reached; not executed | Publication.PublishAndNotifyWithoutId, Publication.NotifiedPostStaysUnposted | Publication.PublishAndNotify |
| bot.py:969-970 and bot.py:1009 | `start_voting_command` sets the voting state only in the FSM context of the admin who started the vote, and `process_vote` is filtered on that state; the dispatcher keeps one FSM context per user, so other users' presses never reach the handler | the admin starts a vote; users 5 and 6 press "vote" for the same movie: nothing is counted, and the vote ends "sin votos" unless the admin voted | one voting record shared by every user who presses, as the voters set and the "Ya has votado" check suggest | medium: relies on the dispatcher's default per-user FSM contexts; not executed | Voting.PressAsWritten, Voting.OnlyTheStarterVotes, Voting.AudienceVotesAreLost | Voting.Vote, Voting.VotesKeepTally |
