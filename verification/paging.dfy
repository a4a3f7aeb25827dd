/** The admin's catalog browser (`send_catalog_page`): the catalog is shown
    five entries at a time, one "publish" button per entry, with
    "previous" and "next" buttons around the page. */
module Paging {
  import opened Core
  import opened Catalog

  /** `MOVIES_PER_PAGE`. */
  const MoviesPerPage: nat := 5

  /** Python's treatment of a slice bound `i` on a sequence of length `n`:
      a negative bound counts from the end, and the result is clamped into
      `0..n`. */
  function SliceBound(i: int, n: nat): (r: nat)
    ensures r <= n
    ensures 0 <= i <= n ==> r == i
    ensures n < i ==> r == n
    ensures i < 0 ==> r == if i + n < 0 then 0 else i + n
  {
    if i < 0 then (if i + n < 0 then 0 else i + n) else if i > n then n else i
  }

  /** `s[a:b]` for Python integers `a` and `b`. */
  function PySlice<T>(s: seq<T>, a: int, b: int): (r: seq<T>)
    ensures 0 <= a <= b ==> r == s[SliceBound(a, |s|)..SliceBound(b, |s|)]
    ensures a <= b ==> |r| <= b - a
  {
    var lo := SliceBound(a, |s|);
    var hi := SliceBound(b, |s|);
    assert a <= b && lo <= hi ==> hi - lo <= b - a by {
      if a < 0 && 0 <= b {
        assert hi <= b && (lo == 0 || lo == a + |s|);
      }
    }
    if lo <= hi then s[lo..hi] else []
  }

  /** `(n + MOVIES_PER_PAGE - 1) // MOVIES_PER_PAGE`: the fewest pages that
      hold `n` entries. */
  function TotalPages(n: nat): (r: nat)
    ensures r * MoviesPerPage >= n
    ensures r > 0 ==> (r - 1) * MoviesPerPage < n
    ensures r == 0 <==> n == 0
  {
    (n + MoviesPerPage - 1) / MoviesPerPage
  }

  /** The entries `movie_items[start:end]` shown on page `page`. */
  function PageItems(db: Catalog, page: int): (r: Catalog)
    ensures |r| <= MoviesPerPage
    ensures 0 <= page ==>
              var start := page * MoviesPerPage;
              r == if start >= |db| then [] else db[start..if start + MoviesPerPage <= |db| then start + MoviesPerPage else |db|]
  {
    PySlice(db, page * MoviesPerPage, page * MoviesPerPage + MoviesPerPage)
  }

  /** A "Publicar '<title>'" button; pressing it publishes movie `id`. */
  datatype Button = Button(title: string, id: int)

  /** The message `send_catalog_page` sends: the "page n/total" header,
      the entry buttons, and the targets of the navigation buttons. */
  datatype Page = Page(shownNumber: int, total: nat, buttons: seq<Button>, prev: Option<int>, next: Option<int>)

  /** `send_catalog_page(chat, page)`. The page shows entries
      `[5·page, min(5·page + 5, n))` of the catalog in order, one button
      each; "previous" exists exactly when `page > 0` and leads to
      `page - 1`; "next" exists exactly when `page + 1` is below the page
      count and leads to `page + 1`. */
  function CatalogPage(db: Catalog, page: int): (r: Page)
    ensures r.shownNumber == page + 1 && r.total == TotalPages(|db|)
    ensures |r.buttons| <= MoviesPerPage
    ensures 0 <= page ==>
              && |r.buttons| == |PageItems(db, page)|
              && forall k :: 0 <= k < |r.buttons| ==>
                   var e := db[page * MoviesPerPage + k].1;
                   r.buttons[k] == Button(DisplayTitle(e), e.id)
    ensures r.prev.Some? <==> page > 0
    ensures r.prev.Some? ==> r.prev.value == page - 1
    ensures r.next.Some? <==> page + 1 < TotalPages(|db|)
    ensures r.next.Some? ==> r.next.value == page + 1
  {
    var items := PageItems(db, page);
    var buttons := seq(|items|, k requires 0 <= k < |items| => Button(DisplayTitle(items[k].1), items[k].1.id));
    Page(page + 1, TotalPages(|db|), buttons,
         if page > 0 then Some(page - 1) else None,
         if page + 1 < TotalPages(|db|) then Some(page + 1) else None)
  }

  /** The pages are never empty where "next" leads: for a page in range,
      the next page has entries exactly when the "next" button exists. */
  lemma NextPageIsNonEmpty(db: Catalog, page: nat)
    ensures CatalogPage(db, page).next.Some? <==> |PageItems(db, page + 1)| > 0
  {
  }

  /** Every page from `page` on, in order. */
  function PagesFrom(db: Catalog, page: nat): seq<(string, Entry)>
    decreases |db| - page * MoviesPerPage
  {
    if page * MoviesPerPage >= |db| then [] else PageItems(db, page) + PagesFrom(db, page + 1)
  }

  /** Paging from `page` onwards shows the rest of the catalog from entry
      `5·page`, each entry once and in order. */
  lemma {:induction false} PagesFromCoverRest(db: Catalog, page: nat)
    ensures page * MoviesPerPage <= |db| ==> PagesFrom(db, page) == db[page * MoviesPerPage..]
    ensures page * MoviesPerPage > |db| ==> PagesFrom(db, page) == []
    decreases |db| - page * MoviesPerPage
  {
    var start := page * MoviesPerPage;
    if start < |db| {
      PagesFromCoverRest(db, page + 1);
      if start + MoviesPerPage <= |db| {
        assert db[start..] == db[start..start + MoviesPerPage] + db[start + MoviesPerPage..];
      } else {
        assert PagesFrom(db, page + 1) == [];
      }
    }
  }

  /** Walking the pages from the first shows the whole catalog: pages
      `0 .. total-1` partition it, in order. */
  lemma PagesCoverCatalog(db: Catalog)
    ensures PagesFrom(db, 0) == db
  {
    PagesFromCoverRest(db, 0);
  }

  /** Entry `i` of the catalog is button `i % 5` on page `i / 5`, and that
      page is one the navigation reaches: below the page count. */
  lemma EntryOnItsPage(db: Catalog, i: nat)
    requires i < |db|
    ensures i / MoviesPerPage < TotalPages(|db|)
    ensures var r := CatalogPage(db, i / MoviesPerPage);
            i % MoviesPerPage < |r.buttons| && r.buttons[i % MoviesPerPage] == Button(DisplayTitle(db[i].1), db[i].1.id)
  {
  }
}
