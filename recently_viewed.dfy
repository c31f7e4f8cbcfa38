/** The recently viewed list: a most-recent-first list of clicked books, each
    stamped with the time it was viewed, one entry per catalog key, capped at
    ten entries. */
module RecentlyViewed {
  import opened KeyedList
  import opened Catalog

  /** The `.slice(0, 10)` bound on the list. */
  const MaxEntries: nat := 10

  /** A clicked book together with its `viewedAt` stamp. The stamp is the
      ISO-8601 text of the clock reading at the click, taken as given. */
  datatype Recent = Recent(book: Book, viewedAt: string)

  /** Entries are deduplicated by the catalog key of their book. */
  function RecentKey(e: Recent): (r: string) { e.book.key }

  /** `handleBookClick(book)` at time `now`: the stamped book goes to the
      front, any older entry for the same key is dropped, ten are kept. */
  function Clicked(rs: seq<Recent>, book: Book, now: string): (r: seq<Recent>)
    ensures 1 <= |r| <= MaxEntries
    ensures r[0] == Recent(book, now)
    ensures forall i :: 1 <= i < |r| ==> r[i].book.key != book.key
    ensures r[1..] <= Without(rs, RecentKey, book.key)
    ensures |r| == Min(MaxEntries, |Without(rs, RecentKey, book.key)| + 1)
  {
    PushFront(rs, Recent(book, now), RecentKey, MaxEntries)
  }

  /** The entries that survive a click keep their relative order. */
  lemma ClickedKeepsOrder(rs: seq<Recent>, book: Book, now: string)
    ensures IsSubsequence(Clicked(rs, book, now)[1..], rs)
  {
    PushFrontKeepsOrder(rs, Recent(book, now), RecentKey, MaxEntries);
  }

  /** A click keeps the keys of the list unique. */
  lemma ClickedKeepsUniqueKeys(rs: seq<Recent>, book: Book, now: string)
    requires UniqueKeys(rs, RecentKey)
    ensures UniqueKeys(Clicked(rs, book, now), RecentKey)
  {
    PushFrontKeepsUnique(rs, Recent(book, now), RecentKey, MaxEntries);
  }

  /** Clicking a book whose key is already listed replaces that entry rather
      than adding one: the length does not grow. */
  lemma ClickedListedKeyKeepsLength(rs: seq<Recent>, book: Book, now: string)
    requires HasKey(rs, RecentKey, book.key)
    ensures |Clicked(rs, book, now)| <= |rs|
  {
  }

  /** Clicking two books with the same key in a row leaves one entry for that
      key, at the front, carrying the second book and the second stamp. */
  lemma ClickedTwice(rs: seq<Recent>, first: Book, second: Book, earlier: string, later: string)
    requires first.key == second.key
    ensures Clicked(Clicked(rs, first, earlier), second, later) == Clicked(rs, second, later)
  {
    PushFrontSameKeyTwice(rs, Recent(first, earlier), Recent(second, later), RecentKey, MaxEntries);
  }
}
