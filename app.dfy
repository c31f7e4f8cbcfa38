/** The page's session controller: the component state and the handlers that
    update it. Each handler is one atomic step; the browser's storage and the
    catalog service appear only as ghost records of what was written to the
    one and asked of the other. */
module BookFinder {
  import opened Catalog
  import opened JsString
  import opened ViewMode
  import SearchHistory
  import RecentlyViewed
  import Favorites
  import KeyedList

  type Recent = RecentlyViewed.Recent

  /** What a catalog lookup produced: a failed request or unreadable body,
      or a body whose `docs` list may be missing. */
  datatype LookupOutcome = Failed | Answered(docs: Option<seq<Book>>)

  /** The query sent when the search text is empty (the initial load). */
  const DefaultQuery: string := "classic+books"

  /** The `q` parameter `fetchBooks` sends for a search text. */
  function LookupQuery(q: string): (r: string)
    ensures r != ""
    ensures q != "" ==> r == q
    ensures q == "" ==> r == DefaultQuery
  {
    if q == "" then DefaultQuery else q
  }

  /** The result list once a lookup settles: `docs`, or empty when the body has
      none; a failed lookup leaves the previous results in place. */
  function AfterLookup(books: seq<Book>, outcome: LookupOutcome): (r: seq<Book>)
    ensures outcome.Failed? ==> r == books
    ensures outcome.Answered? && outcome.docs.Some? ==> r == outcome.docs.value
    ensures outcome.Answered? && outcome.docs.None? ==> r == []
  {
    match outcome
    case Failed => books
    case Answered(docs) => docs.GetOr([])
  }

  class App {
    var query: string
    var books: seq<Book>
    var favorites: seq<Book>
    var recents: seq<Recent>
    var showFavorites: bool
    var showRecents: bool
    var searchHistory: seq<string>

    /** The stored "searchHistory" item; `None` when it is absent. */
    ghost var storedHistory: Option<seq<string>>
    /** The stored "recentBooks" item; `None` when it is absent. */
    ghost var storedRecents: Option<seq<Recent>>
    /** The catalog queries sent so far, oldest first. */
    ghost var lookups: seq<string>

    function ViewFlags(): (r: Flags)
      reads this
    {
      Flags(showFavorites, showRecents)
    }

    /** The flags select one view, no two favorites share a catalog key, and
        storage mirrors the persisted lists. */
    ghost predicate Valid()
      reads this
    {
      && Exclusive(ViewFlags())
      && KeyedList.UniqueKeys(favorites, BookKey)
      && storedRecents == Some(recents)
      && (storedHistory == Some(searchHistory) || (storedHistory == None && searchHistory == []))
    }

    /** The shape the page itself gives the history and the recents: no
        duplicate term, one entry per catalog key, at most ten entries each.
        Lists read back from storage are taken as stored, so this holds from
        the start only when the stored lists have that shape; every handler
        keeps it. */
    ghost predicate ListsWellFormed()
      reads this
    {
      && SearchHistory.Distinct(searchHistory) && |searchHistory| <= SearchHistory.MaxEntries
      && KeyedList.UniqueKeys(recents, RecentlyViewed.RecentKey) && |recents| <= RecentlyViewed.MaxEntries
    }

    /** The first render and the mount effect: empty state, the default lookup
        sent, history and recents read back from storage (an absent item reads
        as an empty list). */
    constructor (savedHistory: Option<seq<string>>, savedRecents: Option<seq<Recent>>)
      ensures Valid()
      ensures query == "" && books == [] && favorites == []
      ensures !showFavorites && !showRecents
      ensures searchHistory == savedHistory.GetOr([]) && storedHistory == savedHistory
      ensures recents == savedRecents.GetOr([])
      ensures lookups == [DefaultQuery]
      ensures ListsWellFormed() <==>
        && SearchHistory.Distinct(savedHistory.GetOr([])) && |savedHistory.GetOr([])| <= SearchHistory.MaxEntries
        && KeyedList.UniqueKeys(savedRecents.GetOr([]), RecentlyViewed.RecentKey)
        && |savedRecents.GetOr([])| <= RecentlyViewed.MaxEntries
    {
      query := "";
      books := [];
      favorites := [];
      showFavorites := false;
      showRecents := false;
      lookups := [LookupQuery("")];
      searchHistory := savedHistory.GetOr([]);
      storedHistory := savedHistory;
      recents := savedRecents.GetOr([]);
      storedRecents := Some(recents);
    }

    /** Typing in the search box. */
    method EditQuery(value: string)
      requires Valid()
      modifies this`query
      ensures Valid()
      ensures old(ListsWellFormed()) ==> ListsWellFormed()
      ensures query == value
    {
      query := value;
    }

    /** A lookup settling, whichever lookup it answers. */
    method ReceiveBooks(outcome: LookupOutcome)
      requires Valid()
      modifies this`books
      ensures Valid()
      ensures old(ListsWellFormed()) ==> ListsWellFormed()
      ensures books == AfterLookup(old(books), outcome)
    {
      books := AfterLookup(books, outcome);
    }

    /** `saveSearchHistory(term)`: a blank term changes nothing; otherwise the
        new history is stored as well. */
    method SaveSearchHistory(term: string)
      requires Valid()
      modifies this`searchHistory, this`storedHistory
      ensures Valid()
      ensures old(ListsWellFormed()) ==> ListsWellFormed()
      ensures searchHistory == SearchHistory.Saved(old(searchHistory), term)
      ensures IsBlank(term) ==> storedHistory == old(storedHistory)
      ensures !IsBlank(term) ==> storedHistory == Some(searchHistory)
    {
      if IsBlank(term) {
        return;
      }
      if ListsWellFormed() {
        SearchHistory.SavedKeepsDistinct(searchHistory, term);
      }
      searchHistory := SearchHistory.Saved(searchHistory, term);
      storedHistory := Some(searchHistory);
    }

    /** `clearHistory`: empty the history and remove the stored item. */
    method ClearHistory()
      requires Valid()
      modifies this`searchHistory, this`storedHistory
      ensures Valid()
      ensures old(ListsWellFormed()) ==> ListsWellFormed()
      ensures searchHistory == [] && storedHistory == None
    {
      searchHistory := [];
      storedHistory := None;
    }

    /** `handleSearch`: a blank query does nothing; otherwise look it up,
        save it to the history and return to the results view. */
    method HandleSearch()
      requires Valid()
      modifies this`lookups, this`searchHistory, this`storedHistory
      modifies this`showFavorites, this`showRecents
      ensures Valid()
      ensures old(ListsWellFormed()) ==> ListsWellFormed()
      ensures IsBlank(query) ==>
        && searchHistory == old(searchHistory) && storedHistory == old(storedHistory)
        && ViewFlags() == old(ViewFlags()) && lookups == old(lookups)
      ensures !IsBlank(query) ==>
        && searchHistory == SearchHistory.Saved(old(searchHistory), query)
        && storedHistory == Some(searchHistory)
        && ViewFlags() == Cleared
        && lookups == old(lookups) + [query]
    {
      if IsBlank(query) {
        return;
      }
      assert query != "";
      lookups := lookups + [LookupQuery(query)];
      SaveSearchHistory(query);
      showFavorites := false;
      showRecents := false;
    }

    /** `handleHistoryClick(term)`: put the term in the search box, look it up,
        save it to the history and return to the results view. */
    method HandleHistoryClick(term: string)
      requires Valid()
      modifies this`query, this`lookups, this`searchHistory, this`storedHistory
      modifies this`showFavorites, this`showRecents
      ensures Valid()
      ensures old(ListsWellFormed()) ==> ListsWellFormed()
      ensures query == term
      ensures searchHistory == SearchHistory.Saved(old(searchHistory), term)
      ensures IsBlank(term) ==> storedHistory == old(storedHistory)
      ensures !IsBlank(term) ==> storedHistory == Some(searchHistory)
      ensures ViewFlags() == Cleared
      ensures lookups == old(lookups) + [LookupQuery(term)]
    {
      query := term;
      lookups := lookups + [LookupQuery(term)];
      SaveSearchHistory(term);
      showFavorites := false;
      showRecents := false;
    }

    /** `removeHistoryItem(term)`: drop every occurrence and store the rest. */
    method RemoveHistoryItem(term: string)
      requires Valid()
      modifies this`searchHistory, this`storedHistory
      ensures Valid()
      ensures old(ListsWellFormed()) ==> ListsWellFormed()
      ensures searchHistory == SearchHistory.Removed(old(searchHistory), term)
      ensures storedHistory == Some(searchHistory)
    {
      if ListsWellFormed() {
        SearchHistory.RemovedKeepsDistinct(searchHistory, term);
      }
      searchHistory := SearchHistory.Removed(searchHistory, term);
      storedHistory := Some(searchHistory);
    }

    /** `toggleFavorite(book)`. */
    method ToggleFavorite(book: Book)
      requires Valid()
      modifies this`favorites
      ensures Valid()
      ensures old(ListsWellFormed()) ==> ListsWellFormed()
      ensures favorites == Favorites.Toggled(old(favorites), book)
    {
      Favorites.ToggledKeepsUniqueKeys(favorites, book);
      favorites := Favorites.Toggled(favorites, book);
    }

    /** `handleBookClick(book)` at the time whose ISO text is `now`; the
        persist effect then stores the new list. */
    method HandleBookClick(book: Book, now: string)
      requires Valid()
      modifies this`recents, this`storedRecents
      ensures Valid()
      ensures old(ListsWellFormed()) ==> ListsWellFormed()
      ensures recents == RecentlyViewed.Clicked(old(recents), book, now)
    {
      if ListsWellFormed() {
        RecentlyViewed.ClickedKeepsUniqueKeys(recents, book, now);
      }
      recents := RecentlyViewed.Clicked(recents, book, now);
      storedRecents := Some(recents);
    }

    /** `clearRecents`: the stored item is removed, and the persist effect
        that follows the state change writes the empty list back. */
    method ClearRecents()
      requires Valid()
      modifies this`recents, this`storedRecents
      ensures Valid()
      ensures old(ListsWellFormed()) ==> ListsWellFormed()
      ensures recents == [] && storedRecents == Some([])
    {
      recents := [];
      storedRecents := None;
      storedRecents := Some(recents);
    }

    /** The "Favorites" button. */
    method PressFavoritesButton()
      requires Valid()
      modifies this`showFavorites, this`showRecents
      ensures Valid()
      ensures old(ListsWellFormed()) ==> ListsWellFormed()
      ensures ViewFlags() == PressFavorites(old(ViewFlags()))
      ensures ModeOf(ViewFlags()) == if old(ModeOf(ViewFlags())) == FavoritesView then Results else FavoritesView
    {
      PressFavoritesMode(ViewFlags());
      showFavorites := !showFavorites;
      showRecents := false;
    }

    /** The "Recent" button. */
    method PressRecentsButton()
      requires Valid()
      modifies this`showFavorites, this`showRecents
      ensures Valid()
      ensures old(ListsWellFormed()) ==> ListsWellFormed()
      ensures ViewFlags() == PressRecents(old(ViewFlags()))
      ensures ModeOf(ViewFlags()) == if old(ModeOf(ViewFlags())) == RecentsView then Results else RecentsView
    {
      PressRecentsMode(ViewFlags());
      showRecents := !showRecents;
      showFavorites := false;
    }

    /** `displayedBooks`: the favorites in the favorites view, the search
        results otherwise. */
    function Displayed(): (r: seq<Book>)
      reads this
      requires Valid()
      ensures ModeOf(ViewFlags()) == FavoritesView ==> r == favorites
      ensures ModeOf(ViewFlags()) != FavoritesView ==> r == books
    {
      DisplayedBooks(ViewFlags(), favorites, books)
    }

    /** Whether a card shows its star as set. */
    predicate IsFavorited(book: Book)
      reads this
    {
      Favorites.IsFavorite(favorites, book.key)
    }
  }
}
