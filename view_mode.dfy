/** The two view flags of the page and the view they select. The render
    shows the recently viewed section when `showRecents` is set, otherwise
    `displayedBooks`, which is the favorites list when `showFavorites` is set
    and the search results otherwise. */
module ViewMode {
  import opened Catalog

  datatype Flags = Flags(showFavorites: bool, showRecents: bool)

  /** The two flags are never set together. */
  predicate Exclusive(f: Flags) {
    !(f.showFavorites && f.showRecents)
  }

  /** The three mutually exclusive views the two flags encode. */
  datatype Mode = Results | FavoritesView | RecentsView

  /** The view the render selects from the flags. */
  function ModeOf(f: Flags): (r: Mode) {
    if f.showRecents then RecentsView
    else if f.showFavorites then FavoritesView
    else Results
  }

  /** The flags after a search or a history click. */
  const Cleared: Flags := Flags(false, false)

  /** The "Favorites" button: flip `showFavorites`, clear `showRecents`. */
  function PressFavorites(f: Flags): (r: Flags)
    ensures Exclusive(r)
    ensures r.showFavorites != f.showFavorites
    ensures !r.showRecents
  {
    Flags(!f.showFavorites, false)
  }

  /** The "Recent" button: flip `showRecents`, clear `showFavorites`. */
  function PressRecents(f: Flags): (r: Flags)
    ensures Exclusive(r)
    ensures r.showRecents != f.showRecents
    ensures !r.showFavorites
  {
    Flags(false, !f.showRecents)
  }

  /** On exclusive flags the "Favorites" button switches between the
      favorites view and the results, from the recents view to favorites. */
  lemma PressFavoritesMode(f: Flags)
    requires Exclusive(f)
    ensures ModeOf(PressFavorites(f)) == if ModeOf(f) == FavoritesView then Results else FavoritesView
  {
  }

  /** On exclusive flags the "Recent" button switches between the recents view
      and the results, from the favorites view to recents. */
  lemma PressRecentsMode(f: Flags)
    requires Exclusive(f)
    ensures ModeOf(PressRecents(f)) == if ModeOf(f) == RecentsView then Results else RecentsView
  {
  }

  /** Exclusive flag pairs and views are in one-to-one correspondence. */
  lemma ModeDeterminesFlags(f: Flags, g: Flags)
    requires Exclusive(f) && Exclusive(g)
    ensures ModeOf(f) == ModeOf(g) <==> f == g
  {
  }

  /** `displayedBooks`: the list the results area shows when the recents
      section is not shown. */
  function DisplayedBooks(f: Flags, favorites: seq<Book>, books: seq<Book>): (r: seq<Book>)
    ensures ModeOf(f) == FavoritesView ==> r == favorites
    ensures ModeOf(f) == Results ==> r == books
    ensures Exclusive(f) && ModeOf(f) == RecentsView ==> r == books
  {
    if f.showFavorites then favorites else books
  }
}
