/** The favorites list: books in the order they were starred, membership
    decided by catalog key. It lives only in memory. */
module Favorites {
  import opened KeyedList
  import opened Catalog

  /** `favorites.some(fav => fav.key === key)`: whether a book with this key
      is starred. */
  predicate IsFavorite(fs: seq<Book>, key: string) {
    HasKey(fs, BookKey, key)
  }

  /** `toggleFavorite(book)`: if some entry has the book's key, drop every
      entry with that key; otherwise append the book at the end. */
  function Toggled(fs: seq<Book>, book: Book): (r: seq<Book>)
    ensures IsFavorite(r, book.key) <==> !IsFavorite(fs, book.key)
    ensures IsFavorite(fs, book.key) ==> |r| < |fs| && forall i :: 0 <= i < |r| ==> r[i].key != book.key
    ensures !IsFavorite(fs, book.key) ==> |r| == |fs| + 1 && r[..|fs|] == fs && r[|fs|] == book
  {
    if IsFavorite(fs, book.key) then Without(fs, BookKey, book.key)
    else
      var r := fs + [book];
      assert BookKey(r[|fs|]) == book.key;
      r
  }

  /** Unstarring drops exactly the entries with the book's key: every other
      entry keeps its multiplicity and the entries keep their order. */
  lemma ToggledOffIsFilter(fs: seq<Book>, book: Book, x: Book)
    requires IsFavorite(fs, book.key)
    ensures multiset(Toggled(fs, book))[x] == if x.key == book.key then 0 else multiset(fs)[x]
    ensures IsSubsequence(Toggled(fs, book), fs)
  {
    WithoutCounts(fs, BookKey, book.key, x);
    WithoutIsSubsequence(fs, BookKey, book.key);
  }

  /** Toggling one book leaves the membership of every other key unchanged. */
  lemma ToggledOtherKeys(fs: seq<Book>, book: Book, key: string)
    requires key != book.key
    ensures IsFavorite(Toggled(fs, book), key) <==> IsFavorite(fs, key)
  {
    var r := Toggled(fs, book);
    if IsFavorite(fs, book.key) {
      if IsFavorite(fs, key) {
        var i :| 0 <= i < |fs| && BookKey(fs[i]) == key;
        WithoutMembership(fs, BookKey, book.key, fs[i]);
        var j :| 0 <= j < |r| && r[j] == fs[i];
        assert BookKey(r[j]) == key;
      }
      if IsFavorite(r, key) {
        var j :| 0 <= j < |r| && BookKey(r[j]) == key;
        WithoutMembership(fs, BookKey, book.key, r[j]);
        var i :| 0 <= i < |fs| && fs[i] == r[j];
        assert BookKey(fs[i]) == key;
      }
    } else {
      if IsFavorite(fs, key) {
        var i :| 0 <= i < |fs| && BookKey(fs[i]) == key;
        assert BookKey(r[i]) == key;
      }
      if IsFavorite(r, key) {
        var j :| 0 <= j < |r| && BookKey(r[j]) == key;
        assert j < |fs| && BookKey(fs[j]) == key;
      }
    }
  }

  /** Toggling the same book twice restores the membership of every key. */
  lemma ToggledTwiceMembership(fs: seq<Book>, book: Book, key: string)
    ensures IsFavorite(Toggled(Toggled(fs, book), book), key) <==> IsFavorite(fs, key)
  {
    if key != book.key {
      ToggledOtherKeys(fs, book, key);
      ToggledOtherKeys(Toggled(fs, book), book, key);
    }
  }

  /** Starring and then unstarring a book that was not a favorite gives back
      exactly the list it started from. */
  lemma ToggledTwiceFromAbsent(fs: seq<Book>, book: Book)
    requires !IsFavorite(fs, book.key)
    ensures Toggled(Toggled(fs, book), book) == fs
  {
    var r := fs + [book];
    assert Toggled(fs, book) == r;
    assert Without(r, BookKey, book.key) == Without(fs, BookKey, book.key) + [] by {
      WithoutAppendMatching(fs, book);
    }
  }

  /** Filtering a list extended by a book with the filtered key drops it. */
  lemma {:induction false} WithoutAppendMatching(fs: seq<Book>, book: Book)
    ensures Without(fs + [book], BookKey, book.key) == Without(fs, BookKey, book.key)
  {
    if fs != [] {
      WithoutAppendMatching(fs[1..], book);
      assert (fs + [book])[1..] == fs[1..] + [book];
    }
  }

  /** Toggling keeps a list without duplicate keys free of them. */
  lemma ToggledKeepsUniqueKeys(fs: seq<Book>, book: Book)
    requires UniqueKeys(fs, BookKey)
    ensures UniqueKeys(Toggled(fs, book), BookKey)
  {
    if IsFavorite(fs, book.key) {
      WithoutKeepsUnique(fs, BookKey, book.key);
    } else {
      var r := Toggled(fs, book);
      forall i, j | 0 <= i < j < |r| ensures BookKey(r[i]) != BookKey(r[j]) {
        if j == |fs| {
          assert BookKey(fs[i]) != book.key;
        } else {
          assert r[i] == fs[i] && r[j] == fs[j];
        }
      }
    }
  }
}
