/** The search history: a most-recent-first list of search terms, compared by
    exact string equality and capped at ten entries. */
module SearchHistory {
  import opened KeyedList
  import opened JsString

  /** The `.slice(0, 10)` bound on the history. */
  const MaxEntries: nat := 10

  /** Terms are their own keys: duplicates are exact string matches. */
  function Term(t: string): (r: string) { t }

  /** No term occurs twice. */
  predicate Distinct(h: seq<string>) {
    UniqueKeys(h, Term)
  }

  /** `saveSearchHistory(term)`: ignore a blank term (one whose `trim()` is
      empty, see `TrimEmptyIffBlank`), otherwise move `term` to the front and
      keep the first ten entries. */
  function Saved(h: seq<string>, term: string): (r: seq<string>)
    ensures IsBlank(term) ==> r == h
    ensures !IsBlank(term) ==> 1 <= |r| <= MaxEntries && r[0] == term
    ensures !IsBlank(term) ==> forall i :: 1 <= i < |r| ==> r[i] != term
    ensures !IsBlank(term) ==> r[1..] <= Without(h, Term, term)
    ensures !IsBlank(term) ==> |r| == Min(MaxEntries, |Without(h, Term, term)| + 1)
  {
    if IsBlank(term) then h else PushFront(h, term, Term, MaxEntries)
  }

  /** `removeHistoryItem(term)`: drop every occurrence of `term`. */
  function Removed(h: seq<string>, term: string): (r: seq<string>)
    ensures term !in r
    ensures forall t :: t in r <==> t in h && t != term
    ensures term !in h ==> r == h
    ensures term in h ==> |r| < |h|
    ensures forall t :: multiset(r)[t] == if t == term then 0 else multiset(h)[t]
  {
    var r := Without(h, Term, term);
    forall t ensures multiset(r)[t] == if t == term then 0 else multiset(h)[t] {
      WithoutCounts(h, Term, term, t);
    }
    forall t ensures t in r <==> t in h && t != term {
      WithoutMembership(h, Term, term, t);
    }
    assert term in h ==> HasKey(h, Term, term) by {
      if term in h {
        var i :| 0 <= i < |h| && h[i] == term;
        assert Term(h[i]) == term;
      }
    }
    r
  }

  /** A saved term occurs exactly once in the new history. */
  lemma SavedTermOnce(h: seq<string>, term: string)
    requires !IsBlank(term)
    ensures multiset(Saved(h, term))[term] == 1
  {
    var r := Saved(h, term);
    assert r == [term] + r[1..];
    assert term !in r[1..];
  }

  /** The terms that survive a save keep their relative order. */
  lemma SavedKeepsOrder(h: seq<string>, term: string)
    requires !IsBlank(term)
    ensures IsSubsequence(Saved(h, term)[1..], h)
  {
    PushFrontKeepsOrder(h, term, Term, MaxEntries);
  }

  /** Removing a term keeps the relative order of the others. */
  lemma RemovedKeepsOrder(h: seq<string>, term: string)
    ensures IsSubsequence(Removed(h, term), h)
  {
    WithoutIsSubsequence(h, Term, term);
  }

  /** Saving keeps a duplicate-free history duplicate-free. */
  lemma SavedKeepsDistinct(h: seq<string>, term: string)
    requires Distinct(h)
    ensures Distinct(Saved(h, term))
  {
    PushFrontKeepsUnique(h, term, Term, MaxEntries);
  }

  /** Removing a term keeps a duplicate-free history duplicate-free. */
  lemma RemovedKeepsDistinct(h: seq<string>, term: string)
    requires Distinct(h)
    ensures Distinct(Removed(h, term))
  {
    WithoutKeepsUnique(h, Term, term);
  }

  /** Saving the same term twice in a row is the same as saving it once. */
  lemma SavedTwice(h: seq<string>, term: string)
    ensures Saved(Saved(h, term), term) == Saved(h, term)
  {
    if !IsBlank(term) {
      PushFrontSameKeyTwice(h, term, term, Term, MaxEntries);
    }
  }

  /** The history after saving the terms of `ts` one after the other. */
  function SavedAll(h: seq<string>, ts: seq<string>): (r: seq<string>)
    decreases |ts|
  {
    if ts == [] then h else Saved(SavedAll(h, ts[..|ts| - 1]), ts[|ts| - 1])
  }

  /** `s` in reverse order. */
  function Reversed(s: seq<string>): (r: seq<string>)
    ensures |r| == |s|
    ensures forall i :: 0 <= i < |s| ==> r[i] == s[|s| - 1 - i]
  {
    if s == [] then [] else [s[|s| - 1]] + Reversed(s[..|s| - 1])
  }

  /** Saving a non-blank term the history does not hold puts it in front of
      the whole old history, cut to ten entries. */
  lemma SavedNewTerm(h: seq<string>, t: string)
    requires !IsBlank(t)
    requires t !in h
    ensures Saved(h, t) == ([t] + h)[..Min(MaxEntries, |h| + 1)]
  {
    assert !HasKey(h, Term, t);
    var r := Saved(h, t);
    assert r[1..] == h[..|r| - 1];
  }

  /** Cutting a list before putting an item in front changes nothing when the
      cut is at least as long as what is kept afterwards. */
  lemma ConsPrefix(t: string, s: seq<string>, k: nat, j: nat)
    requires k <= |s| && j <= k + 1
    ensures ([t] + s[..k])[..j] == ([t] + s)[..j]
  {
  }

  /** Saving distinct, non-blank terms into an empty history leaves the ten
      most recent ones, newest first. */
  lemma {:induction false} SavedAllDistinct(ts: seq<string>)
    requires forall i :: 0 <= i < |ts| ==> !IsBlank(ts[i])
    requires Distinct(ts)
    ensures SavedAll([], ts) == Reversed(ts)[..Min(MaxEntries, |ts|)]
  {
    if ts != [] {
      var p, t := ts[..|ts| - 1], ts[|ts| - 1];
      SavedAllDistinct(p);
      var kept := Reversed(p)[..Min(MaxEntries, |p|)];
      assert t !in kept by {
        forall i | 0 <= i < |kept| ensures kept[i] != t {
          assert kept[i] == ts[|p| - 1 - i];
        }
      }
      SavedNewTerm(kept, t);
      assert SavedAll([], ts) == ([t] + kept)[..Min(MaxEntries, |kept| + 1)];
      assert Reversed(ts) == [t] + Reversed(p);
      ConsPrefix(t, Reversed(p), Min(MaxEntries, |p|), Min(MaxEntries, |ts|));
    }
  }

  /** Saving a non-blank term onto a history that starts with terms other
      than it puts the term in front of those terms, as far as the cap allows. */
  lemma SavedOntoPrefix(h: seq<string>, t: string, q: seq<string>)
    requires !IsBlank(t)
    requires |q| <= |h| && h[..|q|] == q
    requires t !in q
    ensures |Saved(h, t)| >= Min(MaxEntries, |q| + 1)
    ensures Saved(h, t)[..Min(MaxEntries, |q| + 1)] == ([t] + q)[..Min(MaxEntries, |q| + 1)]
  {
    forall i | 0 <= i < |q| ensures Term(h[i]) != t {
      assert h[i] == q[i];
    }
    WithoutKeepsCleanPrefix(h, Term, t, |q|);
    var w := Without(h, Term, t);
    var r := Saved(h, t);
    var n := Min(MaxEntries, |q| + 1);
    forall i | 0 <= i < n ensures r[i] == ([t] + q)[i] {
      if i > 0 {
        assert r[i] == r[1..][i - 1] == w[i - 1] == w[..|q|][i - 1];
      }
    }
  }

  /** Whatever the history held before, after saving distinct, non-blank
      terms its first entries are the most recent of those terms, newest
      first, as many as the cap leaves room for. */
  lemma {:induction false} SavedAllRecentFirst(h: seq<string>, ts: seq<string>)
    requires forall i :: 0 <= i < |ts| ==> !IsBlank(ts[i])
    requires Distinct(ts)
    ensures |SavedAll(h, ts)| >= Min(MaxEntries, |ts|)
    ensures SavedAll(h, ts)[..Min(MaxEntries, |ts|)] == Reversed(ts)[..Min(MaxEntries, |ts|)]
  {
    if ts != [] {
      var p, t := ts[..|ts| - 1], ts[|ts| - 1];
      SavedAllRecentFirst(h, p);
      var m := Min(MaxEntries, |p|);
      var q := Reversed(p)[..m];
      assert t !in q by {
        forall i | 0 <= i < m ensures q[i] != t {
          assert q[i] == ts[|p| - 1 - i];
        }
      }
      SavedOntoPrefix(SavedAll(h, p), t, q);
      assert SavedAll(h, ts) == Saved(SavedAll(h, p), t);
      assert Reversed(ts) == [t] + Reversed(p);
      ConsPrefix(t, Reversed(p), m, Min(MaxEntries, |ts|));
    }
  }

  /** Saving eleven distinct, non-blank terms, whatever the history held
      before, keeps exactly the last ten, newest first; the first one is
      gone. */
  lemma ElevenTermsDropFirst(h: seq<string>, ts: seq<string>)
    requires |ts| == 11
    requires forall i :: 0 <= i < |ts| ==> !IsBlank(ts[i])
    requires Distinct(ts)
    ensures SavedAll(h, ts) == Reversed(ts[1..])
    ensures ts[0] !in SavedAll(h, ts)
  {
    SavedAllRecentFirst(h, ts);
    var r := SavedAll(h, ts);
    assert r == Saved(SavedAll(h, ts[..10]), ts[10]);
    assert |r| <= MaxEntries;
    assert r == r[..10] == Reversed(ts)[..10];
    forall i | 0 <= i < 10 ensures r[i] == Reversed(ts[1..])[i] {
    }
    assert r == Reversed(ts[1..]);
  }
}
