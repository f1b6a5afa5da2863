/**
 * `fuzzySearch` (`cmd/quilt-web/util/StringUtil.tsx`): despite its name, a
 * plain case-sensitive substring filter over the items' search texts, with
 * no ranking.
 */
module StringUtil {
  import opened Strings
  import opened Seqs

  /** The test `fuzzySearch` applies to each item. */
  function MatchesSearch<T>(searchValue: string, getSearchText: T -> string): T -> bool
  {
    item => Contains(getSearchText(item), searchValue)
  }

  function FuzzySearch<T>(items: seq<T>, searchValue: string, getSearchText: T -> string): (r: seq<T>)
    ensures |r| <= |items|
    ensures forall k | 0 <= k < |r| :: Contains(getSearchText(r[k]), searchValue)
  {
    Filter(items, MatchesSearch(searchValue, getSearchText))
  }

  /** An item is kept exactly when its search text contains the search value. */
  lemma FuzzySearchKeeps<T>(items: seq<T>, searchValue: string, getSearchText: T -> string, item: T)
    ensures item in FuzzySearch(items, searchValue, getSearchText)
            <==> item in items && Contains(getSearchText(item), searchValue)
  {
    FilterMembership(items, MatchesSearch(searchValue, getSearchText), item);
  }

  /** The result keeps the input's order: it is a subsequence of it. */
  lemma FuzzySearchKeepsOrder<T>(items: seq<T>, searchValue: string, getSearchText: T -> string)
    ensures IsSubsequence(FuzzySearch(items, searchValue, getSearchText), items)
  {
    FilterIsSubsequence(items, MatchesSearch(searchValue, getSearchText));
  }

  /** An empty search value returns every item. */
  lemma EmptySearchKeepsAll<T>(items: seq<T>, getSearchText: T -> string)
    ensures FuzzySearch(items, "", getSearchText) == items
  {
    forall k | 0 <= k < |items| ensures MatchesSearch("", getSearchText)(items[k]) {
      ContainsEmpty(getSearchText(items[k]));
    }
    FilterKeepsAll(items, MatchesSearch("", getSearchText));
  }

  /** Searching the result again with the same value returns it unchanged. */
  lemma FuzzySearchIdempotent<T>(items: seq<T>, searchValue: string, getSearchText: T -> string)
    ensures FuzzySearch(FuzzySearch(items, searchValue, getSearchText), searchValue, getSearchText)
            == FuzzySearch(items, searchValue, getSearchText)
  {
    FilterIdempotent(items, MatchesSearch(searchValue, getSearchText));
  }

  /** Matching is case-sensitive: an upper-case letter is not found by its lower-case form. */
  lemma FuzzySearchCaseSensitive()
    ensures FuzzySearch(["Journal"], "journal", (s: string) => s) == []
  {
    var s := "Journal";
    assert s[0] != "journal"[0];
    NoRoom(s[1..], "journal");
    assert !Contains(s, "journal");
  }

  /** A search value longer than the text is never contained in it. */
  lemma {:induction false} NoRoom(s: string, sub: string)
    requires |sub| > |s|
    ensures !Contains(s, sub)
    decreases |s|
  {
    if s != [] {
      NoRoom(s[1..], sub);
    }
  }
}
