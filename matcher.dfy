/** matches_search: case-insensitive substring containment of the query in
    an application's display name, with the C locale's ASCII fold. */
module Matcher {
  import opened CStrings

  /** Capacity of the query buffer, terminator included. */
  const MAX_SEARCH := 64
  /** How many characters of a name the scratch buffer holds: app_lower[256]
      less its terminator. */
  const NAME_SCAN := 255

  /** The lower-cased copy of a name that matches_search scans. For the empty
      name the source leaves its buffer unset; here it is the empty string. */
  function NameKey(name: string): (r: string)
    ensures |r| == Min(|name|, NAME_SCAN)
    ensures forall k :: 0 <= k < |r| ==> r[k] == Lower(name[k])
  {
    Fold(Take(name, NAME_SCAN))
  }

  /** The lower-cased copy of the query that matches_search looks for. */
  function QueryKey(search: string): (r: string)
    ensures |r| == Min(|search|, MAX_SEARCH - 1)
    ensures forall k :: 0 <= k < |r| ==> r[k] == Lower(search[k])
  {
    Fold(Take(search, MAX_SEARCH - 1))
  }

  /** matches_search: the empty query matches every name; otherwise the
      lower-cased query must occur contiguously in the lower-cased name. */
  function MatchesSearch(name: string, search: string): (r: bool)
    ensures search == [] ==> r
    ensures search != [] ==> (r <==> exists i :: OccursAt(NameKey(name), QueryKey(search), i))
  {
    if |search| == 0 then true
    else Contains(NameKey(name), QueryKey(search))
  }

  /** The slice of `name` at position `i` equals `search` up to case. */
  predicate OccursFoldedAt(name: string, search: string, i: int) {
    0 <= i && i + |search| <= |name| && Fold(name[i..i + |search|]) == Fold(search)
  }

  /** For a name and a query that fit their buffers, a non-empty query
      matches exactly when some slice of the name equals it up to case. */
  lemma MatchesSlice(name: string, search: string)
    requires |name| <= NAME_SCAN && 0 < |search| < MAX_SEARCH
    ensures MatchesSearch(name, search) <==> exists i :: OccursFoldedAt(name, search, i)
  {
    if MatchesSearch(name, search) {
      var i :| OccursAt(NameKey(name), QueryKey(search), i);
      FoldSlice(name, i, i + |search|);
      assert OccursFoldedAt(name, search, i);
    }
    if i :| OccursFoldedAt(name, search, i) {
      FoldSlice(name, i, i + |search|);
      assert OccursAt(NameKey(name), QueryKey(search), i);
    }
  }

  /** A query longer than the name never matches. */
  lemma LongerQueryFails(name: string, search: string)
    requires |name| < |search| < MAX_SEARCH
    ensures !MatchesSearch(name, search)
  {
  }

  /** Matching ignores the case of both the name and the query. */
  lemma MatchesIgnoresCase(name: string, search: string)
    ensures MatchesSearch(Fold(name), search) == MatchesSearch(name, search)
    ensures MatchesSearch(name, Fold(search)) == MatchesSearch(name, search)
  {
    FoldTake(name, NAME_SCAN);
    FoldIdempotent(Take(name, NAME_SCAN));
    FoldTake(search, MAX_SEARCH - 1);
    FoldIdempotent(Take(search, MAX_SEARCH - 1));
  }
}
