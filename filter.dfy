/** filter_apps: the catalog positions whose display name matches the
    query, written in catalog order into the caller's index array. */
module Filter {
  import opened CStrings
  import opened Catalog
  import opened Matcher

  /** The test filter_apps makes at each catalog position. */
  function MatchFlags(apps: seq<App>, search: string): (r: seq<bool>)
    ensures |r| == |apps|
    ensures forall i :: 0 <= i < |r| ==> r[i] == MatchesSearch(apps[i].displayName, search)
  {
    seq(|apps|, i requires 0 <= i < |apps| => MatchesSearch(apps[i].displayName, search))
  }

  /** The positions below `n` whose flag is set, in increasing order. */
  function Positions(keep: seq<bool>, n: nat): (r: seq<int>)
    requires n <= |keep|
    ensures |r| <= n
    ensures forall k :: 0 <= k < |r| ==> 0 <= r[k] < n
    ensures forall k, l :: 0 <= k < l < |r| ==> r[k] < r[l]
  {
    if n == 0 then []
    else Positions(keep, n - 1) + (if keep[n - 1] then [n - 1] else [])
  }

  /** A position is collected exactly when it is below `n` and its flag is set. */
  lemma {:induction false} PositionsMembers(keep: seq<bool>, n: nat)
    requires n <= |keep|
    ensures forall i :: i in Positions(keep, n) <==> 0 <= i < n && keep[i]
  {
    if n > 0 {
      PositionsMembers(keep, n - 1);
      var tail := if keep[n - 1] then [n - 1] else [];
      assert Positions(keep, n) == Positions(keep, n - 1) + tail;
    }
  }

  /** With every flag set, all positions below `n` are collected. */
  lemma {:induction false} PositionsAll(keep: seq<bool>, n: nat)
    requires n <= |keep| && forall i :: 0 <= i < n ==> keep[i]
    ensures Positions(keep, n) == Range(n)
  {
    if n > 0 {
      PositionsAll(keep, n - 1);
      assert Range(n) == Range(n - 1) + [n - 1];
    }
  }

  /** The positions below `n` whose entry matches `search`, in catalog order:
      what filter_apps has written after `n` iterations. */
  function FilterPrefix(apps: seq<App>, search: string, n: nat): (r: seq<int>)
    requires n <= |apps|
    ensures |r| <= n
    ensures forall k :: 0 <= k < |r| ==> 0 <= r[k] < n
    ensures forall k, l :: 0 <= k < l < |r| ==> r[k] < r[l]
  {
    Positions(MatchFlags(apps, search), n)
  }

  /** The filtered list for a query: what filter_apps writes. */
  function Filtered(apps: seq<App>, search: string): (r: seq<int>)
    ensures |r| <= |apps|
    ensures forall k :: 0 <= k < |r| ==> 0 <= r[k] < |apps|
  {
    FilterPrefix(apps, search, |apps|)
  }

  /** All positions of a catalog of `n` entries, in order: the list main.c:127-130 starts with. */
  function Range(n: nat): (r: seq<int>)
    ensures |r| == n
  {
    seq(n, i => i)
  }

  /** A position below `n` is kept exactly when its entry matches. */
  lemma FilterPrefixMembers(apps: seq<App>, search: string, n: nat)
    requires n <= |apps|
    ensures forall i :: i in FilterPrefix(apps, search, n) <==> 0 <= i < n && MatchesSearch(apps[i].displayName, search)
  {
    PositionsMembers(MatchFlags(apps, search), n);
  }

  /** The filtered list is strictly increasing, within the catalog, no longer
      than it, and holds a position exactly when that entry matches. */
  lemma FilteredCorrect(apps: seq<App>, search: string)
    ensures |Filtered(apps, search)| <= |apps|
    ensures forall k :: 0 <= k < |Filtered(apps, search)| ==> 0 <= Filtered(apps, search)[k] < |apps|
    ensures forall k, l :: 0 <= k < l < |Filtered(apps, search)| ==> Filtered(apps, search)[k] < Filtered(apps, search)[l]
    ensures forall i :: i in Filtered(apps, search) <==> 0 <= i < |apps| && MatchesSearch(apps[i].displayName, search)
  {
    FilterPrefixMembers(apps, search, |apps|);
  }

  /** The empty query keeps every entry: the result equals the initial list. */
  lemma FilteredEmptyQuery(apps: seq<App>)
    ensures Filtered(apps, []) == Range(|apps|)
  {
    PositionsAll(MatchFlags(apps, []), |apps|);
  }

  /** Over a sorted catalog the filtered entries are in sorted order too. */
  lemma FilteredKeepsOrder(apps: seq<App>, search: string)
    requires Sorted(apps)
    ensures forall k, l :: 0 <= k < l < |Filtered(apps, search)| ==>
      CompareApps(apps[Filtered(apps, search)[k]], apps[Filtered(apps, search)[l]]) <= 0
  {
  }

  /** filter_apps: writes the filtered list to the front of `filtered` and
      returns its length; the rest of the array is left as it was. */
  method FilterApps(apps: seq<App>, filtered: array<int>, search: string) returns (count: int)
    requires |apps| <= filtered.Length
    modifies filtered
    ensures 0 <= count <= |apps|
    ensures filtered[..count] == Filtered(apps, search)
    ensures filtered[count..] == old(filtered[count..])
  {
    count := 0;
    for i := 0 to |apps|
      invariant 0 <= count <= i
      invariant filtered[..count] == FilterPrefix(apps, search, i)
      invariant filtered[count..] == old(filtered[count..])
    {
      assert FilterPrefix(apps, search, i + 1) ==
        FilterPrefix(apps, search, i) + (if MatchFlags(apps, search)[i] then [i] else []);
      if MatchesSearch(apps[i].displayName, search) {
        filtered[count] := i;
        count := count + 1;
      }
    }
  }
}
