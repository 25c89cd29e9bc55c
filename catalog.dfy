/** The application catalog: how a directory entry's file name becomes an
    entry, which names a directory listing contributes, how the three
    shortcut directories are concatenated, and the case-insensitive sort
    that orders the result once at start-up. */
module Catalog {
  import opened CStrings

  /** Capacity of the apps array. */
  const MAX_APPS := 512
  /** The longest file name a directory entry can carry. */
  const NAME_MAX := 255
  const DESKTOP := ".desktop"

  /** One launchable entry: the name shown, the file name it came from, and
      whether it was found in a flatpak export directory. */
  datatype App = App(displayName: string, fileName: string, isFlatpak: bool)

  /** A file name as a directory listing yields it: a C string of at most NAME_MAX bytes. */
  predicate DirEntryName(name: string) {
    NulFree(name) && |name| <= NAME_MAX
  }

  predicate DirListing(entries: seq<string>) {
    forall e :: e in entries ==> DirEntryName(e)
  }

  /** clean_name: the name cut just before its first ".desktop", or kept
      whole when it has none. */
  function CleanName(name: string): (r: string)
    ensures r <= name
    ensures Contains(name, DESKTOP) ==> OccursAt(name, DESKTOP, |r|)
    ensures forall j :: 0 <= j < |r| ==> !OccursAt(name, DESKTOP, j)
    ensures !Contains(name, DESKTOP) ==> r == name
  {
    match StrStr(name, DESKTOP)
    case Some(k) => name[..k]
    case None => name
  }

  /** The entry load_apps_from_dir fills in for an admitted file name. */
  function MakeApp(name: string, isFlatpak: bool): (r: App)
    ensures r.fileName == name && r.isFlatpak == isFlatpak
    ensures r.displayName <= name
  {
    App(CleanName(name), name, isFlatpak)
  }

  /** The names of a listing that contain ".desktop", in listing order. */
  function DesktopNames(entries: seq<string>): (r: seq<string>)
    ensures |r| <= |entries|
    ensures forall x :: x in r <==> x in entries && Contains(x, DESKTOP)
  {
    if entries == [] then []
    else if Contains(entries[0], DESKTOP) then [entries[0]] + DesktopNames(entries[1..])
    else DesktopNames(entries[1..])
  }

  /** A listing read in two parts contributes the names of the first part,
      then those of the second, in listing order. */
  lemma {:induction false} DesktopNamesAppend(x: seq<string>, y: seq<string>)
    ensures DesktopNames(x + y) == DesktopNames(x) + DesktopNames(y)
  {
    if x != [] {
      assert (x + y)[0] == x[0] && (x + y)[1..] == x[1..] + y;
      DesktopNamesAppend(x[1..], y);
    } else {
      assert x + y == y;
    }
  }

  /** How many free slots remain when the next entry would go to `index`. */
  function Room(index: int, maxApps: int): nat {
    if index < maxApps then maxApps - index else 0
  }

  /** The admission loop of load_apps_from_dir over the names a directory
      yields: entries go to slots numbered from `startIndex`, only names
      containing ".desktop" are taken, and reading stops once slot
      `maxApps` would be reached. */
  function LoadFromDir(entries: seq<string>, startIndex: int, maxApps: int, isFlatpak: bool): (r: seq<App>)
    decreases |entries|
    ensures |r| == Min(|DesktopNames(entries)|, Room(startIndex, maxApps))
    ensures forall k :: 0 <= k < |r| ==> r[k] == MakeApp(DesktopNames(entries)[k], isFlatpak)
  {
    if entries == [] || startIndex >= maxApps then []
    else if Contains(entries[0], DESKTOP) then
      [MakeApp(entries[0], isFlatpak)] + LoadFromDir(entries[1..], startIndex + 1, maxApps, isFlatpak)
    else LoadFromDir(entries[1..], startIndex, maxApps, isFlatpak)
  }

  /** Every loaded entry comes from a ".desktop" name of the listing, is shown
      under its cleaned name and carries the directory's flatpak flag. */
  lemma LoadedEntries(entries: seq<string>, startIndex: int, maxApps: int, isFlatpak: bool)
    ensures forall a :: a in LoadFromDir(entries, startIndex, maxApps, isFlatpak) ==>
      a.fileName in entries && Contains(a.fileName, DESKTOP) &&
      a.displayName == CleanName(a.fileName) && a.isFlatpak == isFlatpak
  {
    var r := LoadFromDir(entries, startIndex, maxApps, isFlatpak);
    forall a | a in r
      ensures a.fileName in entries && Contains(a.fileName, DESKTOP)
      ensures a.displayName == CleanName(a.fileName) && a.isFlatpak == isFlatpak
    {
      var k :| 0 <= k < |r| && r[k] == a;
      assert DesktopNames(entries)[k] in DesktopNames(entries);
    }
  }

  /** main.c's three calls of load_apps_from_dir: the system directory as
      native entries, then the user's and the system-wide flatpak export
      directories, sharing the one array of MAX_APPS slots. Entries are
      dropped only once all slots are taken. */
  function LoadCatalog(system: seq<string>, userFlatpak: seq<string>, systemFlatpak: seq<string>): (r: seq<App>)
    ensures |r| == Min(MAX_APPS, |DesktopNames(system)| + |DesktopNames(userFlatpak)| + |DesktopNames(systemFlatpak)|)
  {
    var native := LoadFromDir(system, 0, MAX_APPS, false);
    var user := LoadFromDir(userFlatpak, |native|, MAX_APPS, true);
    var shared := LoadFromDir(systemFlatpak, |native| + |user|, MAX_APPS, true);
    native + user + shared
  }

  /** The loaded entries come from ".desktop" names of the listings, are shown
      under their cleaned names, and are flatpak entries exactly after the
      system directory's. */
  lemma LoadCatalogEntries(system: seq<string>, userFlatpak: seq<string>, systemFlatpak: seq<string>)
    ensures var r := LoadCatalog(system, userFlatpak, systemFlatpak);
      forall k :: 0 <= k < |r| ==> (r[k].isFlatpak <==> k >= |LoadFromDir(system, 0, MAX_APPS, false)|)
    ensures forall a :: a in LoadCatalog(system, userFlatpak, systemFlatpak) ==>
      a.fileName in system + userFlatpak + systemFlatpak && Contains(a.fileName, DESKTOP) &&
      a.displayName == CleanName(a.fileName)
  {
    var native := LoadFromDir(system, 0, MAX_APPS, false);
    var user := LoadFromDir(userFlatpak, |native|, MAX_APPS, true);
    var shared := LoadFromDir(systemFlatpak, |native| + |user|, MAX_APPS, true);
    LoadedEntries(system, 0, MAX_APPS, false);
    LoadedEntries(userFlatpak, |native|, MAX_APPS, true);
    LoadedEntries(systemFlatpak, |native| + |user|, MAX_APPS, true);
    var r := native + user + shared;
    assert r == LoadCatalog(system, userFlatpak, systemFlatpak);
    forall k | 0 <= k < |r| ensures r[k].isFlatpak <==> k >= |native| {
      assert r[k] in (if k < |native| then native else if k < |native| + |user| then user else shared);
    }
  }

  /** The catalog's slots hold the ".desktop" names of the three listings in
      order, system first, each made into an entry by clean_name, flatpak
      exactly after the system directory's names; the names beyond slot 512
      are the ones dropped. */
  lemma LoadCatalogContents(system: seq<string>, userFlatpak: seq<string>, systemFlatpak: seq<string>)
    ensures var names := DesktopNames(system) + DesktopNames(userFlatpak) + DesktopNames(systemFlatpak);
      var r := LoadCatalog(system, userFlatpak, systemFlatpak);
      forall k :: 0 <= k < |r| ==> r[k] == MakeApp(names[k], k >= |DesktopNames(system)|)
  {
    var ds, du, dv := DesktopNames(system), DesktopNames(userFlatpak), DesktopNames(systemFlatpak);
    var names := ds + du + dv;
    var native := LoadFromDir(system, 0, MAX_APPS, false);
    var user := LoadFromDir(userFlatpak, |native|, MAX_APPS, true);
    var shared := LoadFromDir(systemFlatpak, |native| + |user|, MAX_APPS, true);
    var r := native + user + shared;
    assert r == LoadCatalog(system, userFlatpak, systemFlatpak);
    forall k | 0 <= k < |r| ensures r[k] == MakeApp(names[k], k >= |ds|) {
      if k < |native| {
        assert r[k] == native[k] && names[k] == ds[k];
      } else if k < |native| + |user| {
        assert |native| == |ds|;
        assert r[k] == user[k - |native|] && names[k] == du[k - |ds|];
      } else {
        assert |native| == |ds| && |user| == |du|;
        assert r[k] == shared[k - |native| - |user|] && names[k] == dv[k - |ds| - |du|];
      }
    }
  }

  /** compare_apps: `strcasecmp` of the display names. */
  function CompareApps(a: App, b: App): (r: int)
    ensures Fold(a.displayName) == Fold(b.displayName) ==> r == 0
  {
    StrCaseCmp(a.displayName, b.displayName)
  }

  /** compare_apps is a consistent comparator for qsort: swapping its
      arguments negates the result, and on C-string names it is 0 exactly
      for names equal up to case. */
  lemma CompareAppsConsistent(a: App, b: App)
    ensures CompareApps(a, b) == -CompareApps(b, a)
    ensures NulFree(a.displayName) && NulFree(b.displayName) ==>
      (CompareApps(a, b) == 0 <==> Fold(a.displayName) == Fold(b.displayName))
  {
    StrCaseCmpAntisymmetric(a.displayName, b.displayName);
    if NulFree(a.displayName) && NulFree(b.displayName) {
      StrCaseCmpZero(a.displayName, b.displayName);
    }
  }

  /** Non-decreasing under compare_apps, for every pair of positions. */
  predicate Sorted(s: seq<App>) {
    forall i, j :: 0 <= i < j < |s| ==> CompareApps(s[i], s[j]) <= 0
  }

  /** Every display name is a C string. */
  predicate CNames(s: seq<App>) {
    forall a :: a in s ==> NulFree(a.displayName)
  }

  function Insert(x: App, s: seq<App>): (r: seq<App>)
    ensures |r| == |s| + 1
    ensures multiset(r) == multiset(s) + multiset{x}
  {
    if s == [] || CompareApps(x, s[0]) <= 0 then [x] + s
    else
      assert s == [s[0]] + s[1..];
      [s[0]] + Insert(x, s[1..])
  }

  /** The sort of main.c:110. The C library's qsort leaves its algorithm and
      the order of equal names open; this is one sort with the properties
      qsort promises. */
  function SortApps(s: seq<App>): (r: seq<App>)
    ensures |r| == |s|
    ensures multiset(r) == multiset(s)
  {
    if s == [] then []
    else
      assert s == [s[0]] + s[1..];
      Insert(s[0], SortApps(s[1..]))
  }

  lemma ConsSorted(y: App, t: seq<App>)
    requires Sorted(t)
    requires forall j :: 0 <= j < |t| ==> CompareApps(y, t[j]) <= 0
    ensures Sorted([y] + t)
  {
    var r := [y] + t;
    forall i, j | 0 <= i < j < |r| ensures CompareApps(r[i], r[j]) <= 0 {
      assert r[j] == t[j - 1];
      if i > 0 {
        assert r[i] == t[i - 1];
      }
    }
  }

  lemma {:induction false} InsertSorted(x: App, s: seq<App>)
    requires Sorted(s) && CNames(s) && NulFree(x.displayName)
    ensures Sorted(Insert(x, s))
  {
    if s == [] || CompareApps(x, s[0]) <= 0 {
      forall j | 0 <= j < |s| ensures CompareApps(x, s[j]) <= 0 {
        if j > 0 {
          assert s[0] in s && s[j] in s;
          StrCaseCmpTransitive(x.displayName, s[0].displayName, s[j].displayName);
        }
      }
      ConsSorted(x, s);
    } else {
      var t := Insert(x, s[1..]);
      assert forall a :: a in s[1..] ==> a in s;
      InsertSorted(x, s[1..]);
      StrCaseCmpTotal(x.displayName, s[0].displayName);
      forall j | 0 <= j < |t| ensures CompareApps(s[0], t[j]) <= 0 {
        assert t[j] in multiset(t);
        if t[j] != x {
          assert t[j] in multiset(s[1..]);
          var k :| 0 <= k < |s[1..]| && s[1..][k] == t[j];
          assert s[k + 1] == t[j];
        }
      }
      ConsSorted(s[0], t);
    }
  }

  /** After the sort the catalog is non-decreasing under compare_apps. */
  lemma {:induction false} SortAppsSorted(s: seq<App>)
    requires CNames(s)
    ensures Sorted(SortApps(s))
  {
    if s != [] {
      assert forall a :: a in s[1..] ==> a in s;
      SortAppsSorted(s[1..]);
      var t := SortApps(s[1..]);
      assert forall a :: a in t ==> a in multiset(s[1..]);
      InsertSorted(s[0], t);
    }
  }

  /** main.c:92-110: the sorted catalog, or None when no directory yielded an
      entry (the program then reports the error and exits with status 1). */
  function BuildCatalog(system: seq<string>, userFlatpak: seq<string>, systemFlatpak: seq<string>): (r: Option<seq<App>>)
    ensures r.None? <==> DesktopNames(system) == [] && DesktopNames(userFlatpak) == [] && DesktopNames(systemFlatpak) == []
    ensures r.Some? ==> 0 < |r.value| <= MAX_APPS
    ensures r.Some? ==> multiset(r.value) == multiset(LoadCatalog(system, userFlatpak, systemFlatpak))
  {
    var apps := LoadCatalog(system, userFlatpak, systemFlatpak);
    if |apps| == 0 then None else Some(SortApps(apps))
  }

  /** Every entry of a built catalog comes from one of the listings. */
  lemma CatalogEntries(system: seq<string>, userFlatpak: seq<string>, systemFlatpak: seq<string>)
    ensures BuildCatalog(system, userFlatpak, systemFlatpak).Some? ==>
      forall a :: a in BuildCatalog(system, userFlatpak, systemFlatpak).value ==>
        a.fileName in system + userFlatpak + systemFlatpak && Contains(a.fileName, DESKTOP) &&
        a.displayName == CleanName(a.fileName)
  {
    var catalog := BuildCatalog(system, userFlatpak, systemFlatpak);
    if catalog.Some? {
      var apps := LoadCatalog(system, userFlatpak, systemFlatpak);
      LoadCatalogEntries(system, userFlatpak, systemFlatpak);
      forall a | a in catalog.value
        ensures a in apps
      {
        assert a in multiset(apps);
      }
    }
  }

  lemma PrefixNulFree(p: string, s: string)
    requires p <= s && NulFree(s)
    ensures NulFree(p)
  {
    assert forall i :: 0 <= i < |p| ==> p[i] == s[i];
  }

  /** When every listed name is a C string, the built catalog is sorted. */
  lemma CatalogSorted(system: seq<string>, userFlatpak: seq<string>, systemFlatpak: seq<string>)
    requires DirListing(system) && DirListing(userFlatpak) && DirListing(systemFlatpak)
    requires BuildCatalog(system, userFlatpak, systemFlatpak).Some?
    ensures Sorted(BuildCatalog(system, userFlatpak, systemFlatpak).value)
  {
    var apps := LoadCatalog(system, userFlatpak, systemFlatpak);
    LoadCatalogEntries(system, userFlatpak, systemFlatpak);
    forall a | a in apps ensures NulFree(a.displayName) {
      assert a.fileName in system + userFlatpak + systemFlatpak;
      PrefixNulFree(a.displayName, a.fileName);
    }
    SortAppsSorted(apps);
  }
}
