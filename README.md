# m — a terminal application launcher, modelled in Dafny

`m` is a small ncurses launcher (`main.c`). At start-up it reads three
directories of desktop entries into a fixed array of 512 entries:

- `/usr/share/applications`, as native entries;
- the user's flatpak export directory and the system-wide one, as flatpak entries.

A file name is taken when it contains ".desktop". Its display name is the file
name cut at the first ".desktop". The catalog is sorted case-insensitively with
`strcasecmp`. The program exits with status 1 when nothing was found.

The main loop then repeats these steps:

1. Scroll the window so the highlighted row is visible.
2. Draw the rows of the filtered list.
3. Read one key and let the key dispatch handle it.

The keys do the following:

- The arrows and PgUp/PgDn move the highlight, clamped to the list.
- Printable characters extend a 63-character query.
- Backspace shortens the query.
- Each edit of the query refilters the list (a case-insensitive substring match) and resets the highlight and offset.
- Enter commits the highlighted list position.
- Esc or `q` ends the loop without a choice.

After the loop, a committed position that exists in the filtered list is
launched. A flatpak entry gets `flatpak run <id> >/dev/null 2>&1 &`, and a
native one gets `gtk-launch <file> >/dev/null 2>&1 &`.

The modules:

- `CStrings` (`cstrings.dfy`) holds the C library routines the program relies on:
  - `tolower` in the C locale, `strstr` and `strcasecmp` (glibc's byte difference);
  - the truncation of `strncpy` and `snprintf`.

  Its lemmas prove that `strcasecmp` is antisymmetric and total, and that it is transitive on C strings.
- `Catalog` (`catalog.dfy`) covers:
  - the entry admission of `load_apps_from_dir` and the three loads of `main`;
  - `compare_apps` and the sort;
  - the empty-catalog exit test.
- `Matcher` (`matcher.dfy`) is `matches_search`.
- `Filter` (`filter.dfy`) holds a pure specification of `filter_apps`, and a method that writes the index array in place and is proved against it.
- `Viewport` (`viewport.dfy`) covers the scroll adjustment, the rows of the window, and the text of one row.
- `Session` (`session.dfy`) holds the loop as pure functions and as a class:
  - the functions are `Dispatch` for one key, `Iterate` for one pass and `Drive` for a sequence of keys;
  - the class `Session` holds `highlight`, `offset`, the `search` buffer (`array<char>` of 64) and `filtered_indices` (`array<int>` of 512), and its methods are proved to follow the functions.
- `Launch` (`launch.dfy`) covers the launch guard and the command, and `RunLauncher`, the whole of `main` from the three listings and the keys to the exit status and the command.

The code behaves as follows in cases one might expect otherwise, and the model follows it:

- Enter on an empty filtered list still ends the loop, with choice 0. The launch guard `choice < filtered_count` then launches nothing.
- `choice` is a position in the filtered list. The catalog index is looked up in `filtered_indices` only by the launch guard.
- `q` always ends the loop, so it can never be typed into the query (`Session.QuitCharNeverTyped`).
- The catalog is sorted with `qsort`, which is not stable. The model proves the sorted result is sorted and a permutation of what was loaded. It does not fix the order of entries whose names compare equal.

## Model

| member | source | states |
|---|---|---|
| CStrings.Lower | main.c:39 | C-locale `tolower` leaves no upper-case letter, and changes a character only by moving 'A'..'Z' to 'a'..'z' |
| CStrings.Fold | main.c:38-46 | lower-casing keeps the length of a string |
| CStrings.Take | main.c:253 | a truncated copy is the prefix of length min(length, bound), and is the whole string when it fits |
| CStrings.FindFrom | main.c:21 | the result is the first occurrence at or after the start position, or there is none from there on |
| CStrings.StrStr | main.c:21 | `strstr` finds an occurrence with none before it, and finds nothing exactly when there is no occurrence |
| CStrings.Contains | main.c:74 | the test `strstr(..) != NULL` holds exactly when some occurrence exists |
| CStrings.FoldIdempotent | main.c:39 | lower-casing twice is lower-casing once |
| CStrings.FoldSlice | main.c:38-41 | lower-casing commutes with taking a slice |
| CStrings.FoldTake | main.c:38-46 | lower-casing commutes with truncation |
| CStrings.StrCaseCmp | main.c:29 | `strcasecmp` returns 0 for names equal up to case |
| CStrings.CodePositive | main.c:29 | a non-empty C string starts with a non-zero byte |
| CStrings.StrCaseCmpAntisymmetric | main.c:29 | swapping the arguments of `strcasecmp` negates the result |
| CStrings.StrCaseCmpTotal | main.c:29 | of any two names, one sorts no later than the other |
| CStrings.StrCaseCmpTransitive | main.c:29 | on C strings, "sorts no later than" is transitive |
| CStrings.StrCaseCmpZero | main.c:29 | on C strings, the comparison is 0 exactly when the names are equal up to case |
| CStrings.StrCaseCmpFirstDifference | main.c:29 | when two names agree up to case before position i and differ there, the sign of `strcasecmp` is the order of the lower-cased characters at i: the order is lexicographic after lower-casing |
| CStrings.StrCaseCmpProperPrefix | main.c:29 | a name that is, up to case, a proper prefix of another sorts first |
| Catalog.CleanName | main.c:20-23 | the display name is the file name cut at its first ".desktop", or the whole name when there is none |
| Catalog.MakeApp | main.c:75-78 | an admitted entry keeps the file name and the directory's flag, and its display name is a prefix of the file name |
| Catalog.DesktopNames | main.c:74 | the names a directory contributes are exactly the listed names that contain ".desktop" |
| Catalog.DesktopNamesAppend | main.c:73-74 | the names kept from two listings in a row are those of the first followed by those of the second: listing order is preserved |
| Catalog.LoadFromDir | main.c:63-85 | `load_apps_from_dir` fills slots from the start index with the ".desktop" names in listing order, each built by clean_name, until slot 512 is reached |
| Catalog.LoadedEntries | main.c:74-78 | every loaded entry comes from a ".desktop" name of the listing, shows its cleaned name and carries the directory's flatpak flag |
| Catalog.LoadCatalog | main.c:91-102 | the three loads share the 512 slots: the catalog is as long as the number of ".desktop" names, capped at 512 |
| Catalog.LoadCatalogContents | main.c:91-102 | slot k holds the entry made from the k-th ".desktop" name of the system, user-flatpak and system-flatpak listings in that order, flatpak exactly after the system directory's names; the names past slot 512 are dropped |
| Catalog.LoadCatalogEntries | main.c:91-102 | entries are flatpak exactly after the system directory's, and each comes from a listing under its cleaned name |
| Catalog.CompareApps | main.c:26-30 | `compare_apps` returns 0 for entries whose display names are equal up to case; its ordering laws are CompareAppsConsistent and SortAppsSorted |
| Catalog.CompareAppsConsistent | main.c:26-30 | `compare_apps` negates under swapped arguments, and on C-string names is 0 exactly for names equal up to case |
| Catalog.Insert | main.c:110 | one insertion step of the sort adds exactly one entry and keeps the multiset |
| Catalog.SortApps | main.c:110 | the sort returns a permutation of its input |
| Catalog.InsertSorted | main.c:26-30 | inserting into a sorted list of C-string names keeps it sorted under `compare_apps` |
| Catalog.SortAppsSorted | main.c:110 | the sort's result is ordered by `compare_apps` |
| Catalog.BuildCatalog | main.c:104-110 | there is no catalog exactly when no directory yields a ".desktop" name; otherwise it has 1 to 512 entries and is a permutation of what was loaded |
| Catalog.CatalogEntries | main.c:91-110 | every entry of the built catalog comes from a listing under its cleaned name |
| Catalog.CatalogSorted | main.c:110 | when the listings hold C strings, the built catalog is sorted |
| Matcher.NameKey | main.c:38-41 | the scanned copy of a name is its first 255 characters, each lower-cased |
| Matcher.QueryKey | main.c:43-46 | the copy of the query looked for is its first 63 characters, each lower-cased |
| Matcher.MatchesSearch | main.c:33-49 | the empty query matches everything; otherwise the lower-cased query (at most 63 characters) occurs in the lower-cased name (at most 255 characters) |
| Matcher.MatchesSlice | main.c:36-48 | for a name and query that fit their buffers, a match is a slice of the name equal to the query up to case |
| Matcher.LongerQueryFails | main.c:48 | a query longer than the name never matches |
| Matcher.MatchesIgnoresCase | main.c:38-46 | lower-casing the name or the query does not change whether they match |
| Filter.MatchFlags | main.c:55 | one flag per catalog entry, true exactly when that entry matches the query |
| Filter.Positions | main.c:54-58 | the positions kept from the flags below a bound are below it and strictly increasing |
| Filter.PositionsMembers | main.c:54-58 | a position is kept exactly when it is below the bound and its flag is set |
| Filter.PositionsAll | main.c:127-130 | when every flag below the bound is set, every position below it is kept, in order |
| Filter.FilterPrefix | main.c:54-58 | the positions kept so far are below the bound and strictly increasing |
| Filter.Filtered | main.c:52-60 | the filtered list is no longer than the catalog and holds only catalog positions |
| Filter.Range | main.c:127-130 | the initial list has one position per catalog entry |
| Filter.FilterPrefixMembers | main.c:54-58 | a position below the bound is kept exactly when its entry matches the query |
| Filter.FilteredCorrect | main.c:52-60 | the filtered list is strictly increasing, within the catalog, and holds exactly the matching positions |
| Filter.FilteredEmptyQuery | main.c:127-130 | filtering with the empty query gives the initial list of every position |
| Filter.FilteredKeepsOrder | main.c:52-60 | over a sorted catalog, the filtered entries appear in sorted order |
| Filter.FilterApps | main.c:52-60 | `filter_apps` writes the filtered list to the front of the index array, returns its length, and leaves the rest of the array alone |
| Viewport.Window | main.c:169-172 | the drawn rows are the list positions from the offset to the end of the window or the list, each with its catalog index, with exactly the highlighted position reversed |
| Viewport.HighlightDrawn | main.c:169-191 | with the offset adjusted, the highlighted row is drawn and no other row is reversed |
| Viewport.PadRight | main.c:181-185 | `%-52s` gives the string followed by spaces up to the field width |
| Viewport.RowText | main.c:179-185 | a row reads a four-character flatpak mark, then the name left-justified in 52 columns, cut to 63 characters |
| Viewport.ShortNameShownWhole | main.c:179-185 | a name of at most 52 characters is shown whole, in a row of 56 characters |
| Viewport.ScrollOffset | main.c:161-166 | after scrolling, the highlight is in the window; an offset that already showed it is kept, and the new offset is a nearest one that shows it |
| Session.InitialState | main.c:119-130 | the loop starts at the top, with the empty query and every entry listed, which satisfies the loop invariant |
| Session.IsPrint | main.c:234 | a printable code is below 256 and is none of Enter, Esc, DEL and Ctrl-H, so codes above 255 are never typed; what a printable key does is stated by TypedKeys and OtherKeysIgnored |
| Session.Edit | main.c:229-231 | a query edit keeps the loop running with the new query, and a printable query under 64 characters gives a state meeting the loop invariant |
| Session.Dispatch | main.c:205-240 | only Enter commits, with the highlight as the choice, and only Esc and `q` cancel; the other keys' effects are stated by NavigationKeys, BackspaceKeys, TypedKeys, EndingKeys and OtherKeysIgnored |
| Session.DispatchConsistent | main.c:205-240 | every key keeps the loop invariant: highlight within the list, query printable and under 64, and filtered list equal to the filter of the query |
| Session.NavigationKeys | main.c:205-218 | the arrows and PgUp/PgDn move the highlight by 1 or 5, clamped to the list, and change nothing else |
| Session.BackspaceKeys | main.c:226-233 | Backspace, DEL and Ctrl-H drop the last query character, refilter and reset; on an empty query they change nothing |
| Session.TypedKeys | main.c:234-240 | a printable key other than `q` is appended while fewer than 63 characters are typed, with a refilter and reset; otherwise nothing changes |
| Session.EndingKeys | main.c:219-225 | Enter commits the highlight, even on an empty list; Esc and `q` end the loop without a choice; neither changes the state |
| Session.OtherKeysIgnored | main.c:205-240 | every other key code is ignored |
| Session.Iterate | main.c:145-241 | one pass of the loop, scroll and then key, keeps the invariant |
| Session.Drive | main.c:145-241 | the loop keeps the invariant, and a committed choice is the final highlight |
| Session.QuitCharNeverTyped | main.c:223-235 | `q` never becomes part of the query |
| Session.NoEnterNoCommit | main.c:219-222 | the loop commits only if Enter is among the keys |
| Session.WindowInCatalog | main.c:170-172 | every drawn row shows a valid catalog index |
| Session.Session.constructor | main.c:119-130 | the buffers are fresh, and the state is the initial one: empty query, offset 0, highlight 0, every position listed |
| Session.Session.AdjustScroll | main.c:161-166 | the offset becomes the scroll offset, which holds the highlight in the window |
| Session.Session.VisibleRows | main.c:169-195 | the rows drawn are the window of the filtered list at the current offset |
| Session.Session.Refilter | main.c:229-231 | after an edit the filtered list is the filter of the buffer's query, and highlight and offset are 0 |
| Session.Session.DeleteLast | main.c:227-232 | `search[--search_len] = '\0'` plus refilter yields the edit state of the shortened query |
| Session.Session.Append | main.c:234-240 | appending a key, re-terminating and refiltering yields the edit state of the longer query |
| Session.Session.MoveHighlight | main.c:205-218 | the navigation branches give the state `Dispatch` gives |
| Session.Session.Step | main.c:203-240 | one key on the buffers gives the outcome and state `Dispatch` gives, and keeps the class invariant |
| Session.Session.Run | main.c:145-241 | the loop over the keys gives the outcome and state `Drive` gives |
| Launch.LaunchCommand | main.c:249-261 | the command fits the 1024-byte buffer and starts with `flatpak run ` for a flatpak entry, `gtk-launch ` otherwise |
| Launch.CommandOfLoadedEntry | main.c:249-261 | for a loaded entry nothing is truncated: a flatpak entry runs under its display name, a native one is launched by its file name |
| Launch.LaunchTarget | main.c:247-248 | a launch happens exactly when Enter committed a position inside the filtered list; the target is the catalog index stored at that position, and its entry matches the query |
| Launch.CommandFor | main.c:247-261 | there is a command exactly when the guard passes, and it is the command of the catalog entry stored at the committed position of the filtered list |
| Launch.SessionCommand | main.c:145-261 | without Enter among the keys no command is issued |
| Launch.SessionCommandChosen | main.c:219-261 | a command launches the entry at the highlighted position of the final list, and that entry matches the final query |
| Launch.ChosenCommand | main.c:247-261 | the guard and lookup on the buffers give the command `CommandFor` gives |
| Launch.RunLauncher | main.c:87-263 | the exit status is 1 exactly when no entries were found, with no command; otherwise status is 0 and the command is that of the session over the sorted catalog |

## Left out

- Drawing with ncurses is not modelled: the box, title, search bar, blinking cursor, help line and the window geometry (`LINES`, `COLS`). Only the rows' content, order and reverse-video flag are modelled.
- The window height is a parameter, `maxVisible`, required to be at least 1. The source computes it as `win_height - 4`, which is 18 or less on a short terminal. A terminal of fewer than 7 lines gives `max_visible <= 0`, and that case is not modelled.
- Keyboard input is a finite sequence of key codes. When the keys run out, the loop is still running, and `RunLauncher` treats that like a loop left without a choice.
- Directory reading is not modelled: `opendir`, `readdir` and `closedir`, the directory paths and `getenv("HOME")`. Each directory is given as the sequence of names it yields, and a directory that cannot be opened is an empty sequence.
- `strdup`, `free` and memory exhaustion are not modelled.
- The stderr message before exit status 1 is not modelled.
- `system()` is not modelled. `RunLauncher` returns the command string it would be given.
- Characters stand for the bytes of C strings. `isprint` accepts codes 32 to 126, and codes above 255 count as not printable.
- `Catalog.SortApps`: `qsort` is modelled by an insertion sort. The model proves sortedness and permutation, but not the order `qsort` gives to names that compare equal.
- `Catalog.CleanName`: the truncation `*ext = '\0'` happens in place in the source. Here it is a function that returns the shortened name.
- `Matcher.NameKey`: for an empty name the source scans an uninitialised buffer. The model uses the empty string there.
- `Launch.LaunchCommand`: `strncpy` into `app_id` is modelled as taking the first 511 characters. File names are at most 255 characters, so the unterminated case never arises.
- `Session.Session.VisibleRows`: it returns the rows' positions, catalog indices and reverse-video flags. The text of a row is `Viewport.RowText` of its entry.
