/** The interactive list controller of main(): the state the main loop keeps
    (highlight, offset, the query buffer and the filtered index array), the
    key dispatch that changes it, and the loop that scrolls, draws and
    dispatches until Enter, Esc or 'q' ends it. */
module Session {
  import opened CStrings
  import opened Catalog
  import opened Matcher
  import opened Filter
  import opened Viewport

  /** ncurses key codes (curses.h). */
  const KEY_DOWN := 258
  const KEY_UP := 259
  const KEY_BACKSPACE := 263
  const KEY_NPAGE := 338
  const KEY_PPAGE := 339
  /** Plain character codes the dispatch tests. */
  const ENTER := 10
  const ESC := 27
  const DEL := 127
  const CTRL_H := 8
  const QUIT_CHAR := 'q'
  /** Rows moved by PgDn and PgUp. */
  const PAGE := 5

  /** `isprint` in the C locale; codes above 255 count as not printable. */
  predicate IsPrint(c: int)
    ensures IsPrint(c) ==> c < 256 && c != ENTER && c != ESC && c != DEL && c != CTRL_H
  {
    32 <= c <= 126
  }

  /** How a key leaves the loop: it goes on, it is left without a choice
      (choice stays -1), or Enter commits the highlighted list position. */
  datatype Outcome = Running | Cancelled | Committed(choice: int)

  /** The loop's variables: highlight, offset, the query search[..search_len]
      and the filtered list filtered_indices[..filtered_count]. */
  datatype SessionState = SessionState(highlight: int, offset: int, query: string, filtered: seq<int>)

  /** What the loop keeps true from one key to the next. */
  predicate Consistent(apps: seq<App>, st: SessionState) {
    && 0 <= st.highlight <= Max(0, |st.filtered| - 1)
    && 0 <= st.offset
    && |st.query| < MAX_SEARCH
    && (forall k :: 0 <= k < |st.query| ==> IsPrint(st.query[k] as int))
    && st.filtered == Filtered(apps, st.query)
  }

  /** main.c:119-130: nothing typed, the top row highlighted, every entry listed. */
  function InitialState(apps: seq<App>): (st: SessionState)
    ensures Consistent(apps, st) && st.query == []
  {
    FilteredEmptyQuery(apps);
    SessionState(0, 0, [], Range(|apps|))
  }

  /** A query edit: refilter, and go back to the top of the new list. */
  function Edit(apps: seq<App>, query: string): (r: (Outcome, SessionState))
    ensures r.0 == Running && r.1.query == query
    ensures |query| < MAX_SEARCH && (forall k :: 0 <= k < |query| ==> IsPrint(query[k] as int)) ==> Consistent(apps, r.1)
  {
    (Running, SessionState(0, 0, query, Filtered(apps, query)))
  }

  /** The if/else-if chain of main.c:205-240 on key code `c`. A navigation
      key whose guard fails falls through the chain and is ignored. */
  function Dispatch(apps: seq<App>, st: SessionState, c: int): (r: (Outcome, SessionState))
    ensures r.0.Committed? <==> c == ENTER
    ensures r.0 == Cancelled <==> c == ESC || c == QUIT_CHAR as int
    ensures r.0.Committed? ==> r.0.choice == st.highlight
  {
    var h := st.highlight;
    var n := |st.filtered|;
    if c == KEY_UP && h > 0 then (Running, st.(highlight := h - 1))
    else if c == KEY_DOWN && h < n - 1 then (Running, st.(highlight := h + 1))
    else if c == KEY_NPAGE && h < n - 1 then
      (Running, st.(highlight := if h + PAGE >= n then n - 1 else h + PAGE))
    else if c == KEY_PPAGE && h > 0 then
      (Running, st.(highlight := if h - PAGE < 0 then 0 else h - PAGE))
    else if c == ENTER then (Committed(h), st)
    else if c == ESC || c == QUIT_CHAR as int then (Cancelled, st)
    else if c == KEY_BACKSPACE || c == DEL || c == CTRL_H then
      if |st.query| > 0 then Edit(apps, st.query[..|st.query| - 1]) else (Running, st)
    else if IsPrint(c) && |st.query| < MAX_SEARCH - 1 then Edit(apps, st.query + [c as char])
    else (Running, st)
  }

  /** Every key keeps the loop's invariant. */
  lemma DispatchConsistent(apps: seq<App>, st: SessionState, c: int)
    requires Consistent(apps, st)
    ensures Consistent(apps, Dispatch(apps, st, c).1)
  {
    var q := st.query;
    if c == KEY_UP || c == KEY_DOWN || c == KEY_NPAGE || c == KEY_PPAGE {
      NavigationKeys(apps, st, c);
    } else if c == KEY_BACKSPACE || c == DEL || c == CTRL_H {
      if |q| > 0 {
        assert forall k :: 0 <= k < |q| - 1 ==> q[..|q| - 1][k] == q[k];
        assert Dispatch(apps, st, c) == Edit(apps, q[..|q| - 1]);
      }
    } else if c != ENTER && c != ESC && c != QUIT_CHAR as int && IsPrint(c) && |q| < MAX_SEARCH - 1 {
      var q' := q + [c as char];
      assert forall k :: 0 <= k < |q'| ==> q'[k] == if k < |q| then q[k] else c as char;
      assert Dispatch(apps, st, c) == Edit(apps, q');
    }
  }

  /** Arrow keys and PgUp/PgDn move the highlight, clamped to the list,
      and change neither the query, the filtered list nor the offset. */
  lemma NavigationKeys(apps: seq<App>, st: SessionState, c: int)
    requires Consistent(apps, st)
    requires c == KEY_UP || c == KEY_DOWN || c == KEY_NPAGE || c == KEY_PPAGE
    ensures Dispatch(apps, st, c).0 == Running
    ensures Dispatch(apps, st, c).1 == st.(highlight := Dispatch(apps, st, c).1.highlight)
    ensures 0 <= Dispatch(apps, st, c).1.highlight <= Max(0, |st.filtered| - 1)
    ensures c == KEY_UP ==> Dispatch(apps, st, c).1.highlight == Max(st.highlight - 1, 0)
    ensures c == KEY_DOWN ==> Dispatch(apps, st, c).1.highlight == Max(Min(st.highlight + 1, |st.filtered| - 1), 0)
    ensures c == KEY_NPAGE ==> Dispatch(apps, st, c).1.highlight == Max(Min(st.highlight + PAGE, |st.filtered| - 1), 0)
    ensures c == KEY_PPAGE ==> Dispatch(apps, st, c).1.highlight == Max(st.highlight - PAGE, 0)
  {
  }

  /** Backspace removes the last query character, refilters and resets the
      highlight and offset; on an empty query it changes nothing. */
  lemma BackspaceKeys(apps: seq<App>, st: SessionState, c: int)
    requires c == KEY_BACKSPACE || c == DEL || c == CTRL_H
    ensures Dispatch(apps, st, c).0 == Running
    ensures st.query == [] ==> Dispatch(apps, st, c).1 == st
    ensures st.query != [] ==>
      var next := Dispatch(apps, st, c).1;
      next.query + [st.query[|st.query| - 1]] == st.query &&
      next.filtered == Filtered(apps, next.query) && next.highlight == 0 && next.offset == 0
  {
  }

  /** A printable character other than 'q' is appended while the query has
      room, with a refilter and a reset; on a full query it changes nothing. */
  lemma TypedKeys(apps: seq<App>, st: SessionState, c: int)
    requires IsPrint(c) && c != QUIT_CHAR as int
    ensures Dispatch(apps, st, c).0 == Running
    ensures |st.query| >= MAX_SEARCH - 1 ==> Dispatch(apps, st, c).1 == st
    ensures |st.query| < MAX_SEARCH - 1 ==>
      var next := Dispatch(apps, st, c).1;
      next.query == st.query + [c as char] &&
      next.filtered == Filtered(apps, next.query) && next.highlight == 0 && next.offset == 0
  {
  }

  /** Enter always ends the loop with the highlight as the choice, even on an
      empty list; Esc and 'q' always end it without one. */
  lemma EndingKeys(apps: seq<App>, st: SessionState, c: int)
    requires c == ENTER || c == ESC || c == QUIT_CHAR as int
    ensures Dispatch(apps, st, c).1 == st
    ensures c == ENTER ==> Dispatch(apps, st, c).0 == Committed(st.highlight)
    ensures c != ENTER ==> Dispatch(apps, st, c).0 == Cancelled
  {
  }

  /** Any other key code is ignored. */
  lemma OtherKeysIgnored(apps: seq<App>, st: SessionState, c: int)
    requires c !in {KEY_UP, KEY_DOWN, KEY_NPAGE, KEY_PPAGE, ENTER, ESC, QUIT_CHAR as int, KEY_BACKSPACE, DEL, CTRL_H}
    requires !IsPrint(c)
    ensures Dispatch(apps, st, c) == (Running, st)
  {
  }

  /** One pass of the loop: the scroll adjustment, then the key. */
  function Iterate(apps: seq<App>, maxVisible: int, st: SessionState, c: int): (r: (Outcome, SessionState))
    requires 1 <= maxVisible && Consistent(apps, st)
    ensures Consistent(apps, r.1)
  {
    var shown := st.(offset := ScrollOffset(st.offset, st.highlight, maxVisible));
    DispatchConsistent(apps, shown, c);
    Dispatch(apps, shown, c)
  }

  /** The loop over a sequence of keys: it stops at the first key that ends
      it, or runs out of keys while still running. */
  function Drive(apps: seq<App>, maxVisible: int, st: SessionState, keys: seq<int>): (r: (Outcome, SessionState))
    requires 1 <= maxVisible && Consistent(apps, st)
    decreases |keys|
    ensures Consistent(apps, r.1)
    ensures r.0.Committed? ==> r.0.choice == r.1.highlight
  {
    if keys == [] then (Running, st)
    else
      var step := Iterate(apps, maxVisible, st, keys[0]);
      if step.0 == Running then Drive(apps, maxVisible, step.1, keys[1..])
      else step
  }

  /** 'q' ends the loop, so it can never become part of the query. */
  lemma {:induction false} QuitCharNeverTyped(apps: seq<App>, maxVisible: int, st: SessionState, keys: seq<int>)
    requires 1 <= maxVisible && Consistent(apps, st) && QUIT_CHAR !in st.query
    decreases |keys|
    ensures QUIT_CHAR !in Drive(apps, maxVisible, st, keys).1.query
  {
    if keys != [] {
      var step := Iterate(apps, maxVisible, st, keys[0]);
      var q := st.query;
      assert QUIT_CHAR !in step.1.query by {
        if step.1.query != q && |step.1.query| < |q| {
          assert step.1.query == q[..|q| - 1];
          assert forall x :: x in q[..|q| - 1] ==> x in q;
        }
      }
      if step.0 == Running {
        QuitCharNeverTyped(apps, maxVisible, step.1, keys[1..]);
      }
    }
  }

  /** The loop commits only on an Enter among the keys. */
  lemma {:induction false} NoEnterNoCommit(apps: seq<App>, maxVisible: int, st: SessionState, keys: seq<int>)
    requires 1 <= maxVisible && Consistent(apps, st)
    decreases |keys|
    ensures Drive(apps, maxVisible, st, keys).0.Committed? ==> ENTER in keys
  {
    if keys != [] {
      var step := Iterate(apps, maxVisible, st, keys[0]);
      if step.0 == Running {
        assert forall x :: x in keys[1..] ==> x in keys;
        NoEnterNoCommit(apps, maxVisible, step.1, keys[1..]);
      }
    }
  }

  /** Every row drawn shows an entry of the catalog. */
  lemma WindowInCatalog(apps: seq<App>, st: SessionState, maxVisible: nat)
    requires Consistent(apps, st)
    ensures forall k :: 0 <= k < |Window(st.filtered, st.offset, st.highlight, maxVisible)| ==>
      0 <= Window(st.filtered, st.offset, st.highlight, maxVisible)[k].app < |apps|
  {
    FilteredCorrect(apps, st.query);
  }

  /** The state of main()'s loop, with the fixed-size buffers of the source:
      `search` holds the query as a NUL-terminated string and
      `filteredIndices` the filtered list in its first `filteredCount` slots. */
  class Session {
    const apps: seq<App>
    const maxVisible: int
    var highlight: int
    var offset: int
    const search: array<char>
    var searchLen: int
    const filteredIndices: array<int>
    var filteredCount: int

    /** The buffers' sizes and the bounds of the counts, the terminator after
      the query, and a non-negative offset. */
    ghost predicate Layout()
      reads this, search
    {
      && |apps| <= MAX_APPS
      && 1 <= maxVisible
      && search.Length == MAX_SEARCH
      && filteredIndices.Length == MAX_APPS
      && 0 <= searchLen < MAX_SEARCH
      && search[searchLen] == '\0'
      && 0 <= filteredCount <= MAX_APPS
      && 0 <= offset
    }

    /** The layout, and the loop's invariant on the state it holds. */
    ghost predicate Valid()
      reads this, search, filteredIndices
    {
      Layout() && Consistent(apps, State())
    }

    /** The loop's variables as a value. */
    function State(): SessionState
      reads this, search, filteredIndices
      requires 0 <= searchLen <= search.Length && 0 <= filteredCount <= filteredIndices.Length
    {
      SessionState(highlight, offset, search[..searchLen], filteredIndices[..filteredCount])
    }

    /** main.c:119-130 for a catalog and a window of `maxVisible` rows. */
    constructor (apps: seq<App>, maxVisible: int)
      requires |apps| <= MAX_APPS && 1 <= maxVisible
      ensures Valid() && this.apps == apps && this.maxVisible == maxVisible
      ensures State() == InitialState(apps)
      ensures fresh(search) && fresh(filteredIndices)
    {
      this.apps := apps;
      this.maxVisible := maxVisible;
      highlight, offset := 0, 0;
      search := new char[MAX_SEARCH](_ => '\0');
      searchLen := 0;
      filteredIndices := new int[MAX_APPS];
      filteredCount := |apps|;
      new;
      for i := 0 to |apps|
        modifies filteredIndices
        invariant forall k :: 0 <= k < i ==> filteredIndices[k] == k
      {
        filteredIndices[i] := i;
      }
      assert filteredIndices[..filteredCount] == Range(|apps|);
      FilteredEmptyQuery(apps);
    }

    /** main.c:162-167: bring the highlighted row into the window. */
    method AdjustScroll()
      requires Valid()
      modifies this`offset
      ensures Valid()
      ensures offset == ScrollOffset(old(offset), highlight, maxVisible)
      ensures offset <= highlight < offset + maxVisible
    {
      if highlight < offset {
        offset := highlight;
      }
      if highlight >= offset + maxVisible {
        offset := highlight - maxVisible + 1;
      }
    }

    /** main.c:170-195: the rows handed to the display, list positions
      `offset` up to the end of the window or of the list, and exactly the
      highlighted position in reverse video. */
    method VisibleRows() returns (rows: seq<Row>)
      requires Layout()
      ensures rows == Window(State().filtered, offset, highlight, maxVisible)
    {
      ghost var f := State().filtered;
      rows := [];
      for i := 0 to maxVisible
        invariant rows == Window(f, offset, highlight, i)
      {
        var listIndex := i + offset;
        if listIndex < filteredCount {
          rows := rows + [Row(listIndex, filteredIndices[listIndex], listIndex == highlight)];
        }
      }
    }

    /** After an edit of the query buffer: refilter and go back to the top
      of the list (main.c:229-231 and 237-239). */
    method Refilter()
      requires |apps| <= MAX_APPS && filteredIndices.Length == MAX_APPS
      requires 0 <= searchLen <= search.Length
      modifies this`filteredCount, this`highlight, this`offset, filteredIndices
      ensures 0 <= filteredCount <= MAX_APPS
      ensures State() == Edit(apps, old(search[..searchLen])).1
    {
      filteredCount := FilterApps(apps, filteredIndices, search[..searchLen]);
      highlight, offset := 0, 0;
    }

    /** Backspace on a non-empty query: `search[--search_len] = '\0'`, then refilter. */
    method DeleteLast()
      requires Valid() && searchLen > 0
      modifies this, search, filteredIndices
      ensures Valid()
      ensures State() == Edit(apps, old(State()).query[..|old(State()).query| - 1]).1
    {
      ghost var q := State().query;
      searchLen := searchLen - 1;
      search[searchLen] := '\0';
      assert search[..searchLen] == q[..|q| - 1];
      Refilter();
      DispatchConsistent(apps, old(State()), DEL);
    }

    /** A printable key with room in the buffer: append it, re-terminate, refilter. */
    method Append(c: int)
      requires Valid() && IsPrint(c) && c != QUIT_CHAR as int && searchLen < MAX_SEARCH - 1
      modifies this, search, filteredIndices
      ensures Valid()
      ensures State() == Edit(apps, old(State()).query + [c as char]).1
    {
      ghost var q := State().query;
      search[searchLen] := c as char;
      searchLen := searchLen + 1;
      search[searchLen] := '\0';
      assert search[..searchLen] == q + [c as char];
      Refilter();
      DispatchConsistent(apps, old(State()), c);
    }

    /** The four navigation branches of main.c:205-218, taken when their
      guard holds: only the highlight moves. */
    method MoveHighlight(c: int)
      requires Valid()
      requires || (c == KEY_UP && highlight > 0)
               || (c == KEY_DOWN && highlight < filteredCount - 1)
               || (c == KEY_NPAGE && highlight < filteredCount - 1)
               || (c == KEY_PPAGE && highlight > 0)
      modifies this`highlight
      ensures Valid()
      ensures (Running, State()) == Dispatch(apps, old(State()), c)
    {
      ghost var before := State();
      DispatchConsistent(apps, before, c);
      if c == KEY_UP {
        highlight := highlight - 1;
      } else if c == KEY_DOWN {
        highlight := highlight + 1;
      } else if c == KEY_NPAGE {
        highlight := highlight + PAGE;
        if highlight >= filteredCount {
          highlight := filteredCount - 1;
        }
      } else {
        highlight := highlight - PAGE;
        if highlight < 0 {
          highlight := 0;
        }
      }
      assert State() == before.(highlight := highlight);
    }

    /** One key of main.c:205-240; the state afterwards is Dispatch's. */
    method Step(c: int) returns (outcome: Outcome)
      requires Valid()
      modifies this, search, filteredIndices
      ensures Valid()
      ensures (outcome, State()) == Dispatch(apps, old(State()), c)
    {
      ghost var before := State();
      outcome := Running;
      if || (c == KEY_UP && highlight > 0)
         || (c == KEY_DOWN && highlight < filteredCount - 1)
         || (c == KEY_NPAGE && highlight < filteredCount - 1)
         || (c == KEY_PPAGE && highlight > 0)
      {
        MoveHighlight(c);
      } else if c == ENTER {
        outcome := Committed(highlight);
      } else if c == ESC || c == QUIT_CHAR as int {
        outcome := Cancelled;
      } else if c == KEY_BACKSPACE || c == DEL || c == CTRL_H {
        if searchLen > 0 {
          DeleteLast();
        }
      } else if IsPrint(c) && searchLen < MAX_SEARCH - 1 {
        Append(c);
      } else {
        assert Dispatch(apps, before, c) == (Running, before);
      }
    }

    /** The main loop over the keys `keys` delivers: scroll, draw, read a key,
      dispatch it, until a key ends the loop or the keys run out. */
    method Run(keys: seq<int>) returns (outcome: Outcome)
      requires Valid()
      modifies this, search, filteredIndices
      ensures Valid()
      ensures (outcome, State()) == Drive(apps, maxVisible, old(State()), keys)
    {
      outcome := Running;
      var i := 0;
      while i < |keys| && outcome == Running
        invariant Valid()
        invariant 0 <= i <= |keys|
        invariant outcome == Running ==>
          Drive(apps, maxVisible, old(State()), keys) == Drive(apps, maxVisible, State(), keys[i..])
        invariant outcome != Running ==> Drive(apps, maxVisible, old(State()), keys) == (outcome, State())
      {
        ghost var before := State();
        assert keys[i..][1..] == keys[i + 1..];
        AdjustScroll();
        var rows := VisibleRows();
        outcome := Step(keys[i]);
        i := i + 1;
      }
    }
  }
}
