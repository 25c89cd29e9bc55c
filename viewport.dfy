/** The scroll logic of the list window: the offset of the first visible
    row is moved just enough to keep the highlighted row in view. */
module Viewport {
  import opened CStrings
  import opened Catalog

  /** display_text[64] and the field width of `%-52s`. */
  const ROW_TEXT_SIZE := 64
  const NAME_WIDTH := 52
  const FLATPAK_MARK := "[F] "
  const NATIVE_MARK := "    "

  /** One drawn row: its position in the filtered list, the catalog entry
      shown there, and whether it is drawn in reverse video. */
  datatype Row = Row(listIndex: int, app: int, highlighted: bool)

  /** The rows of a window of `maxVisible` rows from list position `offset`:
      the positions that exist in `filtered`, in order, each with the catalog
      entry stored there, and the highlighted position in reverse video. */
  function Window(filtered: seq<int>, offset: int, highlight: int, maxVisible: nat): (r: seq<Row>)
    requires 0 <= offset
    ensures |r| == Max(0, Min(offset + maxVisible, |filtered|) - offset)
    ensures forall k :: 0 <= k < |r| ==>
      r[k].listIndex == offset + k && r[k].app == filtered[offset + k] && (r[k].highlighted <==> offset + k == highlight)
  {
    if maxVisible == 0 then []
    else
      var listIndex := offset + maxVisible - 1;
      Window(filtered, offset, highlight, maxVisible - 1) +
        (if listIndex < |filtered| then [Row(listIndex, filtered[listIndex], listIndex == highlight)] else [])
  }

  /** Once the offset keeps the highlight in the window, the highlighted
      position of a non-empty list is drawn, and it is the only row in
      reverse video. */
  lemma HighlightDrawn(filtered: seq<int>, offset: int, highlight: int, maxVisible: nat)
    requires 0 <= offset <= highlight < offset + maxVisible && highlight < |filtered|
    ensures highlight - offset < |Window(filtered, offset, highlight, maxVisible)|
    ensures Window(filtered, offset, highlight, maxVisible)[highlight - offset].highlighted
    ensures forall k ::
      (0 <= k < |Window(filtered, offset, highlight, maxVisible)| && Window(filtered, offset, highlight, maxVisible)[k].highlighted)
      ==> k == highlight - offset
  {
  }

  /** `%-Ns`: the string, then spaces up to the field width. */
  function PadRight(s: string, width: nat): (r: string)
    ensures |r| == Max(|s|, width)
    ensures r[..|s|] == s
    ensures forall k :: |s| <= k < |r| ==> r[k] == ' '
  {
    if |s| < width then s + seq(width - |s|, _ => ' ') else s
  }

  /** main.c:179-185: the text of a row, a four-character flatpak mark, then
      the display name left-justified in 52 columns, cut to what
      display_text[64] holds. */
  function RowText(app: App): (r: string)
    ensures |r| == Min(ROW_TEXT_SIZE - 1, |FLATPAK_MARK| + Max(|app.displayName|, NAME_WIDTH))
    ensures r[..4] == if app.isFlatpak then FLATPAK_MARK else NATIVE_MARK
    ensures forall k :: 4 <= k < |r| ==>
      r[k] == if k - 4 < |app.displayName| then app.displayName[k - 4] else ' '
  {
    var mark := if app.isFlatpak then FLATPAK_MARK else NATIVE_MARK;
    var padded := PadRight(app.displayName, NAME_WIDTH);
    assert forall k :: 0 <= k < |padded| ==> padded[k] == if k < |app.displayName| then app.displayName[k] else ' ' by {
      forall k | 0 <= k < |padded| ensures padded[k] == if k < |app.displayName| then app.displayName[k] else ' ' {
        if k < |app.displayName| {
          assert padded[k] == padded[..|app.displayName|][k];
        }
      }
    }
    Take(mark + padded, ROW_TEXT_SIZE - 1)
  }

  /** A name that fits the column is shown whole, padded to the same width,
      so every such row is 56 characters long. */
  lemma ShortNameShownWhole(app: App)
    requires |app.displayName| <= NAME_WIDTH
    ensures |RowText(app)| == |FLATPAK_MARK| + NAME_WIDTH
    ensures RowText(app)[4..4 + |app.displayName|] == app.displayName
  {
    var r := RowText(app);
    var n := app.displayName;
    forall k | 0 <= k < |n| ensures r[4..4 + |n|][k] == n[k] {
      assert r[4..4 + |n|][k] == r[k + 4];
    }
  }

  function Dist(a: int, b: int): nat {
    if a <= b then b - a else a - b
  }

  /** main.c:162-167: scroll up to the highlight when it is above the window,
      scroll down just far enough when it is below. The new window holds the
      highlight, is left alone when it already did, and of all windows
      holding the highlight it is one nearest the old one. */
  function ScrollOffset(offset: int, highlight: int, maxVisible: int): (r: int)
    requires 1 <= maxVisible && 0 <= highlight && 0 <= offset
    ensures 0 <= r <= highlight < r + maxVisible
    ensures offset <= highlight < offset + maxVisible ==> r == offset
    ensures forall o :: o <= highlight < o + maxVisible ==> Dist(r, offset) <= Dist(o, offset)
  {
    var o := if highlight < offset then highlight else offset;
    if highlight >= o + maxVisible then highlight - maxVisible + 1 else o
  }
}
