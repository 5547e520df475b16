/**
 The example text field: its content, the selection with its direction, and the range marked by an input
 method, all as byte offsets into UTF-8 text.  Grapheme segmentation is a given function.
 */
module TextInput {
  import opened Wrappers
  import opened Encodings

  datatype Range = Range(start: nat, end: nat)

  ghost predicate InText(s: string, r: Range) {
    && r.start <= r.end
    && IsBoundary(Utf8, s, r.start)
    && IsBoundary(Utf8, s, r.end)
  }

  ghost predicate Increasing(s: seq<nat>) {
    forall i, j :: 0 <= i < j < |s| ==> s[i] < s[j]
  }

  /** Where graphemes may start: at increasing character boundaries before the end, the first at 0. */
  ghost predicate Segments(graphemes: string -> seq<nat>) {
    forall s: string ::
      var starts := graphemes(s);
      && Increasing(starts)
      && (s != [] ==> starts != [] && starts[0] == 0)
      && forall i :: 0 <= i < |starts| ==> IsBoundary(Utf8, s, starts[i]) && starts[i] < Width(Utf8, s)
  }

  /** The last of the starts before `offset`, or 0. */
  function LastBefore(starts: seq<nat>, offset: nat): (b: nat)
    ensures b == 0 || (b in starts && b < offset)
    ensures Increasing(starts) ==> forall x :: x in starts && x < offset ==> x <= b
  {
    if starts == [] then 0
    else
      var last := starts[|starts| - 1];
      assert starts == starts[..|starts| - 1] + [last];
      if last < offset then last else LastBefore(starts[..|starts| - 1], offset)
  }

  /** The first of the starts after `offset`, or the end of the text. */
  function FirstAfter(starts: seq<nat>, offset: nat, end: nat): (b: nat)
    ensures b == end || (b in starts && offset < b)
    ensures Increasing(starts) && (forall x :: x in starts ==> x <= end) ==> forall x :: x in starts && offset < x ==> b <= x
  {
    if starts == [] then end
    else
      assert starts == [starts[0]] + starts[1..];
      assert forall x :: x in starts[1..] ==> x in starts;
      assert Increasing(starts) ==> Increasing(starts[1..]) && forall x :: x in starts[1..] ==> starts[0] < x;
      if starts[0] > offset then starts[0] else FirstAfter(starts[1..], offset, end)
  }

  /** `b` is the nearest of the starts before `offset`, or 0 if there is none. */
  ghost predicate NearestBefore(starts: seq<nat>, offset: nat, b: nat) {
    && (forall x :: x in starts && x < offset ==> x <= b)
    && (b == 0 || (b in starts && b < offset))
  }

  /** `b` is the nearest of the starts after `offset`, or the end if there is none. */
  ghost predicate NearestAfter(starts: seq<nat>, offset: nat, end: nat, b: nat) {
    && (forall x :: x in starts && offset < x ==> b <= x)
    && (b == end || (b in starts && offset < b))
  }

  // ---------- Replacing a piece of text ----------

  /** The text before a byte offset, and the text from it on. */
  function Head(s: string, offset: nat): string {
    s[..CharsBefore(Utf8, s, offset)]
  }

  function Tail(s: string, offset: nat): string {
    s[CharsBefore(Utf8, s, offset)..]
  }

  function Replaced(s: string, r: Range, text: string): string {
    Head(s, r.start) + text + Tail(s, r.end)
  }

  lemma Regroup(a: string, b: string, c: string)
    ensures a + b + c == a + (b + c)
  {
  }

  lemma HeadAndTail(s: string, offset: nat)
    ensures Head(s, offset) + Tail(s, offset) == s
    ensures Width(Utf8, Head(s, offset)) + Width(Utf8, Tail(s, offset)) == Width(Utf8, s)
  {
    assert Head(s, offset) + Tail(s, offset) == s;
    WidthConcat(Utf8, Head(s, offset), Tail(s, offset));
  }

  lemma SplitAt(s: string, offset: nat)
    requires IsBoundary(Utf8, s, offset)
    ensures Width(Utf8, Head(s, offset)) == offset
    ensures Head(s, offset) + Tail(s, offset) == s
    ensures Width(Utf8, Tail(s, offset)) + offset == Width(Utf8, s)
  {
    var k: nat :| k <= |s| && OffsetAt(Utf8, s, k) == offset;
    ConvertBoundary(Utf8, Utf8, s, k);
    HeadAndTail(s, offset);
  }

  lemma BoundaryOfConcat(s: string, t: string)
    ensures IsBoundary(Utf8, s + t, Width(Utf8, s))
  {
    assert (s + t)[..|s|] == s;
    assert OffsetAt(Utf8, s + t, |s|) == Width(Utf8, s);
  }

  /** The ends of the middle one of three pieces. */
  lemma MiddleBoundaries(head: string, text: string, tail: string)
    ensures IsBoundary(Utf8, head + text + tail, Width(Utf8, head))
    ensures IsBoundary(Utf8, head + text + tail, Width(Utf8, head) + Width(Utf8, text))
  {
    Regroup(head, text, tail);
    BoundaryOfConcat(head, text + tail);
    WidthConcat(Utf8, head, text);
    BoundaryOfConcat(head + text, tail);
  }

  /** The ends of the inserted text are boundaries of the result. */
  lemma ReplacedBoundaries(s: string, r: Range, text: string)
    requires IsBoundary(Utf8, s, r.start)
    ensures IsBoundary(Utf8, Replaced(s, r, text), r.start)
    ensures IsBoundary(Utf8, Replaced(s, r, text), r.start + Width(Utf8, text))
  {
    SplitAt(s, r.start);
    MiddleBoundaries(Head(s, r.start), text, Tail(s, r.end));
  }

  lemma ReplacedWidth(s: string, r: Range, text: string)
    requires IsBoundary(Utf8, s, r.start) && IsBoundary(Utf8, s, r.end)
    ensures Width(Utf8, Replaced(s, r, text)) + r.end == r.start + Width(Utf8, text) + Width(Utf8, s)
  {
    SplitAt(s, r.start);
    SplitAt(s, r.end);
    var head, tail := Head(s, r.start), Tail(s, r.end);
    WidthConcat(Utf8, head, text);
    WidthConcat(Utf8, head + text, tail);
  }

  /** The piece of text in a range. */
  function Piece(s: string, r: Range): string
    requires r.start <= r.end
  {
    var head := CharsBefore(Utf8, s, r.start);
    Head(s, r.end)[if head <= |Head(s, r.end)| then head else |Head(s, r.end)|..]
  }

  lemma PieceSplits(s: string, r: Range)
    requires InText(s, r)
    ensures Head(s, r.end) == Head(s, r.start) + Piece(s, r)
    ensures Width(Utf8, Piece(s, r)) == r.end - r.start
  {
    SplitAt(s, r.start);
    SplitAt(s, r.end);
    var i: nat :| i <= |s| && OffsetAt(Utf8, s, i) == r.start;
    var j: nat :| j <= |s| && OffsetAt(Utf8, s, j) == r.end;
    ConvertBoundary(Utf8, Utf8, s, i);
    ConvertBoundary(Utf8, Utf8, s, j);
    if j < i {
      OffsetsRise(Utf8, s, j, i);
    }
    assert s[..j] == s[..i] + s[i..j];
    assert Piece(s, r) == s[i..j];
    WidthConcat(Utf8, s[..i], s[i..j]);
  }

  lemma HeadAtConcat(head: string, tail: string)
    ensures Head(head + tail, Width(Utf8, head)) == head && Tail(head + tail, Width(Utf8, head)) == tail
  {
    var s, k := head + tail, |head|;
    assert s[..k] == head && s[k..] == tail;
    ConvertBoundary(Utf8, Utf8, s, k);
  }

  /** Cutting a range and inserting a text where it was is replacing the range by the text. */
  lemma CutAndInsert(s: string, r: Range, text: string)
    requires IsBoundary(Utf8, s, r.start)
    ensures Replaced(Replaced(s, r, ""), Range(r.start, r.start), text) == Replaced(s, r, text)
  {
    SplitAt(s, r.start);
    var head, tail := Head(s, r.start), Tail(s, r.end);
    assert Replaced(s, r, "") == head + tail;
    HeadAtConcat(head, tail);
  }

  lemma SameMiddle(head: string, text: string, piece: string, tail: string)
    ensures head + text + tail == head + piece + tail <==> text == piece
  {
    if head + text + tail == head + piece + tail {
      var all := head + text + tail;
      assert |text| == |piece|;
      assert text == all[|head|..|head| + |text|] && piece == all[|head|..|head| + |piece|];
    }
  }

  /** Replacing a range restores the text exactly when the piece in the range is put there. */
  lemma ReplacedIsSame(s: string, r: Range, text: string)
    requires InText(s, r)
    ensures Replaced(s, r, text) == s <==> text == Piece(s, r)
  {
    PieceSplits(s, r);
    HeadAndTail(s, r.end);
    SameMiddle(Head(s, r.start), text, Piece(s, r), Tail(s, r.end));
  }

  /** Cutting a range and putting a text back restores everything exactly when it is the piece that was cut. */
  lemma CutAndPutBack(s: string, r: Range, text: string)
    requires InText(s, r)
    ensures Replaced(Replaced(s, r, ""), Range(r.start, r.start), text) == s <==> text == Piece(s, r)
  {
    CutAndInsert(s, r, text);
    ReplacedIsSame(s, r, text);
  }

  // ---------- The field ----------

  class TextInput {
    var content: string
    var selectedRange: Range
    var selectionReversed: bool
    var markedRange: Option<Range>
    var isSelecting: bool
    // The starts of the graphemes of a text.
    const graphemes: string -> seq<nat>

    ghost predicate Valid()
      reads this
    {
      && Segments(graphemes)
      && InText(content, selectedRange)
      && (markedRange.Some? ==> InText(content, markedRange.value))
    }

    constructor (graphemes: string -> seq<nat>)
      requires Segments(graphemes)
      ensures Valid() && content == "" && selectedRange == Range(0, 0) && markedRange == None
      ensures !selectionReversed && !isSelecting && this.graphemes == graphemes
    {
      this.graphemes := graphemes;
      content, selectedRange, selectionReversed, markedRange, isSelecting := "", Range(0, 0), false, None, false;
      new;
      assert OffsetAt(Utf8, "", 0) == 0;
    }

    /** The end of the selection that stays when the other one is moved. */
    function Anchor(): nat
      reads this
    {
      if selectionReversed then selectedRange.end else selectedRange.start
    }

    function CursorOffset(): nat
      reads this
    {
      if selectionReversed then selectedRange.start else selectedRange.end
    }

    function ContentLen(): nat
      reads this
    {
      Width(Utf8, content)
    }

    function PreviousBoundary(offset: nat): nat
      reads this
    {
      LastBefore(graphemes(content), offset)
    }

    function NextBoundary(offset: nat): nat
      reads this
    {
      FirstAfter(graphemes(content), offset, ContentLen())
    }

    /** Both ends of the text and both grapheme neighbours of any offset are boundaries. */
    lemma BoundariesAround(offset: nat)
      requires Valid()
      ensures IsBoundary(Utf8, content, 0) && IsBoundary(Utf8, content, ContentLen())
      ensures IsBoundary(Utf8, content, PreviousBoundary(offset))
      ensures IsBoundary(Utf8, content, NextBoundary(offset))
      ensures NearestBefore(graphemes(content), offset, PreviousBoundary(offset))
      ensures NearestAfter(graphemes(content), offset, ContentLen(), NextBoundary(offset))
    {
      OffsetAtEnd(Utf8, content);
      assert OffsetAt(Utf8, content, |content|) == ContentLen();
      var starts := graphemes(content);
      assert forall b :: b in starts ==> IsBoundary(Utf8, content, b);
    }

    /** The neighbours of an offset in the text are on their sides of it. */
    lemma NearestIsApart(offset: nat)
      requires Valid() && IsBoundary(Utf8, content, offset)
      ensures PreviousBoundary(offset) <= offset <= NextBoundary(offset)
    {
      BoundariesAround(offset);
      WithinWidth(Utf8, content, offset);
    }

    // ---------- Moving and selecting ----------

    /** The field stays valid exactly when the offset is a boundary. */
    method MoveTo(offset: nat)
      requires Valid()
      modifies this`selectedRange
      ensures selectedRange == Range(offset, offset)
      ensures Valid() <==> IsBoundary(Utf8, content, offset)
    {
      selectedRange := Range(offset, offset);
    }

    /** Only the head moves; the range stays ordered and the direction says which end the head is. */
    method SelectTo(offset: nat)
      requires Valid()
      modifies this`selectedRange, this`selectionReversed
      ensures Valid() <==> IsBoundary(Utf8, content, offset)
      ensures Anchor() == old(Anchor()) && CursorOffset() == offset
      ensures selectionReversed == if offset == Anchor() then old(selectionReversed) else offset < Anchor()
      ensures selectedRange == if offset < Anchor() then Range(offset, Anchor()) else Range(Anchor(), offset)
    {
      if selectionReversed {
        selectedRange := selectedRange.(start := offset);
      } else {
        selectedRange := selectedRange.(end := offset);
      }
      if selectedRange.end < selectedRange.start {
        selectionReversed := !selectionReversed;
        selectedRange := Range(selectedRange.end, selectedRange.start);
      }
    }

    method Left()
      requires Valid()
      modifies this`selectedRange
      ensures Valid() && selectedRange.start == selectedRange.end
      ensures selectedRange.start ==
              if old(selectedRange.start == selectedRange.end) then old(PreviousBoundary(CursorOffset()))
              else old(selectedRange.start)
      ensures old(selectedRange.start == selectedRange.end) ==>
                NearestBefore(graphemes(content), old(CursorOffset()), selectedRange.start)
    {
      BoundariesAround(CursorOffset());
      if selectedRange.start == selectedRange.end {
        MoveTo(PreviousBoundary(CursorOffset()));
      } else {
        MoveTo(selectedRange.start);
      }
    }

    method Right()
      requires Valid()
      modifies this`selectedRange
      ensures Valid() && selectedRange.start == selectedRange.end
      ensures selectedRange.start ==
              if old(selectedRange.start == selectedRange.end) then old(NextBoundary(selectedRange.end))
              else old(selectedRange.end)
      ensures old(selectedRange.start == selectedRange.end) ==>
                NearestAfter(graphemes(content), old(selectedRange.end), ContentLen(), selectedRange.start)
    {
      BoundariesAround(selectedRange.end);
      if selectedRange.start == selectedRange.end {
        MoveTo(NextBoundary(selectedRange.end));
      } else {
        MoveTo(selectedRange.end);
      }
    }

    method SelectLeft()
      requires Valid()
      modifies this`selectedRange, this`selectionReversed
      ensures Valid() && Anchor() == old(Anchor()) && CursorOffset() == old(PreviousBoundary(CursorOffset()))
      ensures NearestBefore(graphemes(content), old(CursorOffset()), CursorOffset())
    {
      BoundariesAround(CursorOffset());
      SelectTo(PreviousBoundary(CursorOffset()));
    }

    method SelectRight()
      requires Valid()
      modifies this`selectedRange, this`selectionReversed
      ensures Valid() && Anchor() == old(Anchor()) && CursorOffset() == old(NextBoundary(CursorOffset()))
      ensures NearestAfter(graphemes(content), old(CursorOffset()), ContentLen(), CursorOffset())
    {
      BoundariesAround(CursorOffset());
      SelectTo(NextBoundary(CursorOffset()));
    }

    method SelectAll()
      requires Valid()
      modifies this`selectedRange, this`selectionReversed
      ensures Valid() && selectedRange == Range(0, ContentLen())
    {
      BoundariesAround(0);
      MoveTo(0);
      SelectTo(ContentLen());
    }

    method Home()
      requires Valid()
      modifies this`selectedRange
      ensures Valid() && selectedRange == Range(0, 0)
    {
      BoundariesAround(0);
      MoveTo(0);
    }

    method End()
      requires Valid()
      modifies this`selectedRange
      ensures Valid() && selectedRange == Range(ContentLen(), ContentLen())
    {
      BoundariesAround(0);
      MoveTo(ContentLen());
    }

    /** `index` is what the last layout finds under the mouse, whether or not the text has changed since. */
    method OnMouseDown(index: nat, shift: bool)
      requires Valid()
      modifies this`selectedRange, this`selectionReversed, this`isSelecting
      ensures Valid() <==> IsBoundary(Utf8, content, index)
      ensures isSelecting && CursorOffset() == index
      ensures Anchor() == if shift then old(Anchor()) else index
    {
      isSelecting := true;
      if shift {
        SelectTo(index);
      } else {
        MoveTo(index);
      }
    }

    method OnMouseMove(index: nat)
      requires Valid()
      modifies this`selectedRange, this`selectionReversed
      ensures Valid() <==> !isSelecting || IsBoundary(Utf8, content, index)
      ensures if isSelecting then Anchor() == old(Anchor()) && CursorOffset() == index
              else selectedRange == old(selectedRange)
    {
      if isSelecting {
        SelectTo(index);
      }
    }

    // ---------- Offsets counted in UTF-16 ----------

    method OffsetFromUtf16(offset: nat) returns (r: nat)
      ensures r == Convert(Utf16, Utf8, content, offset)
    {
      r := CountTo(Utf16, Utf8, content, offset);
    }

    method OffsetToUtf16(offset: nat) returns (r: nat)
      ensures r == Convert(Utf8, Utf16, content, offset)
    {
      r := CountTo(Utf8, Utf16, content, offset);
    }

    /** An ordered range stays ordered, and any range comes out on boundaries. */
    method RangeFromUtf16(range: Range) returns (r: Range)
      ensures r == Range(Convert(Utf16, Utf8, content, range.start), Convert(Utf16, Utf8, content, range.end))
      ensures IsBoundary(Utf8, content, r.start) && IsBoundary(Utf8, content, r.end)
      ensures range.start <= range.end ==> InText(content, r)
    {
      var start := OffsetFromUtf16(range.start);
      var end := OffsetFromUtf16(range.end);
      r := Range(start, end);
      if range.start <= range.end {
        ConvertMonotone(Utf16, Utf8, content, range.start, range.end);
      }
    }

    // ---------- Editing ----------

    /** What an edit replaces: the range given, else the marked one, else the selection. */
    ghost function EditedRange(rangeUtf16: Option<Range>): Range
      reads this
    {
      if rangeUtf16.Some? then
        Range(Convert(Utf16, Utf8, content, rangeUtf16.value.start), Convert(Utf16, Utf8, content, rangeUtf16.value.end))
      else if markedRange.Some? then markedRange.value
      else selectedRange
    }

    method EditRange(rangeUtf16: Option<Range>) returns (r: Range)
      requires Valid()
      ensures r == EditedRange(rangeUtf16)
      ensures IsBoundary(Utf8, content, r.start) && IsBoundary(Utf8, content, r.end)
    {
      if rangeUtf16.Some? {
        r := RangeFromUtf16(rangeUtf16.value);
      } else if markedRange.Some? {
        r := markedRange.value;
      } else {
        r := selectedRange;
      }
    }

    /** Puts the text in place of the range; the cursor goes behind it and nothing stays marked. */
    method ReplaceTextInRange(rangeUtf16: Option<Range>, newText: string) returns (ghost range: Range)
      requires Valid()
      modifies this`content, this`selectedRange, this`markedRange
      ensures Valid()
      ensures range == old(EditedRange(rangeUtf16))
      ensures content == Replaced(old(content), range, newText)
      ensures var cursor := range.start + Width(Utf8, newText); selectedRange == Range(cursor, cursor)
      ensures markedRange == None
    {
      var r := EditRange(rangeUtf16);
      range := r;
      ReplacedBoundaries(content, r, newText);
      content := Replaced(content, r, newText);
      var cursor := r.start + Width(Utf8, newText);
      selectedRange := Range(cursor, cursor);
      markedRange := None;
    }

    /** The same for text still being composed, which stays marked. */
    method Compose(rangeUtf16: Option<Range>, newText: string) returns (range: Range)
      requires Valid()
      modifies this`content, this`selectedRange, this`markedRange
      ensures Valid()
      ensures range == old(EditedRange(rangeUtf16))
      ensures content == Replaced(old(content), range, newText)
      ensures var cursor := range.start + Width(Utf8, newText);
              && selectedRange == Range(cursor, cursor)
              && markedRange == if newText == "" then None else Some(Range(range.start, cursor))
    {
      range := EditRange(rangeUtf16);
      ReplacedBoundaries(content, range, newText);
      content := Replaced(content, range, newText);
      var cursor := range.start + Width(Utf8, newText);
      if newText != "" {
        markedRange := Some(Range(range.start, cursor));
      } else {
        markedRange := None;
      }
      selectedRange := Range(cursor, cursor);
    }

    /**
     Without an explicit selection the cursor goes behind the composed text.  With one, both its ends are read
     against the new text and shifted by the ends of the replaced range, and nothing keeps them inside the text.
     */
    method ReplaceAndMarkTextInRange(rangeUtf16: Option<Range>, newText: string, newSelectedUtf16: Option<Range>)
      returns (range: Range)
      requires Valid()
      modifies this`content, this`selectedRange, this`markedRange
      ensures Valid() <==> newSelectedUtf16.None? || InText(content, selectedRange)
      ensures range == old(EditedRange(rangeUtf16))
      ensures content == Replaced(old(content), range, newText)
      ensures var cursor := range.start + Width(Utf8, newText);
              && markedRange == (if newText == "" then None else Some(Range(range.start, cursor)))
              && selectedRange == if newSelectedUtf16.None? then Range(cursor, cursor)
                                  else ShiftedSelection(content, range, newSelectedUtf16.value)
    {
      range := Compose(rangeUtf16, newText);
      if newSelectedUtf16.Some? {
        var selection := RangeFromUtf16(newSelectedUtf16.value);
        selectedRange := Range(selection.start + range.start, selection.end + range.end);
      }
    }

    method UnmarkText()
      requires Valid()
      modifies this`markedRange
      ensures Valid() && markedRange == None
    {
      markedRange := None;
    }

    /** An empty selection grows to the offset, and what is selected goes; nothing happens if it cannot grow. */
    method DeleteTo(offset: nat) returns (bell: bool)
      requires Valid() && IsBoundary(Utf8, content, offset)
      modifies this`content, this`selectedRange, this`selectionReversed, this`markedRange
      ensures Valid()
      ensures bell <==> old(selectedRange.start == selectedRange.end && CursorOffset() == offset)
      ensures bell ==> content == old(content) && selectedRange == old(selectedRange)
      ensures !bell ==>
                var range := old(DeletedRange(offset));
                content == Replaced(old(content), range, "") && selectedRange == Range(range.start, range.start)
    {
      bell := false;
      if selectedRange.start == selectedRange.end {
        if CursorOffset() == offset {
          return true;
        }
        SelectTo(offset);
      }
      ghost var deleted := ReplaceTextInRange(None, "");
      assert deleted == old(DeletedRange(offset));
    }

    /** What deleting to an offset takes away. */
    ghost function DeletedRange(offset: nat): Range
      reads this
    {
      if markedRange.Some? then markedRange.value
      else if selectedRange.start != selectedRange.end then selectedRange
      else if offset < CursorOffset() then Range(offset, CursorOffset())
      else Range(CursorOffset(), offset)
    }

    /** Deletes the selection, or the grapheme before the cursor; at the start it only rings the bell. */
    method Backspace() returns (bell: bool)
      requires Valid()
      modifies this`content, this`selectedRange, this`selectionReversed, this`markedRange
      ensures Valid()
      ensures bell <==> old(selectedRange.start == selectedRange.end && CursorOffset() == PreviousBoundary(CursorOffset()))
      ensures bell ==> content == old(content) && selectedRange == old(selectedRange)
      ensures !bell ==>
                var range := old(DeletedRange(PreviousBoundary(CursorOffset())));
                && content == Replaced(old(content), range, "") && selectedRange == Range(range.start, range.start)
                && (old(markedRange.None? && selectedRange.start == selectedRange.end) ==>
                      && range.end == old(CursorOffset())
                      && NearestBefore(graphemes(old(content)), old(CursorOffset()), range.start))
    {
      BoundariesAround(CursorOffset());
      NearestIsApart(CursorOffset());
      bell := DeleteTo(PreviousBoundary(CursorOffset()));
    }

    /** Deletes the selection, or the grapheme after the cursor; at the end it only rings the bell. */
    method Delete() returns (bell: bool)
      requires Valid()
      modifies this`content, this`selectedRange, this`selectionReversed, this`markedRange
      ensures Valid()
      ensures bell <==> old(selectedRange.start == selectedRange.end && CursorOffset() == NextBoundary(CursorOffset()))
      ensures bell ==> content == old(content) && selectedRange == old(selectedRange)
      ensures !bell ==>
                var range := old(DeletedRange(NextBoundary(CursorOffset())));
                && content == Replaced(old(content), range, "") && selectedRange == Range(range.start, range.start)
                && (old(markedRange.None? && selectedRange.start == selectedRange.end) ==>
                      && range.start == old(CursorOffset())
                      && NearestAfter(graphemes(old(content)), old(CursorOffset()), old(ContentLen()), range.end))
    {
      BoundariesAround(CursorOffset());
      NearestIsApart(CursorOffset());
      bell := DeleteTo(NextBoundary(CursorOffset()));
    }

    /** Puts the text in, with a space for each line break and every other character as it is. */
    method Paste(text: string)
      requires Valid()
      modifies this`content, this`selectedRange, this`markedRange
      ensures Valid() && markedRange == None
      ensures var range := old(EditedRange(None));
              content == Replaced(old(content), range, OneLine(text))
      ensures |OneLine(text)| == |text|
      ensures forall i :: 0 <= i < |text| ==> OneLine(text)[i] == if text[i] == '\n' then ' ' else text[i]
    {
      ghost var range := ReplaceTextInRange(None, OneLine(text));
    }

    method Copy() returns (clipboard: Option<string>)
      requires Valid()
      ensures clipboard == if selectedRange.start == selectedRange.end then None
                           else Some(Piece(content, selectedRange))
    {
      if selectedRange.start == selectedRange.end {
        return None;
      }
      return Some(Piece(content, selectedRange));
    }

    method Cut() returns (clipboard: Option<string>)
      requires Valid()
      modifies this`content, this`selectedRange, this`markedRange
      ensures Valid()
      ensures clipboard == if old(selectedRange.start == selectedRange.end) then None
                           else Some(Piece(old(content), old(selectedRange)))
      ensures clipboard.None? ==> content == old(content) && selectedRange == old(selectedRange)
      ensures clipboard.Some? ==>
                var range := old(EditedRange(None));
                && content == Replaced(old(content), range, "")
                && selectedRange == Range(range.start, range.start) && markedRange == None
    {
      clipboard := Copy();
      if clipboard.Some? {
        ghost var range := ReplaceTextInRange(None, "");
      }
    }

    /**
     Cutting and pasting at once.  It restores the text exactly when what was copied is, with spaces for its line breaks,
     what was removed; without a marked range that is when it has no line break.
     */
    method CutThenPaste() returns (clipboard: Option<string>)
      requires Valid()
      modifies this`content, this`selectedRange, this`markedRange
      ensures Valid()
      ensures clipboard.Some? <==> old(selectedRange.start != selectedRange.end)
      ensures clipboard.Some? ==>
                var range := old(EditedRange(None));
                && content == Replaced(old(content), range, OneLine(old(Piece(content, selectedRange))))
                && (content == old(content) <==>
                    OneLine(old(Piece(content, selectedRange))) == old(Piece(content, EditedRange(None))))
                && (old(markedRange).None? ==>
                      (content == old(content) <==> '\n' !in old(Piece(content, selectedRange))))
      ensures clipboard.None? ==> content == old(content)
    {
      clipboard := Cut();
      if clipboard.Some? {
        ghost var range := old(EditedRange(None));
        var piece := clipboard.value;
        CutAndInsert(old(content), range, OneLine(piece));
        ReplacedIsSame(old(content), range, OneLine(piece));
        OneLineIsSame(piece);
        Paste(piece);
      }
    }

    method Reset()
      requires Valid()
      modifies this`content, this`selectedRange, this`selectionReversed, this`markedRange, this`isSelecting
      ensures Valid() && content == "" && selectedRange == Range(0, 0) && markedRange == None && !isSelecting
      ensures !selectionReversed
    {
      content, selectedRange, selectionReversed, markedRange, isSelecting := "", Range(0, 0), false, None, false;
      assert OffsetAt(Utf8, "", 0) == 0;
    }
  }

  /** Line breaks become spaces. */
  function OneLine(text: string): (line: string)
    ensures |line| == |text|
    ensures forall i :: 0 <= i < |text| ==> line[i] == if text[i] == '\n' then ' ' else text[i]
  {
    seq(|text|, i requires 0 <= i < |text| => if text[i] == '\n' then ' ' else text[i])
  }

  lemma OneLineIsSame(text: string)
    ensures OneLine(text) == text <==> '\n' !in text
  {
    if OneLine(text) == text {
      forall i | 0 <= i < |text| ensures text[i] != '\n' {
        assert OneLine(text)[i] == text[i];
      }
    } else {
      var i :| 0 <= i < |text| && OneLine(text)[i] != text[i];
    }
  }

  // ---------- Text of one-byte characters ----------

  lemma WithinWidth(enc: Encoding, s: string, offset: nat)
    requires IsBoundary(enc, s, offset)
    ensures offset <= Width(enc, s)
  {
    var k: nat :| k <= |s| && OffsetAt(enc, s, k) == offset;
    OffsetAtEnd(enc, s);
    if k < |s| {
      OffsetsRise(enc, s, k, |s|);
    }
  }

  ghost predicate OneByteEach(s: string) {
    forall i :: 0 <= i < |s| ==> Len(Utf8, s[i]) == 1
  }

  lemma {:induction false} OneByteOffset(s: string, k: nat)
    requires OneByteEach(s) && k <= |s|
    ensures OffsetAt(Utf8, s, k) == k
  {
    if k > 0 {
      OffsetStep(Utf8, s, k - 1);
      OneByteOffset(s, k - 1);
    }
  }

  lemma OneByteBoundary(s: string, offset: nat)
    requires OneByteEach(s)
    ensures IsBoundary(Utf8, s, offset) <==> offset <= Width(Utf8, s)
  {
    OffsetAtEnd(Utf8, s);
    OneByteOffset(s, |s|);
    if offset <= |s| {
      OneByteOffset(s, offset);
    } else if IsBoundary(Utf8, s, offset) {
      WithinWidth(Utf8, s, offset);
    }
  }

  lemma OneByteSplit(s: string, k: nat)
    requires OneByteEach(s) && k <= |s|
    ensures Head(s, k) == s[..k] && Tail(s, k) == s[k..]
  {
    OneByteOffset(s, k);
    ConvertBoundary(Utf8, Utf8, s, k);
  }

  lemma OneByteReplaced(s: string, i: nat, j: nat, text: string)
    requires OneByteEach(s) && i <= j <= |s|
    ensures Replaced(s, Range(i, j), text) == s[..i] + text + s[j..]
    ensures Piece(s, Range(i, j)) == s[i..j]
  {
    OneByteSplit(s, i);
    OneByteSplit(s, j);
  }

  /** With the second of two characters marked, cutting the first one and pasting it gives the first one twice. */
  lemma CutOfMarkedDiffers(a: char, b: char)
    requires Len(Utf8, a) == Len(Utf8, b) == 1 && a != '\n' && a != b
    ensures var s := [a, b];
            && Replaced(Replaced(s, Range(1, 2), ""), Range(1, 1), OneLine(Piece(s, Range(0, 1)))) == [a, a]
            && [a, a] != s
  {
    var s := [a, b];
    OneByteReplaced(s, 0, 1, "");
    OneByteReplaced(s, 1, 2, [a]);
    assert s[0..1] == [a] && s[..1] + [a] + s[2..] == [a, a];
    OneLineIsSame([a]);
    OneByteOffset(s, 1);
    CutAndInsert(s, Range(1, 2), [a]);
    assert [a, a][1] != s[1];
  }

  // ---------- An explicit selection ----------

  /** An explicit selection given with composed text, as the source computes it. */
  function ShiftedSelection(content: string, range: Range, selectedUtf16: Range): Range {
    Range(Convert(Utf16, Utf8, content, selectedUtf16.start) + range.start,
          Convert(Utf16, Utf8, content, selectedUtf16.end) + range.end)
  }

  lemma StaysInFront(content: string, selectedUtf16: Range)
    requires selectedUtf16.start <= selectedUtf16.end
    ensures InText(content, ShiftedSelection(content, Range(0, 0), selectedUtf16))
  {
    ConvertMonotone(Utf16, Utf8, content, selectedUtf16.start, selectedUtf16.end);
  }

  /**
   The shifted selection is within the text for every ordered selection exactly when the text was composed into an empty
   range at the very start.
   */
  lemma ShiftedStaysIff(s: string, range: Range, text: string)
    requires IsBoundary(Utf8, s, range.start) && IsBoundary(Utf8, s, range.end)
    ensures var after := Replaced(s, range, text);
            (forall sel: Range :: sel.start <= sel.end ==> InText(after, ShiftedSelection(after, range, sel)))
            <==> range == Range(0, 0)
  {
    var after := Replaced(s, range, text);
    if range == Range(0, 0) {
      forall sel: Range | sel.start <= sel.end ensures InText(after, ShiftedSelection(after, range, sel)) {
        StaysInFront(after, sel);
      }
    } else {
      var sel := Range(0, if range.end == 0 then 0 else Width(Utf16, after));
      ShiftedOut(after, range, sel);
      assert !InText(after, ShiftedSelection(after, range, sel));
    }
  }

  /** Selecting everything ends behind the text; into a reversed range that ends at 0, selecting nothing is reversed. */
  lemma ShiftedOut(after: string, range: Range, sel: Range)
    requires range != Range(0, 0)
    requires sel == Range(0, if range.end == 0 then 0 else Width(Utf16, after))
    ensures !InText(after, ShiftedSelection(after, range, sel))
  {
    OffsetAtEnd(Utf16, after);
    OffsetAtEnd(Utf8, after);
    ConvertBoundary(Utf16, Utf8, after, |after|);
    var shifted := ShiftedSelection(after, range, sel);
    if range.end > 0 && InText(after, shifted) {
      WithinWidth(Utf8, after, shifted.end);
    }
  }

  /** One selection ends within the text exactly when it leaves room for the end of the replaced range. */
  lemma ShiftedEnd(s: string, range: Range, text: string, sel: Range)
    requires IsBoundary(Utf8, s, range.start) && IsBoundary(Utf8, s, range.end)
    ensures var after := Replaced(s, range, text);
            ShiftedSelection(after, range, sel).end <= Width(Utf8, after) <==>
            Convert(Utf16, Utf8, after, sel.end) + 2 * range.end <= range.start + Width(Utf8, text) + Width(Utf8, s)
  {
    ReplacedWidth(s, range, text);
  }

  /** In text of one-byte characters that is all a selection needs. */
  lemma ShiftedStaysInOneByteText(s: string, range: Range, text: string, sel: Range)
    requires InText(s, range) && sel.start <= sel.end && OneByteEach(Replaced(s, range, text))
    ensures var after := Replaced(s, range, text);
            InText(after, ShiftedSelection(after, range, sel)) <==>
            Convert(Utf16, Utf8, after, sel.end) + 2 * range.end <= range.start + Width(Utf8, text) + Width(Utf8, s)
  {
    var after := Replaced(s, range, text);
    var shifted := ShiftedSelection(after, range, sel);
    ShiftedEnd(s, range, text, sel);
    ConvertMonotone(Utf16, Utf8, after, sel.start, sel.end);
    OneByteBoundary(after, shifted.start);
    OneByteBoundary(after, shifted.end);
  }

  /** It can leave the text: composing "x" over all of "ab" and selecting it ends two bytes past the end. */
  lemma ShiftedSelectionEscapes()
    ensures var content := Replaced("ab", Range(0, 2), "x");
            && content == "x"
            && ShiftedSelection(content, Range(0, 2), Range(0, 1)) == Range(0, 3)
            && !InText(content, Range(0, 3))
  {
    OneByteReplaced("ab", 0, 2, "x");
    OneByteBoundary("x", 3);
    assert Width(Utf8, "x") == 1;
  }
}
