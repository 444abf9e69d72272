/** The equation field of the main screen (MainActivity.kt, lines 98-121): the
    keypad inserts a fragment over the selection, and the delete key removes
    the selection or the character before the cursor. */
module Editor {

  function Max0(i: int): nat {
    if i < 0 then 0 else i
  }

  /** `min(start, end)` after both are clamped at 0 (`coerceAtLeast(0)`). */
  function Lo(start: int, end: int): (a: nat)
    ensures a <= Max0(start) && a <= Max0(end)
    ensures a == Max0(start) || a == Max0(end)
  {
    if Max0(start) <= Max0(end) then Max0(start) else Max0(end)
  }

  /** `max(start, end)` after both are clamped at 0. */
  function Hi(start: int, end: int): (b: nat)
    ensures b >= Max0(start) && b >= Max0(end)
    ensures b == Max0(start) || b == Max0(end)
  {
    if Max0(start) <= Max0(end) then Max0(end) else Max0(start)
  }

  /** What the field may hold: the selection ends lie within the text (Android
      reports -1 for an absent selection, hence no lower bound). */
  predicate InField(text: string, start: int, end: int) {
    start <= |text| && end <= |text|
  }

  /** The text and cursor after `insertAtCursor(fragment)`: the selection
      `[a, b)` is replaced by the fragment and the cursor lands after it. */
  function Inserted(text: string, start: int, end: int, fragment: string): (r: (string, nat))
    requires InField(text, start, end)
    ensures |r.0| == |text| - (Hi(start, end) - Lo(start, end)) + |fragment|
    ensures r.1 == Lo(start, end) + |fragment| <= |r.0|
    ensures r.0[..Lo(start, end)] == text[..Lo(start, end)]
    ensures r.0[Lo(start, end)..r.1] == fragment
    ensures r.0[r.1..] == text[Hi(start, end)..]
  {
    var a := Lo(start, end);
    var b := Hi(start, end);
    var t := text[..a] + fragment + text[b..];
    assert t[..a] == text[..a];
    assert t[a..a + |fragment|] == fragment;
    assert t[a + |fragment|..] == text[b..];
    (t, a + |fragment|)
  }

  /** The text and cursor after `backspace()`: a selection is deleted and the
      cursor goes to its start; otherwise the character before the cursor is
      deleted, and at the very start nothing changes. */
  function Backspaced(text: string, start: int, end: int): (r: (string, nat))
    requires InField(text, start, end)
    ensures r.1 <= Lo(start, end) && r.1 <= |r.0|
    ensures Lo(start, end) != Hi(start, end) ==> r.1 == Lo(start, end) && |r.0| == |text| - (Hi(start, end) - Lo(start, end))
    ensures Lo(start, end) == Hi(start, end) && Lo(start, end) > 0 ==> r.1 == Lo(start, end) - 1 && |r.0| == |text| - 1
    ensures Lo(start, end) == Hi(start, end) == 0 ==> r == (text, 0)
    ensures r.0 == text[..r.1] + text[if Lo(start, end) != Hi(start, end) then Hi(start, end) else Lo(start, end)..]
  {
    var a := Lo(start, end);
    var b := Hi(start, end);
    if a != b then (text[..a] + text[b..], a)
    else if a > 0 then (text[..a - 1] + text[a..], a - 1)
    else
      assert text == text[..0] + text[0..];
      (text, a)
  }

  /** `n` presses of the delete key with no selection: the `n` characters
      before the cursor go (or all of them, when there are fewer). */
  function Backspaces(text: string, cursor: nat, n: nat): (r: (string, nat))
    requires cursor <= |text|
    ensures r.1 == Max0(cursor - n) && r.1 <= |r.0|
    ensures r.0 == text[..r.1] + text[cursor..]
    decreases n
  {
    if n == 0 then
      assert text == text[..cursor] + text[cursor..];
      (text, cursor)
    else
      var once := Backspaced(text, cursor, cursor);
      var r := Backspaces(once.0, once.1, n - 1);
      assert once.0[..r.1] == text[..r.1];
      assert once.0[once.1..] == text[cursor..];
      r
  }

  /** Deleting right after typing one character restores the text and the
      cursor. */
  lemma BackspaceUndoesKey(text: string, cursor: nat, c: char)
    requires cursor <= |text|
    ensures var typed := Inserted(text, cursor, cursor, [c]);
            Backspaced(typed.0, typed.1, typed.1) == (text, cursor)
  {
    var typed := Inserted(text, cursor, cursor, [c]);
    assert typed.0 == text[..cursor] + [c] + text[cursor..];
    assert typed.0[..cursor] + typed.0[cursor + 1..] == text;
  }

  /** As many deletes as the inserted fragment is long undo an insertion,
      except for the selection it replaced, which stays deleted. */
  lemma BackspacesUndoInsert(text: string, start: int, end: int, fragment: string)
    requires InField(text, start, end)
    ensures var ins := Inserted(text, start, end, fragment);
            Backspaces(ins.0, ins.1, |fragment|) == (text[..Lo(start, end)] + text[Hi(start, end)..], Lo(start, end))
  {
    var a := Lo(start, end);
    var ins := Inserted(text, start, end, fragment);
    assert ins.0[..a] == text[..a];
  }

  /** Typing over a selection is deleting it and then typing at its start. */
  lemma InsertOverSelection(text: string, start: int, end: int, fragment: string)
    requires InField(text, start, end) && Lo(start, end) != Hi(start, end)
    ensures var cut := Backspaced(text, start, end);
            Inserted(text, start, end, fragment) == Inserted(cut.0, cut.1, cut.1, fragment)
  {
    var a := Lo(start, end);
    var cut := Backspaced(text, start, end);
    assert cut.0[..a] == text[..a];
    assert cut.0[a..] == text[Hi(start, end)..];
  }

  /** The on-screen equation field `editEdo` with its selection. */
  class EquationField {
    var text: string
    var selectionStart: int
    var selectionEnd: int

    predicate Valid()
      reads this
    {
      InField(text, selectionStart, selectionEnd)
    }

    constructor ()
      ensures Valid() && text == [] && selectionStart == 0 && selectionEnd == 0
    {
      text := [];
      selectionStart := 0;
      selectionEnd := 0;
    }

    /** `insertAtCursor`: replace the selection by `fragment` and put the
        cursor after it. */
    method InsertAtCursor(fragment: string)
      requires Valid()
      modifies this
      ensures Valid()
      ensures (text, selectionStart) == Inserted(old(text), old(selectionStart), old(selectionEnd), fragment)
      ensures selectionEnd == selectionStart
    {
      var start := if selectionStart < 0 then 0 else selectionStart;
      var end := if selectionEnd < 0 then 0 else selectionEnd;
      var a := if start <= end then start else end;
      var b := if start <= end then end else start;
      text := text[..a] + fragment + text[b..];
      selectionStart := a + |fragment|;
      selectionEnd := a + |fragment|;
    }

    /** `backspace`: delete the selection, or else the character before the
        cursor. */
    method Backspace()
      requires Valid()
      modifies this
      ensures Valid()
      ensures text == Backspaced(old(text), old(selectionStart), old(selectionEnd)).0
      ensures old(Hi(selectionStart, selectionEnd)) > 0 ==>
                selectionStart == selectionEnd == Backspaced(old(text), old(selectionStart), old(selectionEnd)).1
      ensures old(Hi(selectionStart, selectionEnd)) == 0 ==>
                selectionStart == old(selectionStart) && selectionEnd == old(selectionEnd)
    {
      var start := if selectionStart < 0 then 0 else selectionStart;
      var end := if selectionEnd < 0 then 0 else selectionEnd;
      var a := if start <= end then start else end;
      var b := if start <= end then end else start;
      if a != b {
        text := text[..a] + text[b..];
        selectionStart := a;
        selectionEnd := a;
        return;
      }
      if a > 0 {
        text := text[..a - 1] + text[a..];
        selectionStart := a - 1;
        selectionEnd := a - 1;
      }
    }
  }
}
