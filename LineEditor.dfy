/** The keystroke-driven line editor `curses_input`: a loop that reads key
    codes and edits a list of completed lines, the line being typed and a
    cursor, until Ctrl+G ends the input. The terminal is left out: the keys
    are a given sequence of integer codes. */
module LineEditor {
  import opened Text

  datatype Option<T> = None | Some(value: T)

  // Key codes the loop tests for. The four named ones are the ncurses values
  // of KEY_BACKSPACE, KEY_ENTER, KEY_LEFT and KEY_RIGHT.
  const KeyBackspace: int := 263
  const KeyEnter: int := 343
  const KeyLeft: int := 260
  const KeyRight: int := 261
  const CtrlG: int := 7
  const Delete: int := 127
  const LineFeed: int := 10
  const CarriageReturn: int := 13

  predicate IsBackspace(key: int) { key == KeyBackspace || key == Delete }

  predicate IsEnter(key: int) { key == KeyEnter || key == LineFeed || key == CarriageReturn }

  /** A code `chr` turns into a character: a Unicode scalar value. */
  predicate IsCodePoint(key: int) { 0 <= key < 0xD800 || 0xE000 <= key < 0x11_0000 }

  /** Every key the loop reads is a code point: the keys up to and including
      the first Ctrl+G. Keys after it are never read and may be anything. */
  predicate ReadableKeys(keys: seq<int>) {
    keys == [] || (IsCodePoint(keys[0]) && (keys[0] == CtrlG || ReadableKeys(keys[1..])))
  }

  /** The loop's variables: `text_lines`, `current_line`, `cursor_x`, `cursor_y`. */
  datatype EditorState = EditorState(lines: seq<string>, current: string, x: int, y: int)

  /** What one key does: the loop goes on with a new state, or Ctrl+G ends
      it with the lines to be joined. */
  datatype Reaction = Continue(next: EditorState) | Finish(finalLines: seq<string>)

  /** The state before the first key. */
  const Start: EditorState := EditorState([], "", 0, 1)

  /** The loop invariant: the cursor stays within the line, the row is at
      least 1, and there are `y - 1` completed lines (before any merge) or
      `y` of them (once a merge has kept the reclaimed line). */
  predicate Wf(s: EditorState) {
    && 0 <= s.x <= |s.current|
    && 1 <= s.y
    && (|s.lines| == s.y - 1 || |s.lines| == s.y)
  }

  /** No line, completed or current, holds a newline. */
  predicate Clean(s: EditorState) {
    && '\n' !in s.current
    && forall k :: 0 <= k < |s.lines| ==> '\n' !in s.lines[k]
  }

  /** `key` matches none of the branches before the last one, so it is
      inserted as a character: not Backspace, not Enter, not Ctrl+G, and an
      arrow only when it cannot move the cursor. */
  predicate FallsThrough(s: EditorState, key: int) {
    && !IsBackspace(key)
    && !IsEnter(key)
    && !(key == KeyLeft && s.x > 0)
    && !(key == KeyRight && s.x < |s.current|)
    && key != CtrlG
  }

  /** The state after inserting the character with code `key` at the cursor. */
  function Insert(s: EditorState, key: int): (t: EditorState)
    requires 0 <= s.x <= |s.current| && IsCodePoint(key)
    ensures |t.current| == |s.current| + 1 && t.x == s.x + 1
    ensures t.current[s.x] == key as char
    ensures t.current[..s.x] == s.current[..s.x] && t.current[s.x + 1..] == s.current[s.x..]
    ensures t.lines == s.lines && t.y == s.y
  {
    s.(current := s.current[..s.x] + [key as char] + s.current[s.x..], x := s.x + 1)
  }

  /** One pass of the loop body on `key`. The merge branch indexes
      `lines[y - 2]`, which `Wf` keeps in range. */
  function Step(s: EditorState, key: int): (r: Reaction)
    requires Wf(s) && IsCodePoint(key)
    ensures r.Continue? ==> Wf(r.next)
    ensures r.Finish? <==> key == CtrlG
    ensures Clean(s) && r.Continue? ==> Clean(r.next)
    ensures Clean(s) && r.Finish? ==> forall k :: 0 <= k < |r.finalLines| ==> '\n' !in r.finalLines[k]
  {
    if IsBackspace(key) then
      if s.x > 0 then
        Continue(s.(current := s.current[..s.x - 1] + s.current[s.x..], x := s.x - 1))
      else if s.y > 1 then
        var y := s.y - 1;
        var line := s.lines[y - 1];
        Continue(EditorState(s.lines[..y], line, |line|, y))
      else
        Continue(s)
    else if IsEnter(key) then
      Continue(EditorState(s.lines + [s.current], "", 0, s.y + 1))
    else if key == KeyLeft && s.x > 0 then
      Continue(s.(x := s.x - 1))
    else if key == KeyRight && s.x < |s.current| then
      Continue(s.(x := s.x + 1))
    else if key == CtrlG then
      Finish(s.lines + [s.current])
    else
      assert key != LineFeed;
      Continue(Insert(s, key))
  }

  /** The lines the loop ends with, or None while no Ctrl+G has arrived. */
  function Edit(s: EditorState, keys: seq<int>): (r: Option<seq<string>>)
    requires Wf(s) && ReadableKeys(keys)
    ensures r.Some? <==> CtrlG in keys
    ensures r.Some? ==> |r.value| >= 1
    decreases |keys|
  {
    if keys == [] then None
    else
      match Step(s, keys[0])
      case Finish(lines) => Some(lines)
      case Continue(next) =>
        assert keys == [keys[0]] + keys[1..];
        Edit(next, keys[1..])
  }

  /** What `curses_input` returns for `keys`: the final lines joined with newlines. */
  function EditedText(keys: seq<int>): (t: Option<string>)
    requires ReadableKeys(keys)
    ensures t.Some? <==> CtrlG in keys
  {
    match Edit(Start, keys)
    case None => None
    case Some(lines) => Some(Join(lines))
  }

  /** The editor object: the loop's four variables as fields. */
  class Editor {
    var textLines: seq<string>
    var currentLine: string
    var cursorX: int
    var cursorY: int

    function State(): EditorState
      reads this
    {
      EditorState(textLines, currentLine, cursorX, cursorY)
    }

    predicate Valid()
      reads this
    {
      Wf(State())
    }

    /** The set-up before the loop. */
    constructor ()
      ensures State() == Start && Valid()
    {
      textLines := [];
      currentLine := "";
      cursorX, cursorY := 0, 1;
    }

    /** One pass of the loop body; `done` is the `break` on Ctrl+G, after
        which `textLines` holds the final lines. */
    method HandleKey(key: int) returns (done: bool)
      requires Valid() && IsCodePoint(key)
      modifies this
      ensures done == Step(old(State()), key).Finish?
      ensures !done ==> Valid() && State() == Step(old(State()), key).next
      ensures done ==> textLines == Step(old(State()), key).finalLines
      ensures done ==> currentLine == old(currentLine) && cursorX == old(cursorX) && cursorY == old(cursorY)
    {
      done := false;
      if key == KeyBackspace || key == Delete {
        if cursorX > 0 {
          currentLine := currentLine[..cursorX - 1] + currentLine[cursorX..];
          cursorX := cursorX - 1;
        } else if cursorY > 1 {
          cursorY := cursorY - 1;
          currentLine := textLines[cursorY - 1];
          textLines := textLines[..cursorY];
          cursorX := |currentLine|;
        }
      } else if key == KeyEnter || key == LineFeed || key == CarriageReturn {
        textLines := textLines + [currentLine];
        currentLine := "";
        cursorY := cursorY + 1;
        cursorX := 0;
      } else if key == KeyLeft && cursorX > 0 {
        cursorX := cursorX - 1;
      } else if key == KeyRight && cursorX < |currentLine| {
        cursorX := cursorX + 1;
      } else if key == CtrlG {
        textLines := textLines + [currentLine];
        done := true;
      } else {
        currentLine := currentLine[..cursorX] + [key as char] + currentLine[cursorX..];
        cursorX := cursorX + 1;
      }
    }
  }

  /** `curses_input` fed with `keys`: None when the keys run out before Ctrl+G. */
  method CursesInput(keys: seq<int>) returns (text: Option<string>)
    requires ReadableKeys(keys)
    ensures text == EditedText(keys)
  {
    var editor := new Editor();
    var i := 0;
    while i < |keys|
      invariant 0 <= i <= |keys|
      invariant editor.Valid()
      invariant ReadableKeys(keys[i..])
      invariant Edit(Start, keys) == Edit(editor.State(), keys[i..])
    {
      var done := editor.HandleKey(keys[i]);
      assert keys[i..][0] == keys[i] && keys[i..][1..] == keys[i + 1..];
      if done {
        text := Some(Join(editor.textLines));
        return;
      }
      i := i + 1;
    }
    text := None;
  }

  // ---------------------------------------------------------------------
  // Properties of single keys

  /** Inserting a character and then pressing Backspace restores the state. */
  lemma InsertThenBackspace(s: EditorState, key: int, backspace: int)
    requires Wf(s) && IsCodePoint(key) && FallsThrough(s, key)
    requires IsBackspace(backspace)
    ensures Step(s, key) == Continue(Insert(s, key))
    ensures Step(Insert(s, key), backspace) == Continue(s)
  {
  }

  /** Backspace at column 0 of row 1 changes nothing. */
  lemma BackspaceAtOrigin(s: EditorState, backspace: int)
    requires Wf(s) && s.x == 0 && s.y == 1 && IsBackspace(backspace)
    ensures Step(s, backspace) == Continue(s)
  {
  }

  /** Backspace at column 0 below row 1 reclaims the previous line: the row
      goes up, the reclaimed line becomes the current line with the cursor
      at its end, and the completed lines are cut to the first `y - 1`, so
      the reclaimed line is still the last of them. */
  lemma BackspaceMerge(s: EditorState, backspace: int)
    requires Wf(s) && s.x == 0 && s.y > 1 && IsBackspace(backspace)
    ensures Step(s, backspace).Continue?
    ensures var n := Step(s, backspace).next;
      && n.y == s.y - 1
      && n.current == s.lines[s.y - 2]
      && n.x == |n.current|
      && n.lines == s.lines[..s.y - 1]
      && |n.lines| == n.y
      && n.lines[n.y - 1] == n.current
  {
  }

  /** The merge ignores the line being typed: two states that differ only
      in their current line (both with the cursor at column 0) merge to the
      same state, so whatever was typed is lost. */
  lemma MergeDiscardsCurrentLine(s: EditorState, other: string, backspace: int)
    requires Wf(s) && s.x == 0 && s.y > 1 && IsBackspace(backspace)
    ensures Step(s, backspace) == Step(s.(current := other), backspace)
  {
  }

  /** Left moves the cursor back only from a column above 0; at column 0 the
      key code is inserted as a character. */
  lemma LeftArrow(s: EditorState)
    requires Wf(s)
    ensures s.x > 0 ==> Step(s, KeyLeft) == Continue(s.(x := s.x - 1))
    ensures s.x == 0 ==> Step(s, KeyLeft) == Continue(Insert(s, KeyLeft))
  {
  }

  /** Right moves the cursor on only from a column before the line's end; at
      the end the key code is inserted as a character. */
  lemma RightArrow(s: EditorState)
    requires Wf(s)
    ensures s.x < |s.current| ==> Step(s, KeyRight) == Continue(s.(x := s.x + 1))
    ensures s.x == |s.current| ==> Step(s, KeyRight) == Continue(Insert(s, KeyRight))
  {
  }

  /** Every key that falls through is inserted at the cursor. */
  lemma OtherKeysInsert(s: EditorState, key: int)
    requires Wf(s) && IsCodePoint(key) && FallsThrough(s, key)
    ensures Step(s, key) == Continue(Insert(s, key))
  {
  }

  /** Codes 10 and 13 and KEY_ENTER complete the current line. */
  lemma EnterCompletesLine(s: EditorState, key: int)
    requires Wf(s) && IsEnter(key)
    ensures Step(s, key) == Continue(EditorState(s.lines + [s.current], "", 0, s.y + 1))
  {
  }

  // ---------------------------------------------------------------------
  // Properties of whole key sequences

  /** Keys after the first Ctrl+G are never read. */
  lemma {:induction false} KeysAfterCtrlGIgnored(s: EditorState, before: seq<int>, after: seq<int>)
    requires Wf(s) && ReadableKeys(before)
    requires CtrlG !in before
    ensures ReadableKeys(before + [CtrlG]) && ReadableKeys(before + [CtrlG] + after)
    ensures Edit(s, before + [CtrlG] + after) == Edit(s, before + [CtrlG])
    decreases |before|
  {
    var keys := before + [CtrlG] + after;
    if before == [] {
      assert keys[0] == CtrlG && (before + [CtrlG])[0] == CtrlG;
    } else {
      assert keys[0] == before[0] && (before + [CtrlG])[0] == before[0];
      match Step(s, before[0])
      case Finish(_) =>
      case Continue(next) =>
        assert keys[1..] == before[1..] + [CtrlG] + after;
        assert (before + [CtrlG])[1..] == before[1..] + [CtrlG];
        KeysAfterCtrlGIgnored(next, before[1..], after);
    }
  }

  /** The lines the editor ends with hold no newline. */
  lemma {:induction false} EditedLinesClean(s: EditorState, keys: seq<int>)
    requires Wf(s) && Clean(s) && ReadableKeys(keys)
    ensures Edit(s, keys).Some? ==>
      forall k :: 0 <= k < |Edit(s, keys).value| ==> '\n' !in Edit(s, keys).value[k]
    decreases |keys|
  {
    if keys != [] {
      match Step(s, keys[0])
      case Finish(_) =>
      case Continue(next) =>
        EditedLinesClean(next, keys[1..]);
    }
  }

  /** Splitting the returned text on newlines gives back exactly the final
      lines. */
  lemma EditedTextSplitsBack(keys: seq<int>)
    requires ReadableKeys(keys)
    ensures EditedText(keys).Some? ==> Split(EditedText(keys).value) == Edit(Start, keys).value
  {
    if Edit(Start, keys).Some? {
      EditedLinesClean(Start, keys);
      SplitJoin(Edit(Start, keys).value);
    }
  }

  /** Backspace at the start of a completed line keeps the reclaimed line,
      so it is returned twice: "a", Enter, Backspace, Ctrl+G gives "a\na". */
  lemma ReclaimedLineReturnedTwice()
    ensures ReadableKeys([97, LineFeed, Delete, CtrlG])
    ensures EditedText([97, LineFeed, Delete, CtrlG]) == Some("a\na")
  {
    var keys := [97, LineFeed, Delete, CtrlG];
    var s1 := EditorState([], "a", 1, 1);
    var s2 := EditorState(["a"], "", 0, 2);
    var s3 := EditorState(["a"], "a", 1, 1);
    assert Step(Start, 97) == Continue(s1);
    assert Step(s1, LineFeed) == Continue(s2);
    assert Step(s2, Delete) == Continue(s3);
    assert Step(s3, CtrlG) == Finish(["a", "a"]);
    assert keys[1..] == [LineFeed, Delete, CtrlG];
    assert keys[1..][1..] == [Delete, CtrlG];
    assert keys[1..][1..][1..] == [CtrlG];
    assert Edit(s3, [CtrlG]) == Some(["a", "a"]);
    assert Edit(s2, [Delete, CtrlG]) == Some(["a", "a"]);
    assert Edit(s1, [LineFeed, Delete, CtrlG]) == Some(["a", "a"]);
    assert Edit(Start, keys) == Some(["a", "a"]);
    assert Join(["a", "a"]) == "a" + "\n" + "a" == "a\na";
  }
}
