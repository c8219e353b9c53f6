# QR-Generator line editor and session, in Dafny

This project models `Asterisk.py`, a terminal tool that reads multiline text
and turns it into a QR code. The model covers three parts of the program:

- **The line editor `curses_input`** (module `LineEditor`). It is a loop that
  reads key codes and keeps four variables: `text_lines` (the completed
  lines), `current_line`, `cursor_x` and `cursor_y`. The class
  `LineEditor.Editor` has these four as fields, and its method `HandleKey` is
  one pass of the loop body. The pure function `LineEditor.Step` specifies
  that pass, and `HandleKey` is proved equal to it. `LineEditor.CursesInput`
  is the loop. It feeds a given key sequence to an `Editor` and is proved
  equal to the function `LineEditor.Edit` over the whole sequence.
- **The decisions of `main`** (module `Session`). These are the prompts
  shown, the terminal preview, the format check, the colour defaults, the
  output path and the overwrite confirmation. They are modelled as a pure
  function of the edited text, the prompt answers and the set of paths that
  already exist.
- **The terminal rendering in `display_qr_in_terminal`** (module `Render`).
  Each row of a given boolean module matrix becomes one line, with two full
  blocks for a dark module and two spaces for a light one.

The module `Text` models the Python string built-ins these parts use:
`str.strip`, `str.lower` and `"\n".join`. It also defines `str.split("\n")`,
which the program does not call, as the inverse used to state that the join
loses nothing. Whitespace is
Python's full `str.isspace` set. Lower-casing covers only the ASCII letters.

Key codes are integers. The four curses constants take their ncurses values:
`KEY_BACKSPACE` = 263, `KEY_ENTER` = 343, `KEY_LEFT` = 260 and
`KEY_RIGHT` = 261. Ctrl+G is 7, Delete is 127, and line feed and carriage
return are 10 and 13.

Three behaviours of the code are easy to misread:

- The editor's return value is not trimmed. `main` trims it
  (`Asterisk.py:77`), and `Session.Run` does the same.
- An unrecognised key is not ignored. The loop's last branch inserts
  `chr(key)` at the cursor. This also happens to Left at column 0 and to
  Right at the end of the line (`Asterisk.py:37-46`).
- Backspace at column 0 does not join the current line onto the previous
  one. It throws the current line away and makes the previous line current
  again. `text_lines[:cursor_y]` still holds that line, so after Ctrl+G the
  line appears twice (`Asterisk.py:27-31`). `LineEditor.BackspaceMerge`,
  `LineEditor.MergeDiscardsCurrentLine` and
  `LineEditor.ReclaimedLineReturnedTwice` state this behaviour.

## Model

| member | source | states |
|---|---|---|
| `LineEditor.Step` | Asterisk.py:21-48 | The loop invariant is kept: the cursor column stays between 0 and the line length, the row stays at least 1, and there are `y - 1` or `y` completed lines, so the merge's `text_lines[cursor_y - 1]` is always in range. The loop ends exactly on Ctrl+G. No key puts a newline into any line. |
| `LineEditor.Editor.constructor` | Asterisk.py:13-15 | The editor starts with no completed lines, an empty current line, column 0 and row 1, and that start state satisfies the invariant. |
| `LineEditor.Editor.HandleKey` | Asterisk.py:21-48 | The new fields equal `Step` applied to the old ones, so the invariant is kept. `done` is true exactly on Ctrl+G. Then `textLines` holds the final lines with the current line appended, and the current line and both cursor fields are unchanged. |
| `LineEditor.Insert` | Asterisk.py:45-46 | The character `chr(key)` goes in at the cursor column: the text before the cursor is unchanged, the text after it moves right by one, and the cursor advances by one. The completed lines and the row are unchanged. |
| `LineEditor.Edit` | Asterisk.py:17-43 | Over a key sequence, the editor returns lines exactly when the sequence contains Ctrl+G, and it then returns at least one line. |
| `LineEditor.CursesInput` | Asterisk.py:9-50 | Driving an `Editor` key by key returns exactly `EditedText(keys)`, the join of `Edit`'s lines. The result is None when the keys run out before Ctrl+G. |
| `LineEditor.EditedText` | Asterisk.py:41-50 | `curses_input` returns text exactly when a Ctrl+G arrives among the keys. |
| `LineEditor.InsertThenBackspace` | Asterisk.py:22-46 | Inserting a character at the cursor and then pressing Backspace (either code) restores the prior state exactly, including the current line and the cursor column. |
| `LineEditor.BackspaceAtOrigin` | Asterisk.py:21-31 | Backspace at column 0 of row 1 changes nothing. |
| `LineEditor.BackspaceMerge` | Asterisk.py:27-31 | Backspace at column 0 below row 1 moves the row up by one and makes the previous completed line current, with the cursor at its end. It cuts the completed lines to their first `y - 1`, and the reclaimed line stays as the last of them. |
| `LineEditor.MergeDiscardsCurrentLine` | Asterisk.py:27-31 | The merge result does not depend on the current line, so what was typed on the line is lost. |
| `LineEditor.LeftArrow` | Asterisk.py:37-46 | Left only decrements the column when it is above 0. At column 0 it inserts `chr(KEY_LEFT)` and advances the cursor. |
| `LineEditor.RightArrow` | Asterisk.py:39-46 | Right only increments the column when it is below the line length. At the end of the line it inserts `chr(KEY_RIGHT)` and advances the cursor. |
| `LineEditor.OtherKeysInsert` | Asterisk.py:44-46 | Every key that matches no earlier branch is inserted as `chr(key)` at the cursor, and the cursor advances by one. |
| `LineEditor.EnterCompletesLine` | Asterisk.py:32-36 | `KEY_ENTER`, 10 and 13 append the current line to the completed lines, clear the current line, move to the next row and reset the column to 0. |
| `LineEditor.KeysAfterCtrlGIgnored` | Asterisk.py:41-43 | The loop stops at the first Ctrl+G. Keys after it, whatever their codes, are never read and do not change the result. |
| `LineEditor.EditedLinesClean` | Asterisk.py:32-46 | Starting from lines without a newline, no line the editor returns contains `'\n'`, because codes 10 and 13 are always handled as Enter. |
| `LineEditor.EditedTextSplitsBack` | Asterisk.py:41-50 | Splitting the returned `"\n".join(text_lines)` on `'\n'` gives back exactly the final lines. |
| `LineEditor.ReclaimedLineReturnedTwice` | Asterisk.py:27-50 | The keys `a`, Enter, Delete, Ctrl+G return `"a\na"`, so the reclaimed line appears twice. |
| `Text.StripLeft` | Asterisk.py:77 | `lstrip` returns a suffix of its input that does not start with whitespace. |
| `Text.StripRight` | Asterisk.py:77 | `rstrip` returns a prefix of its input that does not end with whitespace. |
| `Text.Strip` | Asterisk.py:77 | `strip` never lengthens its input, and its result neither starts nor ends with whitespace. |
| `Text.StripLeftSpec` | Asterisk.py:77 | Everything `lstrip` removes is whitespace, and what it keeps does not start with whitespace. |
| `Text.StripRightSpec` | Asterisk.py:77 | Everything `rstrip` removes is whitespace, and what it keeps does not end with whitespace. |
| `Text.StripSpec` | Asterisk.py:77 | `strip` returns a contiguous part of its input. Everything before and after that part is whitespace, and the result neither starts nor ends with whitespace. |
| `Text.StripBlank` | Asterisk.py:77-79 | The stripped text is empty exactly when every character is whitespace. |
| `Text.StripIdempotent` | Asterisk.py:77 | Stripping a second time changes nothing. |
| `Text.Lower` | Asterisk.py:84-107 | `lower` keeps the length, turns each of `A`-`Z` into its lower-case letter, leaves no upper-case ASCII letter, and keeps every other character as it is, so a format answered `"PNG"` reads as `"png"`. |
| `Text.Normalize` | Asterisk.py:84-107 | An answer read with `.strip().lower()` is as long as the stripped answer, and it equals `"y"` exactly when the stripped answer is `"y"` or `"Y"`. |
| `Text.Join` | Asterisk.py:50 | `"\n".join` of one line is that line, and the first line always starts the joined text. |
| `Text.SplitJoin` | Asterisk.py:50 | Splitting on `'\n'` inverts `"\n".join` on a non-empty list of lines that hold no newline. |
| `Text.JoinSplit` | Asterisk.py:50 | `"\n".join` inverts splitting on `'\n'` for every string. |
| `Text.Split` | Asterisk.py:50 | Splitting on `'\n'` gives at least one piece, and no piece contains a newline. |
| `Session.Read` | Asterisk.py:84-107 | The display, save and overwrite answers read as yes exactly when the stripped answer is `"y"` or `"Y"`. |
| `Session.Decide` | Asterisk.py:79-113 | The text passed on is the stripped text. The code is shown exactly when that text is not empty and the display reply is `"y"`. A save goes to the base name, a dot and the format. |
| `Session.Run` | Asterisk.py:77-113 | A run hands the stripped edited text to the QR steps. A save goes to the stripped name, a dot and the stripped, lower-cased format. |
| `Session.PromptsInOrder` | Asterisk.py:84-110 | The prompts a run shows are always a prefix of the fixed order: display, save, format, fill colour, background colour, file name, overwrite. |
| `Session.EmptyTextAbortsFirst` | Asterisk.py:79-81 | Empty text, and only empty text, ends the run before any prompt and without a preview. |
| `Session.BlankTextAbortsFirst` | Asterisk.py:77-81 | Text made only of whitespace, and only such text, ends the run with the empty-text error before any prompt. |
| `Session.ShownOnlyOnYes` | Asterisk.py:84-87 | The code is shown in the terminal exactly when the text is not blank and the stripped display answer is `"y"` or `"Y"`. |
| `Session.InvalidFormatAbortsBeforeColours` | Asterisk.py:91-95 | The run ends with the invalid-format error exactly when saving was requested and the normalised format is neither `"png"` nor `"jpg"`. In that case no colour or file-name prompt is shown. |
| `Session.SavedRequest` | Asterisk.py:91-113 | A save writes the stripped text to `base + "." + format`. Blank colours become `"black"` and `"white"`. A save happens only after a yes to saving and an accepted format. |
| `Session.SavedPathExtension` | Asterisk.py:92-103 | Every saved path ends in `.png` or `.jpg`. |
| `Session.ExistingFileNeedsConfirmation` | Asterisk.py:106-113 | An existing path is written exactly when the overwrite prompt is answered `"y"`, after that prompt is shown. The run is cancelled exactly when the path exists and the answer is anything else. |
| `Session.NewFileWrittenDirectly` | Asterisk.py:106-113 | A path that does not exist yet is saved without the overwrite prompt. |
| `Render.Cell` | Asterisk.py:70 | A module is drawn as two equal characters: full blocks exactly when it is dark, spaces when it is light. |
| `Render.RenderRow` | Asterisk.py:70 | A rendered row has exactly twice as many characters as the row has modules. |
| `Render.RenderMatrix` | Asterisk.py:69-70 | There is one output line per matrix row, and each line is that row rendered, twice as long as the row, so `RenderRowAt` gives its contents module by module. |
| `Render.RenderRowAt` | Asterisk.py:70 | Module `i` is drawn at columns `2i` and `2i + 1`: two full blocks if it is dark, two spaces if it is light. |
| `Render.ReadRenderedRow` | Asterisk.py:70 | Reading a rendered row back, pair by pair, gives the row, so the rendering loses nothing. |
| `Render.ReadRenderedMatrix` | Asterisk.py:69-70 | Every output line of a matrix reads back as its row. |

## Left out

- Terminal handling is not modelled: `stdscr.clear`, `addstr`, `move`, and the raw-mode set-up and restore of `curses.wrapper`. The model has no window size. In the program, `stdscr.move` (`Asterisk.py:18`, `26`, `48`) raises `curses.error` once the cursor row or column falls outside the terminal window, and the program then ends with that error. The model instead accepts any number of lines and any line length.
- `getch` is not modelled. The keys are a given finite sequence. When that sequence ends before Ctrl+G, the model returns None where the program would go on waiting.
- LineEditor.Step: requires every key to be a Unicode scalar value. Python's `chr` fails on negative codes and accepts lone surrogates, and a Dafny `char` cannot hold those.
- LineEditor.Editor.HandleKey: has the same Unicode scalar value requirement on its key, for the same reason.
- LineEditor.Edit: requires every key up to and including the first Ctrl+G to be a Unicode scalar value. Keys after that one are never read and may be anything.
- LineEditor.CursesInput: has the same requirement on the keys it reads, for the same reason.
- Text.Lower: maps only `A`-`Z`, not Python's full Unicode case table. The answers are only compared with `"y"`, `"png"` and `"jpg"`, and no non-ASCII character lower-cases to one of those letters, so the decisions do not depend on this. Because of the ASCII-only mapping, `Lower` and `Normalize` keep the length of their input; Python's `lower` can lengthen a string (`"\u0130".lower()` has two characters).
- QR symbol generation through `qrcode.QRCode`, `add_data`, `make` and `get_matrix` is not modelled. It is an external library, so `Render` takes the module matrix as an input.
- `create_qr_code` is not modelled: image creation, `make_image` and `img.save` are foreign calls. `Session.Run` ends in `Saved(path, fill, back)` where the program calls it, and an I/O failure while saving is not modelled.
- The `input()` prompts, `os.path.exists` and the coloured `print` messages are not modelled as I/O. The answers are given strings, and the file system is the set of paths that already exist.
- The box size, version and border arguments of the two `qrcode.QRCode` calls only configure the library, so they are left out.
