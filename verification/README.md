# Verified model of the readline editing core

This project models, in Dafny, the in-memory machines at the centre of the
readline library: the inputrc key notation and its line reader, the shell word
splitter, the line buffer with its cursor, selection and word motions, undo and
history walking, the registers and the kill ring, the completion menu, and key
dispatch. Objects that the library updates in place are classes here; each of
their methods is proved against a function of the old state, and the theorems
are about those functions, over every input or every run.

Text is a Dafny `string`, a sequence of Unicode scalar values. Everything the
library takes from outside is a parameter, so the results hold whatever it says:
the character tables of Go's `unicode` package above 7 bits (`Unicode.Tables`),
display widths (`Coordinates.Terminal`), grapheme clusters and UTF-8 decoding
(`Dispatch.Keys`), and the removal of terminal escapes from a candidate
(`CompletionEngine.Engine.strip`).

`dafny verify dfyconfig.toml` checks the whole project.

## Map of the files

| files | component |
|---|---|
| `Basics.dfy`, `Unicode.dfy`, `Inputrc.dfy`, `Escapes.dfy`, `BindLines.dfy`, `SetLines.dfy`, `KeyNames.dfy`, `Macros.dfy` | printing, decoding and reading key bindings and variables; keyboard macros |
| `ShellWords.dfy`, `Quoting.dfy`, `QuoteScan.dfy` | shell words and unclosed quotes |
| `Text.dfy`, `Core.dfy`, `VerticalMotion.dfy`, `Tokens.dfy`, `WordShapes.dfy`, `Coordinates.dfy` | line, cursor, motions by line and by word, screen coordinates |
| `Selections.dfy`, `Registers.dfy`, `KillYank.dfy` | selection, registers, kill and yank commands |
| `History.dfy`, `UndoLists.dfy`, `Navigation.dfy` | saving, undo, redo, revert, walking the history |
| `Grids.dfy`, `Menus.dfy`, `Insertions.dfy`, `CompletionEngine.dfy` | candidate grids, menu cycling, the candidate in the line |
| `KeyMatching.dfy`, `Dispatch.dfy` | matching keys against binds, the key stack |

## Where the code differs from what is said of it

The model follows the code. The theorems below give the exact condition under
which the promise holds, or an input on which it fails.

- A printed key sequence is not always read back: `\C-\` followed by `M-`, and
  its meta counterpart followed by `C-`, turn into the prefix of a control-meta
  key, and the two hexadecimal forms use up one character too few
  (inputrc/parse.go:664-669). `Inputrc.Decodable` and `BindLines.Readable` are
  the exact conditions, `Inputrc.ClashLost` is an instance; `Escapes.HexEscape`
  says what a hexadecimal form is read as.
- `Control-?` is read as the code 0x1f, but the same key in quoted notation,
  `"\C-?"`, as DEL (inputrc/parse.go:587-588, 686-691,
  `KeyNames.ControlQuestionMark`). A key name of one character is read as no key
  at all (inputrc/parse.go:534-538, `KeyNames.OneRuneKeyLost`).
- The keys of a macro are fed as single bytes, so that a key beyond 7 bits is
  not fed as its UTF-8 bytes (internal/core/keys.go:128-141,
  `Dispatch.TruncatedExactly`).
- A command name of one character is read as empty (inputrc/parse.go:496-502,
  `BindLines.OneRuneCommandLost`).
- A variable that dump-variables prints is not always read back: the first
  character of a value is taken for a quote, so that `none` is read as `non`
  (inputrc/parse.go:205-210). `SetLines.SetLineRoundTrip` is exact.
- `set name` without a value runs past the end of the line
  (inputrc/parse.go:205-214); the reader's outcome is then `OutOfRange`.
  `SetLines.OutOfRangeExactly` says on which lines, `SetLines.SetWithoutValue`
  gives one.
- Word motions add byte lengths to rune positions. Going back is right from
  every position exactly when the line is one-byte from its second token on
  (`Tokens.BackwardIsExact`), going forward exactly when no token but the last
  has a wide character after its first and the last token is not too wide
  (`Tokens.ForwardIsExact`); there and back comes back exactly when the line is
  one token or one-byte after its first character (`Tokens.ForwardThenBackward`).
  `Tokens.BackwardOvershoots` and `Tokens.ForwardOvershoots` are instances.
- `kill-line` on a newline is documented to take the newline (emacs.go:861-862);
  it never takes one, and on a newline it kills nothing
  (`KillYank.KillLineStops`, `KillYank.NewlineNotKilled`).
- A write to a numbered register is dropped, since the test on the parsed number
  also asks for a parse error (internal/editor/buffers.go:172-173);
  `Registers.Buffers.WriteThenRead` says which registers keep what is written,
  `Registers.DigitLost` is an instance.
- Saving a new text after undos drops one state more than were undone; saving
  the text that undo shows drops exactly those (`UndoLists.SaveOfNewText`,
  `UndoLists.SaveDropsUndone`).
- Redo after undo does not always come back: undo skips states with equal
  neighbours, redo does not (`UndoLists.RedoInvertsUndo` is exact,
  `Navigation.RedoEndsShort` a run that shows it, `UndoLists.SaveMakesNeighboursAlike`
  how such states arise).
- The command for the end of the history walks down by the number of lines less
  one, wherever it starts (history.go:118-126). A walk that overshoots the input
  buffer stays on the history line and takes it for the input, whose own text
  the next save overwrites (`Navigation.WalkOvershoots`, an instance is
  `Navigation.EndOfHistoryOvershoots`); any other walk lands where it should
  (`Navigation.WalkLands`).
- `Redo` moves its position below zero if nothing guards it
  (internal/history/undo.go:148), exactly as `UndoLists.RedoStaysInRange` says;
  the command bound to it does guard it (vim.go:1372-1380).
- Going down the columns of candidates leaves the group at the first column that
  ends short of the last row, and going up from the column after it leaves the
  group forwards (internal/completion/group.go:486-556, `Grids.MoveDown`,
  `Grids.MoveUp`).
- Completing replaces just the blank word before the cursor in exactly the cases
  of `Insertions.BlankWordReplaced`; at the start of the line it takes away the
  character under the cursor (`Insertions.CompletingAtStart`).

## Model

| member | source | states |
|---|---|---|
| Inputrc.ControlAndMetaCodes | inputrc/inputrc.go:152-179 | coding and decoding of control and meta codes invert each other on the codes that the printer writes |
| Inputrc.EscapeLoop | inputrc/inputrc.go:101-149 | the loop prints a sequence as the concatenation of the printed forms of its runes, each chosen by the rune alone |
| Inputrc.UnescapeRunes | inputrc/parse.go:621-714 | the index loop with up to six runes of lookahead decodes exactly the slice asked for, escape by escape; a text of one rune is returned whole |
| Inputrc.DecodePrinted | inputrc/parse.go:621-714 | whatever text follows, but for a clashing one with NUL as its third rune, the printed form of a rune decodes to that rune when it is faithful and does not clash, and otherwise to something whose first rune is wrong |
| Inputrc.DecodeInvertsEscape | inputrc/inputrc.go:101-149 | for every text: the printed form decodes back to it if and only if it is decodable, that is every rune is faithful and no 0x1c is followed by `M-`, no 0xdc by `C-` |
| Inputrc.UnescapeInvertsEscape | inputrc/inputrc.go:79-98 | the same for the public pair Unescape and Escape or EscapeMacro, including texts that print as a single rune |
| Inputrc.ClashLost | inputrc/parse.go:679-685 | three keys that are not read back |
| Inputrc.EscapeInjective | inputrc/inputrc.go:85-98 | two decodable sequences that print alike are equal |
| Inputrc.CutNeverDecodes | inputrc/parse.go:621-714 | printed text cut short at a quote does not decode to the runes it was printed from |
| Inputrc.OverrunNeverDecodes | inputrc/parse.go:621-714 | nor does printed text that runs on past its closing quote |
| Escapes.LetterEscape | inputrc/parse.go:633-662 | the code, by number, of each escape of a backslash and one character, whatever follows |
| Escapes.OtherEscape | inputrc/parse.go:701-704 | before any other character a backslash is dropped; a backslash at the end reads as NUL |
| Escapes.OctalEscape | inputrc/parse.go:670-678 | one to three octal digits, as many as there are, read as the number they are in base 8 |
| Escapes.HexEscape | inputrc/parse.go:664-669 | one or two hexadecimal digits read as the number they are in base 16, and then the last digit once more as itself |
| Escapes.ControlEscape | inputrc/parse.go:686-693 | the control prefix gives the five low bits of the upper-case code, DEL for a question mark |
| Escapes.MetaEscape | inputrc/parse.go:694-700 | the meta prefix sets the eighth bit; at the end it gives an escape |
| Escapes.ControlMetaEscape | inputrc/parse.go:679-685 | both prefixes in either order give an escape and the control code of the character after them, nothing at the end |
| Escapes.PrintedAs | inputrc/inputrc.go:101-149 | how each 8-bit code is printed, as a table of codes, by both printers |
| BindLines.FindNonSpace | inputrc/parse.go:488-492 | the first position from i on that holds no space, or the end |
| BindLines.FindEnd | inputrc/parse.go:496-502 | the end of the symbol at i; its first rune is not examined and a symbol of one rune ends where it starts |
| BindLines.FindStringEnd | inputrc/parse.go:505-520 | succeeds exactly when an unescaped closing quote exists, just after the first one |
| BindLines.DecodeKeyName | inputrc/parse.go:532-592 | strips modifiers in any order and number, rejects unknown ones, and gives the coded key of a key name |
| BindLines.ReadSymbolsAt | inputrc/parse.go:198-217 | name and value of a set or $ directive, with the run past the end when a set directive has no value |
| BindLines.ReadActionAt | inputrc/parse.go:161-194 | what is read after the key sequence: the missing colon, the empty action, the macro and its missing quote, the command name |
| BindLines.ReadNext | inputrc/parse.go:118-195 | for every non-blank line, the statement or the error that the line reader gives |
| BindLines.CloseAtPrinted | inputrc/parse.go:505-520 | in a line holding a printed sequence and a quote, the scanner closes at that quote if and only if the sequence is quotable |
| BindLines.QuotedReadsBack | inputrc/parse.go:505-520 | a quoted printed sequence is cut out and decoded to itself if and only if it is readable: decodable and quotable |
| BindLines.CommandReadsBack | inputrc/parse.go:161-194 | a command name after the colon is read back if and only if it has two runes or more, does not start with a quote, `#` or space, and has no space, `#` or control rune after its first |
| BindLines.BindLineRoundTrip | internal/keymap/config.go:168-179 | for every key sequence and command: the dumped line is read back as exactly that binding if and only if both are readable |
| BindLines.OneRuneCommandLost | inputrc/parse.go:161-194 | under any readable keys a command name of one character is read back as the empty name |
| BindLines.MacroLineRoundTrip | emacs.go:1531-1535 | for every key sequence and action: the dumped macro line is read back as exactly that macro if and only if both are readable |
| BindLines.OrdinaryKeysReadable | inputrc/parse.go:118-195 | faithful runes without 0x1c, 0xdc and 0xa2 are always readable |
| BindLines.CommentIgnored | inputrc/parse.go:496-502 | after a dumped binding a number sign, a blank or a control character and anything behind it change nothing of what is read |
| BindLines.OrdinaryCommandReadable | inputrc/parse.go:161-194 | two or more printable 7-bit characters without a number sign, no quote in front, are a readable command name |
| SetLines.SetLineReads | inputrc/parse.go:198-217 | what is read of any printed variable with a readable name: up to the first repetition of the value's first character, else a symbol |
| SetLines.SetLineRoundTrip | emacs.go:1488-1493 | for every name, also an empty one, and every value: the printed variable is read back as that name and value if and only if both are readable |
| SetLines.ValuesLost | emacs.go:1488-1493 | under any readable name `none` is read back as `non` and `0` as nothing |
| SetLines.OutOfRangeExactly | inputrc/parse.go:198-217 | for every line: the reader runs past its end if and only if it is a set directive with nothing but spaces after the name |
| SetLines.SetWithoutValue | inputrc/parse.go:198-217 | such a line |
| SetLines.ConstructReads | inputrc/parse.go:198-217 | a construct is read as its keyword and one symbol, or as its keyword alone |
| SetLines.ModifiersAreASet | inputrc/parse.go:532-592 | any list of modifiers before a key name counts each once in any order, and one unknown name rejects all |
| SetLines.ModifierOrder | inputrc/parse.go:532-592 | two spellings with the same modifiers, in any order, number and case, give the same key |
| KeyNames.NameReadsAsQuoted | inputrc/parse.go:532-592 | for any spelling of the modifiers, any key name and any rest of the line: it reads as the line with the key between quotes, prefixed `\C-`, `\M-` or `\C-\M-`, if and only if the key is not the question mark with control alone, or what follows is malformed |
| KeyNames.NotationDecodes | inputrc/parse.go:559-583 | each named key is what its escape stands for, `tab` what `\t`, `rubout` what `\C-?`; any other name is its first character |
| KeyNames.ModifiedCodes | inputrc/parse.go:585-592 | the codes that a line with a modified 7-bit key binds, by arithmetic: control, meta, and escape with control for both |
| KeyNames.ControlQuestionMark | inputrc/parse.go:587-588 | the two readings of the key left out there, for every rest of the line |
| KeyNames.UnknownModifierRefused | inputrc/parse.go:546-554 | a line with one unknown modifier is refused whole |
| KeyNames.OneRuneKeyLost | inputrc/parse.go:534-538 | a key name of one character before a colon is read as no key |
| Macros.ReplayIsFaithful | internal/macro/engine.go:85-125 | recording then replaying keys feeds the same keys if and only if they are decodable |
| Macros.Engine.StopRecord | internal/macro/engine.go:85-102 | the whole new state: the printed macro under its name and under the last-macro name, recording off; nothing stored when nothing was recorded |
| Macros.Engine.RunLastMacro | internal/macro/engine.go:113-125 | appends the decoded last macro to the key stack, and nothing else |
| Macros.Engine.StopThenReplay | internal/macro/engine.go:85-125 | ending a recording and calling it appends the printed and decoded recorded keys |
| ShellWords.Raw | internal/strutil/split.go:78-106 | the raw block leaves the quoting automaton in the state it has at the label jumped to, or returns a finished word |
| ShellWords.SingleQuoted | internal/strutil/split.go:124-133 | the single-quote block: automaton state at the closing quote, or the single-quote error |
| ShellWords.DoubleQuoted | internal/strutil/split.go:135-162 | the double-quote block with its restricted escapes: automaton state at the closing quote, or the double-quote error |
| ShellWords.SplitWord | internal/strutil/split.go:75-166 | returns the word and rest, or the error, that the automaton reaches, and strictly consumes input |
| ShellWords.Split | internal/strutil/split.go:37-73 | on every input: the words and the error of the one-character automaton for the quoting rules |
| ShellWords.SplitInvertsQuoting | internal/strutil/split.go:37-73 | any list of words, single-quoted, splits back into that list without error |
| Quoting.SplitInvertsWriting | internal/strutil/split.go:37-166 | for all words, each written in pieces that are bare, with backslashes, between single or double quotes or line continuations, with any blanks around and between: splitting gives the words back |
| Quoting.BackslashStays | internal/strutil/split.go:135-162 | between double quotes a backslash before any character but four and the newline is kept with it |
| Quoting.BrokenOff | internal/strutil/split.go:37-166 | any such line that breaks off in quotes or after a backslash gives the words before it and the error of that kind |
| QuoteScan.GetQuotedWordStart | internal/strutil/surround.go:139-189 | on every line: unclosed if and only if splitting fails with an unterminated quote; the position opens a quote of that kind which the rest never leaves |
| QuoteScan.OpenSinceUnique | internal/strutil/surround.go:135-138 | no other position fits that description, and the text before it splits without error |
| Core.Line.Insert | internal/core/line.go:33-48 | inserts the runes without their trailing NULs, or nothing when the position is out of the line |
| Core.Line.Cut | internal/core/line.go:72-84 | removes the checked range, the rest of the line when the end is -1 |
| Core.Line.Find | internal/core/line.go:185-213 | the nearest occurrence after or before a position, -1 if none |
| Core.Line.LineEnds | internal/core/line.go:657-669 | every newline in order, then the length |
| Core.Line.Tokenize | internal/core/line.go:419-482 | the word tokens, which `WordShapes.TokensAreTheCut` describes by their text, and the token and byte offset of the cursor |
| Core.Line.TokenizeSpace | internal/core/line.go:485-539 | the same for blank-separated tokens |
| Core.Cursor.CheckAppend | internal/core/cursor.go:322-340 | position clamped to the line, mark dropped when out of it |
| Core.Cursor.CheckCommand | internal/core/cursor.go:344-356 | position on a character, on a newline only if its line is empty |
| Core.Cursor.InsertAt | internal/core/cursor.go:104-109 | inserts at the clamped position and moves after the text as given |
| Core.Cursor.BeginningOfLine | internal/core/cursor.go:152-161 | goes to just after the newline before the cursor, as a command position |
| Core.Cursor.EndOfLineAppend | internal/core/cursor.go:184-198 | goes to the newline at or after the cursor, or to the end |
| Core.Cursor.LineIndex | internal/core/cursor.go:219-235 | the index of the line that the clamped cursor is on |
| Core.Cursor.MoveLineDown | internal/core/cursor.go:391-423 | the loop over line ends reaches the computed position on the next line |
| Core.Cursor.MoveLineUp | internal/core/cursor.go:425-462 | the backward loop over line ends reaches the computed position on the previous line |
| Core.Cursor.LineMove | internal/core/cursor.go:240-260 | for every count, the iterated single steps; nothing on a buffer of one line |
| Text.CutOutBetween | internal/core/line.go:672-692 | a cut takes out what lies between two positions in either order, up to the end when one is past it or is -1 |
| VerticalMotion.CommandOnLine | internal/core/cursor.go:344-356 | a command position stays on its line, at the column the line allows |
| VerticalMotion.StepColumn | internal/core/cursor.go:391-462 | one step lands on the next line if there is one, at column min(old column, max(1, line length)) |
| VerticalMotion.LineMoveLands | internal/core/cursor.go:240-260 | for every count, the line reached is the old line plus the count, clamped to the first and last |
| VerticalMotion.LineMoveColumn | internal/core/cursor.go:240-260 | for every count, the column reached is the least of the old one and of what each line passed or landed on has room for; on one line, or for no count, nothing moves |
| Tokens.TokensPartition | internal/core/line.go:419-539 | for both tokenizers the tokens are non-empty and concatenate to the line |
| WordShapes.ShapeIsLocal | internal/core/line.go:419-539 | a text has the shape of a token, by its runes alone, if and only if no token starts inside it |
| WordShapes.TokenIsMaximal | internal/core/line.go:419-539 | every token has that shape, a word one mark or ordinary characters at its head and then blanks, and no longer part of the line from its start has |
| WordShapes.TokensAreTheCut | internal/core/line.go:419-539 | the tokens of a line are the only parts it can be cut into so that each has the shape and loses it with the first character of the next |
| Tokens.LocationIsExact | internal/core/line.go:419-539 | the returned token and offset locate every cursor position if and only if the line has one-byte characters only |
| Tokens.ForwardLands | internal/core/line.go:360-373 | from any position of any token of any line: forward reaches the next token, or the end, if and only if the rest of the token is one-byte, or the last token has no more bytes up to there than the line has characters |
| Tokens.ForwardIsExact | internal/core/line.go:360-373 | forward is right from every position of a line if and only if all tokens but the last are one-byte after their first character and no prefix of the last one is too wide |
| Tokens.BackwardLands | internal/core/line.go:401-416 | from any position of any line: when exactly backward reaches the start of the token, or from a start the start before, wide characters at either side included |
| Tokens.BackwardIsExact | internal/core/line.go:401-416 | backward is right from every position of a line if and only if the line is one-byte from its second token on |
| Tokens.ForwardThenBackward | internal/core/line.go:360-416 | forward then backward is the identity on all token starts if and only if the line is a single token or one-byte after its first character |
| Tokens.BackwardVisitsStarts | internal/core/line.go:401-416 | n motions back from token j reach token j - n for all j and n, so that from the end every start is visited down to 0, if and only if the line is one-byte from its second token on |
| WordShapes.BackwardIsLastToken | internal/core/line.go:401-416 | on a line that is one-byte from its second token on, backward goes over the longest end of the text before the cursor that has the shape of a token |
| Tokens.BackwardOvershoots | internal/core/line.go:401-416 | a line with two-byte letters on which backward misses the start of the word |
| Tokens.ForwardOvershoots | internal/core/line.go:360-416 | a line on which forward misses the next word and backward does not return |
| Coordinates.CoordinatesLine | internal/core/line.go:323-342 | the scan over newlines gives the column of the last line and the rows of all lines |
| Coordinates.CoordinatesCursor | internal/core/cursor.go:361-389 | the scan over line ends gives the column in the cursor's line and the rows above it |
| Coordinates.EndOfBufferAgrees | internal/core/cursor.go:361-389 | with the cursor at the end of the buffer both give the same coordinates |
| Coordinates.RowMonotone | internal/core/cursor.go:361-389 | for any width monotone on prefixes and any terminal width, a cursor further right is never on a higher row, nor below the rows of the line |
| Coordinates.SpanIsWidth | internal/strutil/len.go:29-43 | full rows and column make up width and indent, and each line but the first begins a row |
| Coordinates.LinesJoin | internal/core/line.go:657-669 | the lines measured, joined by newlines, are the buffer, and none holds a newline |
| Coordinates.CursorOnItsRow | internal/core/cursor.go:361-389 | when every line is narrower than the terminal, the row is the index of the cursor's line and the column the width before it |
| Selections.PosIsProper | internal/core/selection.go:121-152 | for any stored positions Pos gives up, exactly in the listed cases, or returns 0 <= b <= e <= length |
| Selections.VisualLineIsSmallest | internal/core/selection.go:668-710 | a pending visual-line selection is the smallest run of whole lines covering mark and cursor |
| Selections.PendingBetween | internal/core/selection.go:121-152 | without whole lines a pending selection runs from mark to cursor in either order, in visual mode with the character at its far end |
| Selections.MarkedBetween | internal/core/selection.go:121-152 | the same for a marked range and its two ends |
| Selections.OneEndOnly | internal/core/selection.go:633-666 | a range with one end before the line is pending from the other end |
| Selections.SurroundsCut | internal/core/selection.go:512-541 | cutting a pair of surrounding characters leaves what they surround and what is around them |
| Selections.MatchersKept | internal/core/selection.go:608-631 | a reset keeps all matchers, no other surround, and their order |
| Selections.PosIsStable | internal/core/selection.go:121-152 | calling Pos again on the positions it stored returns the same range |
| Selections.Selection.MarkRange | internal/core/selection.go:61-72 | stores the checked range and activates, or changes nothing |
| Selections.Selection.Mark | internal/core/selection.go:50-56 | a pending selection at a position of the line, or no change |
| Selections.Selection.SelectToCursor | internal/core/selection.go:668-710 | orders mark and cursor, and in visual-line mode extends to whole lines |
| Selections.Selection.Pos | internal/core/selection.go:121-152 | returns the range that the selection functions define and keeps the checked positions |
| Selections.Selection.Text | internal/core/selection.go:235-246 | the text of that range, and the selection unchanged otherwise |
| Selections.Selection.Cut | internal/core/selection.go:512-541 | removes that range from the line, returns it and resets; with surrounds it removes those instead |
| Selections.Selection.Reset | internal/core/selection.go:608-631 | back to no selection, keeping matchers only |
| Registers.PopsReverse | internal/editor/buffers.go:111-155 | up to ten writes to any ring, then as many pops, give the texts back in reverse order and leave what was below, but for what there was no room for |
| Registers.Buffers.Perform | internal/editor/buffers.go:111-183 | over any run of writes, register writes and pops, the map of registers is the bounded stack |
| Registers.Buffers.WriteThenRead | internal/editor/buffers.go:49-183 | what is written to a selected register is read from it if and only if it is the ring or a letter outside of A to Z, any other reads as before; a capital appends to its small letter |
| Registers.DigitLost | internal/editor/buffers.go:172-176 | a text written to register 1 and not read from it |
| Registers.Buffers.GetKill | internal/editor/buffers.go:130-136 | the head of the ring, empty when there is none |
| Registers.Buffers.Get | internal/editor/buffers.go:77-98 | the digits read the ring from the newest on and nothing beyond it; other registers are lettered before read-only |
| Registers.Buffers.WriteAllThenRead | internal/editor/buffers.go:77-155 | after up to ten writes the register of digit i reads the one i writes back |
| Registers.Buffers.Active | internal/editor/buffers.go:100-108 | the selected register's text or the head of the ring, and no register selected afterwards |
| Registers.Buffers.Pop | internal/editor/buffers.go:111-127 | the shifting loop over the map removes the head of the stack and keeps the keys 0..n-1 |
| Registers.Buffers.WriteNum | internal/editor/buffers.go:232-255 | without a register, the shifting loop pushes on the front and keeps the first ten |
| Registers.Buffers.WriteAlpha | internal/editor/buffers.go:257-279 | a small letter overwrites, a capital appends to the lower-case name |
| Registers.Buffers.WriteTo | internal/editor/buffers.go:159-183 | where each kind of register name sends the text; a digit sends it nowhere |
| Registers.Buffers.Write | internal/editor/buffers.go:140-155 | an unselected write is a push, a selected one goes to its register, and empty text to neither; the ring stays within ten |
| KillYank.Shell.KillLine | emacs.go:863-879 | for any selection and register state: the undo save first, then what leaves the line, what the ring or the selected register gains, where the cursor ends |
| KillYank.KillLineStops | emacs.go:863-879 | no newline is ever killed, and nothing is if and only if the cursor is on a newline or at the end |
| KillYank.NewlineNotKilled | emacs.go:861-862 | a line on a newline of which nothing is killed |
| KillYank.Shell.BackwardKillLine | emacs.go:882-897 | the same for killing back to the beginning of the line |
| KillYank.BackwardKillStops | emacs.go:882-897 | it takes no newline and stops just after one, or at the start of the buffer |
| KillYank.Shell.BackwardKillWord | emacs.go:941-950 | the same for killing back over a word, with the save after the command skipped |
| KillYank.Shell.KillLastWord | emacs.go:941-950 | what it takes is the longest end of the text before the cursor that has the shape of a word, on any line that is one-byte from its second token on |
| KillYank.Shell.Yank | emacs.go:1003-1011 | inserts the active register as often as asked, with the cursor after it, leaves all registers alone and deselects |
| KillYank.YanksSpread | emacs.go:1003-1011 | what n yanks of any text do: each copy loses the NULs at its end, and as many characters of the line come between it and the next |
| KillYank.YanksRepeat | emacs.go:1003-1011 | n yanks of a text that does not end in NUL put n copies in a row at the cursor and leave it after the last |
| KillYank.Shell.KillLineThenYank | emacs.go:863-879 | kill-line then yank restores the line if and only if the text killed is non-empty and does not end in NUL, or nothing was killed and there is nothing to yank |
| KillYank.Shell.BackwardKillLineThenYank | emacs.go:882-897 | the same for backward-kill-line |
| KillYank.Shell.BackwardKillWordThenYank | emacs.go:941-950 | the same for backward-kill-word, on any text |
| KillYank.EditUndone | internal/history/undo.go:80-113 | a command that saves, then sets any text, with the save after it, and an undo: the old text is back if and only if the text was changed or no other was saved |
| KillYank.Shell.KillLineThenUndo | emacs.go:863-879 | kill-line then undo restores the line if and only if something was killed or no other text was saved |
| KillYank.Shell.BackwardKillLineThenUndo | emacs.go:882-897 | the same for backward-kill-line |
| KillYank.Shell.BackwardKillWordThenUndo | emacs.go:941-950 | the same for backward-kill-word and its skipped save |
| KillYank.ReinsertedText | emacs.go:1003-1011 | text cut out anywhere and inserted at the cut gives the original if and only if insertion keeps all of it |
| History.NextUndo | internal/history/undo.go:94-108 | the nearest older saved state whose text differs from the line, past the end if all are equal |
| History.Sources.GetLineHistory | internal/history/undo.go:212-232 | the states of the current line, keyed by its position, made when first needed |
| History.Sources.ResetPosition | internal/history/undo.go:177-190 | the position returns to 0 unless an undo or redo just ran; both flags are cleared |
| History.Sources.SaveLine | internal/history/undo.go:23-61 | the whole new state of a save: skipped, refreshed, or appended after dropping undone states |
| History.Sources.UndoLast | internal/history/undo.go:80-113 | the whole new state of an undo, for any saved states |
| History.Sources.RedoLast | internal/history/undo.go:139-157 | the whole new state of a redo |
| History.Sources.RevertLine | internal/history/undo.go:118-134 | the whole new state of a revert, whose saved states are dropped |
| History.Sources.RestoreLineBuffer | internal/history/undo.go:234-254 | back at the input buffer as it was last saved |
| History.Sources.SetLineCursorMatch | internal/history/sources.go:676-690 | shows a line, with the cursor kept or at the end as the option says |
| History.Sources.ShowCurrentLine | internal/history/sources.go:202-215 | shows a history line as last saved, else as the source has it |
| History.Sources.WalkLines | internal/history/sources.go:169-216 | the whole new state of a walk by any number of lines |
| UndoLists.UndoCommandEffect | internal/history/undo.go:80-113 | undo and the save after it move the position and the text only; saved states and other lines are untouched |
| UndoLists.UndoPastOldest | internal/history/undo.go:80-113 | past the oldest state an undo keeps text and position, and is the identity on a settled state |
| UndoLists.UndoConverges | internal/history/undo.go:80-134 | from any unfinished position, as many undos as states are left reach the text that revert gives, and stay there |
| UndoLists.UndoReachesRevert | internal/history/undo.go:118-134 | the exact condition under which that many undos reach revert's text, from any position |
| UndoLists.RevertLeavesOne | internal/history/undo.go:118-134 | after a revert the oldest saved text is the line and the only saved state, at position 0 |
| UndoLists.UndosAfterRevert | internal/history/undo.go:118-134 | any number of undos after a revert keep that text |
| UndoLists.CursorComesBack | internal/history/undo.go:23-157 | a change of text, an undo and a redo: the cursor comes back with each text, on a character where the state was new |
| UndoLists.PointPreserved | internal/history/sources.go:676-690 | over any run of lines shown: with the option the cursor is at the point kept from the first line wherever a line goes that far, else at its end |
| UndoLists.UndosReach | internal/history/undo.go:80-113 | k undos from the last of pairwise different neighbours show the k-th state before it |
| UndoLists.UndosStop | internal/history/undo.go:80-113 | over any saved states, which state k undos show, computed from the saved texts alone |
| UndoLists.RedoAfterUndo | internal/history/undo.go:139-157 | over any saved states, position and text, what k undos then k guarded redos show |
| UndoLists.RedoInvertsUndo | internal/history/undo.go:139-157 | from the last saved text: k undos go back over k changes of text, and k redos come on by k states, so that they end as many states short as there are equal neighbours between |
| UndoLists.RedoInvertsDistinct | internal/history/undo.go:139-157 | with different neighbours they give the text back, for every k below the number of states |
| UndoLists.SaveMakesNeighboursAlike | internal/history/undo.go:47-60 | a save after an undo can leave two equal neighbours |
| UndoLists.RedoStaysInRange | internal/history/undo.go:139-157 | an unguarded redo keeps the position from going negative if and only if it was positive or nothing was saved |
| UndoLists.RedoGoesNegative | internal/history/undo.go:139-157 | one saved state and no undo, on which it makes the position -1 |
| UndoLists.RedoCommandEffect | vim.go:1372-1380 | a redo and the save after it move one state forward and change no saved state |
| UndoLists.SaveDropsUndone | internal/history/undo.go:23-61 | over any saved states, saving the text shown after k undos drops exactly the states undone, if and only if that text is not also the last one saved or nothing was passed; otherwise none |
| UndoLists.SaveOfNewText | internal/history/undo.go:47-60 | over any saved states, saving another text after k undos also drops the state that was shown |
| Navigation.StartsAbstract | internal/history/sources.go:47-76 | the initial state meets the invariant of runs and stands for the input buffer followed by the source's lines, latest first |
| Navigation.SaveKeeps | internal/history/undo.go:23-61 | a save stores the current text last and touches no other line |
| Navigation.WalkKeeps | internal/history/sources.go:169-216 | one step up or down from a saved line shows the neighbour's own text and loses no saved state of any line |
| Navigation.ExecRefines | internal/history/sources.go:169-216 | each edit, move, undo, redo or revert, with its save, does to the array of independent texts what the reference does, and keeps the invariant |
| Navigation.RunRefines | history.go:94-103 | over any run the text shown is the one the array of N + 1 texts holds at its index, and the history position is -1 or in 1..N accordingly |
| Navigation.RedoEndsShort | internal/history/undo.go:139-157 | a run of six edits and an undo, after which two redos do not make up for two undos |
| Navigation.TypedAreSaved | internal/history/undo.go:23-61 | any run of edits, each to another text, saves the texts in order behind the states that are not undone |
| Navigation.RunShows | internal/history/undo.go:80-157 | over any run, away from the end of the undo list the text shown is the saved state it is at |
| Navigation.UndoReachesOldest | emacs.go:1326-1331 | after any run of commands from the start, as many undos as there are saved states reach the text that revert gives |
| Navigation.RevertIsFinal | emacs.go:1326-1331 | after any run of commands from the start, a revert and then any number of undos show the oldest saved text |
| Navigation.WalkLands | internal/history/sources.go:169-216 | from a saved line a walk by any number of lines lands that many on, or on the first or last, and shows that line's own text, unless it overshoots the input buffer |
| Navigation.WalkOvershoots | internal/history/sources.go:185-195 | else it stays on the history line as if it were the input, and the next save makes it so |
| Navigation.EndOfHistoryOvershoots | history.go:118-126 | the command for the end of the history, from the latest of four lines, does that |
| Navigation.MovesKeepTexts | history.go:94-103 | any run of moves changes no text, so a line come back to is as it was left |
| Navigation.UpThenDown | history.go:94-103 | k lines up and k down show the same text at the same position |
| Navigation.UpThenDownCursor | history.go:94-103 | from the input buffer they also bring its cursor back, clamped to the line |
| Grids.CreateGrid | internal/completion/group.go:627-639 | rows of one length but for the last, none empty, that hold the candidates in order |
| Grids.Group.InitGrid | internal/completion/group.go:121-138 | the candidates in order, in as many columns as the terminal has room for, every row but the last full, with the extent that the selector relies on |
| Grids.PairIsWidest | internal/completion/group.go:308-342 | the width of a column is that of the widest value and the widest description with the separator twice, and two more |
| Grids.ColumnsFit | internal/completion/group.go:121-138 | as many columns as the terminal has room for and not one more, at least one, one for a list |
| Grids.Group.MoveSelector | internal/completion/group.go:486-556 | position, done and next after a unit step, through every wrap of the imperative code |
| Grids.Group.ToFirstCell | internal/completion/group.go:593-596 | the selector on the first cell, rows unchanged |
| Grids.Group.ToLastCell | internal/completion/group.go:598-607 | the selector on the last cell of the last row, rows unchanged |
| Grids.MoveByCells | internal/completion/group.go:486-556 | over ragged rows, a step by x moves the cell index by exactly one, and is done exactly at the ends; a first use takes the first cell |
| Grids.MoveDown | internal/completion/group.go:486-556 | from every cell of rows as they are laid out: the cell below, the top of the next column, or the end of the group, which a column short of the last row is too |
| Grids.MoveUp | internal/completion/group.go:486-556 | from every cell: the cell above, the bottom of the column before, or out of the group, forwards if that column is short |
| Grids.UpUndoesDown | internal/completion/group.go:486-556 | on full rows the two undo each other, and leave the group at its last and its first cell only |
| Grids.CellIndexInjective | internal/completion/group.go:486-556 | two cells with one index are the same cell |
| Grids.CellHolds | internal/completion/group.go:472-484 | the cell at an index holds the candidate listed there |
| Menus.SeekForward | internal/completion/utils.go:198-222 | going round to the next group with candidates skips none |
| Menus.SeekBackward | internal/completion/utils.go:225-249 | going round to the previous group with candidates skips none |
| Menus.LinearInjective | internal/completion/engine.go:123-162 | no two selections of a menu have the same number |
| Menus.SelectedIsListed | internal/completion/group.go:472-484 | the selected candidate is the one listed at the selection's number among all groups |
| Menus.AdvanceByOne | internal/completion/engine.go:123-162 | for any ragged, partly empty groups, Select(1, 0) goes from number p to p + 1 and Select(-1, 0) to p - 1, modulo the total |
| Menus.SelectVisitsAll | internal/completion/engine.go:123-162 | the n-th selection is candidate p + n modulo the total: all candidates once a round, in order, with the total as period |
| Menus.SelectBackUndoes | internal/completion/engine.go:123-162 | selecting back undoes selecting on, in group and both positions, and the reverse |
| Menus.FirstSelection | internal/completion/engine.go:123-162 | the first selection of a fresh menu is the first candidate of all |
| Menus.UniqueExactly | internal/completion/utils.go:340-375 | hasUniqueCandidate holds if and only if there is one group with one candidate |
| Insertions.PrefixIs | internal/completion/utils.go:57-85 | the trimmed run before the cursor is the blank word that ends there; at cursor 0 it is the next character unless that is a blank |
| Insertions.BlankWordReplaced | internal/completion/insert.go:105-127 | for every line, cursor and candidate: completing replaces just the blank word before the cursor if and only if, at cursor 0, no word follows, and elsewhere none ends there, or it is one-byte, or it is the whole line |
| Insertions.CompletingAtStart | internal/completion/utils.go:57-85 | on every line that starts with a one-byte non-blank, completing at cursor 0 takes that character away; with an instance |
| Menus.AdvanceKeeps | internal/completion/engine.go:145-161 | any unit step in any direction leaves the menu valid and on a candidate, its rows unchanged |
| CompletionEngine.PutCandidate | internal/completion/insert.go:117-121 | moving, cutting and inserting give the line with the prefix replaced and the cursor after the candidate |
| CompletionEngine.ListedCandidate | internal/completion/group.go:472-484 | the candidate of a group is the one listed at its selector among its cells, the first if it was never used |
| CompletionEngine.ArrowsStepByRows | internal/completion/utils.go:285-306 | the arrows turn a step on or back into one down or up, other keys do not |
| CompletionEngine.Engine.CurrentGroup | internal/completion/utils.go:176-194 | the flagged group, else flags the first one with candidates; selectors untouched |
| CompletionEngine.Engine.CycleNextGroup | internal/completion/utils.go:198-222 | the recursion ends at the next group with candidates going round, with one flag set |
| CompletionEngine.Engine.CyclePreviousGroup | internal/completion/utils.go:225-249 | the same backwards |
| CompletionEngine.Engine.MoveSelection | internal/completion/engine.go:145-161 | the selector's step over the groups computes the menu step that the cycling theorems are about |
| CompletionEngine.Engine.SetPrefix | internal/completion/utils.go:57-85 | the prefix given, else the trimmed run of blanks or non-blanks before the cursor |
| CompletionEngine.Engine.PrepareSuffix | internal/completion/insert.go:162-184 | returns the candidate whole, and says when the cursor is brought into the line |
| CompletionEngine.Engine.AcceptCandidate | internal/completion/insert.go:105-127 | the real line with its prefix replaced by the current group's candidate, the first one if the group was never used; nothing without a group |
| CompletionEngine.Engine.HasUniqueCandidate | internal/completion/utils.go:340-375 | the counting loops with their early exit decide whether there is one group with one candidate |
| CompletionEngine.Engine.RefreshLine | internal/completion/insert.go:83-102 | the only candidate is accepted and the menu closed, out of an incremental search; any other is shown in a copy |
| CompletionEngine.Engine.ResetForce | internal/completion/engine.go:229-237 | the menu is closed and the line kept, or replaced by the completed line when completion was forced |
| CompletionEngine.Engine.InsertCandidate | internal/completion/insert.go:130-158 | the same replacement in a fresh copy; the real line is untouched, and nothing is shown for a candidate shorter than the prefix |
| CompletionEngine.Engine.CancelCompletedLine | internal/completion/insert.go:186-194 | the completed line equals the real line again, nothing is selected |
| CompletionEngine.Engine.Select | internal/completion/engine.go:123-162 | moves the menu as the cycling theorems say and shows the candidate in place of the prefix, the real line untouched; the only candidate of a menu is accepted instead and the menu closed |
| CompletionEngine.Engine.SelectMany | internal/completion/engine.go:123-162 | n calls from candidate number p select the value of candidate p + n modulo the total, escapes kept or stripped as its own group says, shown in place of the prefix with the real line untouched |
| CompletionEngine.Engine.SelectBelow | internal/completion/engine.go:123-162 | the down arrow selects the candidate in the next row of the same column, if there is one |
| CompletionEngine.Engine.Cancel | internal/completion/engine.go:201-222 | drops the candidate and keeps the real line, or makes the completed line the real one |
| CompletionEngine.Engine.SelectThenCancel | internal/completion/engine.go:201-222 | any number of selections that only show, by any keys, and then a cancel leave line and cursor as they were |
| CompletionEngine.Engine.InsertThenConfirm | internal/completion/insert.go:105-158 | showing a candidate and confirming it ends with the line and cursor that AcceptCandidate gives, unless the candidate is empty or ends in NUL; what it ends with then |
| CompletionEngine.ReplacedKeepsCursor | internal/completion/insert.go:105-127 | the cursor after a replacement lies in the line when the candidate does not end in NUL |
| KeyMatching.ConvertMeta | internal/strutil/key.go:7-28 | every meta code becomes an escape and the plain code, the rest is unchanged |
| KeyMatching.SequenceIsSpelled | internal/strutil/key.go:7-28 | the bytes of a bound sequence are those of its runes in order: a 7-bit code itself, an 8-bit code an escape and its low bits, any other UTF-8 |
| KeyMatching.Utf8Carries | internal/keymap/dispatch.go:179-213 | the bytes of a rune carry its code, six bits each after the first, which tells how many there are |
| KeyMatching.SameSpelling | internal/keymap/dispatch.go:179-213 | two sequences come to the same bytes only if, where they first differ, one has a meta code and the other an escape |
| KeyMatching.SortedSequences | internal/keymap/dispatch.go:183-196 | all bound sequences once each, by length and then alphabetically |
| KeyMatching.MatchBind | internal/keymap/dispatch.go:179-213 | the bind of the sequence whose runes spell exactly these keys, of several the preferred one, no bind if there is none; and whether a sequence spells more keys that start with these |
| KeyMatching.ExactOfDistinct | internal/keymap/dispatch.go:179-213 | a sequence that no other converts to the same bytes as is matched by its own bytes |
| KeyMatching.Preferred | internal/keymap/dispatch.go:179-213 | of all sequences that come to some bytes, the preferred one's bind is the one matched |
| KeyMatching.PreferredExists | internal/keymap/dispatch.go:179-213 | if any sequence comes to some bytes, one is preferred: where another first differs from it, it has the meta code |
| KeyMatching.OneKey | internal/keymap/dispatch.go:179-213 | the bind of a single rune is found by its code when 7-bit, by an escape and its low bits when 8-bit, unless these bytes are bound otherwise too |
| KeyMatching.LongestMatch | internal/keymap/dispatch.go:122-177 | for any binds and keys: the bind run is that of the longest bound prefix of all the keys there are, else the one kept before; keys are awaited if and only if every prefix of them starts a longer sequence |
| KeyMatching.KeysConsumed | internal/keymap/dispatch.go:122-177 | which keys are read, and that all but perhaps the last of them are matched |
| KeyMatching.TypedRuns | internal/keymap/dispatch.go:122-177 | a bound sequence that starts no longer one, typed with anything after it, runs its bind and uses up just its own bytes |
| KeyMatching.PiecesDoNotMatter | internal/keymap/dispatch.go:122-177 | dispatching after each piece of input ends in the same outcome as dispatching all the input at once, for any way of cutting it |
| Dispatch.Keys.PeekKey | internal/core/keys.go:113-124 | the next byte of buffer and macro keys, empty if there is none |
| Dispatch.Keys.PopKey | internal/core/keys.go:128-141 | removes exactly that byte |
| Dispatch.Keys.PopChar | internal/core/keys.go:165-177 | removes the first character, whole |
| Dispatch.Keys.MatchedKeys | internal/core/keys.go:182-192 | records the matched keys and puts the others back in front |
| Dispatch.Keys.MatchedPrefix | internal/core/keys.go:197-211 | puts all the keys back and waits for more when no others are left |
| Dispatch.TruncatedExactly | internal/core/keys.go:128-141 | macro keys are fed as their UTF-8 bytes if and only if all are 7-bit |
| Dispatch.Engine.DispatchKeys | internal/keymap/dispatch.go:99-177 | for any keys and binds: the outcome of the longest-match theorem, the keys read are taken off the stack in order; a character of several bytes inserts itself |
| Dispatch.Engine.ReadKeys | internal/keymap/dispatch.go:122-177 | the byte loop with its push-back reaches that outcome |
| Dispatch.KeyRead | internal/keymap/dispatch.go:134-172 | what one more key leads to: reading on, an exact match, or the fallback to the kept bind |
| Dispatch.Engine.MatchLocal | internal/keymap/dispatch.go:14-46 | no key is lost: matched keys and remaining keys are the old keys, and a pending prefix leaves them all; a wide macro rune is taken whole |
| Dispatch.Engine.TypeSequence | internal/keymap/dispatch.go:14-46 | a bound sequence on the key stack, with anything after it, runs its bind and leaves just what came after |
| Dispatch.Engine.TypeKey | internal/keymap/dispatch.go:14-46 | the keys escape and c - 0x80 run the bind of the 8-bit rune c, the key c that of a 7-bit one, and none is left |
| Dispatch.Engine.MatchMain | internal/keymap/dispatch.go:50-97 | a pending prefix leaves all keys; otherwise exactly the keys read are dropped; an empty stack changes nothing; a wide macro rune is taken whole |

## Left out

- CompletionEngine.Engine.ResetForce: out of the incremental search only, and without the keymap, the hint and the cached completer it also resets.
- CompletionEngine.Engine.PrepareSuffix: without the suffix matcher it stores, and so without TrimSuffix and UpdateInserted.
- CompletionEngine.Engine.SetPrefix: without the suffix side of the word under the cursor.
- Dispatch.Engine.MatchLocal: without the escape-key override and the lookup of the command for a bind; the binds of the keymap are a parameter.
- Dispatch.Engine.MatchMain: without the escape-key override, and without the self-insert that non-incremental search falls back on.
- Dispatch.Engine.DispatchKeys: for a macro rune of several bytes the keys are accounted for as runes, since the byte view of macro keys truncates it.
- KillYank.Shell.Yank: takes the number of repetitions as a parameter; the kill commands' reset of it is not modelled.
- UndoLists.RedoCommandEffect: when there is nothing to redo, the vi command's switch to insert mode is not modelled.
- BindLines.ReadNext: one line at a time; conditional directives, the values of set directives, includes and the parser's file name and line number in errors are not modelled.
- History.Sources.WalkLines: one fixed history source; cycling sources, writing lines to them and a missing source are not modelled.
- History.Sources.SaveLine: the names of commands kept for debugging are not modelled, nor is the mark of the cursor.
- Registers.Buffers.WriteAlpha: the loop over the letters of register names is a single test on the letter.
- Grids.Group.InitGrid: of the column widths only the number of columns and the widest row, which the selector uses.
- Coordinates.CoordinatesCursor: the display width of text is a parameter, tab expansion and color removal included.
- Menus.AdvanceByOne: steps along a row only; vertical steps over ragged rows skip cells, so no such law holds for them; Grids.MoveDown and Grids.MoveUp say where they go.
- Grids with aliased candidates and the wrapping of their excess columns.
- Bracket blocks (TokenizeBlock), whose scan can return early after a nested closer.
- History search, suggestions and inferred lines, incremental search, keyword switching by regular expressions.
- Reading keys, channels, locks, the terminal, display, prompt, hints and external editors.
- Integer overflow, and slices of one line shared by two `Line` values.
