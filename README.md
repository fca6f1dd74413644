# nheko message input: history, slash commands and height clamp

This project models the logic of nheko's message input box
(`src/TextInputWidget.cpp`) with the Qt plumbing stripped away:

- **Input history** (`textedit.dfy`, `history.dfy`). `FilteredTextEdit` is a
  class with the editor's text and three history fields.
  - `trueHistory` holds the submitted lines, newest first, capped at
    `INPUT_HISTORY_SIZE = 127`.
  - `workingHistory` is an editable copy with a scratch slot `""` in front.
  - `historyIndex` is the cursor into the working copy.
  - `Submit`, `TextChanged`, `KeyUp` and `KeyDown` update these fields in
    place. The object invariant `Valid()` keeps the cursor in bounds and
    ties `trueHistory` to the ghost log of every submission through
    `Recent`. `RecentNewestFirst` proves that the history is exactly the
    last `min(n, 127)` submissions, newest first.
- **Submission parsing** (`slashcommand.dfy`). Text starting with `/` is split
  into a command name (up to the first space) and arguments (after it). An
  empty name or the name `/` falls back to a plain message. Any other text is
  sent verbatim. The lemmas give both directions: what each kind of text
  parses to, and which texts produce a given command or message.
- **Command dispatch** (`commands.dfy`). `TextInputWidget::command` maps a name
  to an `Action`. The moderation commands split their arguments into a user
  (the first space-separated field) and a reason (the rest).
- **Height clamp** (`heights.dfy`). This is the handler that resizes the
  widget and its text box when the document height changes.
- **Qt string operations** (`qstring.dfy`). `QChar::isSpace`,
  `QString::trimmed`, `indexOf`, `mid`, `split` and `section` are modelled
  with Qt 5's semantics, because the cases above turn on them (`mid` past
  the end, `section` of a string without a separator).

Strings are sequences of Unicode scalar values. QString counts UTF-16 code
units instead. Every character the code searches for (`/`, space) is a
single BMP character, so both views cut a string at the same places. All
white-space characters recognised by `QChar::isSpace` are BMP characters too.

## Model

| member | source | states |
|---|---|---|
| `QtString.Trimmed` | src/TextInputWidget.cpp:381 | trimmed text is empty exactly when every character is white space; it is the slice of the text with only white space on either side, beginning and ending with a non-space |
| `QtString.IndexOf` | src/TextInputWidget.cpp:394 | the result is the first position of the character, or -1 exactly when the character does not occur |
| `QtString.MidRange` | src/TextInputWidget.cpp:397 | `mid(p, n)` inside the string is the slice of `n` characters from `p` (the command name) |
| `QtString.MidFrom` | src/TextInputWidget.cpp:398 | `mid(p)` with `p` at most the length is the suffix from `p` (the arguments) |
| `QtString.MidPastEnd` | src/TextInputWidget.cpp:398 | `mid` starting past the end is empty (arguments of a command without a space) |
| `QtString.JoinSplitFrom` | src/TextInputWidget.cpp:572 | splitting the text from any position on a separator and joining the fields back with it restores that text |
| `QtString.SectionFirstField` | src/TextInputWidget.cpp:572 | `section(' ', 0, 0)` is the text before the first space, or all of it, and holds no space |
| `QtString.SectionAfterFirst` | src/TextInputWidget.cpp:572 | `section(' ', 1, -1)` is everything after the first space, or empty when there is none |
| `InputHistory.Pushed` | src/TextInputWidget.cpp:384-386 | the new line is at the front; the old entries follow in order, and only the oldest is dropped when the history is full (127 entries) |
| `InputHistory.Recent` | src/TextInputWidget.cpp:384-386 | the history built from any sequence of submissions never exceeds 127 entries |
| `InputHistory.RecentNewestFirst` | src/TextInputWidget.cpp:384-386 | the history holds exactly the last min(n, 127) submissions, the newest at index 0 |
| `InputHistory.RecentAppend` | src/TextInputWidget.cpp:384-386 | one more submission updates the history by one bounded push |
| `SlashCommand.ParsePlain` | src/TextInputWidget.cpp:404-405 | text not starting with `/` is emitted verbatim, untrimmed, as a message |
| `SlashCommand.ParseSlash` | src/TextInputWidget.cpp:393-403 | for `/` text, the name runs up to the first space (or the end) and the args follow it; an empty name or `/` yields a message of the args, anything else a command |
| `SlashCommand.ParseCommandRoundTrip` | src/TextInputWidget.cpp:393-403 | `"/name args"` and `"/name"` parse back to that command for any accepted name |
| `SlashCommand.ParseCommandInverse` | src/TextInputWidget.cpp:393-403 | every emitted command has a non-empty, space-free name other than `/`, and the text was `"/name args"` or `"/name"` |
| `SlashCommand.ParseEscapeForms` | src/TextInputWidget.cpp:399-400 | `"/ msg"` and `"// msg"` send `msg`; `"/"` and `"//"` send an empty message |
| `SlashCommand.ParseEscapeInverse` | src/TextInputWidget.cpp:399-400 | a `/` text that becomes a message has one of those four forms |
| `Commands.ModerationSplitsArgs` | src/TextInputWidget.cpp:571-578 | invite/kick/ban/unban take a space-free user before the first space and the rest as reason; user and reason rebuild the args |
| `Commands.ModerationIsRequest` | src/TextInputWidget.cpp:571-578 | each moderation name issues the request of its own kind |
| `Commands.ModerationRequestOf` | src/TextInputWidget.cpp:572 | args `user + " " + reason` with a space-free user give back exactly that user and reason |
| `Commands.ForwardingCommands` | src/TextInputWidget.cpp:567-570 | `me` and `join` forward their args unchanged as emote and room |
| `Commands.CannedCommands` | src/TextInputWidget.cpp:579-590 | shrug, fliptable, unfliptable and sovietflip send fixed texts whatever the args; clearcache issues ClearCache |
| `Commands.UnknownCommandIgnored` | src/TextInputWidget.cpp:564-592 | a command has no effect exactly when its name is not one of the eleven recognised names |
| `Commands.SubmitModeration` | src/TextInputWidget.cpp:391-405 | submitting `"/kick user reason"` (or invite/ban/unban) with a space-free user requests exactly that user and reason |
| `Commands.SubmitPlainText` | src/TextInputWidget.cpp:404-405 | submitting text not starting with `/` sends that text |
| `Heights.HeightsFor` | src/TextInputWidget.cpp:477-481 | the widget height is the larger of document and content height capped at 120; the text box is the larger of document and input height capped at one below the widget (upper and lower bounds fix both values) |
| `Heights.HeightsMonotone` | src/TextInputWidget.cpp:477-481 | a taller document never shrinks the widget or the text box |
| `Heights.HeightsKeepMinimum` | src/TextInputWidget.cpp:477-481 | when input height < content height <= 120, neither box shrinks below its construction-time height |
| `TextEdit.FilteredTextEdit.constructor` | src/TextInputWidget.cpp:45-60 | a new editor has an empty history, working history `[""]` and index 0 |
| `TextEdit.FilteredTextEdit.TextChanged` | src/TextInputWidget.cpp:411-415 | only the working slot under the cursor changes, to the editor's text; the submitted history is untouched |
| `TextEdit.FilteredTextEdit.SetPlainText` | src/TextInputWidget.cpp:214 | replacing the text writes it into the current working slot, through textChanged |
| `TextEdit.FilteredTextEdit.Submit` | src/TextInputWidget.cpp:378-409 | blank text changes nothing and emits nothing; otherwise the text is pushed with bounded eviction, the working copy becomes `[""] + history`, the index is 0, the editor is cleared and the parsed submission is emitted |
| `TextEdit.FilteredTextEdit.KeyUp` | src/TextInputWidget.cpp:207-223 | the index grows by one exactly when the cursor stayed at the start and an older slot exists; the editor then shows that slot; the invariant keeps the index in bounds |
| `TextEdit.FilteredTextEdit.KeyDown` | src/TextInputWidget.cpp:224-239 | the index drops by one exactly when the cursor stayed at the end and the index is positive; the editor then shows that slot |

## Left out

- Widget construction, layouts, painting, `sizeHint`/`minimumSizeHint` and popup positioning (src/TextInputWidget.cpp:104-121, 354-376, 439-546, 616-655). These are UI and depend on font metrics.
- Pasting, MIME handling, file selection and upload (`canInsertFromMimeData`, `insertFromMimeData`, `showPreview`, `uploadData`, `openFileSelection`). These go through clipboard, MIME-database and filesystem APIs.
- The user search behind autocompletion (`QtConcurrent::run` and `cache::searchUsers`). It is concurrent and calls into the local cache. The local cache (`Cache.h`) is not part of this model.
- The clearcache side effects (`cache::deleteData`, `getProfileInfo`, `tryInitialSync`). That command is modelled only as the opaque `ClearCache` action.
- The typing timer and the started/stopped-typing signals. These are timer-driven UI events.
- The autocomplete anchor logic in the Tab, `@` and default branches of `keyPressEvent`. It rests on Qt's word-boundary cursor movement.
- KeyUp and KeyDown assume the suggestions popup is hidden. While it is visible, Up and Down select suggestions instead (src/TextInputWidget.cpp:147-168).
- The cursor. The conditions "cursor did not move" and "cursor at start/end" are parameters. The else branches that only move the cursor (lines 216-220, 232-236) change no modelled state.
- Enter with Shift inserts a newline instead of submitting. That is Qt text editing and is not modelled; `Submit` is the unshifted Enter and the send button.
- The font-based derivation of the content and input heights (lines 444-446) uses floating point. `HeightsFor` takes both heights as integer parameters. `setFixedHeight` and the `heightChanged` signal are not modelled.
- Heights are computed on unbounded integers. The C++ `int` arithmetic agrees because the only subtraction, `widgetHeight - 1`, is applied to a value no larger than 120 and at least min(120, contentHeight), which is positive.
- `addSelectedEmoji`, `focusInEvent` and the upload spinner. These are UI.
- src/popups/ReplyPopup.h declares a widget class with no logic.
