# Gardening assistant — a verified model of its application logic

The gardening assistant is a single-page chat application. The user talks to a
generative model about plants, uploads photos for identification, keeps
several chat sessions, sets watering reminders and lays out an 8×8 garden
grid. All of its logic sits in the main application component, `App.tsx`.
This project models the parts of that component that hold logic rather than
presentation:

- `types.dfy` (`Types`) holds the data model: chat messages with text, image
  or identification content, sessions, and JavaScript truthiness of an
  optional string.
- `text.dfy` (`Text`) covers `renderUserMessage`. It is the chain of HTML
  escapes plus the `\n` → `<br />` rewrite. It is proved equal to escaping
  each character on its own, and it is proved invertible. Beyond the
  `<br />` tags, it leaves no `<`, `>`, `"` or `'` in the output.
- `markdown.dfy` (`Markdown`) covers `renderMarkdown`, the line-by-line state
  machine with its `inList` flag. It is an imperative method with a loop,
  proved against a description of the HTML pieces it emits. Lists are proved
  well nested and always closed. The blocks are proved to correspond line by
  line to the input.
- `weather.dfy` (`Weather`) covers the description half of the WMO
  weather-code lookup and the weather sentence prepended to a message.
- `sessions.dfy` (`Sessions`) holds the session handlers as pure functions
  over `history` and the active chat id, with one lemma per promised
  behaviour. The handlers are new chat, delete, the active-id repair effect,
  sending text, uploading an image, edit-and-regenerate, identification
  feedback, and the plant-title list used by the planner and the calendar.
- `session_store.dfy` (`SessionStore`) holds the class that owns that state.
  Each handler method rewrites the fields to what the pure handler gives.
- `reminders.dfy` (`Reminders`) covers watering reminders:
  - the "HH:mm" time format;
  - the first due time;
  - the permission gate of the save handler;
  - the polling tick (a loop over the reminder list);
  - delete;
  - a `ReminderStore` class that holds them.
- `garden.dfy` (`Garden`) covers the planner: the palette and an `array2`
  grid. The grid is copied and then written by the drop handlers.

Modelling conventions:

- The generator's replies are inputs.
- The outcome of parsing an identification reply is an optional record. The
  field check at `App.tsx:1024` is applied to it.
- Fresh ids (`chat_…`, `reminder_…` from `Date.now()`) are parameters.
- The clock is an integer number of milliseconds, with every day exactly
  86 400 000 ms long. The start of the current day is passed in.
- A handler that awaits a reply is modelled as one step. The step contains
  its own state updates and the updates made once the reply arrives, in the
  order the source queues them.

Behaviour of the code that the model keeps as written:

- **Text reply target.** The text handler passes the reply to the active id
  captured when it started, not to the session it has just opened
  (`App.tsx:919-929`, called at `App.tsx:974`). On a message that opens a
  session, the reply therefore reaches no session.
  `Sessions.FirstTextReplyDropped` proves this. The image handler uses the
  new session's id, and its reply does land (`Sessions.UploadOpensSession`).
- **Stale permission.** The reminder save handler tests the permission value
  it started with. When the user grants permission at the prompt, the save
  still stops with the "not granted" alert (`Reminders.FreshGrantStillRefused`).
- **Dangling active id.** A message sent while the active id names no session
  opens no session: the append reaches nothing. The repair effect
  (`Sessions.Repair`) normally clears such an id first.

## Model

| member | source | states |
|---|---|---|
| Text.ReplaceChar | App.tsx:19-24 | a global single-character replace leaves no occurrence when the replacement lacks the character, and changes nothing when the input lacks it |
| Text.ReplaceCharAppend | App.tsx:19-24 | a global replace distributes over concatenation |
| Text.RenderUserMessage | App.tsx:17-25 | the rendered text contains no newline: every `\n` became `<br />` |
| Text.RenderUserMessageAppend | App.tsx:17-25 | rendering distributes over concatenation |
| Text.RenderUserMessageChar | App.tsx:17-25 | one character renders as its own escape; `&` is escaped first, so the entities of later replacements are not escaped again |
| Text.RenderUserMessageIsPerChar | App.tsx:17-25 | the whole chain equals escaping each character independently |
| Text.UnescapeRenderUserMessage | App.tsx:17-25 | decoding the entities and `<br />` gives back exactly the user's text, so nothing is lost or double-escaped |
| Text.EscapeChar | App.tsx:17-25 | exactly the five special characters and the line feed are rewritten, each into an entity or a tag; every other character stays as it is |
| Text.Unescape | App.tsx:17-25 | decoding never lengthens the text |
| Text.TrimStart | App.tsx:937 | `trimStart` removes exactly the leading run of ECMAScript white space and line terminators (`IsJsWhitespace`) |
| Text.TrimEnd | App.tsx:937 | `trimEnd` removes exactly the trailing run of that white space |
| Text.BlankIffTrimEmpty | App.tsx:937 | `IsBlank` holds exactly when `trim()` gives the empty, falsy string |
| Text.Count | App.tsx:17-25 | a character count is zero exactly when the character is absent |
| Text.CountAppend | App.tsx:17-25 | counts add up over concatenation |
| Text.RenderUserMessageMarkup | App.tsx:17-25 | the output has exactly one `<` and one `>` per input newline (the `<br />` tags) and no `"` or `'` at all |
| Markdown.SplitLines | App.tsx:29 | `split('\n')` yields at least one line and no line contains a newline |
| Markdown.JoinSplitLines | App.tsx:29 | joining the lines with `\n` gives back the text |
| Markdown.CloseAt | App.tsx:33 | the lazy `(.*?)\*\*` match ends at the first `**` after the opening, and fails when a line terminator comes first |
| Markdown.Inline | App.tsx:33 | text without `**` is left unchanged by the bold replacement |
| Markdown.BoldSpan | App.tsx:33 | `**x**` becomes `<strong>x</strong>` for a plain span x |
| Markdown.HtmlAppend | App.tsx:28-62 | the HTML of emitted pieces is the concatenation of their HTML |
| Markdown.BranchHtmlIsStep | App.tsx:35-57 | one loop iteration emits exactly the HTML of its branch: close the list before a heading or text line, open it before the first item; `inList` holds after exactly an item line |
| Markdown.LineBlock | App.tsx:35-57 | a line yields at most one block and never a list marker; nothing exactly for a blank line that is neither a heading nor an item |
| Markdown.Step | App.tsx:35-57 | one iteration ends with the line's block, preceded by at most one list marker, and leaves the list open exactly after an item line |
| Markdown.Run | App.tsx:35-57 | the loop over the lines emits at most two pieces per line and ends inside a list exactly when the last line is an item |
| Markdown.Pieces | App.tsx:28-62 | the output closes a list that is still open at the end |
| Markdown.EmitLine | App.tsx:35-57 | one iteration of the loop, as the source branches, appends exactly the HTML of the pieces `Step` specifies and sets `inList` as `Step` does |
| Markdown.RenderMarkdown | App.tsx:28-62 | the loop and the final close produce exactly the HTML of the specified piece sequence |
| Markdown.MarkdownWellNested | App.tsx:28-62 | every `<ul>` is closed by exactly one `</ul>`, lists never nest, items appear only inside a list and headings and paragraphs only outside one |
| Markdown.MarkdownBlocks | App.tsx:35-57 | each `## ` line yields one heading, each `* ` line one item, each other non-blank line one paragraph, in line order |
| Markdown.BlankLineClosesList | App.tsx:50-56 | a blank line emits nothing but closes an open list |
| Weather.Description | App.tsx:66-77 | the description is one of the eight, every listed code gets its group's description, and it is "Cloudy" exactly for codes 1-3 and codes outside every group |
| Weather.Context | App.tsx:942 | the weather sentence ends in a space before the user's text |
| Sessions.FindIndex | App.tsx:884 | the lookup finds the first session with the id and is absent exactly when none has it |
| Sessions.MapWhere | App.tsx:923-927 | a map by id keeps the length and rewrites exactly the sessions with that id |
| Sessions.MapWhereAbsent | App.tsx:923-927 | a map by an id no session has changes nothing |
| Sessions.Remove | App.tsx:910 | the filter keeps exactly the sessions with another id |
| Sessions.RemoveAppend | App.tsx:910 | the filter keeps order and repeats: it distributes over concatenation |
| Sessions.RemoveOne | App.tsx:910 | on one session the filter keeps it exactly when its id differs |
| Sessions.NewChat | App.tsx:895-901 | the new empty session goes in front of the unchanged list and is selected |
| Sessions.NewChatSelectsIt | App.tsx:895-901 | a new chat puts one empty "New Chat" session in front of the unchanged list, and the repair effect keeps it selected |
| Sessions.Delete | App.tsx:908-912 | with confirmation exactly the sessions with the id are removed; without it nothing changes |
| Sessions.Repair | App.tsx:793-801 | the repaired id names an existing session or is null; an id that exists is kept; a missing one is replaced by the first session's id, and null only when there is no session (or the first id is empty) |
| Sessions.DeleteActiveSelectsNext | App.tsx:797-799 | after deleting the active session, the repair effect selects the first session in history order whose id differs |
| Sessions.DeleteLastClearsSelection | App.tsx:797-799 | after deleting the active session when no other session is left, the selection becomes null |
| Sessions.RepairNullIffEmpty | App.tsx:793-801 | with non-empty ids the repaired id is null exactly when the history is empty |
| Sessions.RepairIdempotent | App.tsx:793-801 | running the repair effect a second time changes nothing |
| Sessions.Title | App.tsx:956 | the title is the input when it has at most 35 characters, else its first 35 characters followed by "..." |
| Sessions.Post | App.tsx:951-972 | the message opens a session (new id, selected, in front, holding the message) exactly in the cases that need one; otherwise it targets the active id and the count is kept |
| Sessions.PostOpensSession | App.tsx:951-965 | on a missing or empty active session exactly one new session, holding only the message, goes in front and is selected; behind it is the old list in order, or the old list filtered of the empty placeholder |
| Sessions.PostAppends | App.tsx:966-972 | otherwise the message is appended to the active session, nothing else changes and the count is unchanged |
| Sessions.ReplyTo | App.tsx:919-929 | the reply is appended to exactly the sessions with the captured id, and to none when that id is null |
| Sessions.Send | App.tsx:936-975 | a blank input or a pending request changes nothing; otherwise the new session is selected when one was opened, and the active id is kept when not |
| Sessions.SendGuard | App.tsx:937 | a blank input or a send during a pending request changes nothing |
| Sessions.FirstTextReplyDropped | App.tsx:919-974 | on a message that opens a session, the reply is appended to no session; the new session holds the user's message alone |
| Sessions.SendAppendsBoth | App.tsx:919-974 | on an active non-empty session, the message and then the reply are appended to it and nothing else changes |
| Sessions.ReplyContent | App.tsx:1019-1043 | the reply becomes an identification record (with no feedback yet) exactly when the parsed fields pass the check, and the raw text otherwise |
| Sessions.IsIdentification | App.tsx:1024 | a reply that passes the field check carries a non-empty plant name |
| Sessions.Upload | App.tsx:991-1050 | without a file or during a pending request nothing changes; otherwise the selection follows the same rule as text |
| Sessions.UploadAppends | App.tsx:1028-1036 | on an active non-empty session the image and then the reply are appended to it, it is renamed after an identified plant, and nothing else changes |
| Sessions.UploadOpensSession | App.tsx:991-1050 | an image that opens a session yields one session in front, named after the identified plant or "Plant Analysis", holding the image then the reply |
| Sessions.Truncated | App.tsx:1090 | the kept messages are the first `messageIndex` messages of the first session with the id (all of them when it has fewer), and none when no session has it |
| Sessions.SaveEdit | App.tsx:1082-1118 | with no pending edit nothing changes; otherwise the active id and the session count are kept |
| Sessions.SaveEditShape | App.tsx:1082-1114 | the edited session becomes its first i messages, the edited text and exactly one reply; all other sessions and the active id are untouched |
| Sessions.Followup | App.tsx:1123-1128 | one model follow-up for "correct" or for "incorrect" with a name, none otherwise |
| Sessions.Marked | App.tsx:1130-1141 | marking keeps the length and every role, and changes no message but the one at the index |
| Sessions.GiveFeedback | App.tsx:1120-1151 | with no active chat nothing changes; otherwise the active id and the session count are kept |
| Sessions.MarkedShape | App.tsx:1130-1141 | only a model identification at the index is rewritten, only in its feedback fields; every other message is unchanged |
| Sessions.FeedbackShape | App.tsx:1120-1151 | feedback rewrites only the active session(s): the marked messages plus the follow-up |
| Sessions.FeedbackCount | App.tsx:1120-1151 | the active session grows by one message exactly when there is a follow-up |
| Sessions.PlantTitleList | App.tsx:1380-1383 | the list holds exactly the titles that are non-empty and neither "New Chat" nor "Plant Analysis" |
| Sessions.PlantTitleListSnoc | App.tsx:1380-1383 | a session added at the end adds its title at the end exactly when it names a plant |
| Sessions.PlantTitleListAppend | App.tsx:1380-1383 | the map and filter keep history order and repeats: they distribute over concatenation |
| Sessions.Dedupe | App.tsx:1384 | the deduplicated list has no repeats and the same elements |
| Sessions.DedupeSnoc | App.tsx:1384 | each element is kept at its first occurrence: a repeat adds nothing and a new element goes to the end |
| Sessions.DedupeDistinct | App.tsx:1384 | a list without repeats is unchanged by deduplication |
| Sessions.PlantTitles | App.tsx:1380-1385 | the palette is the distinct plant titles of the history |
| Sessions.PlantTitlesSnoc | App.tsx:1380-1385 | the palette lists each plant title at its first occurrence in history order |
| SessionStore.Store.Messages | App.tsx:884 | the current messages are those of the first session with the active id, and empty when the active id names no session |
| SessionStore.Store.constructor | App.tsx:725-736 | empty history, no active chat, no edit, weather switch off |
| SessionStore.Store.NewChat | App.tsx:895-901 | the state becomes `Sessions.NewChat` of the old state |
| SessionStore.Store.SelectChat | App.tsx:903-906 | the chosen id becomes active |
| SessionStore.Store.DeleteChat | App.tsx:908-912 | the state becomes `Sessions.Delete` of the old state |
| SessionStore.Store.RepairActive | App.tsx:793-801 | the active id becomes `Sessions.Repair` of the history |
| SessionStore.Store.SetWeatherContext | App.tsx:736 | the weather switch takes the chosen value |
| SessionStore.Store.SendMessage | App.tsx:936-975 | the state becomes `Sessions.Send` of the old state, with the weather sentence prepended once when the switch is on and a reading exists, after which the switch is off |
| SessionStore.Store.UploadImage | App.tsx:991-1050 | the state becomes `Sessions.Upload` of the old state |
| SessionStore.Store.StartEdit | App.tsx:1066-1076 | only a text message of the active session starts an edit, recording its chat, index and text |
| SessionStore.Store.EditText | App.tsx:1512 | a pending edit takes the new text, keeping its chat and index; with no pending edit nothing is recorded |
| SessionStore.Store.CancelEdit | App.tsx:1078-1080 | the pending edit is dropped |
| SessionStore.Store.SaveEdit | App.tsx:1082-1118 | the state becomes `Sessions.SaveEdit` of the old state and the pending edit is cleared |
| SessionStore.Store.IdentificationFeedback | App.tsx:1120-1151 | the state becomes `Sessions.GiveFeedback` of the old state |
| Reminders.ParseTime | App.tsx:1345 | a time input's value gives hours below 24 and minutes below 60 |
| Reminders.FormatTime | App.tsx:471 | a time of day is written in the time input's format |
| Reminders.ParseFormat | App.tsx:1345 | parsing a formatted time gives back the hours and minutes |
| Reminders.FormatParse | App.tsx:1345 | formatting a parsed time gives back the text |
| Reminders.FirstDue | App.tsx:1347-1355 | the first due time is today or tomorrow at HH:mm, strictly after now and at most a day later |
| Reminders.FirstDueIsNext | App.tsx:1347-1355 | no moment at HH:mm after now comes before the first due time |
| Reminders.SaveGate | App.tsx:1334-1346 | saving proceeds exactly when the permission the handler started with was granted |
| Reminders.PermissionAfterSave | App.tsx:1334-1336 | the browser is asked only while the permission is "default"; an answered permission stays as it is |
| Reminders.FreshGrantStillRefused | App.tsx:1334-1346 | granting permission at the prompt still ends in the "not granted" alert; the next save proceeds |
| Reminders.Advanced | App.tsx:818-821 | a rescheduled reminder moves on by exactly its frequency in days, all else equal |
| Reminders.SetDue | App.tsx:822 | the map by id rewrites the due date of exactly the reminders with that id |
| Reminders.DueOnes | App.tsx:807-808 | the due reminders are exactly those with now at or past their due date |
| Reminders.DueOnesAppend | App.tsx:807-808 | the filter keeps order and repeats: it distributes over concatenation |
| Reminders.DueOnesOne | App.tsx:807-808 | on one reminder the filter keeps it exactly when it is due |
| Reminders.TickNotices | App.tsx:808-817 | one "Watering Reminder" notification per due reminder, in order, when permission is granted; none otherwise |
| Reminders.ApplyTick | App.tsx:805-823 | the queued updates keep the list's length and change nothing but due dates |
| Reminders.ApplyTickPrefix | App.tsx:805-823 | after the queued updates of the first k reminders, those that were due have moved on by their frequency and the rest are unchanged |
| Reminders.TickReschedules | App.tsx:805-823 | a tick advances every due reminder by exactly its frequency, whatever the permission, and leaves the others unchanged |
| Reminders.TickMovesForward | App.tsx:805-823 | a due reminder with a frequency of at least a day moves at least a day forward |
| Reminders.RemoveReminder | App.tsx:1369-1371 | delete keeps exactly the reminders with another id |
| Reminders.RemoveReminderAppend | App.tsx:1369-1371 | the filter keeps order and repeats: it distributes over concatenation |
| Reminders.RemoveReminderOne | App.tsx:1369-1371 | on one reminder the filter keeps it exactly when its id differs |
| Reminders.ReminderStore.constructor | App.tsx:743-747 | no reminders and the permission not yet asked |
| Reminders.ReminderStore.SaveReminder | App.tsx:1334-1367 | an alert leaves the list unchanged; otherwise one reminder with the first due time is appended; the permission becomes the answer to the request |
| Reminders.ReminderStore.DeleteReminder | App.tsx:1369-1371 | the list becomes the filtered list |
| Reminders.ReminderStore.Tick | App.tsx:805-823 | the loop over the reminder list leaves the list rescheduled as specified and returns the notifications shown |
| Garden.Put | App.tsx:559-566 | writing one cell changes that cell and no other |
| Garden.DroppedOnGrid | App.tsx:554-568 | after a drop the target cell holds the dragged plant |
| Garden.DroppedOnTrash | App.tsx:570-581 | dropping anything but a grid drag on the trash leaves the grid as it is |
| Garden.MoveClearsSourceFillsTarget | App.tsx:554-568 | a grid-to-grid move clears the source, fills the target and changes no other cell |
| Garden.DropOnOwnCell | App.tsx:554-568 | a plant dropped on its own cell stays there |
| Garden.PaletteDropFillsTarget | App.tsx:554-568 | a palette drop fills the target only |
| Garden.TrashClearsGridSourceOnly | App.tsx:570-581 | the trash clears the source of a grid drag only, and changes nothing for a palette drag |
| Garden.SameCells | App.tsx:559 | grids with equal cells are equal |
| Garden.Planner.Cells | App.tsx:527 | the grid's value holds exactly the array's cells |
| Garden.Planner.constructor | App.tsx:525-529 | an empty palette, no drag, and an 8×8 grid of empty cells |
| Garden.Planner.Open | App.tsx:534-538 | opening loads `Sessions.PlantTitles` of the chat history, a palette without repeats |
| Garden.Planner.AddPlant | App.tsx:542-547 | a non-empty new name is appended; a palette without repeats keeps none |
| Garden.Planner.DragStart | App.tsx:549-552 | the drag records kind, plant and source cell |
| Garden.Planner.CopyGrid | App.tsx:559 | the copy is a fresh array with the same cells |
| Garden.Planner.DropOnGrid | App.tsx:554-568 | the grid becomes a fresh copy with the source cleared and the target filled; the drag ends; with no drag nothing changes |
| Garden.Planner.DropOnTrash | App.tsx:570-581 | a grid drag's source cell is cleared in a fresh copy; the drag ends |

## Left out

- JSX rendering, icons, modals and sidebars, and the icon half of the
  weather lookup: they are presentation.
- The generator service (`services/gemini.ts`) is an input. It catches its
  own errors and returns an apology string. The handlers' `catch` branches
  for a failed request therefore never run, and they are not modelled.
- Parsing the reply as JSON (fence stripping, `JSON.parse`) is not modelled.
  The model takes the parsed-or-not outcome. A field holding a truthy value
  of another type (such as a number for `plantName`) is treated as absent.
- Loading and saving through local storage, geolocation and the weather
  request are not modelled. Neither are `Math.round` of the temperature,
  which arrives as rendered text, nor exports (TXT and PDF) and the calendar
  and garden-suggestion prompts.
- Timers, promises and interleaving are not modelled. Each handler runs as
  one step with its reply as a parameter, and `loading` stands for a request
  already in flight.
- Local-time `Date` arithmetic is not modelled: `setHours` and `setDate`
  across daylight-saving changes and time zones. Days are exactly
  86 400 000 ms.
- `getDueDateText` and other display formatting are not modelled.
- Strings are sequences of characters, not UTF-16 code units. The 35-unit
  title cut and `substring` agree with the model only for text without
  surrogate pairs.
- Reminders.ParseTime: requires a well-formed "HH:mm". A cleared time input
  would give `NaN` in the source, and that is not modelled.
- SessionStore.Store.StartEdit: requires the index to be one of the active
  session's messages. The source only offers such indexes and would throw on
  any other.
- The service worker's notification-click handling is not modelled, and
  neither is the clearing of the new-plant input box after adding a plant.
- The reminders panel sorts the reminder state array in place by due date
  while rendering (`App.tsx:453`). That reorders the list the next tick
  walks. The model keeps the reminders in insertion order. Only the order of
  the tick's notifications depends on this.
- The planner's palette effect (`App.tsx:534-538`) runs again whenever its
  `initialPalette` prop changes. The application builds that array anew on
  every render (`App.tsx:1423`), so any re-render of the application while
  the panel is open reloads the palette and discards plants added with
  `AddPlant`. The model reloads the palette only through `Open`.
