# Zombie Estate 2 editor: leaf-value extraction and list edits

A Dafny model of the core of a desktop mod editor for Zombie Estate 2. The
editor loads a game data file (XML), flattens it into an ordered list of
editable leaf values `(path, name, value)`, and lets the user change those values in
memory. There are two in-memory edits. The first is the table's per-row edit. The
second is the "Unlock All Characters" button, which sets the first `PointsToUnlock`
entry of every character file to `"0"`.

The model has five modules:

- `Text` (`text.dfy`): Rust's `str::trim`, using the Unicode White_Space set that
  `char::is_whitespace` uses, and `[String]::join`. It also has a `split` used
  only to show that a joined path determines the ancestor chain.
- `XmlEvents` (`xml_events.dfy`): the reader's events and the two partial decodings
  the loop applies to them. These are `from_utf8` on tag names and `unescape` on
  text. The module also has the open-tag stack discipline and the facts about
  balanced `Start … End` runs.
- `XmlHandler` (`xml_handler.dfy`): `load_file` written as a stack machine
  (`Step`) folded over the events (`Walk`, `Extract`). `LoadFile` is the same loop
  written imperatively and proved equal to the fold. The module also has
  `modify_value`.
- `Extraction` (`extraction.dfy`): an independent, event-by-event description of
  the result (`Reference`), with the theorem that the loop computes it. The
  corollaries cover naming, paths, ordering, the length bound and error
  behaviour.
- `App` (`app.dfy`): the list edits made by `ModManagerApp`: the unlock step, the
  unlock button over all character files, the per-row edit, and loading a file
  into the table.

The reader is a finite sequence of `Event`s. Past its end it keeps reporting
Eof, as quick_xml does at the end of its input. Tag-name decoding and unescaping
are parameters (a `Decoder` of two partial functions), so every property holds
whatever those functions are.

The model follows the code as written on two points:

- Unbalanced tags are not detected by the loop itself. An `End` on an empty stack
  just leaves it empty (`Vec::pop`), and only a reader error can abort the call
  over unbalanced tags. A non-UTF-8 tag name (`src/xml_handler.rs:37`) and text
  that fails to unescape (`src/xml_handler.rs:42`) abort it too, for their own
  reasons.
- A value's path leaves out the value's own tag. The field comment at
  `src/xml_handler.rs:9` gives "Properties/Speed" as an example path, which reads
  as if the leaf's name were included. The code at `src/xml_handler.rs:46` joins
  only the tags above the leaf, so `<A><B>1.0</B></A>` gives path "A" and name
  "B". The model follows line 46.
- The selective rewriter (`save_changes`) is called from `src/app.rs` but is
  defined in no source file. Only the list it would be given is modelled.

## Model

| member | source | states |
|---|---|---|
| Text.Trim | src/xml_handler.rs:44 | trimming leaves nothing exactly when the text is whitespace only; what remains neither starts nor ends with whitespace |
| Text.TrimEmptyIffBlank | src/xml_handler.rs:44 | `trim_end` after `trim_start` leaves nothing exactly when every character is whitespace |
| Text.SplitJoin | src/xml_handler.rs:46 | splitting a `/`-joined path at `/` gives back the tag names, when no name contains `/` |
| Text.PathDeterminesAncestors | src/xml_handler.rs:46 | two chains of non-empty, slash-free tag names with the same joined path are the same chain |
| XmlEvents.Pop | src/xml_handler.rs:53-55 | End removes at most one name, the top; an empty stack stays empty |
| XmlEvents.StackAfterKeepsBase | src/xml_handler.rs:36-55 | a run that never closes more than it opened keeps the starting stack as a prefix and changes its depth by exactly the run's net Start/End count |
| XmlEvents.BalancedRestoresStack | src/xml_handler.rs:36-55 | a balanced `Start … End` run leaves the stack exactly as it found it |
| XmlEvents.BalancedRunIsTransparent | src/xml_handler.rs:36-55 | removing a balanced run from an event sequence does not change the final stack |
| XmlHandler.Step | src/xml_handler.rs:34-58 | one iteration: after return nothing changes; while running, values only grow, by at most one and only on text; Start pushes one decoded name, End pops; the call ends with Ok only at Eof, returning the values so far |
| XmlHandler.FinishedIsFinal | src/xml_handler.rs:35 | once the loop has returned, no later event is consulted |
| XmlHandler.WalkTracksStack | src/xml_handler.rs:36-55 | while the loop runs, its `current_path` is the stack the Start/End events so far spell out |
| XmlHandler.OtherEventsAreInert | src/xml_handler.rs:57 | an ignored event (self-closing element, comment, CDATA, declaration) can be removed anywhere without changing the result |
| XmlHandler.TextOutsideRootIsInert | src/xml_handler.rs:40-41 | text while no tag is open neither yields a value nor can fail the call (it is never unescaped) |
| XmlHandler.BlankTextIsInert | src/xml_handler.rs:43-44 | text that unescapes to whitespace only never yields a value, whatever tags are open |
| XmlHandler.EventsAfterEofAreIgnored | src/xml_handler.rs:33-35 | the result is decided by the events before the first Eof; anything after it is never read |
| XmlHandler.BalancedRunRestoresOpenTags | src/xml_handler.rs:36-55 | after a balanced run the loop's open-tag stack is what it was before the run |
| XmlHandler.Iterate | src/xml_handler.rs:34-58 | the loop body for one event, written with the source's own branches, returns or carries on exactly as the stack machine's step says, and never adds a value with blank text |
| XmlHandler.LoadFile | src/xml_handler.rs:25-61 | the imperative loop returns exactly the fold's result, and no value it returns is blank |
| XmlHandler.ModifyValue | src/xml_handler.rs:63-66 | always succeeds; the handler has no state for it to change |
| Extraction.ExpectedNext | src/xml_handler.rs:34-58 | one more event takes the loop from where the description puts it after `m` events to where it puts it after `m + 1`: unchanged once returned, returning at Eof or at the first aborting event, otherwise moving the stack and adding the event's value, if any |
| Extraction.WalkMatchesExpected | src/xml_handler.rs:33-60 | after any prefix of events the loop is where the event-by-event description puts it: returned with the first error, returned at Eof with the values, or running with the described stack and values |
| Extraction.ExtractMatchesReference | src/xml_handler.rs:25-61 | the loop's result equals the description: the first aborting event's error before Eof, or every yielded value before Eof in order |
| Extraction.ExtractedValuesDescribeTheirTags | src/xml_handler.rs:40-50 | each returned value comes from its own text event before Eof, in event order; its name is the innermost open tag there, its path the `/`-join of the tags around it, and its value the unescaped, non-blank text; every qualifying text event is represented |
| Extraction.ValuesBoundedByTextEvents | src/xml_handler.rs:40-50 | there are never more values than text events before the first Eof |
| Extraction.ExtractFailsIffSomeEventFails | src/xml_handler.rs:34-58 | the call fails exactly when some event before Eof aborts it (reader error, non-UTF-8 name, failed unescape inside an element), and then returns that first event's error with no values |
| Extraction.ReaderErrorAborts | src/xml_handler.rs:56 | a reader error before Eof always fails the call |
| Extraction.NonUtf8NameAborts | src/xml_handler.rs:37 | a start tag whose name is not UTF-8, before Eof, always fails the call |
| Extraction.NamedValueComesFromTag | src/xml_handler.rs:40-50 | a loaded value called `name` comes from a yielding text event before Eof inside an element called `name` |
| Extraction.TagYieldsNamedValue | src/xml_handler.rs:40-50 | a yielding text event before Eof inside an element called `name` shows up as a loaded value called `name` |
| Extraction.LoadedNameIffTag | src/xml_handler.rs:40-50 | a loaded list has a value called `name` exactly when some text before Eof yields a value inside an element called `name` |
| Extraction.RootTextHasEmptyPath | src/xml_handler.rs:46-47 | text directly inside the root element yields a value with an empty path, named after the root |
| Extraction.ChildOfRootHasRootPath | src/xml_handler.rs:46-47 | text inside a child of the root yields a value whose path is the root's name and whose name is the child's |
| App.FindByName | src/app.rs:112 | `find` gives the first entry with the name, or none when no entry has it |
| App.SetValue | src/app.rs:113 | replacing an entry's value keeps its path and name, the list length and every other entry |
| App.EditRow | src/app.rs:217-228 | the table edit changes only the edited row's value; `modify_value` leaves the list alone |
| App.EditRowLastWins | src/app.rs:220-222 | editing a row twice keeps only the second text |
| App.EditRowsCommute | src/app.rs:217-222 | edits to different rows commute |
| App.Unlock | src/app.rs:110-118 | with no `PointsToUnlock` entry nothing is saved; otherwise the first such entry gets value "0" and every other entry stays the same, later namesakes included, with all paths, names and the length kept |
| App.UnlockIdempotent | src/app.rs:112-113 | unlocking an unlocked list gives the same list |
| App.UnlockFileSavesWhenUnlockable | src/app.rs:110-118 | a character file is saved exactly when no event before Eof aborts its load and some text before Eof yields a value inside a `PointsToUnlock` element; the list saved is the loaded list with its first `PointsToUnlock` entry set to "0" and every other entry as loaded |
| App.UnlockAllCharacters | src/app.rs:106-122 | every save request names a listed file for which the unlock step saves, carries exactly the list that step saves, and requests follow listing order, one per file |
| App.UnlockAllSkipsNoUnlockableFile | src/app.rs:106-122 | every listed file that loads and holds a `PointsToUnlock` entry gets a save request |
| App.LoadIntoTable | src/app.rs:186-195 | when some event before Eof aborts the load, the table keeps what it held, edits included; otherwise it shows every value the events before Eof yield, in event order |

## Left out

- `save_changes`, the selective rewriter: it is called in `src/app.rs` but defined in no source file, so the model stops at the list handed to it.
- quick_xml internals: tokenising, `trim_text(true)`, end-tag name checking and entity unescaping. They appear only as the event sequence and the `Decoder` functions.
- `Reader::from_file` failing to open a file: this is I/O. A file that cannot be opened corresponds to a stream whose first event is a reader error.
- The contents of errors (`anyhow` chains): an error carries only its kind and the offending bytes or reader message.
- `src/file_manager.rs`: directory walking, the extension filter and backup/restore. This is I/O. The unlock button takes the listed files as a parameter, and a failed listing corresponds to an empty list.
- `src/config.rs` and `src/main.rs`: JSON configuration on disk and application start-up.
- All egui/eframe rendering, `rfd` dialogs, `eprintln!` reporting and the `Arc<Mutex<…>>` around the file manager. This is UI plumbing and locking. In particular, when a row counts as changed is left to the widget.
