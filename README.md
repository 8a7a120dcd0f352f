# clipper — a Dafny model of the clipboard-history browser's core

clipper is a small GTK4 program that lists the entries of the `cliphist`
clipboard history, shows each one as an image or a text row, copies an entry
back to the Wayland clipboard when its row is clicked, and offers a
"clear clipboard" button that wipes the history after a second click.

This project models the logic under the widgets, with the external programs
(`cliphist list`, `cliphist decode`, `cliphist wipe`, `file`, `wl-copy`)
replaced by oracles (`Oracles.Host`):

- `lines.dfy` — how the output of `cliphist list` is cut into identifier
  lines, following Rust's `str::lines`, with the round trips and counts that
  characterise it.
- `classify.dfy` — the `starts_with("image/")` test on the sniffed MIME
  string, the empty-string default of a failed sniff, and the row built for an
  entry (a picture of the staging file, or a label showing the identifier line).
- `listing.dfy` — the row-building loop as a class `ClipperWindow` whose
  fields are the rows of the list box, the files written under /tmp and a
  panic flag; the loop (`AppendEntries`) is proved against the specification
  function `Listed`, about which the lemmas state ordering, skipping, the
  single shared staging file, the image copy and the choice between the
  "empty" message and the wipe button. `ClickRow` is the row's click handler.
- `copy.dfy` — what one click does to the clipboard, and its idempotence.
- `wipe.dfy` — the wipe-confirmation state machine: a transition function
  over `Click` and `TimerFire` events with its invariant and trace lemmas, and
  a class `WipeButton` whose handlers are proved against it.
- `oracles.dfy`, `wrappers.dfy` — the oracle record and an `Option` type.

Behaviour as the code has it (the model follows the code):

- A stale identifier is not skipped. `cliphist decode` then prints nothing on
  standard output, the empty buffer is staged and sniffed as a non-image, and
  the row shows the identifier line. The only lines without a row are those
  whose decode child lacks a standard input or output pipe.
- Every entry is staged to the one fixed path /tmp/clip-entry.bin, and every
  picture row is built from that path; image bytes are also copied to the fixed
  path /tmp/clipimg.png. Nothing is unique per entry and nothing is evicted.
- A failure to start `cliphist decode` or `wl-copy`, or to write the staging
  file, is an `expect` panic; the model records it as `panicked` and stops.
- A click while confirming runs `cliphist wipe` and exits with status 0
  whatever the wipe's outcome; there is no return to the idle state on failure.
- The reset timer is armed for 3 seconds (a comment beside it says 4).
- A panic while listing ends the program before the window is finished: it
  then shows neither the "empty" message nor the wipe button.
- `str::lines` is taken with its current Rust semantics: a '\r' is removed
  only when it directly precedes a '\n'; a bare '\r' at the very end of the
  output stays part of the last line.

## Model

| member | source | states |
|---|---|---|
| `Lines.Lines` | src/main.rs:36-37 | definition of the `entries.lines()` split; characterised by `LinesHaveNoNewline`, `LineCount`, `LinesOfJoinCrlf`, `LinesOfJoinLf` and `FinalTerminatorOptional` |
| `Lines.LinesHaveNoNewline` | src/main.rs:36-37 | no identifier produced by `entries.lines()` contains a line feed |
| `Lines.LineCount` | src/main.rs:36-37 | there is one identifier per line feed, plus one for an unterminated last line; a trailing terminator adds no empty identifier |
| `Lines.LinesOfJoinCrlf` | src/main.rs:36-37 | lines written each followed by "\r\n" are split back into exactly those lines, in order |
| `Lines.LinesOfJoinLf` | src/main.rs:36-37 | lines written each followed by "\n" are split back into exactly those lines, when none ends in '\r' |
| `Lines.FinalTerminatorOptional` | src/main.rs:36-37 | appending a final "\n" to text not ending in a terminator or '\r' gives the same identifiers |
| `Classify.MimeOf` | src/main.rs:61-68 | definition of the sniffed MIME string with its `unwrap_or_default`; characterised by `ImageIffSniffedImage` and `FailedSniffIsText` |
| `Classify.IsImageMime` | src/main.rs:70 | definition of `starts_with("image/")`; characterised by `ImageMimeIff` and `SnifferOutputs` |
| `Classify.ImageIffSniffedImage` | src/main.rs:61-70 | an entry is an image exactly when the sniff succeeded and its output starts with "image/"; a failed sniff gives "" and never an image |
| `Classify.RowFor` | src/main.rs:70-91 | the row captures the identifier line; it is a picture of the staging path iff the MIME string starts with "image/", and otherwise a label showing the identifier line, not the decoded bytes |
| `Classify.ImageMimeIff` | src/main.rs:70 | the prefix test holds exactly of strings of the form "image/" followed by anything |
| `Classify.FailedSniffIsText` | src/main.rs:66-68 | a failed sniff gives a text row labelled with the identifier line |
| `Classify.SnifferOutputs` | src/main.rs:61-70 | the sniffer's "image/png" output classifies as image; "text/plain" and "inode/x-empty" (a stale entry's empty bytes) as text |
| `Listing.Kept` | src/main.rs:37-49 | the lines that get a row are at most as many as the lines, each is one of them and each had both decode pipes |
| `Listing.KeptComplete` | src/main.rs:37-49 | every line whose decode child has both pipes is kept |
| `Listing.KeptAppend` | src/main.rs:37-49 | keeping is an in-order filter: the kept lines of `a + b` are those of `a` followed by those of `b` |
| `Listing.KeptOne` | src/main.rs:49 | a single line is kept exactly when its decode child has both pipes |
| `Oracles.DecodeOutput` | src/main.rs:42-57 | definition of what `cliphist decode` prints: the stored entry, or nothing for an unknown identifier; used by `ListedStagesLastEntry` and `ClickCopiesEntry` |
| `Listing.Process` | src/main.rs:38-123 | definition of one iteration of the loop; characterised by `ListedRows`, `ListedPanicIff`, `ListedStagesLastEntry` and `ListedCopiesLastImage` through `Listed` |
| `Listing.Listed` | src/main.rs:37-124 | definition of the whole loop, in line order; characterised by `PanicIsFinal`, `ListedPanicIff`, `ListedRows`, `ListedStagesLastEntry` and `ListedCopiesLastImage` |
| `Listing.Activated` | src/main.rs:35-125 | definition of the listing at activation, empty when `cliphist list` cannot be run; characterised by `WipeButtonIffSomeRow` and `ActivatedRows` |
| `Listing.PanicIsFinal` | src/main.rs:42-47 | after a panic no further line is processed and nothing changes |
| `Listing.ListedPanicIff` | src/main.rs:42-58 | the listing panics exactly when some line's decode child cannot be started or its bytes cannot be written to the staging file |
| `Listing.ListedRows` | src/main.rs:37-123 | without a panic, the rows appended are one per kept line, in the lines' order; lines lacking a decode pipe are skipped |
| `Listing.ListedStagesLastEntry` | src/main.rs:54-58 | every entry overwrites the one staging file, which ends up holding the last kept entry's bytes; no other file except the image copy changes |
| `Listing.ListedCopiesLastImage` | src/main.rs:70-72 | the image copy holds the bytes of the last entry that sniffed as an image, and is untouched when there was none |
| `Listing.WipeButtonIffSomeRow` | src/main.rs:35-157 | the wipe button exists iff `cliphist list` ran, no line panicked and at least one row was appended; the "empty" message is shown iff `cliphist list` could not be run, or no line panicked and no row was appended; never both, and neither after a panic |
| `Listing.ActivatedRows` | src/main.rs:37-123 | after activation each row captured the corresponding kept line, is a picture of the staging file iff that line sniffed as an image, otherwise shows the line, and a click on it copies that line's stored entry |
| `Listing.ClipperWindow.Activate` | src/main.rs:35-191 | the window's rows, files and panic flag equal `Activated`; a fresh wipe button in its initial state exists iff a row was appended without a panic, and the "empty" message is shown iff there was no panic and no row was appended; the clipboard is untouched |
| `Listing.ClipperWindow.AppendEntries` | src/main.rs:37-124 | the loop leaves exactly the state `Listed` gives for the lines, in order, and touches neither the clipboard, the wipe button nor the "empty" message |
| `Listing.ClipperWindow.ClickRow` | src/main.rs:96-120 | a click sets the clipboard to what `ClickEffect` gives for the row's captured identifier (or panics), and leaves the rows, files, wipe button and "empty" message unchanged |
| `CopyOnClick.ClickEffect` | src/main.rs:98-119 | definition of the click closure's effect on the clipboard; characterised by `ClickCopiesEntry`, `ClickPanicsIff`, `ClickIdempotent` and `ClickOverwrites` |
| `CopyOnClick.ClickCopiesEntry` | src/main.rs:99-118 | with every pipe in place, a click sets the clipboard to the stored entry of the row's identifier (empty if the store no longer has it), whatever it held before |
| `CopyOnClick.ClickPanicsIff` | src/main.rs:99-114 | a click panics exactly when `cliphist decode` cannot be started, or its output pipe exists and `wl-copy` cannot be started |
| `CopyOnClick.ClickIdempotent` | src/main.rs:96-120 | clicking the same row twice with the store unchanged leaves the same clipboard as clicking once |
| `CopyOnClick.ClickOverwrites` | src/main.rs:110-118 | when a click changes the clipboard, its new contents do not depend on the old ones |
| `WipeConfirm.Step` | src/main.rs:165-186 | definition of both handlers as one transition; characterised by `StepKeepsInv`, `ClickWhileIdle`, `ClickWhileConfirming`, `TimerRestoresIdle` and the trace lemmas |
| `WipeConfirm.StepKeepsInv` | src/main.rs:162-186 | every event keeps the invariant: confirming iff exactly one reset timer is pending, label and `confirming` class follow the flag, a wipe was issued iff the process exited |
| `WipeConfirm.ReplayKeepsInv` | src/main.rs:162-186 | every sequence of events from a valid state ends in a valid state |
| `WipeConfirm.AtMostOneWipe` | src/main.rs:168-171 | from the initial button, any sequence of events issues `cliphist wipe` at most once, and confirming holds iff one reset is pending |
| `WipeConfirm.ClickWhileIdle` | src/main.rs:172-186 | a click while not confirming does not wipe; it sets the flag, shows "yes", adds the `confirming` class and schedules exactly one more reset |
| `WipeConfirm.ClickWhileConfirming` | src/main.rs:168-171 | a click while confirming issues the wipe and exits, whatever the wipe's result |
| `WipeConfirm.TimerRestoresIdle` | src/main.rs:181-185 | a firing reset restores the label, removes the class, clears the flag and leaves no timer pending |
| `WipeConfirm.ExitIsTerminal` | src/main.rs:170-171 | after exit no event changes anything |
| `WipeConfirm.ClickThenExpiry` | src/main.rs:174-186 | a click followed by the timer firing returns the button to its initial state |
| `WipeConfirm.RapidClicksWipeOnce` | src/main.rs:165-186 | two or more clicks before the timer fires (ten, say) wipe and exit exactly once |
| `WipeConfirm.ConfirmingIffLastClick` | src/main.rs:165-186 | before exit, the button is confirming exactly when the latest event was a click |
| `WipeConfirm.ExitIffDoubleClick` | src/main.rs:165-186 | the process wipes and exits exactly when some click directly followed another click, with no timer firing between |
| `WipeConfirm.WipeButton.constructor` | src/main.rs:158-163 | the button starts labelled "clear clipboard" with the `wipe-button` class, not confirming, no timer pending, nothing wiped |
| `WipeConfirm.WipeButton.OnClick` | src/main.rs:165-188 | the click handler moves the button's fields exactly as `Step` does for `Click`, keeping the invariant |
| `WipeConfirm.WipeButton.OnTimer` | src/main.rs:181-186 | the timer callback moves the fields exactly as `Step` does for `TimerFire`: idle label, no `confirming` class, flag cleared, no timer pending |

## Left out

- Window construction, layout, CSS, the header label, the empty-state icon and markup, and the Escape-key quit handler: presentation only.
- Process spawning, pipes and reading: each external program is an oracle. `cliphist decode` is a lookup in `Host.store` (nothing on standard output for an unknown identifier); a failed `read_to_end` and the partial buffer it would leave are not modelled.
- `String::from_utf8_lossy` on the list output: the model takes the output of `cliphist list` as text already. The UTF-8 check on the sniffer's output is folded into the `sniff` oracle returning `None`.
- The `file` sniffer itself: `Host.sniff` gives its answer for given bytes; it is applied to the staging file's contents, which are the entry's decoded bytes.
- The result of `fs::copy` to /tmp/clipimg.png is ignored by the program; the model treats the copy as succeeding whenever the staging write did.
- Whether the toolkit reads a picture's file when the picture is built or later: a picture row records the path it shows (always /tmp/clip-entry.bin), not pixels.
- Real time and the GLib main loop: the 3-second timeout is the discrete `TimerFire` event, with no clock.
- `exit(0)` and panics are terminal states (`exited`, `panicked`) after which no event runs. The store's contents after `cliphist wipe` belong to the external program and are not modelled; only the number of wipe commands issued is.
- What `wl-copy` does with the bytes beyond making them the clipboard contents (MIME type offers, forking into the background).
