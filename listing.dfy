/**
 * Building the list of rows when the application is activated.
 *
 * For every identifier line of `cliphist list`, a `cliphist decode` child is
 * started; if it has both pipes, the line is written to it, its output is
 * written to the one fixed staging file /tmp/clip-entry.bin, the `file`
 * sniffer is asked for the MIME type of that file, and a row is appended: a
 * picture of the staging file for an image, otherwise a label showing the
 * identifier line. Image bytes are also copied to /tmp/clipimg.png. Unless a
 * line panicked (which ends the program before the window is finished), the
 * window then shows its "empty" message when no row was appended, and a wipe
 * button otherwise.
 */
module Listing {
  import opened Wrappers
  import opened Oracles
  import opened Classify
  import Lines
  import opened CopyOnClick
  import WipeConfirm

  const EntryPath: string := "/tmp/clip-entry.bin"
  const ImagePath: string := "/tmp/clipimg.png"

  /**
   * What the listing has produced so far: the rows appended to the list box,
   * the files it wrote (path to contents), and whether it has panicked.
   */
  datatype Run = Run(rows: seq<Row>, files: map<string, Bytes>, panicked: bool)

  /** The decode child for `line` starts with both its standard input and output piped. */
  predicate Piped(h: Host, line: string)
  {
    h.decodeSpawn(line) == Spawned(true, true)
  }

  /**
   * Processing `line` panics: the decode child cannot be started, or it can but
   * the staging file cannot be written.
   */
  predicate Aborts(h: Host, line: string)
  {
    h.decodeSpawn(line).SpawnFailed? || (Piped(h, line) && !h.tmpWritable)
  }

  /** The MIME type the sniffer reports for the decoded bytes of `line`. */
  function MimeFor(h: Host, line: string): string
  {
    MimeOf(h.sniff(DecodeOutput(h, line)))
  }

  /** The row shown for a line whose decode child has its pipes. */
  function RowOf(h: Host, line: string): Row
  {
    RowFor(line, MimeFor(h, line), EntryPath)
  }

  /** One iteration of the loop over the identifier lines. */
  function Process(h: Host, r: Run, line: string): Run
  {
    if r.panicked then r
    else if Aborts(h, line) then r.(panicked := true)
    else if !Piped(h, line) then r
    else
      var bytes := DecodeOutput(h, line);
      var staged := r.files[EntryPath := bytes];
      var mime := MimeOf(h.sniff(staged[EntryPath]));
      r.(rows := r.rows + [RowFor(line, mime, EntryPath)],
         files := if IsImageMime(mime) then staged[ImagePath := bytes] else staged)
  }

  /** The loop over the lines `ls`, in order, from `start`. */
  function Listed(h: Host, start: Run, ls: seq<string>): Run
  {
    if ls == [] then start else Process(h, Listed(h, start, ls[..|ls| - 1]), ls[|ls| - 1])
  }

  /** The lines whose decode child has both pipes, in their order: the lines that get a row. */
  function Kept(h: Host, ls: seq<string>): (ks: seq<string>)
    ensures |ks| <= |ls|
    ensures forall k :: 0 <= k < |ks| ==> ks[k] in ls && Piped(h, ks[k])
  {
    if ls == [] then []
    else Kept(h, ls[..|ls| - 1]) + (if Piped(h, ls[|ls| - 1]) then [ls[|ls| - 1]] else [])
  }

  /** The lines among `ks` whose bytes sniff as an image, in their order. */
  function Images(h: Host, ks: seq<string>): seq<string>
  {
    if ks == [] then []
    else Images(h, ks[..|ks| - 1]) + (if IsImageMime(MimeFor(h, ks[|ks| - 1])) then [ks[|ks| - 1]] else [])
  }

  /** The rows for the lines `ks`, one each, in order. */
  function RowsOf(h: Host, ks: seq<string>): seq<Row>
  {
    seq(|ks|, k requires 0 <= k < |ks| => RowOf(h, ks[k]))
  }

  /** The window after activation: no row at first, then the loop if `cliphist list` ran. */
  function Activated(h: Host, listOutput: Option<string>, files0: map<string, Bytes>): Run
  {
    var start := Run([], files0, false);
    match listOutput
    case None => start
    case Some(out) => Listed(h, start, Lines.Lines(out))
  }

  /** The window gets a wipe button when, without a panic, a row was appended. */
  predicate ShowsWipeButton(r: Run)
  {
    !r.panicked && r.rows != []
  }

  /** The window shows its "empty" message when, without a panic, no row was appended. */
  predicate ShowsEmptyMessage(r: Run)
  {
    !r.panicked && r.rows == []
  }

  /** Every line whose decode child has both pipes is kept. */
  lemma {:induction false} KeptComplete(h: Host, ls: seq<string>)
    ensures forall k :: 0 <= k < |ls| && Piped(h, ls[k]) ==> ls[k] in Kept(h, ls)
  {
    if ls != [] {
      var init := ls[..|ls| - 1];
      KeptComplete(h, init);
      forall k | 0 <= k < |ls| && Piped(h, ls[k]) ensures ls[k] in Kept(h, ls) {
        if k < |init| {
          assert ls[k] == init[k];
        }
      }
    }
  }

  /**
   * Keeping lines is an in-order filter: the kept lines of `a + b` are the kept
   * lines of `a` followed by those of `b` (and, by `KeptOne`, a single line is
   * kept exactly when its decode child has both pipes).
   */
  lemma {:induction false} KeptAppend(h: Host, a: seq<string>, b: seq<string>)
    ensures Kept(h, a + b) == Kept(h, a) + Kept(h, b)
  {
    if b == [] {
      assert a + b == a;
    } else {
      var b' := b[..|b| - 1];
      assert (a + b)[..|a + b| - 1] == a + b';
      assert (a + b)[|a + b| - 1] == b[|b| - 1];
      KeptAppend(h, a, b');
    }
  }

  /** A single line is kept exactly when its decode child has both pipes. */
  lemma KeptOne(h: Host, l: string)
    ensures Kept(h, [l]) == if Piped(h, l) then [l] else []
  {
    assert [l][..0] == [];
  }

  /** Processing the lines `a + b` is processing `a`, then `b`. */
  lemma {:induction false} ListedSplit(h: Host, start: Run, a: seq<string>, b: seq<string>)
    ensures Listed(h, start, a + b) == Listed(h, Listed(h, start, a), b)
  {
    if b == [] {
      assert a + b == a;
    } else {
      assert (a + b)[..|a + b| - 1] == a + b[..|b| - 1];
      assert (a + b)[|a + b| - 1] == b[|b| - 1];
      ListedSplit(h, start, a, b[..|b| - 1]);
    }
  }

  /** After a panic nothing more happens. */
  lemma {:induction false} PanicIsFinal(h: Host, r: Run, ls: seq<string>)
    requires r.panicked
    ensures Listed(h, r, ls) == r
  {
    if ls != [] {
      PanicIsFinal(h, r, ls[..|ls| - 1]);
    }
  }

  /** The listing panics exactly when some line aborts (and it did not start panicked). */
  lemma {:induction false} ListedPanicIff(h: Host, start: Run, ls: seq<string>)
    ensures Listed(h, start, ls).panicked <==>
      (start.panicked || exists k :: 0 <= k < |ls| && Aborts(h, ls[k]))
  {
    if ls != [] {
      var init := ls[..|ls| - 1];
      ListedPanicIff(h, start, init);
      if exists k :: 0 <= k < |init| && Aborts(h, init[k]) {
        var k :| 0 <= k < |init| && Aborts(h, init[k]);
        assert ls[k] == init[k];
      }
      if exists k :: 0 <= k < |ls| && Aborts(h, ls[k]) {
        var k :| 0 <= k < |ls| && Aborts(h, ls[k]);
        if k < |init| {
          assert init[k] == ls[k];
        }
      }
    }
  }

  /**
   * Without a panic, the rows appended are exactly one row per kept line, in the
   * order of the lines: lines whose decode child lacks a pipe are skipped, and
   * every other line, stale or not, gets its row.
   */
  lemma {:induction false} ListedRows(h: Host, start: Run, ls: seq<string>)
    requires !Listed(h, start, ls).panicked
    ensures Listed(h, start, ls).rows == start.rows + RowsOf(h, Kept(h, ls))
  {
    if ls == [] {
      assert RowsOf(h, []) == [];
    } else {
      var init := ls[..|ls| - 1];
      var line := ls[|ls| - 1];
      ListedRows(h, start, init);
      if Piped(h, line) {
        assert RowsOf(h, Kept(h, ls)) == RowsOf(h, Kept(h, init)) + [RowOf(h, line)];
      } else {
        assert Kept(h, ls) == Kept(h, init);
      }
    }
  }

  /**
   * Without a panic, every staged entry overwrites the same staging file, so it
   * ends up holding the bytes of the last kept line; no other file but the
   * image copy changes, and nothing at all is written when no line was kept.
   */
  lemma {:induction false} ListedStagesLastEntry(h: Host, start: Run, ls: seq<string>)
    requires !Listed(h, start, ls).panicked
    ensures var f := Listed(h, start, ls).files;
      && (forall p :: p != EntryPath && p != ImagePath ==>
            (p in f <==> p in start.files) && (p in f ==> f[p] == start.files[p]))
      && (Kept(h, ls) == [] ==> f == start.files)
      && (Kept(h, ls) != [] ==>
            EntryPath in f && f[EntryPath] == DecodeOutput(h, Kept(h, ls)[|Kept(h, ls)| - 1]))
  {
    if ls != [] {
      ListedStagesLastEntry(h, start, ls[..|ls| - 1]);
    }
  }

  /**
   * Without a panic, the image copy holds the bytes of the last kept line that
   * sniffed as an image, and is untouched when there was none.
   */
  lemma {:induction false} ListedCopiesLastImage(h: Host, start: Run, ls: seq<string>)
    requires !Listed(h, start, ls).panicked
    ensures var f := Listed(h, start, ls).files;
      var images := Images(h, Kept(h, ls));
      && (images == [] ==>
            (ImagePath in f <==> ImagePath in start.files) &&
            (ImagePath in f ==> f[ImagePath] == start.files[ImagePath]))
      && (images != [] ==>
            ImagePath in f && f[ImagePath] == DecodeOutput(h, images[|images| - 1]))
  {
    if ls != [] {
      var init := ls[..|ls| - 1];
      var line := ls[|ls| - 1];
      ListedCopiesLastImage(h, start, init);
      assert EntryPath != ImagePath;
      if Piped(h, line) {
        var ks := Kept(h, init) + [line];
        assert Kept(h, ls) == ks;
        assert ks[..|ks| - 1] == Kept(h, init);
        assert Images(h, ks) == Images(h, Kept(h, init)) +
          (if IsImageMime(MimeFor(h, line)) then [line] else []);
      } else {
        assert Kept(h, ls) == Kept(h, init);
      }
    }
  }

  /**
   * The window shows a wipe button exactly when `cliphist list` ran, no line
   * aborted and at least one line kept its decode pipes. It shows the "empty"
   * message exactly when `cliphist list` could not be run, or no line aborted
   * and none was kept. When a line aborts, the panic ends the program before
   * either is shown.
   */
  lemma WipeButtonIffSomeRow(h: Host, listOutput: Option<string>, files0: map<string, Bytes>)
    ensures ShowsWipeButton(Activated(h, listOutput, files0)) <==>
      (listOutput.Some? &&
       (forall k :: 0 <= k < |Lines.Lines(listOutput.value)| ==> !Aborts(h, Lines.Lines(listOutput.value)[k])) &&
       Kept(h, Lines.Lines(listOutput.value)) != [])
    ensures ShowsEmptyMessage(Activated(h, listOutput, files0)) <==>
      (listOutput.None? ||
       ((forall k :: 0 <= k < |Lines.Lines(listOutput.value)| ==> !Aborts(h, Lines.Lines(listOutput.value)[k])) &&
        Kept(h, Lines.Lines(listOutput.value)) == []))
    ensures !(ShowsWipeButton(Activated(h, listOutput, files0)) && ShowsEmptyMessage(Activated(h, listOutput, files0)))
  {
    if listOutput.Some? {
      var ls := Lines.Lines(listOutput.value);
      var start := Run([], files0, false);
      ListedPanicIff(h, start, ls);
      if !Listed(h, start, ls).panicked {
        ListedRows(h, start, ls);
        assert |RowsOf(h, Kept(h, ls))| == |Kept(h, ls)|;
      }
    }
  }

  /**
   * After activation without a panic, there is at most one row per identifier
   * line; row `i` captured the `i`-th kept line, is a picture of the staging
   * file exactly when that line's bytes sniff as an image, and otherwise shows
   * the line itself; and with every pipe in place a click on it copies that
   * line's stored entry.
   */
  lemma ActivatedRows(h: Host, out: string, files0: map<string, Bytes>, i: nat, clip: Bytes)
    requires !Activated(h, Some(out), files0).panicked
    requires i < |Activated(h, Some(out), files0).rows|
    ensures |Activated(h, Some(out), files0).rows| <= |Lines.Lines(out)|
    ensures var row := Activated(h, Some(out), files0).rows[i];
      && row.id in Lines.Lines(out)
      && i < |Kept(h, Lines.Lines(out))| && row.id == Kept(h, Lines.Lines(out))[i]
      && (row.view.Picture? <==> IsImageMime(MimeFor(h, row.id)))
      && (row.view.Picture? ==> row.view.path == EntryPath)
      && (row.view.Label? ==> row.view.text == row.id)
      && (Connected(h, row.id) ==> ClickEffect(h, row.id, clip) == Some(DecodeOutput(h, row.id)))
  {
    ListedRows(h, Run([], files0, false), Lines.Lines(out));
  }

  /** The application window with the state the source changes in place. */
  class ClipperWindow {
    var rows: seq<Row>
    var files: map<string, Bytes>
    var panicked: bool
    var clipboard: Bytes
    var wipeButton: WipeConfirm.WipeButton?
    var emptyMessage: bool

    function Snapshot(): Run
      reads this
    {
      Run(rows, files, panicked)
    }

    /**
     * The `connect_activate` handler: list, build the rows, then choose between
     * the "empty" message and the wipe button.
     */
    constructor Activate(h: Host, listOutput: Option<string>, files0: map<string, Bytes>, clipboard0: Bytes)
      ensures Snapshot() == Activated(h, listOutput, files0)
      ensures clipboard == clipboard0
      ensures (wipeButton != null) == ShowsWipeButton(Snapshot())
      ensures emptyMessage == ShowsEmptyMessage(Snapshot())
      ensures wipeButton != null ==>
        fresh(wipeButton) && wipeButton.Valid() && wipeButton.State() == WipeConfirm.Initial
    {
      rows := [];
      files := files0;
      panicked := false;
      clipboard := clipboard0;
      wipeButton := null;
      emptyMessage := false;
      new;
      match listOutput {
        case None =>
        case Some(out) =>
          AppendEntries(h, Lines.Lines(out));
      }
      if !panicked {
        if rows == [] {
          emptyMessage := true;
        } else {
          wipeButton := new WipeConfirm.WipeButton();
        }
      }
    }

    /** The `for line in entries.lines()` loop. */
    method AppendEntries(h: Host, ls: seq<string>)
      modifies this
      ensures Snapshot() == Listed(h, old(Snapshot()), ls)
      ensures clipboard == old(clipboard) && wipeButton == old(wipeButton)
      ensures emptyMessage == old(emptyMessage)
    {
      var i := 0;
      while i < |ls| && !panicked
        invariant 0 <= i <= |ls|
        invariant Snapshot() == Listed(h, old(Snapshot()), ls[..i])
        invariant clipboard == old(clipboard) && wipeButton == old(wipeButton)
        invariant emptyMessage == old(emptyMessage)
      {
        var line := ls[i];
        match h.decodeSpawn(line) {
          case SpawnFailed =>
            // `expect("Failed to start cliphist decode")`
            panicked := true;
          case Spawned(toDecoder, fromDecoder) =>
            if toDecoder && fromDecoder {
              var buffer := DecodeOutput(h, line);
              if !h.tmpWritable {
                // `expect("Failed to write to tmp file")`
                panicked := true;
              } else {
                files := files[EntryPath := buffer];
                var mime := MimeOf(h.sniff(files[EntryPath]));
                if IsImageMime(mime) {
                  files := files[ImagePath := files[EntryPath]];
                  rows := rows + [Row(line, Picture(EntryPath))];
                } else {
                  rows := rows + [Row(line, Label(line))];
                }
              }
            }
        }
        assert ls[..i + 1][..i] == ls[..i];
        i := i + 1;
      }
      if i < |ls| {
        ListedSplit(h, old(Snapshot()), ls[..i], ls[i..]);
        PanicIsFinal(h, Listed(h, old(Snapshot()), ls[..i]), ls[i..]);
        assert ls[..i] + ls[i..] == ls;
      } else {
        assert ls[..i] == ls;
      }
    }

    /**
     * The row's `connect_pressed` handler: decode the row's captured identifier
     * again and pipe the bytes into `wl-copy`. Only the clipboard (or the
     * panic flag) changes; the rows, the staged files and the wipe button do not.
     */
    method ClickRow(h: Host, i: nat)
      requires i < |rows| && !panicked
      modifies this`clipboard, this`panicked
      ensures ClickEffect(h, rows[i].id, old(clipboard)) == (if panicked then None else Some(clipboard))
      ensures panicked ==> clipboard == old(clipboard)
      ensures rows == old(rows) && files == old(files) && wipeButton == old(wipeButton)
      ensures emptyMessage == old(emptyMessage)
    {
      var content := rows[i].id;
      match h.decodeSpawn(content) {
        case SpawnFailed =>
          // `expect("Failed to start cliphist decode")`
          panicked := true;
        case Spawned(toDecoder, fromDecoder) =>
          var input := if toDecoder then content else "";
          if fromDecoder {
            match h.wlCopySpawn {
              case SpawnFailed =>
                // `expect("Failed to run wl-copy")`
                panicked := true;
              case Spawned(toSink, _) =>
                if toSink {
                  clipboard := DecodeOutput(h, input);
                }
            }
          }
      }
    }
  }
}
