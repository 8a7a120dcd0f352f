/**
 * Copy on click: a row's handler decodes the row's own identifier again and
 * streams the bytes into `wl-copy`, which makes them the clipboard contents.
 */
module CopyOnClick {
  import opened Wrappers
  import opened Oracles

  /**
   * The clipboard after one click on the row whose identifier is `id`, starting
   * from `clip`; None when the handler panics because `cliphist decode` or
   * `wl-copy` cannot be started. Without a standard input pipe nothing is
   * written to the decoder, which then decodes the empty input; without a
   * standard output pipe, or without a pipe into `wl-copy`, the clipboard is
   * left alone.
   */
  function ClickEffect(h: Host, id: string, clip: Bytes): Option<Bytes>
  {
    match h.decodeSpawn(id)
    case SpawnFailed => None
    case Spawned(toDecoder, fromDecoder) =>
      if !fromDecoder then Some(clip)
      else match h.wlCopySpawn
        case SpawnFailed => None
        case Spawned(toSink, _) =>
          if !toSink then Some(clip)
          else Some(DecodeOutput(h, if toDecoder then id else ""))
  }

  /** All pipes present: the programs involved start and talk to each other. */
  predicate Connected(h: Host, id: string)
  {
    h.decodeSpawn(id) == Spawned(true, true) && h.wlCopySpawn.Spawned? && h.wlCopySpawn.stdin
  }

  /**
   * With every pipe in place a click sets the clipboard to the stored entry of
   * the row's identifier (empty when the store no longer knows it), whatever
   * the clipboard held before.
   */
  lemma ClickCopiesEntry(h: Host, id: string, clip: Bytes)
    requires Connected(h, id)
    ensures ClickEffect(h, id, clip).Some?
    ensures id in h.store ==> ClickEffect(h, id, clip) == Some(h.store[id])
    ensures id !in h.store ==> ClickEffect(h, id, clip) == Some([])
  {
  }

  /**
   * A click never panics exactly when both programs can be started (the
   * decoder's output pipe is needed before `wl-copy` is started at all).
   */
  lemma ClickPanicsIff(h: Host, id: string, clip: Bytes)
    ensures ClickEffect(h, id, clip).None? <==>
      (h.decodeSpawn(id).SpawnFailed? ||
       (h.decodeSpawn(id).stdout && h.wlCopySpawn.SpawnFailed?))
  {
  }

  /**
   * Clicking the same row twice, with the store unchanged, leaves the same
   * clipboard contents as clicking it once.
   */
  lemma ClickIdempotent(h: Host, id: string, clip: Bytes)
    requires ClickEffect(h, id, clip).Some?
    ensures ClickEffect(h, id, ClickEffect(h, id, clip).value) == ClickEffect(h, id, clip)
  {
  }

  /**
   * When a click changes the clipboard, the new contents do not depend on the
   * old ones: from any other clipboard the same click gives the same result.
   */
  lemma ClickOverwrites(h: Host, id: string, c1: Bytes, c2: Bytes)
    requires ClickEffect(h, id, c1).Some? && ClickEffect(h, id, c1).value != c1
    ensures ClickEffect(h, id, c2) == ClickEffect(h, id, c1)
  {
  }
}
