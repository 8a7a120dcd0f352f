/**
 * The programs the clipboard browser shells out to, replaced by oracles.
 *
 * `cliphist decode` is a lookup in the history store, the `file` sniffer is a
 * function of the bytes it is given, and whether a child process can be
 * started (and with which of its piped standard streams) is given per call.
 */
module Oracles {
  import opened Wrappers

  type Bytes = seq<bv8>

  /**
   * The result of spawning a child process with piped streams: either the
   * spawn failed, or the child runs and each of its standard input and
   * standard output pipes is present or not.
   */
  datatype Spawn = SpawnFailed | Spawned(stdin: bool, stdout: bool)

  datatype Host = Host(
    /** What `cliphist decode` prints for each identifier it knows. */
    store: map<string, Bytes>,
    /** What happens when `cliphist decode` is started to decode a given line. */
    decodeSpawn: string -> Spawn,
    /** What happens when `wl-copy` is started. */
    wlCopySpawn: Spawn,
    /** `file --mime-type -b` on the given contents, as UTF-8; None when it cannot run or its output is not UTF-8. */
    sniff: Bytes -> Option<string>,
    /** Whether the staging file under /tmp can be written. */
    tmpWritable: bool
  )

  /**
   * The bytes `cliphist decode` writes to standard output when it reads
   * `input` on standard input: the stored entry, or nothing at all for an
   * identifier the store does not know (its complaint goes to standard error).
   */
  function DecodeOutput(h: Host, input: string): Bytes
  {
    if input in h.store then h.store[input] else []
  }
}
