/** Shared vocabulary of the text-buffer model: raw bytes, an optional value,
    column clamping, the reference splice and C-string lengths. */
module Base {

  /** One raw byte of a line; the buffer attaches no encoding to it. */
  newtype byte = b: int | 0 <= b < 256

  const NUL: byte := 0
  const NEWLINE: byte := 10
  const SPACE: byte := 32

  /** Absence is a value, not an error (the C code returns NULL). */
  datatype Option<T> = None | Some(value: T)

  /** Constrain `x` into `[0, bound]` without signalling anything. */
  function Clamp(x: nat, bound: nat): (c: nat)
    ensures c <= bound
    ensures x <= bound ==> c == x
    ensures x > bound ==> c == bound
  {
    if x > bound then bound else x
  }

  /** Reference definition of inserting `t` into `s` before index `at`. */
  function Splice(s: seq<byte>, at: nat, t: seq<byte>): seq<byte>
    requires at <= |s|
  {
    s[..at] + t + s[at..]
  }

  /** The bytes `strlen` counts in a NUL-terminated buffer: everything before
      the first NUL. */
  function CString(buf: seq<byte>): (s: seq<byte>)
    requires NUL in buf
    ensures |s| < |buf| && buf[|s|] == NUL
    ensures s == buf[..|s|]
    ensures NUL !in s
  {
    if buf[0] == NUL then [] else [buf[0]] + CString(buf[1..])
  }

  /** `strlen` stops at the first NUL. */
  lemma CStringStopsAtFirstNul(buf: seq<byte>, k: nat)
    requires k < |buf| && buf[k] == NUL && NUL !in buf[..k]
    ensures CString(buf) == buf[..k]
  {
  }
}
