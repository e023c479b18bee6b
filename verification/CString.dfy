/** Zero-terminated strings inside buffers. */
module CString {

  const NUL: char := '\0'

  /** The index of the terminator. */
  function NulAt(buffer: seq<char>): (n: nat)
    requires NUL in buffer
    ensures n < |buffer| && buffer[n] == NUL
    ensures forall j :: 0 <= j < n ==> buffer[j] != NUL
    decreases |buffer|
  {
    if buffer[0] == NUL then 0 else 1 + NulAt(buffer[1..])
  }

  /** The string a buffer holds, without its terminator. */
  function Text(buffer: seq<char>): (s: string)
    requires NUL in buffer
    ensures NUL !in s && |s| < |buffer|
  {
    buffer[..NulAt(buffer)]
  }

  predicate IsText(s: string) {
    NUL !in s
  }

  /** The first terminator is where the string ends, whatever follows it. */
  lemma NulAtIs(buffer: seq<char>, n: nat)
    requires n < |buffer| && buffer[n] == NUL
    requires forall j :: 0 <= j < n ==> buffer[j] != NUL
    ensures NulAt(buffer) == n && Text(buffer) == buffer[..n]
  {
  }
}
