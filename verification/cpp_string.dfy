/** The parts of `std::string` and of the C receive buffer that `handleClient` relies on,
    each with the standard library's own edge cases. One byte of the transport is one `char`. */
module CppString {
  import opened Wrappers

  /** The size of `char buffer[1024]` in `handleClient`. */
  const BufferSize: nat := 1024

  /** Every `recv` asks for `sizeof(buffer) - 1` bytes, keeping one cell for the terminator. */
  const MaxRead: nat := BufferSize - 1

  const Nul: char := '\0'

  function Min(a: nat, b: nat): nat {
    if a <= b then a else b
  }

  /** `s.substr(start, count)`: the characters from `start` on, at most `count` of them.
      A `start` past the end throws `std::out_of_range`, which the requires rules out. */
  function Substr(s: string, start: nat, count: nat): (r: string)
    requires start <= |s|
    ensures |r| == Min(count, |s| - start)
    ensures forall i :: 0 <= i < |r| ==> r[i] == s[start + i]
  {
    if count <= |s| - start then s[start..start + count] else s[start..]
  }

  /** `s.find(c, from)`: the first index at or after `from` that holds `c`, or `npos` (None).
      A `from` at or past the end finds nothing. */
  function Find(s: string, c: char, from: nat): (r: Option<nat>)
    ensures r.Some? ==> from <= r.value < |s| && s[r.value] == c
    ensures r.Some? ==> forall i :: from <= i < r.value ==> s[i] != c
    ensures r.None? <==> forall i :: from <= i < |s| ==> s[i] != c
    decreases |s| - from
  {
    if from >= |s| then None
    else if s[from] == c then Some(from)
    else Find(s, c, from + 1)
  }

  /** The characters of a C string before its terminator: what `std::string(buf)` copies. */
  function UntilNul(buf: string): (r: string)
    requires Nul in buf
    ensures Nul !in r
    ensures |r| < |buf| && buf[|r|] == Nul
    ensures r == buf[..|r|]
  {
    if buf[0] == Nul then [] else [buf[0]] + UntilNul(buf[1..])
  }

  /** The string `handleClient` builds from one read of `chunk` (`valread == |chunk|`):
      the buffer is terminated at `buffer[valread]`, then copied up to its first NUL.
      The requires is the buffer bound `recv` keeps: the terminator lands inside the buffer. */
  function ReadString(chunk: string): (r: string)
    requires |chunk| <= MaxRead
    ensures |r| <= |chunk| && |r| <= MaxRead
    ensures r == chunk[..|r|]
    ensures Nul !in r
    ensures |r| < |chunk| ==> chunk[|r|] == Nul
    ensures Nul !in chunk ==> r == chunk
  {
    var buffer := chunk + [Nul];
    UntilNul(buffer)
  }

}
