/** Headers that an allocator hides among its users' bytes, keyed by address. Any write destroys the headers
    it overlaps, so a header is only found again if nothing has touched its bytes since. */
module HeaderMemory {
  /** A range of bytes handed out, with the alignment asked for. */
  datatype Span = Span(start: nat, size: nat, alignment: nat)

  /** What is left of headers `n` bytes long once the bytes `[lo, hi)` have been overwritten. */
  function Scribble<H>(mem: map<nat, H>, lo: nat, hi: nat, n: nat): map<nat, H> {
    map a | a in mem && (a + n <= lo || hi <= a) :: mem[a]
  }

  function Store<H>(mem: map<nat, H>, at: nat, n: nat, h: H): map<nat, H> {
    Scribble(mem, at, at + n, n)[at := h]
  }
}
