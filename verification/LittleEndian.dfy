/** Little-endian words as they lie in memory and on the wire, of 32 and of 64
    bits: the bytes of a word, the word some bytes hold, that each undoes the
    other, and the copy into memory that the drivers use for both. */
module LittleEndian {
  import opened Bits

  function LE32(v: u32): (s: seq<u8>)
    ensures |s| == 4
  {
    [v % 0x100, (v / 0x100) % 0x100, (v / 0x1_0000) % 0x100, v / 0x100_0000]
  }

  function Word(mem: seq<u8>, at: nat): u32
    requires at + 4 <= |mem|
  {
    var b0: int, b1: int, b2: int, b3: int := mem[at], mem[at + 1], mem[at + 2], mem[at + 3];
    b0 + 0x100 * b1 + 0x1_0000 * b2 + 0x100_0000 * b3
  }

  function LE64(v: u64): (s: seq<u8>)
    ensures |s| == 8
  {
    LE32(v % U32) + LE32(v / U32)
  }

  function Word64(mem: seq<u8>, at: nat): u64
    requires at + 8 <= |mem|
  {
    Word(mem, at) + U32 * Word(mem, at + 4)
  }

  lemma DigitsOf32(v: u32)
    ensures v == v % 0x100 + 0x100 * ((v / 0x100) % 0x100) + 0x1_0000 * ((v / 0x1_0000) % 0x100) + 0x100_0000 * (v / 0x100_0000)
  {
  }

  /** Reading back a stored word gives the word. */
  lemma WordOfLE32(mem: seq<u8>, at: nat, v: u32)
    requires at + 4 <= |mem| && mem[at..at + 4] == LE32(v)
    ensures Word(mem, at) == v
  {
    DigitsOf32(v);
    var s := mem[at..at + 4];
    assert mem[at] == s[0] && mem[at + 1] == s[1] && mem[at + 2] == s[2] && mem[at + 3] == s[3];
  }

  lemma WordOfLE64(mem: seq<u8>, at: nat, v: u64)
    requires at + 8 <= |mem| && mem[at..at + 8] == LE64(v)
    ensures Word64(mem, at) == v
  {
    assert mem[at..at + 4] == LE64(v)[..4] == LE32(v % U32);
    assert mem[at + 4..at + 8] == LE64(v)[4..] == LE32(v / U32);
    WordOfLE32(mem, at, v % U32);
    WordOfLE32(mem, at + 4, v / U32);
  }

  /** memcpy of `data` into `mem` from index `at` on. */
  method MemCpy(mem: array<u8>, at: nat, data: seq<u8>)
    requires at + |data| <= mem.Length
    modifies mem
    ensures forall c :: 0 <= c < mem.Length ==>
              mem[c] == if at <= c < at + |data| then data[c - at] else old(mem[c])
  {
    for i := 0 to |data|
      invariant forall c :: 0 <= c < mem.Length ==>
                  mem[c] == if at <= c < at + i then data[c - at] else old(mem[c])
    {
      mem[at + i] := data[i];
    }
  }
}
