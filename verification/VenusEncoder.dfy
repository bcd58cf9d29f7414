/** The bounded command-stream encoder (struct uk_venus_encoder): bytes are
    appended while they fit, and the first write that does not fit stops the
    encoder for good. Scalars have a fast path of their own, and strings are
    padded to a multiple of four bytes. */
module VenusEncoder {
  import opened Bits
  import opened LittleEndian

  /** Capacity, what has been written, and the sticky overflow flag. */
  datatype Enc = Enc(cap: nat, bytes: seq<u8>, overflow: bool)

  function Fresh(cap: nat): Enc { Enc(cap, [], false) }

  /** One write. */
  function Put(e: Enc, data: seq<u8>): Enc {
    if e.overflow || data == [] then e
    else if |e.bytes| + |data| > e.cap then e.(overflow := true)
    else e.(bytes := e.bytes + data)
  }

  /** A command is encoded by a sequence of writes. */
  function PutAll(e: Enc, chunks: seq<seq<u8>>): Enc
    decreases chunks
  {
    if chunks == [] then e else PutAll(Put(e, chunks[0]), chunks[1..])
  }

  function Concat(chunks: seq<seq<u8>>): seq<u8> {
    if chunks == [] then [] else chunks[0] + Concat(chunks[1..])
  }

  ghost predicate EncOk(e: Enc) { |e.bytes| <= e.cap }

  /** Writes that fit are appended whole; otherwise the encoder ends up in
      overflow, with what it held before still in front. */
  lemma {:induction false} PutAllExact(e: Enc, chunks: seq<seq<u8>>)
    requires EncOk(e)
    ensures var e' := PutAll(e, chunks);
      && EncOk(e') && e'.cap == e.cap && e.bytes <= e'.bytes
      && (e'.overflow <==> e.overflow || |e.bytes| + |Concat(chunks)| > e.cap)
      && (!e'.overflow ==> e'.bytes == e.bytes + Concat(chunks))
      && (e.overflow ==> e' == e)
    decreases chunks
  {
    if chunks != [] {
      PutAllExact(Put(e, chunks[0]), chunks[1..]);
      assert e.bytes + chunks[0] + Concat(chunks[1..]) == e.bytes + Concat(chunks);
    }
  }

  // ---- strings ---------------------------------------------------------------------

  /** uk_venus_encode_cstring: the length with the terminator, the bytes, and
      zeroes up to a multiple of four. `None` is the null pointer. */
  datatype CString = Null | Text(chars: seq<u8>)

  function Padding(n: nat): nat { if n % 4 != 0 then 4 - n % 4 else 0 }

  function StringChunks(s: CString): seq<seq<u8>>
    requires s.Text? ==> |s.chars| + 1 < U64
  {
    match s
    case Null => [LE64(0)]
    case Text(chars) => [LE64(|chars| + 1), chars + [0], seq(Padding(|chars| + 1), _ => 0)]
  }

  /** Reading a string back: nothing for a zero length, else length - 1 bytes. */
  function ReadString(stream: seq<u8>): (CString, nat)
    requires |stream| >= 8
  {
    var n := Word64(stream, 0);
    if n == 0 || |stream| < 8 + n then (Null, 8)
    else (Text(stream[8..8 + n - 1]), 8 + n + Padding(n))
  }

  /** A string in a stream reads back as itself, takes a multiple of four bytes,
      and a null pointer is told apart from the empty string. */
  lemma StringRoundTrip(s: CString, rest: seq<u8>)
    requires s.Text? ==> |s.chars| + 1 < U64
    ensures var wire := Concat(StringChunks(s));
      |wire| % 4 == 0 && ReadString(wire + rest) == (s, |wire|)
  {
    match s
    case Null =>
      assert StringChunks(s)[1..] == [];
      assert Concat(StringChunks(s)) == LE64(0);
      assert (LE64(0) + rest)[0..8] == LE64(0);
      WordOfLE64(LE64(0) + rest, 0, 0);
    case Text(chars) =>
      ConcatThree(LE64(|chars| + 1), chars + [0], seq(Padding(|chars| + 1), _ => 0));
      TextReadsBack(chars, seq(Padding(|chars| + 1), _ => 0), rest);
  }

  lemma TextReadsBack(chars: seq<u8>, pad: seq<u8>, rest: seq<u8>)
    requires |chars| + 1 < U64 && |pad| == Padding(|chars| + 1)
    ensures var wire := LE64(|chars| + 1) + (chars + [0] + pad);
      |wire| % 4 == 0 && ReadString(wire + rest) == (Text(chars), |wire|)
  {
    var n := |chars| + 1;
    var body := chars + [0] + pad;
    PaddedLength(n);
    hide ReadString, Word64, LE64, Padding;
    assert LE64(n) + body + rest == LE64(n) + (body + rest);
    WordAtFront(n, body + rest);
    MiddleOf(LE64(n), chars, [0] + pad + rest);
    assert LE64(n) + (chars + ([0] + pad + rest)) == LE64(n) + (body + rest);
    ReadAt(LE64(n) + body + rest, chars);
  }

  lemma PaddedLength(n: nat)
    ensures (8 + n + Padding(n)) % 4 == 0
  {
  }

  lemma ReadAt(stream: seq<u8>, chars: seq<u8>)
    requires |stream| >= 9 + |chars| && Word64(stream, 0) == |chars| + 1 && stream[8..8 + |chars|] == chars
    ensures ReadString(stream) == (Text(chars), 9 + |chars| + Padding(|chars| + 1))
  {
  }

  lemma MiddleOf(a: seq<u8>, b: seq<u8>, c: seq<u8>)
    ensures (a + (b + c))[|a|..|a| + |b|] == b
  {
  }

  lemma WordAtFront(v: u64, rest: seq<u8>)
    ensures Word64(LE64(v) + rest, 0) == v
  {
    assert (LE64(v) + rest)[0..8] == LE64(v);
    WordOfLE64(LE64(v) + rest, 0, v);
  }

  lemma ConcatThree(a: seq<u8>, b: seq<u8>, c: seq<u8>)
    ensures Concat([a, b, c]) == a + (b + c)
  {
    assert [a, b, c][1..] == [b, c] && [b, c][1..] == [c];
    assert Concat([c]) == c;
  }

  // ---- the object ------------------------------------------------------------------

  class Encoder {
    const buf: array<u8>
    var pos: nat
    var overflow: bool

    ghost predicate Valid()
      reads this
    {
      pos <= buf.Length
    }

    ghost function View(): Enc
      requires Valid()
      reads this, buf
    {
      Enc(buf.Length, buf[..pos], overflow)
    }

    /** uk_venus_encoder_init */
    constructor (buf: array<u8>)
      ensures Valid() && this.buf == buf && View() == Fresh(buf.Length)
    {
      this.buf := buf;
      pos, overflow := 0, false;
    }

    /** uk_venus_encoder_reset, and a second init on the same buffer */
    method Reset()
      modifies this
      ensures Valid() && View() == Fresh(buf.Length)
    {
      pos, overflow := 0, false;
    }

    /** Structure assignment between two encoders over the same buffer. */
    method CopyFrom(enc: Encoder)
      requires enc.Valid() && enc.buf == buf
      modifies this
      ensures Valid() && View() == old(enc.View())
    {
      pos, overflow := enc.pos, enc.overflow;
    }

    /** uk_venus_encode_bytes */
    method EncodeBytes(data: seq<u8>)
      requires Valid()
      modifies this, buf
      ensures Valid() && View() == Put(old(View()), data)
    {
      if overflow || |data| == 0 { return; }
      if pos + |data| > buf.Length {
        overflow := true;
        return;
      }
      MemCpy(buf, pos, data);
      pos := pos + |data|;
    }

    /** uk_venus_encode_uint32 */
    method EncodeUint32(v: u32)
      requires Valid()
      modifies this, buf
      ensures Valid() && View() == Put(old(View()), LE32(v))
    {
      if overflow { return; }
      if pos + 4 > buf.Length {
        overflow := true;
        return;
      }
      MemCpy(buf, pos, LE32(v));
      pos := pos + 4;
    }

    /** uk_venus_encode_uint64 */
    method EncodeUint64(v: u64)
      requires Valid()
      modifies this, buf
      ensures Valid() && View() == Put(old(View()), LE64(v))
    {
      if overflow { return; }
      if pos + 8 > buf.Length {
        overflow := true;
        return;
      }
      MemCpy(buf, pos, LE64(v));
      pos := pos + 8;
    }

    /** uk_venus_encode_cstring */
    method EncodeCString(s: CString)
      requires Valid() && (s.Text? ==> |s.chars| + 1 < U64)
      modifies this, buf
      ensures Valid() && View() == PutAll(old(View()), StringChunks(s))
    {
      ghost var chunks := StringChunks(s);
      if s.Null? {
        EncodeUint64(0);
        assert PutAll(View(), chunks[1..]) == View();
        return;
      }
      var n := |s.chars| + 1;
      EncodeUint64(n);
      ghost var e1 := View();
      EncodeBytes(s.chars + [0]);
      ghost var e2 := View();
      if n % 4 != 0 {
        EncodeBytes(seq(4 - n % 4, _ => 0));
      }
      assert chunks[2] == seq(Padding(n), _ => 0);
      assert View() == Put(e2, chunks[2]);
      PutAllThree(old(View()), chunks);
    }

    /** Any command: the writes of its generated encode function, in order. */
    method EncodeAll(chunks: seq<seq<u8>>)
      requires Valid()
      modifies this, buf
      ensures Valid() && View() == PutAll(old(View()), chunks)
    {
      for i := 0 to |chunks|
        invariant Valid()
        invariant PutAll(View(), chunks[i..]) == PutAll(old(View()), chunks)
      {
        EncodeBytes(chunks[i]);
        assert chunks[i..][1..] == chunks[i + 1..];
      }
      assert chunks[|chunks|..] == [];
    }
  }

  lemma PutAllOne(e: Enc, a: seq<u8>)
    ensures PutAll(e, [a]) == Put(e, a)
  {
    assert [a][1..] == [] && PutAll(e, [a]) == PutAll(Put(e, a), []);
  }

  lemma PutAllTwo(e: Enc, a: seq<u8>, b: seq<u8>)
    ensures PutAll(e, [a, b]) == Put(Put(e, a), b)
  {
    assert [a, b][1..] == [b];
    PutAllOne(Put(e, a), b);
  }

  /** Writes in sequence. */
  lemma {:induction false} PutAllAppend(e: Enc, a: seq<seq<u8>>, b: seq<seq<u8>>)
    ensures PutAll(e, a + b) == PutAll(PutAll(e, a), b)
    decreases |a|
  {
    if a == [] {
      assert a + b == b;
    } else {
      PutAllAppend(Put(e, a[0]), a[1..], b);
      assert (a + b)[1..] == a[1..] + b;
    }
  }

  lemma PutAllThree(e: Enc, chunks: seq<seq<u8>>)
    requires |chunks| == 3
    ensures PutAll(e, chunks) == Put(Put(Put(e, chunks[0]), chunks[1]), chunks[2])
  {
    var two, one := chunks[1..], chunks[2..];
    assert two[1..] == one && one[1..] == [];
    var e1 := Put(e, chunks[0]);
    var e2 := Put(e1, two[0]);
    assert PutAll(e1, two) == PutAll(e2, one);
    assert PutAll(e2, one) == PutAll(Put(e2, one[0]), []);
  }
}
