/** The virgl command stream: framed 32-bit words in a small buffer that stops at
    the first word that does not fit. A frame starts with a header that packs
    the command, the object and the number of words behind it. */
module VirglStream {
  import opened Bits
  import opened Errno
  import opened Wrappers

  /** UK_VIRGL_ENC_BUF_WORDS, UK_VIRGL_CLEAR_COLOR0 and the halves of the double 1.0. */
  const BUF_WORDS: nat := 32
  const CLEAR_COLOR0: u32 := 4
  const DEPTH_LO: u32 := 0
  const DEPTH_HI: u32 := 0x3FF0_0000

  const CCMD_CREATE_OBJECT: nat := 1
  const CCMD_SET_FRAMEBUFFER_STATE: nat := 5
  const CCMD_CLEAR: nat := 7
  const OBJECT_SURFACE: nat := 8

  /** The three calls; colours are the bit patterns of the floats passed. */
  datatype Command =
    | CreateSurface(surface: u32, resource: u32, format: u32, level: u32)
    | SetFramebuffer(surface: u32)
    | Clear(r: u32, g: u32, b: u32, a: u32)

  /** The words written so far and the sticky overflow flag. */
  datatype Stream = Stream(words: seq<u32>, overflow: bool)

  /** cmd_hdr */
  function Header(len: nat, obj: nat, cmd: nat): nat { Or(Or(Shl(len, 16), Shl(obj, 8)), cmd) }

  /** The fields of a header do not overlap. */
  lemma HeaderFields(len: nat, obj: nat, cmd: nat)
    requires len < 0x1_0000 && obj < 0x100 && cmd < 0x100
    ensures Header(len, obj, cmd) == 0x1_0000 * len + 0x100 * obj + cmd < U32
  {
    Pow2Values();
    ShlIsProduct(obj, 8);
    ShlIsProduct(len, 16);
    OrDisjoint(len, 16, Shl(obj, 8));
    var high := 0x100 * len + obj;
    ShlIsProduct(high, 8);
    assert Or(Shl(len, 16), Shl(obj, 8)) == Shl(high, 8);
    OrDisjoint(high, 8, cmd);
  }

  function HeaderWord(len: nat, obj: nat, cmd: nat): u32
    requires len < 0x1_0000 && obj < 0x100 && cmd < 0x100
  {
    HeaderFields(len, obj, cmd);
    Header(len, obj, cmd)
  }

  /** The words of a command, header first. */
  function Words(c: Command): seq<u32> {
    match c
    case CreateSurface(surface, resource, format, level) =>
      [HeaderWord(5, OBJECT_SURFACE, CCMD_CREATE_OBJECT), surface, resource, format, level, level]
    case SetFramebuffer(surface) => [HeaderWord(3, 0, CCMD_SET_FRAMEBUFFER_STATE), 1, 0, surface]
    case Clear(r, g, b, a) =>
      [HeaderWord(8, 0, CCMD_CLEAR), CLEAR_COLOR0, r, g, b, a, DEPTH_LO, DEPTH_HI, 0]
  }

  /** enc_word */
  function PutWord(s: Stream, w: u32): Stream {
    if s.overflow || |s.words| >= BUF_WORDS then s.(overflow := true) else s.(words := s.words + [w])
  }

  function PutWords(s: Stream, ws: seq<u32>): Stream
    decreases ws
  {
    if ws == [] then s else PutWords(PutWord(s, ws[0]), ws[1..])
  }

  /** A surface needs a handle and a resource. */
  predicate Refused(c: Command) { c.CreateSurface? && (c.surface == 0 || c.resource == 0) }

  /** An encode call: the new stream and the return code. */
  function Encode(s: Stream, c: Command): (Stream, int) {
    if Refused(c) then (s, EINVAL)
    else
      var s' := PutWords(s, Words(c));
      (s', if s'.overflow then -1 else 0)
  }

  // ---- the far end ---------------------------------------------------------------------------

  datatype Frame = Frame(command: nat, object_: nat, payload: seq<u32>)

  /** Walks the stream by the length in each header; stops at a frame that is not
      all there. */
  function Parse(words: seq<u32>): seq<Frame>
    decreases |words|
  {
    if words == [] then []
    else
      var header: nat := words[0];
      var len := header / 0x1_0000;
      if |words| < 1 + len then []
      else [Frame(header % 0x100, header / 0x100 % 0x100, words[1..1 + len])] + Parse(words[1 + len..])
  }

  /** What a frame means. */
  function Meaning(f: Frame): Option<Command> {
    if f.command == CCMD_CREATE_OBJECT && f.object_ == OBJECT_SURFACE && |f.payload| == 5
       && f.payload[3] == f.payload[4]
    then Some(CreateSurface(f.payload[0], f.payload[1], f.payload[2], f.payload[3]))
    else if f.command == CCMD_SET_FRAMEBUFFER_STATE && f.object_ == 0 && |f.payload| == 3 && f.payload[..2] == [1, 0]
    then Some(SetFramebuffer(f.payload[2]))
    else if f.command == CCMD_CLEAR && f.object_ == 0 && |f.payload| == 8
            && f.payload[0] == CLEAR_COLOR0 && f.payload[5..] == [DEPTH_LO, DEPTH_HI, 0]
    then Some(Clear(f.payload[1], f.payload[2], f.payload[3], f.payload[4]))
    else None
  }

  /** The commands a stream says, in order. */
  function Meanings(frames: seq<Frame>): seq<Option<Command>> {
    if frames == [] then [] else [Meaning(frames[0])] + Meanings(frames[1..])
  }

  function AllSome(commands: seq<Command>): seq<Option<Command>> {
    if commands == [] then [] else [Some(commands[0])] + AllSome(commands[1..])
  }

  // ---- runs ----------------------------------------------------------------------------------

  /** A run of encode calls on a fresh encoder, and the commands that returned 0. */
  function Run(calls: seq<Command>): Stream
    decreases |calls|
  {
    if calls == [] then Stream([], false) else Encode(Run(calls[..|calls| - 1]), calls[|calls| - 1]).0
  }

  function Accepted(calls: seq<Command>): seq<Command>
    decreases |calls|
  {
    if calls == [] then []
    else
      var before, c := calls[..|calls| - 1], calls[|calls| - 1];
      if Encode(Run(before), c).1 == 0 then Accepted(before) + [c] else Accepted(before)
  }

  function Flat(commands: seq<Command>): seq<u32>
    decreases |commands|
  {
    if commands == [] then [] else Flat(commands[..|commands| - 1]) + Words(commands[|commands| - 1])
  }

  /** The start of a command that ran out of room. */
  ghost predicate Cut(tail: seq<u32>) {
    tail == [] || exists c: Command :: |tail| < |Words(c)| && tail == Words(c)[..|tail|]
  }

  lemma {:induction false} PutWordsExact(s: Stream, ws: seq<u32>)
    requires |s.words| <= BUF_WORDS && (s.overflow ==> |s.words| == BUF_WORDS)
    ensures var s' := PutWords(s, ws);
      if s.overflow then s' == s
      else if |s.words| + |ws| <= BUF_WORDS then s' == Stream(s.words + ws, false)
      else s' == Stream(s.words + ws[..BUF_WORDS - |s.words|], true)
    decreases |ws|
  {
    if ws != [] {
      PutWordsExact(PutWord(s, ws[0]), ws[1..]);
      if !s.overflow && |s.words| < BUF_WORDS {
        assert s.words + [ws[0]] + ws[1..] == s.words + ws;
        if |s.words| + |ws| > BUF_WORDS {
          var n := BUF_WORDS - |s.words|;
          assert s.words + [ws[0]] + ws[1..][..n - 1] == s.words + ws[..n];
        }
      }
    }
  }

  /** What the buffer holds after any run: the accepted commands back to back,
      and behind them, only after an overflow, the start of the first command
      that did not fit. */
  ghost predicate Holds(s: Stream, done: seq<Command>, tail: seq<u32>) {
    && s.words == Flat(done) + tail && |s.words| <= BUF_WORDS
    && (s.overflow ==> |s.words| == BUF_WORDS && Cut(tail))
    && (!s.overflow ==> tail == [])
  }

  lemma {:induction false} RunHolds(calls: seq<Command>) returns (tail: seq<u32>)
    ensures Holds(Run(calls), Accepted(calls), tail)
    decreases |calls|
  {
    hide Words;
    tail := [];
    if calls != [] {
      var before, c := calls[..|calls| - 1], calls[|calls| - 1];
      tail := RunHolds(before);
      var s := Run(before);
      PutWordsExact(s, Words(c));
      if !Refused(c) && !s.overflow {
        if |s.words| + |Words(c)| <= BUF_WORDS {
          assert (Accepted(before) + [c])[..|Accepted(before)|] == Accepted(before);
          assert Flat(Accepted(before) + [c]) == Flat(Accepted(before)) + Words(c);
        } else {
          tail := Words(c)[..BUF_WORDS - |s.words|];
          assert Cut(tail);
        }
      }
    }
  }

  // ---- the parser recovers the commands ---------------------------------------------------------

  /** The frame a command is parsed into. */
  function FrameOf(c: Command): Frame {
    Frame(if c.CreateSurface? then CCMD_CREATE_OBJECT else if c.Clear? then CCMD_CLEAR else CCMD_SET_FRAMEBUFFER_STATE,
          if c.CreateSurface? then OBJECT_SURFACE else 0,
          Words(c)[1..])
  }

  lemma FirstWord(c: Command)
    ensures |Words(c)| > 0
    ensures var header: nat := Words(c)[0];
      && header / 0x1_0000 == |Words(c)| - 1
      && header % 0x100 == FrameOf(c).command && header / 0x100 % 0x100 == FrameOf(c).object_
  {
    hide Header;
    HeaderFields(5, OBJECT_SURFACE, CCMD_CREATE_OBJECT);
    HeaderFields(3, 0, CCMD_SET_FRAMEBUFFER_STATE);
    HeaderFields(8, 0, CCMD_CLEAR);
  }

  lemma FrameMeansCommand(c: Command)
    ensures Meaning(FrameOf(c)) == Some(c)
  {
    hide HeaderWord;
  }

  lemma ParseFrame(c: Command, rest: seq<u32>)
    ensures Parse(Words(c) + rest) == [FrameOf(c)] + Parse(rest)
  {
    hide Words;
    FirstWord(c);
    var words := Words(c) + rest;
    assert words[0] == Words(c)[0];
    assert words[1..|Words(c)|] == Words(c)[1..];
    assert words[|Words(c)|..] == rest;
  }

  lemma CutDoesNotParse(tail: seq<u32>)
    requires Cut(tail)
    ensures Parse(tail) == []
  {
    hide Words;
    if tail != [] {
      var c: Command :| |tail| < |Words(c)| && tail == Words(c)[..|tail|];
      FirstWord(c);
      assert tail[0] == Words(c)[0];
    }
  }

  lemma {:induction false} FlatFirst(c: Command, rest: seq<Command>)
    ensures Flat([c] + rest) == Words(c) + Flat(rest)
    decreases |rest|
  {
    hide Words;
    var all := [c] + rest;
    if rest == [] {
      assert all == [c] && all[..0] == [];
    } else {
      var n := |rest| - 1;
      FlatFirst(c, rest[..n]);
      assert all[..|all| - 1] == [c] + rest[..n];
    }
  }

  lemma {:induction false} FlatParses(commands: seq<Command>, tail: seq<u32>)
    requires Cut(tail)
    ensures Meanings(Parse(Flat(commands) + tail)) == AllSome(commands)
    decreases |commands|
  {
    hide Words, Meaning;
    if commands == [] {
      assert Flat(commands) + tail == tail;
      CutDoesNotParse(tail);
    } else {
      var c, rest := commands[0], commands[1..];
      assert [c] + rest == commands;
      FlatFirst(c, rest);
      assert Flat(commands) + tail == Words(c) + (Flat(rest) + tail);
      FlatParses(rest, tail);
      ParseFrame(c, Flat(rest) + tail);
      FrameMeansCommand(c);
      assert Parse(Flat(commands) + tail)[1..] == Parse(Flat(rest) + tail);
    }
  }

  /** After any sequence of calls, overflow or not, walking the headers recovers
      exactly the calls that returned 0, with their arguments, in order. */
  lemma ParserRecoversAccepted(calls: seq<Command>)
    ensures Meanings(Parse(Run(calls).words)) == AllSome(Accepted(calls))
  {
    var tail := RunHolds(calls);
    FlatParses(Accepted(calls), tail);
  }

  /** A call returns 0 exactly if its handles are there, nothing overflowed
      before and its words fit; without overflow every call that was not refused
      is in the stream. */
  lemma AcceptedIff(calls: seq<Command>, c: Command)
    ensures var s := Run(calls); var r := Encode(s, c).1;
      && (r == 0 <==> !Refused(c) && !s.overflow && |s.words| + |Words(c)| <= BUF_WORDS)
      && (r == EINVAL <==> Refused(c))
      && (r == 0 || r == EINVAL || (r == -1 && Encode(s, c).0.overflow))
  {
    var tail := RunHolds(calls);
    PutWordsExact(Run(calls), Words(c));
  }

  /** Once the stream has overflowed nothing moves any more. */
  lemma {:induction false} OverflowFreezes(calls: seq<Command>, more: seq<Command>)
    requires Run(calls).overflow
    ensures Run(calls + more) == Run(calls) && Accepted(calls + more) == Accepted(calls)
    decreases |more|
  {
    hide Words;
    if more == [] {
      assert calls + more == calls;
    } else {
      var n := |more| - 1;
      OverflowFreezes(calls, more[..n]);
      var all := calls + more;
      assert all[..|all| - 1] == calls + more[..n];
      var tail := RunHolds(calls);
      PutWordsExact(Run(calls), Words(more[n]));
    }
  }

  // ---- the struct ------------------------------------------------------------------------------

  class VirglEncoder {
    const buf: array<u32>
    var pos: nat
    var overflow: bool

    ghost predicate Valid()
      reads this
    {
      buf.Length == BUF_WORDS && pos <= BUF_WORDS && (overflow ==> pos == BUF_WORDS)
    }

    ghost function View(): Stream
      requires Valid()
      reads this, buf
    {
      Stream(buf[..pos], overflow)
    }

    /** uk_virgl_encoder_init */
    constructor ()
      ensures Valid() && fresh(buf) && View() == Stream([], false)
    {
      buf := new u32[BUF_WORDS](_ => 0);
      pos, overflow := 0, false;
    }

    method EncWord(w: u32) returns (failed: bool)
      requires Valid()
      modifies this, buf
      ensures Valid() && View() == PutWord(old(View()), w) && failed == overflow
    {
      if overflow || pos >= BUF_WORDS {
        overflow := true;
        return true;
      }
      buf[pos] := w;
      pos := pos + 1;
      return false;
    }

    /** The chain of enc_word calls of one encode function, each followed by an
        early return on failure. */
    method EncWords(ws: seq<u32>) returns (r: int)
      requires Valid() && ws != []
      modifies this, buf
      ensures Valid() && View() == PutWords(old(View()), ws)
      ensures r == if overflow then -1 else 0
    {
      for i := 0 to |ws|
        invariant Valid() && (i > 0 ==> !overflow)
        invariant PutWords(View(), ws[i..]) == PutWords(old(View()), ws)
      {
        assert ws[i..][1..] == ws[i + 1..];
        var failed := EncWord(ws[i]);
        if failed {
          PutWordsExact(View(), ws[i + 1..]);
          return -1;
        }
      }
      assert ws[|ws|..] == [];
      return 0;
    }

    /** uk_virgl_encode_create_surface */
    method CreateSurface(surface: u32, resource: u32, format: u32, level: u32) returns (r: int)
      requires Valid()
      modifies this, buf
      ensures Valid() && (View(), r) == Encode(old(View()), Command.CreateSurface(surface, resource, format, level))
    {
      if surface == 0 || resource == 0 { return EINVAL; }
      r := EncWords([HeaderWord(5, OBJECT_SURFACE, CCMD_CREATE_OBJECT), surface, resource, format, level, level]);
    }

    /** uk_virgl_encode_set_framebuffer */
    method SetFramebuffer(surface: u32) returns (r: int)
      requires Valid()
      modifies this, buf
      ensures Valid() && (View(), r) == Encode(old(View()), Command.SetFramebuffer(surface))
    {
      r := EncWords([HeaderWord(3, 0, CCMD_SET_FRAMEBUFFER_STATE), 1, 0, surface]);
    }

    /** uk_virgl_encode_clear */
    method ClearColor(r: u32, g: u32, b: u32, a: u32) returns (result: int)
      requires Valid()
      modifies this, buf
      ensures Valid() && (View(), result) == Encode(old(View()), Clear(r, g, b, a))
    {
      result := EncWords([HeaderWord(8, 0, CCMD_CLEAR), CLEAR_COLOR0, r, g, b, a, DEPTH_LO, DEPTH_HI, 0]);
    }
  }
}
