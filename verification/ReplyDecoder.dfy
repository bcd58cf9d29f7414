/** Decoding a reply into the caller's pNext chain. */
module ReplyDecoder {

  // VkMemoryResourcePropertiesMESA and VkDescriptorSetLayoutSupport, whose chains
  // each know one struct with one scalar field.

  import opened Bits
  import opened LittleEndian
  import opened VenusEncoder
  import opened WireChain

  // Structure types: the protocol's own, and VK_STRUCTURE_TYPE_* of the Vulkan registry.
  const MEMORY_RESOURCE_PROPERTIES_MESA: u32 := 1000384001
  const MEMORY_RESOURCE_ALLOCATION_SIZE_PROPERTIES_MESA: u32 := 1000384003
  const DESCRIPTOR_SET_LAYOUT_SUPPORT: u32 := 1000168001
  const VARIABLE_DESCRIPTOR_COUNT_LAYOUT_SUPPORT: u32 := 1000161004

  /** A struct of the chain and the scalar the host reports in it. */
  datatype Answer = Answer(sType: u32, value: u64)

  /** Which struct types a chain knows, and which of them hold 64-bit scalars. */
  datatype Fields = Fields(known: u32 -> bool, wide: u32 -> bool)

  function MemoryResourceProperties(): Fields {
    Fields(t => t == MEMORY_RESOURCE_ALLOCATION_SIZE_PROPERTIES_MESA, _ => true)
  }

  function LayoutSupport(): Fields {
    Fields(t => t == VARIABLE_DESCRIPTOR_COUNT_LAYOUT_SUPPORT, _ => false)
  }

  /** A scalar as the host lays it out. */
  function Scalar(wide: bool, v: u64): (bytes: seq<u8>)
    ensures |bytes| == if wide then 8 else 4
  {
    if wide then LE64(v) else LE32(v % U32)
  }

  /** The reply layout the generated size function counts. */
  function Reply(f: Fields): Kind<Answer> {
    Kind((a: Answer) => f.known(a.sType), (a: Answer) => a.sType,
         (a: Answer) => if f.wide(a.sType) then 8 else 4,
         (a: Answer) => [Scalar(f.wide(a.sType), a.value)])
  }

  function Layout(f: Fields, chain: seq<Answer>): seq<u8> { Concat(ChainWrites(Reply(f), chain)) }

  /** What a host may answer: structs the chain knows, with scalars of their width. */
  ghost predicate Meant(f: Fields, host: seq<Answer>) {
    forall a :: a in host ==> f.known(a.sType) && (!f.wide(a.sType) ==> a.value < U32)
  }

  // ---- which structs an answer is for -----------------------------------------------------------

  /** The search of the generated decoder: the first struct of the type. */
  function Search(sTypes: seq<u32>, from: nat, t: u32): (i: nat)
    requires from <= |sTypes|
    ensures from <= i <= |sTypes|
    ensures i < |sTypes| ==> sTypes[i] == t
    ensures forall k :: from <= k < i ==> sTypes[k] != t
    decreases |sTypes| - from
  {
    if from == |sTypes| || sTypes[from] == t then from else Search(sTypes, from + 1, t)
  }

  /** Every search succeeds: what the assertions of the generated code ask for. */
  predicate Answerable(sTypes: seq<u32>, from: nat, host: seq<Answer>)
    requires from <= |sTypes|
    decreases |host|
  {
    host == [] ||
    var i := Search(sTypes, from, host[0].sType);
    i < |sTypes| && Answerable(sTypes, i + 1, host[1..])
  }

  /** A place for each answer, in order, from `from` on. */
  ghost predicate Assigns(sTypes: seq<u32>, from: nat, host: seq<Answer>, at: seq<nat>) {
    && |at| == |host|
    && (forall k :: 0 <= k < |at| ==> from <= at[k] < |sTypes| && sTypes[at[k]] == host[k].sType)
    && forall j, k :: 0 <= j < k < |at| ==> at[j] < at[k]
  }

  function Places(sTypes: seq<u32>, from: nat, host: seq<Answer>): (at: seq<nat>)
    requires from <= |sTypes| && Answerable(sTypes, from, host)
    ensures Assigns(sTypes, from, host, at)
    decreases |host|
  {
    if host == [] then []
    else
      var i := Search(sTypes, from, host[0].sType);
      [i] + Places(sTypes, i + 1, host[1..])
  }

  /** Taking the first struct that fits misses no answer that could be placed. */
  lemma {:induction false} AnyPlacesWillDo(sTypes: seq<u32>, from: nat, host: seq<Answer>, at: seq<nat>)
    requires from <= |sTypes| && Assigns(sTypes, from, host, at)
    ensures Answerable(sTypes, from, host)
    decreases |host|
  {
    if host != [] {
      var i := Search(sTypes, from, host[0].sType);
      assert i <= at[0];
      forall k | 0 <= k < |at| - 1
        ensures i + 1 <= at[1..][k]
      {
        assert at[0] < at[k + 1];
      }
      AnyPlacesWillDo(sTypes, i + 1, host[1..], at[1..]);
    }
  }

  /** The decoder's assertions hold if and only if the answers are a subsequence
      of the caller's chain. */
  lemma AnswerableIffSubsequence(sTypes: seq<u32>, host: seq<Answer>)
    ensures Answerable(sTypes, 0, host) <==> exists at :: Assigns(sTypes, 0, host, at)
  {
    if Answerable(sTypes, 0, host) {
      assert Assigns(sTypes, 0, host, Places(sTypes, 0, host));
    } else {
      forall at | Assigns(sTypes, 0, host, at)
        ensures false
      {
        AnyPlacesWillDo(sTypes, 0, host, at);
      }
    }
  }

  /** The places are those of the known structs from `from` on, each with its own
      answer. */
  ghost predicate IsKnownPart(f: Fields, chain: seq<Answer>, from: nat, at: seq<nat>, host: seq<Answer>) {
    && |at| == |host|
    && (forall k :: 0 <= k < |at| ==> from <= at[k] < |chain| && host[k] == chain[at[k]])
    && forall i :: from <= i < |chain| ==> (i in at <==> f.known(chain[i].sType))
  }

  lemma OneMoreKnown(f: Fields, chain: seq<Answer>, from: nat, at: seq<nat>, host: seq<Answer>)
    requires from < |chain| && f.known(chain[from].sType) && IsKnownPart(f, chain, from + 1, at, host)
    ensures IsKnownPart(f, chain, from, [from] + at, [chain[from]] + host)
  {
  }

  lemma OneMoreUnknown(f: Fields, chain: seq<Answer>, from: nat, at: seq<nat>, host: seq<Answer>)
    requires from < |chain| && !f.known(chain[from].sType) && IsKnownPart(f, chain, from + 1, at, host)
    ensures IsKnownPart(f, chain, from, at, host)
  {
  }

  /** A host that answers a whole chain: its known structs, and nothing else, are
      the places of the answers. */
  lemma {:induction false} FullAnswer(f: Fields, sTypes: seq<u32>, chain: seq<Answer>, from: nat)
    requires from <= |sTypes| == |chain| && forall i :: 0 <= i < |chain| ==> chain[i].sType == sTypes[i]
    ensures FullyAnswered(f, sTypes, chain, from)
    decreases |chain| - from
  {
    hide FullyAnswered;
    if from < |chain| {
      FullAnswer(f, sTypes, chain, from + 1);
      FullAnswerStep(f, sTypes, chain, from);
    } else {
      NothingToAnswer(f, sTypes, chain);
    }
  }

  /** The known structs from `from` on are an answer, each at its own place. */
  ghost predicate FullyAnswered(f: Fields, sTypes: seq<u32>, chain: seq<Answer>, from: nat)
    requires from <= |sTypes| == |chain|
  {
    var host := Keep(Reply(f), chain[from..]);
    Answerable(sTypes, from, host) && IsKnownPart(f, chain, from, Places(sTypes, from, host), host)
  }

  lemma NothingToAnswer(f: Fields, sTypes: seq<u32>, chain: seq<Answer>)
    requires |sTypes| == |chain|
    ensures FullyAnswered(f, sTypes, chain, |chain|)
  {
    assert chain[|chain|..] == [];
  }

  lemma FullAnswerStep(f: Fields, sTypes: seq<u32>, chain: seq<Answer>, from: nat)
    requires from < |sTypes| == |chain| && chain[from].sType == sTypes[from]
    requires FullyAnswered(f, sTypes, chain, from + 1)
    ensures FullyAnswered(f, sTypes, chain, from)
  {
    var rest := Keep(Reply(f), chain[from + 1..]);
    KeepFrom(f, chain, from);
    hide Answerable, Places, IsKnownPart, Keep, Reply;
    if f.known(sTypes[from]) {
      FirstPlace(sTypes, from, chain[from], rest);
      OneMoreKnown(f, chain, from, Places(sTypes, from + 1, rest), rest);
    } else {
      SkipUnknown(f, sTypes, from, rest);
      OneMoreUnknown(f, chain, from, Places(sTypes, from + 1, rest), rest);
    }
  }

  /** The known structs from one place on, by whether the struct there is known. */
  lemma KeepFrom(f: Fields, chain: seq<Answer>, from: nat)
    requires from < |chain|
    ensures var rest := Keep(Reply(f), chain[from + 1..]);
      && Keep(Reply(f), chain[from..]) == (if f.known(chain[from].sType) then [chain[from]] + rest else rest)
      && forall a :: a in rest ==> f.known(a.sType)
  {
    assert chain[from..][1..] == chain[from + 1..];
    SkippedStructsDoNotMatter(Reply(f), chain[from + 1..]);
  }

  lemma FirstPlace(sTypes: seq<u32>, from: nat, first: Answer, rest: seq<Answer>)
    requires from < |sTypes| && sTypes[from] == first.sType && Answerable(sTypes, from + 1, rest)
    ensures Answerable(sTypes, from, [first] + rest)
    ensures Places(sTypes, from, [first] + rest) == [from] + Places(sTypes, from + 1, rest)
  {
    assert ([first] + rest)[1..] == rest;
    assert Search(sTypes, from, first.sType) == from;
    hide Search;
  }

  lemma SearchPast(sTypes: seq<u32>, from: nat, t: u32)
    requires from < |sTypes| && sTypes[from] != t
    ensures Search(sTypes, from, t) == Search(sTypes, from + 1, t)
  {
  }

  lemma SkipUnknown(f: Fields, sTypes: seq<u32>, from: nat, host: seq<Answer>)
    requires from < |sTypes| && !f.known(sTypes[from])
    requires forall a :: a in host ==> f.known(a.sType)
    requires Answerable(sTypes, from + 1, host)
    ensures Answerable(sTypes, from, host) && Places(sTypes, from, host) == Places(sTypes, from + 1, host)
  {
    hide Search;
    if host != [] {
      assert host[0] in host;
      SearchPast(sTypes, from, host[0].sType);
    }
  }

  /** The place of the first answer, and those of the others behind it. */
  lemma HeadPlace(f: Fields, sTypes: seq<u32>, from: nat, host: seq<Answer>)
    requires from <= |sTypes| && host != [] && Meant(f, host) && Answerable(sTypes, from, host)
    ensures var i := Search(sTypes, from, host[0].sType);
      && i < |sTypes| && Meant(f, host[1..]) && Answerable(sTypes, i + 1, host[1..])
      && Places(sTypes, from, host) == [i] + Places(sTypes, i + 1, host[1..])
  {
    assert Meant(f, host[1..]) by { assert forall a :: a in host[1..] ==> a in host; }
    hide Search, Meant;
  }

  // ---- where things lie in the layout ---------------------------------------------------------

  lemma LayoutAtKnown(f: Fields, chain: seq<Answer>)
    requires chain != [] && f.known(chain[0].sType)
    ensures Layout(f, chain) ==
            LE64(1) + LE32(chain[0].sType) + (Layout(f, chain[1..]) + Scalar(f.wide(chain[0].sType), chain[0].value))
  {
    KnownChainBytes(Reply(f), chain);
    ConcatOne(Scalar(f.wide(chain[0].sType), chain[0].value));
  }

  /** Answering a whole chain and answering its known structs is the same reply. */
  lemma LayoutOfKnown(f: Fields, chain: seq<Answer>)
    ensures Layout(f, chain) == Layout(f, Keep(Reply(f), chain))
    ensures ChainSize(Reply(f), chain) == ChainSize(Reply(f), Keep(Reply(f), chain))
  {
    SkippedStructsDoNotMatter(Reply(f), chain);
  }

  /** The size function counts exactly this layout. */
  lemma LayoutIsCounted(f: Fields, chain: seq<Answer>)
    ensures |Layout(f, chain)| == ChainSize(Reply(f), chain)
  {
    forall a | a in chain
      ensures SelfAgrees(Reply(f), a)
    {
      ConcatOne(Scalar(f.wide(a.sType), a.value));
    }
    SizeIsWritten(Reply(f), chain);
  }

  // ---- the decoder ---------------------------------------------------------------------------

  class Decoder {
    const bytes: seq<u8>
    var cur: nat
    var fatal: bool

    constructor (bytes: seq<u8>)
      ensures this.bytes == bytes && cur == 0 && !fatal
    {
      this.bytes, cur, fatal := bytes, 0, false;
    }

    /** The bytes at the cursor. */
    ghost predicate At(s: seq<u8>)
      reads this
    {
      cur + |s| <= |bytes| && bytes[cur..cur + |s|] == s
    }

    /** vn_decode_uint32_t and the other 32-bit scalars. Past the end the decoder
        turns fatal and the caller's variable keeps whatever it held. */
    method Decode32() returns (v: u32)
      modifies this
      ensures old(cur) + 4 <= |bytes| ==>
                cur == old(cur) + 4 && fatal == old(fatal) && v == Word(bytes, old(cur))
      ensures old(cur) + 4 > |bytes| ==> cur == old(cur) && fatal
    {
      if cur + 4 > |bytes| {
        fatal := true;
        v := *;
        return;
      }
      v := Word(bytes, cur);
      cur := cur + 4;
    }

    method Decode64() returns (v: u64)
      modifies this
      ensures old(cur) + 8 <= |bytes| ==>
                cur == old(cur) + 8 && fatal == old(fatal) && v == Word64(bytes, old(cur))
      ensures old(cur) + 8 > |bytes| ==> cur == old(cur) && fatal
    {
      if cur + 8 > |bytes| {
        fatal := true;
        v := *;
        return;
      }
      v := Word64(bytes, cur);
      cur := cur + 8;
    }

    /** A scalar field */
    method DecodeScalar(wide: bool, ghost expected: u64) returns (v: u64)
      requires At(Scalar(wide, expected)) && (!wide ==> expected < U32)
      modifies this
      ensures v == expected && cur == old(cur) + (if wide then 8 else 4) && fatal == old(fatal)
    {
      if wide {
        WordOfLE64(bytes, cur, expected);
        v := Decode64();
      } else {
        WordOfLE32(bytes, cur, expected);
        v := Decode32();
      }
    }
  }

  lemma SliceOfSlice(bytes: seq<u8>, c: nat, a: seq<u8>, b: seq<u8>)
    requires c + |a + b| <= |bytes| && bytes[c..c + |a + b|] == a + b
    ensures bytes[c..c + |a|] == a && bytes[c + |a|..c + |a| + |b|] == b
  {
    assert bytes[c..c + |a|] == (a + b)[..|a|];
    assert bytes[c + |a|..c + |a| + |b|] == (a + b)[|a|..];
  }

  /** The stretch `s` of the stream that starts at `c`. */
  ghost predicate Lies(bytes: seq<u8>, c: nat, s: seq<u8>) { c + |s| <= |bytes| && bytes[c..c + |s|] == s }

  /** What a stream holds at the layout of the answers: a zero flag if there is
      none, else the flag, the type of the first answer, the layout of the others
      and the first answer's scalar. */
  lemma StreamAt(f: Fields, bytes: seq<u8>, c: nat, host: seq<Answer>)
    requires Meant(f, host) && Lies(bytes, c, Layout(f, host))
    ensures c + 8 <= |bytes|
    ensures host == [] ==> Word64(bytes, c) == 0 && ChainSize(Reply(f), host) == 8
    ensures host != [] ==>
              var width := if f.wide(host[0].sType) then 8 else 4;
              var inner := ChainSize(Reply(f), host[1..]);
              && c + 12 <= |bytes|
              && Word64(bytes, c) == 1 && Word(bytes, c + 8) == host[0].sType
              && Lies(bytes, c + 12, Layout(f, host[1..]))
              && Lies(bytes, c + 12 + inner, Scalar(f.wide(host[0].sType), host[0].value))
              && ChainSize(Reply(f), host) == 12 + inner + width
              && (!f.wide(host[0].sType) ==> host[0].value < U32)
  {
    hide Layout, Scalar, ChainSize, Word, Word64;
    if host == [] {
      EndAt(f, bytes, c);
    } else {
      assert host[0] in host;
      AnswerAt(f, bytes, c, host);
    }
  }

  lemma EndAt(f: Fields, bytes: seq<u8>, c: nat)
    requires Lies(bytes, c, Layout(f, []))
    ensures c + 8 <= |bytes| && Word64(bytes, c) == 0 && ChainSize(Reply(f), []) == 8
  {
    ConcatOne(LE64(0));
    assert Layout(f, []) == LE64(0);
    WordOfLE64(bytes, c, 0);
  }

  /** A stretch of the stream that is the layout of a chain whose first struct is
      known. */
  lemma KnownAt(f: Fields, bytes: seq<u8>, c: nat, chain: seq<Answer>)
    requires chain != [] && f.known(chain[0].sType)
    requires Lies(bytes, c, Layout(f, chain))
    ensures c + 12 <= |bytes|
    ensures var inner, own := Layout(f, chain[1..]), Scalar(f.wide(chain[0].sType), chain[0].value);
      && |Layout(f, chain)| == 12 + |inner| + |own|
      && Word64(bytes, c) == 1 && Word(bytes, c + 8) == chain[0].sType
      && Lies(bytes, c + 12, inner) && Lies(bytes, c + 12 + |inner|, own)
  {
    var inner, own := Layout(f, chain[1..]), Scalar(f.wide(chain[0].sType), chain[0].value);
    var flag, kind := LE64(1), LE32(chain[0].sType);
    LayoutAtKnown(f, chain);
    SliceOfSlice(bytes, c, flag + kind, inner + own);
    SliceOfSlice(bytes, c, flag, kind);
    SliceOfSlice(bytes, c + 12, inner, own);
    WordOfLE64(bytes, c, 1);
    WordOfLE32(bytes, c + 8, chain[0].sType);
  }

  lemma AnswerAt(f: Fields, bytes: seq<u8>, c: nat, host: seq<Answer>)
    requires host != [] && f.known(host[0].sType) && Lies(bytes, c, Layout(f, host))
    ensures c + 12 <= |bytes| && Word64(bytes, c) == 1 && Word(bytes, c + 8) == host[0].sType
    ensures Lies(bytes, c + 12, Layout(f, host[1..]))
    ensures Lies(bytes, c + 12 + ChainSize(Reply(f), host[1..]), Scalar(f.wide(host[0].sType), host[0].value))
    ensures ChainSize(Reply(f), host) ==
            12 + ChainSize(Reply(f), host[1..]) + |Scalar(f.wide(host[0].sType), host[0].value)|
  {
    hide *;
    LayoutIsCounted(f, host);
    LayoutIsCounted(f, host[1..]);
    KnownAt(f, bytes, c, host);
  }

  /** The generated vn_decode_*_pnext: read the flag and a type, search the
      caller's chain from here for that type, decode what follows into the rest
      of the chain, then this struct's field.

      `sTypes` and `values` are the caller's chain in order, `from` the struct
      pNext points to; `host` is what the host answered. */
  method DecodeChain(f: Fields, dec: Decoder, sTypes: seq<u32>, values: array<u64>, from: nat, ghost host: seq<Answer>)
    requires from <= |sTypes| == values.Length
    requires Meant(f, host) && Answerable(sTypes, from, host)
    requires dec.At(Layout(f, host))
    modifies dec, values
    ensures dec.cur == old(dec.cur) + ChainSize(Reply(f), host) && dec.fatal == old(dec.fatal)
    ensures Filled(old(values[..]), values[..], Places(sTypes, from, host), host)
    decreases |sTypes| - from
  {
    hide Layout, Scalar, ChainSize, Word, Word64, Filled, Answerable, Places, Search, Meant;
    StreamAt(f, dec.bytes, dec.cur, host);
    var present := dec.Decode64();
    if present == 0 {
      NothingFilled(sTypes, from, values[..]);
      return;
    }
    HeadPlace(f, sTypes, from, host);
    var sType := dec.Decode32();
    var i := from;
    while sTypes[i] != sType
      invariant from <= i <= Search(sTypes, from, host[0].sType)
      decreases |sTypes| - i
    {
      i := i + 1;
    }
    DecodeChain(f, dec, sTypes, values, i + 1, host[1..]);
    ghost var inner := values[..];
    values[i] := dec.DecodeScalar(f.wide(sType), host[0].value);
    FilledOneMore(old(values[..]), inner, i, Places(sTypes, i + 1, host[1..]), host);
    assert values[..] == inner[i := host[0].value];
  }

  lemma NothingFilled(sTypes: seq<u32>, from: nat, before: seq<u64>)
    requires from <= |sTypes|
    ensures Answerable(sTypes, from, []) && Filled(before, before, Places(sTypes, from, []), [])
  {
  }

  lemma FilledOneMore(before: seq<u64>, inner: seq<u64>, i: nat, at: seq<nat>, host: seq<Answer>)
    requires host != [] && i < |inner| && Filled(before, inner, at, host[1..])
    requires forall k :: 0 <= k < |at| ==> i < at[k]
    ensures Filled(before, inner[i := host[0].value], [i] + at, host)
  {
  }

  /** Each answer is at its place, and no other value has changed. */
  ghost predicate Filled(before: seq<u64>, after: seq<u64>, at: seq<nat>, host: seq<Answer>) {
    && |before| == |after| && |at| == |host|
    && (forall k :: 0 <= k < |at| ==> at[k] < |after| && after[at[k]] == host[k].value)
    && forall i :: 0 <= i < |after| && i !in at ==> after[i] == before[i]
  }

  /** When the host answers a whole chain, every known struct gets its own value
      and every other one keeps what it had. */
  lemma FullAnswerFills(f: Fields, sTypes: seq<u32>, chain: seq<Answer>, before: seq<u64>, after: seq<u64>)
    requires |sTypes| == |chain| == |before| && forall i :: 0 <= i < |chain| ==> chain[i].sType == sTypes[i]
    ensures var host := Keep(Reply(f), chain);
      && Layout(f, chain) == Layout(f, host) && ChainSize(Reply(f), chain) == ChainSize(Reply(f), host)
      && Answerable(sTypes, 0, host)
      && (Filled(before, after, Places(sTypes, 0, host), host) <==>
            |after| == |before| &&
            forall i :: 0 <= i < |after| ==> after[i] == if f.known(sTypes[i]) then chain[i].value else before[i])
  {
    LayoutOfKnown(f, chain);
    FullAnswer(f, sTypes, chain, 0);
    assert chain[0..] == chain;
    var host := Keep(Reply(f), chain);
    hide Layout, ChainSize, Keep, Answerable, Places, Reply, Filled;
    FilledIff(f, chain, before, after, Places(sTypes, 0, host), host);
  }

  lemma FilledIff(f: Fields, chain: seq<Answer>, before: seq<u64>, after: seq<u64>, at: seq<nat>, host: seq<Answer>)
    requires |before| == |chain| && IsKnownPart(f, chain, 0, at, host)
    ensures Filled(before, after, at, host) <==>
            |after| == |chain| &&
            forall i :: 0 <= i < |chain| ==> after[i] == if f.known(chain[i].sType) then chain[i].value else before[i]
  {
    if Filled(before, after, at, host) {
      forall i | 0 <= i < |after| && f.known(chain[i].sType)
        ensures after[i] == chain[i].value
      {
        var k :| 0 <= k < |at| && at[k] == i;
      }
    } else if |after| == |chain| {
      if forall k :: 0 <= k < |at| ==> after[at[k]] == host[k].value {
        assert exists i :: 0 <= i < |after| && i !in at && after[i] != before[i];
      } else {
        var k :| 0 <= k < |at| && after[at[k]] != host[k].value;
        assert at[k] in at;
      }
    }
  }

  /** The whole reply struct: its type, its chain and its own 32-bit field. The
      assertion of the original on the type becomes a requirement on the reply. */
  method DecodeStruct(f: Fields, topType: u32, dec: Decoder, sTypes: seq<u32>, values: array<u64>,
                      ghost host: seq<Answer>, ghost own: u32) returns (field: u32)
    requires |sTypes| == values.Length && Meant(f, host) && Answerable(sTypes, 0, host)
    requires dec.At(LE32(topType) + (Layout(f, host) + LE32(own)))
    modifies dec, values
    ensures field == own
    ensures dec.cur == old(dec.cur) + 4 + ChainSize(Reply(f), host) + 4 && dec.fatal == old(dec.fatal)
    ensures Filled(old(values[..]), values[..], Places(sTypes, 0, host), host)
  {
    ghost var c := dec.cur;
    SliceOfSlice(dec.bytes, c, LE32(topType), Layout(f, host) + LE32(own));
    SliceOfSlice(dec.bytes, c + 4, Layout(f, host), LE32(own));
    WordOfLE32(dec.bytes, c, topType);
    LayoutIsCounted(f, host);
    hide Layout, Filled, ChainSize, Answerable, Meant, Word;
    var sType := dec.Decode32();
    assert sType == topType;
    DecodeChain(f, dec, sTypes, values, 0, host);
    WordOfLE32(dec.bytes, dec.cur, own);
    field := dec.Decode32();
  }

  /** vn_decode_VkMemoryResourcePropertiesMESA */
  method DecodeMemoryResourceProperties(dec: Decoder, sTypes: seq<u32>, sizes: array<u64>,
                                        ghost host: seq<Answer>, ghost typeBits: u32) returns (memoryTypeBits: u32)
    requires |sTypes| == sizes.Length && Meant(MemoryResourceProperties(), host) && Answerable(sTypes, 0, host)
    requires dec.At(LE32(MEMORY_RESOURCE_PROPERTIES_MESA) + (Layout(MemoryResourceProperties(), host) + LE32(typeBits)))
    modifies dec, sizes
    ensures memoryTypeBits == typeBits && dec.fatal == old(dec.fatal)
    ensures dec.cur == old(dec.cur) + 4 + ChainSize(Reply(MemoryResourceProperties()), host) + 4
    ensures Filled(old(sizes[..]), sizes[..], Places(sTypes, 0, host), host)
  {
    memoryTypeBits := DecodeStruct(MemoryResourceProperties(), MEMORY_RESOURCE_PROPERTIES_MESA, dec, sTypes, sizes,
                                   host, typeBits);
  }

  /** vn_decode_VkDescriptorSetLayoutSupport */
  method DecodeLayoutSupport(dec: Decoder, sTypes: seq<u32>, counts: array<u64>,
                             ghost host: seq<Answer>, ghost isSupported: u32) returns (supported: u32)
    requires |sTypes| == counts.Length && Meant(LayoutSupport(), host) && Answerable(sTypes, 0, host)
    requires dec.At(LE32(DESCRIPTOR_SET_LAYOUT_SUPPORT) + (Layout(LayoutSupport(), host) + LE32(isSupported)))
    modifies dec, counts
    ensures supported == isSupported && dec.fatal == old(dec.fatal)
    ensures dec.cur == old(dec.cur) + 4 + ChainSize(Reply(LayoutSupport()), host) + 4
    ensures Filled(old(counts[..]), counts[..], Places(sTypes, 0, host), host)
  {
    supported := DecodeStruct(LayoutSupport(), DESCRIPTOR_SET_LAYOUT_SUPPORT, dec, sTypes, counts, host, isSupported);
  }
}
