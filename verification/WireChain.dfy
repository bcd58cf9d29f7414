/** The pNext chain walkers the protocol generator emits, once for every chain. */
module WireChain {

  // A size function, an encoder and, for the far end, a reader. What differs
  // from chain to chain (which structs are known, their own size and fields) is
  // a `Kind`.

  import opened Bits
  import opened Wrappers
  import opened LittleEndian
  import opened VenusEncoder

  /** One generated chain: its switch labels with their extension gates, and for
      each known struct the size and the writes of its `_self` functions, which
      the generator emits separately. */
  datatype Kind<!S> = Kind(known: S -> bool, stype: S -> u32, size: S -> nat, writes: S -> seq<seq<u8>>)

  // ---- the walkers ---------------------------------------------------------------------

  /** vn_sizeof_*_pnext */
  function ChainSize<S>(k: Kind<S>, chain: seq<S>): nat {
    if chain == [] then 8
    else if k.known(chain[0]) then 8 + 4 + ChainSize(k, chain[1..]) + k.size(chain[0])
    else ChainSize(k, chain[1..])
  }

  /** The writes of vn_encode_*_pnext: pointer, type, the rest of the chain, and
      only then the struct's own fields. */
  function ChainWrites<S>(k: Kind<S>, chain: seq<S>): seq<seq<u8>> {
    if chain == [] then [LE64(0)]
    else if k.known(chain[0]) then
      [LE64(1), LE32(k.stype(chain[0]))] + (ChainWrites(k, chain[1..]) + k.writes(chain[0]))
    else ChainWrites(k, chain[1..])
  }

  /** The chain without the structs the walkers skip. */
  function Keep<S>(k: Kind<S>, chain: seq<S>): seq<S> {
    if chain == [] then []
    else if k.known(chain[0]) then [chain[0]] + Keep(k, chain[1..])
    else Keep(k, chain[1..])
  }

  /** The `_self` size function agrees with the `_self` encoder on this struct. */
  ghost predicate SelfAgrees<S>(k: Kind<S>, s: S) { k.size(s) == |Concat(k.writes(s))| }

  lemma {:induction false} ConcatAppend(a: seq<seq<u8>>, b: seq<seq<u8>>)
    ensures Concat(a + b) == Concat(a) + Concat(b)
    decreases |a|
  {
    if a == [] {
      assert a + b == b;
    } else {
      ConcatAppend(a[1..], b);
      assert (a + b)[1..] == a[1..] + b;
      assert a[0] + (Concat(a[1..]) + Concat(b)) == (a[0] + Concat(a[1..])) + Concat(b);
    }
  }

  lemma ConcatTwo(a: seq<u8>, b: seq<u8>)
    ensures Concat([a, b]) == a + b
  {
    assert [a, b][1..] == [b] && Concat([b]) == b + Concat([]);
  }

  lemma ConcatOne(a: seq<u8>)
    ensures Concat([a]) == a
  {
    assert [a][1..] == [] && Concat([a]) == a + Concat([]);
  }

  /** The bytes of a chain that starts with a known struct. */
  lemma KnownChainBytes<S>(k: Kind<S>, chain: seq<S>)
    requires chain != [] && k.known(chain[0])
    ensures Concat(ChainWrites(k, chain)) ==
            LE64(1) + LE32(k.stype(chain[0])) + (Concat(ChainWrites(k, chain[1..])) + Concat(k.writes(chain[0])))
  {
    ConcatTwo(LE64(1), LE32(k.stype(chain[0])));
    ConcatAppend(ChainWrites(k, chain[1..]), k.writes(chain[0]));
    ConcatAppend([LE64(1), LE32(k.stype(chain[0]))], ChainWrites(k, chain[1..]) + k.writes(chain[0]));
  }

  /** For every chain, with skipped structs anywhere: the size function returns
      exactly the number of bytes the encoder writes. */
  lemma {:induction false} SizeIsWritten<S>(k: Kind<S>, chain: seq<S>)
    requires forall s :: s in chain && k.known(s) ==> SelfAgrees(k, s)
    ensures |Concat(ChainWrites(k, chain))| == ChainSize(k, chain)
    decreases |chain|
  {
    if chain == [] {
      ConcatOne(LE64(0));
    } else {
      SizeIsWritten(k, chain[1..]);
      if k.known(chain[0]) {
        KnownChainBytes(k, chain);
        assert SelfAgrees(k, chain[0]);
      }
    }
  }

  /** The encoding and the size are those of the chain with the skipped structs
      taken out. */
  lemma {:induction false} SkippedStructsDoNotMatter<S>(k: Kind<S>, chain: seq<S>)
    ensures ChainWrites(k, chain) == ChainWrites(k, Keep(k, chain))
    ensures ChainSize(k, chain) == ChainSize(k, Keep(k, chain))
    ensures forall s :: s in Keep(k, chain) <==> s in chain && k.known(s)
    decreases |chain|
  {
    if chain != [] {
      SkippedStructsDoNotMatter(k, chain[1..]);
      if k.known(chain[0]) {
        assert Keep(k, chain)[1..] == Keep(k, chain[1..]);
      }
      forall s
        ensures s in Keep(k, chain) <==> s in chain && k.known(s)
      {
        assert s in chain <==> s == chain[0] || s in chain[1..];
      }
    }
  }

  // ---- the far end -----------------------------------------------------------------------

  /** Reads one struct's fields given its type: the struct and the bytes used. */
  type SelfReader<!S> = (u32, seq<u8>) -> Option<(S, nat)>

  /** A reader of the wire form: the structs in chain order and the bytes used. */
  function ReadChain<S>(read: SelfReader<S>, bytes: seq<u8>): (r: Option<(seq<S>, nat)>)
    ensures r.Some? ==> r.value.1 <= |bytes|
    decreases |bytes|
  {
    if |bytes| < 8 then None
    else if Word64(bytes, 0) == 0 then Some(([], 8))
    else if |bytes| < 12 then None
    else match ReadChain(read, bytes[12..])
      case None => None
      case Some((rest, n)) =>
        match read(Word(bytes, 8), bytes[12 + n..])
        case None => None
        case Some((s, m)) => if 12 + n + m <= |bytes| then Some(([s] + rest, 12 + n + m)) else None
  }

  /** The reader undoes the struct's `_self` encoder, whatever follows. */
  ghost predicate ReadsBack<S(!new)>(k: Kind<S>, read: SelfReader<S>, s: S) {
    forall tail: seq<u8> :: read(k.stype(s), Concat(k.writes(s)) + tail) == Some((s, |Concat(k.writes(s))|))
  }

  /** Round trip: the far end recovers exactly the known structs, in order, and
      stops exactly at the end of the chain. */
  lemma {:induction false} ChainRoundTrip<S(!new)>(k: Kind<S>, read: SelfReader<S>, chain: seq<S>, tail: seq<u8>)
    requires forall s :: s in chain && k.known(s) ==> ReadsBack(k, read, s)
    ensures ReadChain(read, Concat(ChainWrites(k, chain)) + tail) ==
            Some((Keep(k, chain), |Concat(ChainWrites(k, chain))|))
    decreases |chain|
  {
    if chain == [] {
      ConcatOne(LE64(0));
      NullReads(read, tail);
    } else if !k.known(chain[0]) {
      ChainRoundTrip(k, read, chain[1..], tail);
    } else {
      var s := chain[0];
      var inner, own := Concat(ChainWrites(k, chain[1..])), Concat(k.writes(s));
      ChainRoundTrip(k, read, chain[1..], own + tail);
      assert ReadsBack(k, read, s);
      HeaderOf(k, chain, tail);
      ReadStep(read, Concat(ChainWrites(k, chain)) + tail, k.stype(s), s, Keep(k, chain[1..]), |inner|, |own|);
    }
  }

  /** How the bytes of a chain that starts with a known struct come apart. */
  lemma HeaderOf<S>(k: Kind<S>, chain: seq<S>, tail: seq<u8>)
    requires chain != [] && k.known(chain[0])
    ensures var inner, own := Concat(ChainWrites(k, chain[1..])), Concat(k.writes(chain[0]));
      var bytes := Concat(ChainWrites(k, chain)) + tail;
      && |bytes| == 12 + |inner| + |own| + |tail| && |Concat(ChainWrites(k, chain))| == 12 + |inner| + |own|
      && Word64(bytes, 0) == 1 && Word(bytes, 8) == k.stype(chain[0])
      && bytes[12..] == inner + (own + tail)
      && bytes[12 + |inner|..] == own + tail
  {
    var inner, own := Concat(ChainWrites(k, chain[1..])), Concat(k.writes(chain[0]));
    var head := LE64(1) + LE32(k.stype(chain[0]));
    KnownChainBytes(k, chain);
    assert head + (inner + own) + tail == head + (inner + own + tail);
    HeaderReads(k.stype(chain[0]), inner + own + tail, head + (inner + own) + tail);
    SplitBytes(head, inner, own, tail);
  }

  lemma SplitBytes(head: seq<u8>, inner: seq<u8>, own: seq<u8>, tail: seq<u8>)
    ensures (head + (inner + own) + tail)[|head|..] == inner + (own + tail)
    ensures (head + (inner + own) + tail)[|head| + |inner|..] == own + tail
  {
  }

  lemma ReadStep<S>(read: SelfReader<S>, bytes: seq<u8>, stype: u32, s: S, rest: seq<S>, n: nat, m: nat)
    requires 12 + n + m <= |bytes| && Word64(bytes, 0) == 1 && Word(bytes, 8) == stype
    requires ReadChain(read, bytes[12..]) == Some((rest, n))
    requires read(stype, bytes[12 + n..]) == Some((s, m))
    ensures ReadChain(read, bytes) == Some(([s] + rest, 12 + n + m))
  {
  }

  lemma NullReads<S>(read: SelfReader<S>, tail: seq<u8>)
    ensures ReadChain(read, LE64(0) + tail) == Some(([], 8))
  {
    assert (LE64(0) + tail)[0..8] == LE64(0);
    WordOfLE64(LE64(0) + tail, 0, 0);
  }

  lemma HeaderReads(stype: u32, rest: seq<u8>, bytes: seq<u8>)
    requires bytes == LE64(1) + LE32(stype) + rest
    ensures |bytes| >= 12 && Word64(bytes, 0) == 1 && Word(bytes, 8) == stype
  {
    assert bytes[0..8] == LE64(1) && bytes[8..12] == LE32(stype);
    WordOfLE64(bytes, 0, 1);
    WordOfLE32(bytes, 8, stype);
  }

  // ---- structs of one or two scalars read back ----------------------------------------------

  lemma One32(v: u32, tail: seq<u8>)
    ensures Word(Concat([LE32(v)]) + tail, 0) == v
  {
    ConcatOne(LE32(v));
    assert (LE32(v) + tail)[0..4] == LE32(v);
    WordOfLE32(LE32(v) + tail, 0, v);
  }

  lemma One64(v: u64, tail: seq<u8>)
    ensures |Concat([LE64(v)])| == 8 && Word64(Concat([LE64(v)]) + tail, 0) == v
  {
    ConcatOne(LE64(v));
    assert (LE64(v) + tail)[0..8] == LE64(v);
    WordOfLE64(LE64(v) + tail, 0, v);
  }

  lemma Two32(a: u32, b: u32, tail: seq<u8>)
    ensures Concat([LE32(a), LE32(b)]) == LE32(a) + LE32(b)
    ensures var bytes := Concat([LE32(a), LE32(b)]) + tail; Word(bytes, 0) == a && Word(bytes, 4) == b
  {
    ConcatTwo(LE32(a), LE32(b));
    var bytes := LE32(a) + LE32(b) + tail;
    assert bytes[0..4] == LE32(a) && bytes[4..8] == LE32(b);
    WordOfLE32(bytes, 0, a);
    WordOfLE32(bytes, 4, b);
  }

  lemma Two64(a: u64, b: u64, tail: seq<u8>)
    ensures Concat([LE64(a), LE64(b)]) == LE64(a) + LE64(b)
    ensures var bytes := Concat([LE64(a), LE64(b)]) + tail; Word64(bytes, 0) == a && Word64(bytes, 8) == b
  {
    ConcatTwo(LE64(a), LE64(b));
    var bytes := LE64(a) + LE64(b) + tail;
    assert bytes[0..8] == LE64(a) && bytes[8..16] == LE64(b);
    WordOfLE64(bytes, 0, a);
    WordOfLE64(bytes, 8, b);
  }

  // ---- the loops -------------------------------------------------------------------------

  /** The size walker: skip until a known struct, recurse behind it. */
  method SizeOfChain<S>(k: Kind<S>, chain: seq<S>) returns (size: nat)
    ensures size == ChainSize(k, chain)
    decreases |chain|
  {
    var i := 0;
    while i < |chain|
      invariant 0 <= i <= |chain|
      invariant ChainSize(k, chain[i..]) == ChainSize(k, chain)
    {
      assert chain[i..][1..] == chain[i + 1..];
      if k.known(chain[i]) {
        size := 8 + 4;
        var rest := SizeOfChain(k, chain[i + 1..]);
        size := size + rest;
        size := size + k.size(chain[i]);
        return;
      }
      i := i + 1;
    }
    assert chain[i..] == [];
    return 8;
  }

  /** The encode walker. */
  method EncodeChain<S>(k: Kind<S>, enc: Encoder, chain: seq<S>)
    requires enc.Valid()
    modifies enc, enc.buf
    ensures enc.Valid() && enc.View() == PutAll(old(enc.View()), ChainWrites(k, chain))
    decreases |chain|
  {
    var i := 0;
    while i < |chain|
      invariant 0 <= i <= |chain|
      invariant enc.Valid() && enc.View() == old(enc.View())
      invariant ChainWrites(k, chain[i..]) == ChainWrites(k, chain)
    {
      assert chain[i..][1..] == chain[i + 1..];
      if k.known(chain[i]) {
        ghost var inner, own := ChainWrites(k, chain[i + 1..]), k.writes(chain[i]);
        enc.EncodeUint64(1);
        enc.EncodeUint32(k.stype(chain[i]));
        PutAllTwo(old(enc.View()), LE64(1), LE32(k.stype(chain[i])));
        ghost var started := enc.View();
        EncodeChain(k, enc, chain[i + 1..]);
        enc.EncodeAll(k.writes(chain[i]));
        PutAllAppend(started, inner, own);
        PutAllAppend(old(enc.View()), [LE64(1), LE32(k.stype(chain[i]))], inner + own);
        return;
      }
      i := i + 1;
    }
    assert chain[i..] == [];
    enc.EncodeUint64(0);
    PutAllOne(old(enc.View()), LE64(0));
  }

  // ---- a struct with a chain, and the command that carries it -------------------------------

  /** vn_encode_<Info>: type, chain, own fields. */
  function InfoWrites<S>(stype: u32, k: Kind<S>, chain: seq<S>, own: seq<seq<u8>>): seq<seq<u8>> {
    [LE32(stype)] + (ChainWrites(k, chain) + own)
  }

  /** vn_sizeof_<Info> */
  function InfoSize<S>(k: Kind<S>, chain: seq<S>, ownSize: nat): nat { 4 + ChainSize(k, chain) + ownSize }

  lemma InfoSizeIsWritten<S>(stype: u32, k: Kind<S>, chain: seq<S>, own: seq<seq<u8>>, ownSize: nat)
    requires forall s :: s in chain && k.known(s) ==> SelfAgrees(k, s)
    requires ownSize == |Concat(own)|
    ensures |Concat(InfoWrites(stype, k, chain, own))| == InfoSize(k, chain, ownSize)
  {
    SizeIsWritten(k, chain);
    ConcatOne(LE32(stype));
    ConcatAppend(ChainWrites(k, chain), own);
    ConcatAppend([LE32(stype)], ChainWrites(k, chain) + own);
  }

  method EncodeInfo<S>(stype: u32, k: Kind<S>, enc: Encoder, chain: seq<S>, own: seq<seq<u8>>)
    requires enc.Valid()
    modifies enc, enc.buf
    ensures enc.Valid() && enc.View() == PutAll(old(enc.View()), InfoWrites(stype, k, chain, own))
  {
    enc.EncodeUint32(stype);
    PutAllOne(old(enc.View()), LE32(stype));
    ghost var typed := enc.View();
    EncodeChain(k, enc, chain);
    enc.EncodeAll(own);
    PutAllAppend(typed, ChainWrites(k, chain), own);
    PutAllAppend(old(enc.View()), [LE32(stype)], ChainWrites(k, chain) + own);
  }

  // ---- arrays inside structs -----------------------------------------------------------------

  /** vn_encode_uint32_t_array and vn_encode_int32_t_array: one write of all elements. */
  function LE32Array(values: seq<u32>): (bytes: seq<u8>)
    ensures |bytes| == 4 * |values|
  {
    if values == [] then [] else LE32(values[0]) + LE32Array(values[1..])
  }

  /** The size loop over an array of structs. */
  function SumSizes<T>(size: T -> nat, items: seq<T>): nat {
    if items == [] then 0 else size(items[0]) + SumSizes(size, items[1..])
  }

  /** The encode loop over an array of structs. */
  function ItemWrites<T>(writes: T -> seq<seq<u8>>, items: seq<T>): seq<seq<u8>> {
    if items == [] then [] else writes(items[0]) + ItemWrites(writes, items[1..])
  }

  /** Both loops agree if they agree on each element. */
  lemma {:induction false} SumIsWritten<T>(size: T -> nat, writes: T -> seq<seq<u8>>, items: seq<T>)
    requires forall x :: x in items ==> size(x) == |Concat(writes(x))|
    ensures SumSizes(size, items) == |Concat(ItemWrites(writes, items))|
    decreases |items|
  {
    if items != [] {
      SumIsWritten(size, writes, items[1..]);
      ConcatAppend(writes(items[0]), ItemWrites(writes, items[1..]));
    }
  }

  /** Reads n items, one after the other, and says how many bytes they took. */
  function ReadItems<T>(read: seq<u8> -> Option<(T, nat)>, bytes: seq<u8>, n: nat): (r: Option<(seq<T>, nat)>)
    ensures r.Some? ==> r.value.1 <= |bytes|
    decreases n
  {
    if n == 0 then Some(([], 0))
    else match read(bytes)
      case None => None
      case Some((x, k)) =>
        if k > |bytes| then None
        else match ReadItems(read, bytes[k..], n - 1)
          case None => None
          case Some((rest, m)) => Some(([x] + rest, k + m))
  }

  /** Reading an item undoes writing it, whatever follows. */
  ghost predicate ItemReadsBack<T(!new)>(writes: T -> seq<seq<u8>>, read: seq<u8> -> Option<(T, nat)>, x: T) {
    forall tail: seq<u8> :: read(Concat(writes(x)) + tail) == Some((x, |Concat(writes(x))|))
  }

  lemma {:induction false} ItemsReadBack<T(!new)>(writes: T -> seq<seq<u8>>, read: seq<u8> -> Option<(T, nat)>,
                                                  items: seq<T>, tail: seq<u8>)
    requires forall x :: x in items ==> ItemReadsBack(writes, read, x)
    ensures ReadItems(read, Concat(ItemWrites(writes, items)) + tail, |items|) ==
            Some((items, |Concat(ItemWrites(writes, items))|))
    decreases |items|
  {
    if items != [] {
      ItemsReadBack(writes, read, items[1..], tail);
      assert ItemReadsBack(writes, read, items[0]);
      hide ItemReadsBack, ReadItems, Concat, ItemWrites;
      FirstItemReadsBack(writes, read, items, tail);
    }
  }

  lemma FirstItemReadsBack<T(!new)>(writes: T -> seq<seq<u8>>, read: seq<u8> -> Option<(T, nat)>, items: seq<T>,
                                    tail: seq<u8>)
    requires items != [] && ItemReadsBack(writes, read, items[0])
    requires var rest := Concat(ItemWrites(writes, items[1..]));
      ReadItems(read, rest + tail, |items| - 1) == Some((items[1..], |rest|))
    ensures ReadItems(read, Concat(ItemWrites(writes, items)) + tail, |items|) ==
            Some((items, |Concat(ItemWrites(writes, items))|))
  {
    var first, rest := Concat(writes(items[0])), Concat(ItemWrites(writes, items[1..]));
    assert Concat(ItemWrites(writes, items)) == first + rest by {
      ConcatAppend(writes(items[0]), ItemWrites(writes, items[1..]));
    }
    assert read(first + (rest + tail)) == Some((items[0], |first|));
    hide *;
    ItemInFront(read, items, first, rest, tail);
  }

  lemma ItemInFront<T>(read: seq<u8> -> Option<(T, nat)>, items: seq<T>, first: seq<u8>, rest: seq<u8>, tail: seq<u8>)
    requires items != [] && read(first + (rest + tail)) == Some((items[0], |first|))
    requires ReadItems(read, rest + tail, |items| - 1) == Some((items[1..], |rest|))
    ensures ReadItems(read, (first + rest) + tail, |items|) == Some((items, |first + rest|))
  {
    hide ReadItems;
    assert (first + rest) + tail == first + (rest + tail);
    assert [items[0]] + items[1..] == items;
    ItemStep(read, first, rest + tail, items[0], items[1..], |rest|);
  }

  lemma ItemStep<T>(read: seq<u8> -> Option<(T, nat)>, first: seq<u8>, after: seq<u8>, x: T, rest: seq<T>, m: nat)
    requires read(first + after) == Some((x, |first|))
    requires ReadItems(read, after, |rest|) == Some((rest, m))
    ensures ReadItems(read, first + after, 1 + |rest|) == Some(([x] + rest, |first| + m))
  {
    ReadAnItem(read, first + after, first, after, x, |rest|);
  }

  lemma ReadAnItem<T>(read: seq<u8> -> Option<(T, nat)>, bytes: seq<u8>, first: seq<u8>, after: seq<u8>, x: T, n: nat)
    requires bytes == first + after && read(bytes) == Some((x, |first|)) && ReadItems(read, after, n).Some?
    ensures var (rest, m) := ReadItems(read, after, n).value;
      ReadItems(read, bytes, n + 1) == Some(([x] + rest, |first| + m))
  {
    assert bytes[|first|..] == after;
  }

  method SizeOfItems<T>(size: T -> nat, items: seq<T>) returns (total: nat)
    ensures total == SumSizes(size, items)
  {
    total := 0;
    for i := 0 to |items|
      invariant total + SumSizes(size, items[i..]) == SumSizes(size, items)
    {
      assert items[i..][1..] == items[i + 1..];
      total := total + size(items[i]);
    }
    assert items[|items|..] == [];
  }

  method EncodeItems<T>(writes: T -> seq<seq<u8>>, enc: Encoder, items: seq<T>)
    requires enc.Valid()
    modifies enc, enc.buf
    ensures enc.Valid() && enc.View() == PutAll(old(enc.View()), ItemWrites(writes, items))
  {
    for i := 0 to |items|
      invariant enc.Valid()
      invariant PutAll(enc.View(), ItemWrites(writes, items[i..])) == PutAll(old(enc.View()), ItemWrites(writes, items))
    {
      assert items[i..][1..] == items[i + 1..];
      PutAllAppend(enc.View(), writes(items[i]), ItemWrites(writes, items[i + 1..]));
      enc.EncodeAll(writes(items[i]));
    }
    assert items[|items|..] == [];
  }
}
