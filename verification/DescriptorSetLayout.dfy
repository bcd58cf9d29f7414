/** The VkDescriptorSetLayoutCreateInfo chain: structs with arrays, arrays of
    arrays, and bindings with optional immutable samplers. */
module DescriptorSetLayout {
  import opened Bits
  import opened Wrappers
  import opened LittleEndian
  import opened VenusEncoder
  import opened WireChain

  // Structure types: VK_STRUCTURE_TYPE_* of the Vulkan registry.
  const DESCRIPTOR_SET_LAYOUT_CREATE_INFO: u32 := 32
  const BINDING_FLAGS_CREATE_INFO: u32 := 1000161000
  const MUTABLE_DESCRIPTOR_TYPE_CREATE_INFO_EXT: u32 := 1000351002

  /** An array pointer: None is null. The element count is a field of its own. */
  type Items<T> = Option<seq<T>>

  datatype TypeList = TypeList(count: u32, types: Items<u32>)
  datatype Binding = Binding(binding: u32, descriptorType: u32, count: u32, stageFlags: u32, samplers: Items<u64>)

  datatype Extra =
    | BindingFlags(count: u32, flags: Items<u32>)
    | MutableTypes(listCount: u32, lists: Items<TypeList>)
    | Unsupported(sType: u32)

  datatype Info = Info(chain: seq<Extra>, flags: u32, count: u32, bindings: Items<Binding>)

  /** A non-null array has as many elements as its count field says. */
  predicate Counted<T>(items: Items<T>, count: u32) { items.Some? ==> |items.value| == count }

  predicate ValidList(l: TypeList) { Counted(l.types, l.count) }
  predicate ValidBinding(b: Binding) { Counted(b.samplers, b.count) }

  predicate ValidExtra(s: Extra) {
    match s
    case BindingFlags(count, flags) => Counted(flags, count)
    case MutableTypes(count, lists) =>
      Counted(lists, count) && (lists.Some? ==> forall l :: l in lists.value ==> ValidList(l))
    case Unsupported(_) => true
  }

  predicate ValidInfo(info: Info) {
    && (forall s :: s in info.chain ==> ValidExtra(s))
    && Counted(info.bindings, info.count)
    && (info.bindings.Some? ==> forall b :: b in info.bindings.value ==> ValidBinding(b))
  }

  type Gate = u32 -> bool

  /** The mutable-type struct travels if either of two extensions is offered. */
  predicate Known(has: Gate, s: Extra) {
    match s
    case BindingFlags(_, _) => true
    case MutableTypes(_, _) => has(352) || has(495)
    case Unsupported(_) => false
  }

  function TypeOf(s: Extra): u32 {
    match s
    case BindingFlags(_, _) => BINDING_FLAGS_CREATE_INFO
    case MutableTypes(_, _) => MUTABLE_DESCRIPTOR_TYPE_CREATE_INFO_EXT
    case Unsupported(t) => t
  }

  // ---- the size functions ------------------------------------------------------------------

  /** vn_sizeof_VkFlags, vn_sizeof_VkSampler */
  function SizeOf32(v: u32): nat { 4 }
  function SizeOf64(v: u64): nat { 8 }

  /** vn_sizeof_VkMutableDescriptorTypeListEXT */
  function ListSize(l: TypeList): nat { 4 + if l.types.Some? then 8 + 4 * l.count else 8 }

  /** vn_sizeof_VkDescriptorSetLayoutBinding */
  function BindingSize(b: Binding): nat {
    4 + 4 + 4 + 4 + if b.samplers.Some? then 8 + SumSizes(SizeOf64, b.samplers.value) else 8
  }

  function SelfSize(s: Extra): nat {
    match s
    case BindingFlags(_, flags) => 4 + if flags.Some? then 8 + SumSizes(SizeOf32, flags.value) else 8
    case MutableTypes(_, lists) => 4 + if lists.Some? then 8 + SumSizes(ListSize, lists.value) else 8
    case Unsupported(_) => 0
  }

  function OwnSize(info: Info): nat {
    4 + 4 + if info.bindings.Some? then 8 + SumSizes(BindingSize, info.bindings.value) else 8
  }

  // ---- the encoders ------------------------------------------------------------------------

  function Writes32(v: u32): seq<seq<u8>> { [LE32(v)] }
  function Writes64(v: u64): seq<seq<u8>> { [LE64(v)] }

  /** The array size, or zero for a null array, and the elements one by one. */
  function ArrayWrites<T>(count: u32, items: Items<T>, writes: T -> seq<seq<u8>>): seq<seq<u8>> {
    if items.Some? then [LE64(count)] + ItemWrites(writes, items.value) else [LE64(0)]
  }

  function ListWrites(l: TypeList): seq<seq<u8>> {
    [LE32(l.count)] + if l.types.Some? then [LE64(l.count), LE32Array(l.types.value)] else [LE64(0)]
  }

  function BindingWrites(b: Binding): seq<seq<u8>> {
    [LE32(b.binding), LE32(b.descriptorType)] + [LE32(b.count), LE32(b.stageFlags)]
    + ArrayWrites(b.count, b.samplers, Writes64)
  }

  function SelfWrites(s: Extra): seq<seq<u8>> {
    match s
    case BindingFlags(count, flags) => [LE32(count)] + ArrayWrites(count, flags, Writes32)
    case MutableTypes(count, lists) => [LE32(count)] + ArrayWrites(count, lists, ListWrites)
    case Unsupported(_) => []
  }

  function OwnWrites(info: Info): seq<seq<u8>> {
    [LE32(info.flags), LE32(info.count)] + ArrayWrites(info.count, info.bindings, BindingWrites)
  }

  function Chain(has: Gate): Kind<Extra> { Kind(s => Known(has, s), TypeOf, SelfSize, SelfWrites) }

  function Size(has: Gate, info: Info): nat { InfoSize(Chain(has), info.chain, OwnSize(info)) }

  function Writes(has: Gate, info: Info): seq<seq<u8>> {
    InfoWrites(DESCRIPTOR_SET_LAYOUT_CREATE_INFO, Chain(has), info.chain, OwnWrites(info))
  }

  // ---- they agree ---------------------------------------------------------------------------

  lemma ArrayAgrees<T>(count: u32, items: Items<T>, size: T -> nat, writes: T -> seq<seq<u8>>)
    requires items.Some? ==> forall x :: x in items.value ==> size(x) == |Concat(writes(x))|
    ensures |Concat(ArrayWrites(count, items, writes))| ==
            if items.Some? then 8 + SumSizes(size, items.value) else 8
  {
    if items.Some? {
      SumIsWritten(size, writes, items.value);
      ConcatOne(LE64(count));
      ConcatAppend([LE64(count)], ItemWrites(writes, items.value));
    } else {
      ConcatOne(LE64(0));
    }
  }

  lemma ScalarsAgree()
    ensures forall v: u32 :: SizeOf32(v) == |Concat(Writes32(v))|
    ensures forall v: u64 :: SizeOf64(v) == |Concat(Writes64(v))|
  {
    forall v: u32
      ensures SizeOf32(v) == |Concat(Writes32(v))|
    {
      ConcatOne(LE32(v));
    }
    forall v: u64
      ensures SizeOf64(v) == |Concat(Writes64(v))|
    {
      ConcatOne(LE64(v));
    }
  }

  lemma ListAgrees(l: TypeList)
    requires ValidList(l)
    ensures ListSize(l) == |Concat(ListWrites(l))|
  {
    ConcatOne(LE32(l.count));
    if l.types.Some? {
      ConcatTwo(LE64(l.count), LE32Array(l.types.value));
      ConcatAppend([LE32(l.count)], [LE64(l.count), LE32Array(l.types.value)]);
    } else {
      ConcatOne(LE64(0));
      ConcatAppend([LE32(l.count)], [LE64(0)]);
    }
  }

  lemma BindingAgrees(b: Binding)
    ensures BindingSize(b) == |Concat(BindingWrites(b))|
  {
    ScalarsAgree();
    ArrayAgrees(b.count, b.samplers, SizeOf64, Writes64);
    ConcatTwo(LE32(b.binding), LE32(b.descriptorType));
    ConcatTwo(LE32(b.count), LE32(b.stageFlags));
    var first, second := [LE32(b.binding), LE32(b.descriptorType)], [LE32(b.count), LE32(b.stageFlags)];
    ConcatAppend(first, second);
    ConcatAppend(first + second, ArrayWrites(b.count, b.samplers, Writes64));
  }

  lemma SelfSizeAgrees(has: Gate, s: Extra)
    requires ValidExtra(s)
    ensures SelfAgrees(Chain(has), s)
  {
    match s
    case BindingFlags(count, flags) =>
      ScalarsAgree();
      ArrayAgrees(count, flags, SizeOf32, Writes32);
      ConcatOne(LE32(count));
      ConcatAppend([LE32(count)], ArrayWrites(count, flags, Writes32));
    case MutableTypes(count, lists) =>
      if lists.Some? {
        forall l | l in lists.value
          ensures ListSize(l) == |Concat(ListWrites(l))|
        {
          ListAgrees(l);
        }
      }
      ArrayAgrees(count, lists, ListSize, ListWrites);
      ConcatOne(LE32(count));
      ConcatAppend([LE32(count)], ArrayWrites(count, lists, ListWrites));
    case Unsupported(_) =>
  }

  lemma OwnSizeAgrees(info: Info)
    ensures |Concat(OwnWrites(info))| == OwnSize(info)
  {
    forall b: Binding
      ensures BindingSize(b) == |Concat(BindingWrites(b))|
    {
      BindingAgrees(b);
    }
    ArrayAgrees(info.count, info.bindings, BindingSize, BindingWrites);
    ConcatTwo(LE32(info.flags), LE32(info.count));
    ConcatAppend([LE32(info.flags), LE32(info.count)], ArrayWrites(info.count, info.bindings, BindingWrites));
  }

  /** For every chain, gating and nesting of arrays: the size function counts
      exactly the bytes the encoder writes, and skipped structs count for nothing. */
  lemma SizeCountsBytes(has: Gate, info: Info)
    requires ValidInfo(info)
    ensures |Concat(Writes(has, info))| == Size(has, info)
    ensures Writes(has, info) == Writes(has, info.(chain := Keep(Chain(has), info.chain)))
  {
    forall s | s in info.chain
      ensures SelfAgrees(Chain(has), s)
    {
      SelfSizeAgrees(has, s);
    }
    OwnSizeAgrees(info);
    InfoSizeIsWritten(DESCRIPTOR_SET_LAYOUT_CREATE_INFO, Chain(has), info.chain, OwnWrites(info), OwnSize(info));
    SkippedStructsDoNotMatter(Chain(has), info.chain);
  }

  // ---- the loops ------------------------------------------------------------------------------

  /** vn_sizeof_VkDescriptorSetLayoutCreateInfo */
  method SizeOf(has: Gate, info: Info) returns (size: nat)
    requires ValidInfo(info)
    ensures size == |Concat(Writes(has, info))|
  {
    size := 4;
    var chainSize := SizeOfChain(Chain(has), info.chain);
    size := size + chainSize;
    size := size + 4 + 4;
    if info.bindings.Some? {
      size := size + 8;
      var items := SizeOfItems(BindingSize, info.bindings.value);
      size := size + items;
    } else {
      size := size + 8;
    }
    SizeCountsBytes(has, info);
  }

  /** vn_encode_VkDescriptorSetLayoutCreateInfo */
  method Encode(has: Gate, enc: Encoder, info: Info)
    requires enc.Valid()
    modifies enc, enc.buf
    ensures enc.Valid() && enc.View() == PutAll(old(enc.View()), Writes(has, info))
  {
    ghost var e0 := enc.View();
    enc.EncodeUint32(DESCRIPTOR_SET_LAYOUT_CREATE_INFO);
    PutAllOne(e0, LE32(DESCRIPTOR_SET_LAYOUT_CREATE_INFO));
    ghost var e1 := enc.View();
    EncodeChain(Chain(has), enc, info.chain);
    ghost var e2 := enc.View();
    enc.EncodeUint32(info.flags);
    enc.EncodeUint32(info.count);
    PutAllTwo(e2, LE32(info.flags), LE32(info.count));
    ghost var e3 := enc.View();
    if info.bindings.Some? {
      enc.EncodeUint64(info.count);
      PutAllOne(e3, LE64(info.count));
      EncodeItems(BindingWrites, enc, info.bindings.value);
      PutAllAppend(e3, [LE64(info.count)], ItemWrites(BindingWrites, info.bindings.value));
    } else {
      enc.EncodeUint64(0);
      PutAllOne(e3, LE64(0));
    }
    PutAllAppend(e2, [LE32(info.flags), LE32(info.count)], ArrayWrites(info.count, info.bindings, BindingWrites));
    PutAllAppend(e1, ChainWrites(Chain(has), info.chain), OwnWrites(info));
    PutAllAppend(e0, [LE32(DESCRIPTOR_SET_LAYOUT_CREATE_INFO)], ChainWrites(Chain(has), info.chain) + OwnWrites(info));
  }

  // ---- the far end ------------------------------------------------------------------------------

  function Read32(bytes: seq<u8>): Option<(u32, nat)> { if |bytes| < 4 then None else Some((Word(bytes, 0), 4)) }

  function Read64(bytes: seq<u8>): Option<(u64, nat)> { if |bytes| < 8 then None else Some((Word64(bytes, 0), 8)) }

  /** An array: its size, none at all for zero, and the elements. */
  function ReadArray<T>(read: seq<u8> -> Option<(T, nat)>, bytes: seq<u8>): (r: Option<(Items<T>, nat)>)
    ensures r.Some? ==> r.value.1 <= |bytes|
  {
    if |bytes| < 8 then None
    else if Word64(bytes, 0) == 0 then Some((None, 8))
    else match ReadItems(read, bytes[8..], Word64(bytes, 0))
      case None => None
      case Some((items, n)) => Some((Some(items), 8 + n))
  }

  function ReadList(bytes: seq<u8>): Option<(TypeList, nat)> {
    if |bytes| < 4 then None
    else match ReadArray(Read32, bytes[4..])
      case None => None
      case Some((types, n)) => Some((TypeList(Word(bytes, 0), types), 4 + n))
  }

  function ReadBinding(bytes: seq<u8>): Option<(Binding, nat)> {
    if |bytes| < 16 then None
    else match ReadArray(Read64, bytes[16..])
      case None => None
      case Some((samplers, n)) =>
        Some((Binding(Word(bytes, 0), Word(bytes, 4), Word(bytes, 8), Word(bytes, 12), samplers), 16 + n))
  }

  function ReadExtra(t: u32, bytes: seq<u8>): Option<(Extra, nat)> {
    if |bytes| < 4 then None
    else if t == BINDING_FLAGS_CREATE_INFO then
      match ReadArray(Read32, bytes[4..])
      case None => None
      case Some((flags, n)) => Some((BindingFlags(Word(bytes, 0), flags), 4 + n))
    else if t == MUTABLE_DESCRIPTOR_TYPE_CREATE_INFO_EXT then
      match ReadArray(ReadList, bytes[4..])
      case None => None
      case Some((lists, n)) => Some((MutableTypes(Word(bytes, 0), lists), 4 + n))
    else None
  }

  // An empty array and a null pointer look the same on the wire; null stands for both.
  function Sent<T>(items: Items<T>): Items<T> { if items == Some([]) then None else items }

  function SentList(l: TypeList): TypeList { l.(types := Sent(l.types)) }
  function SentBinding(b: Binding): Binding { b.(samplers := Sent(b.samplers)) }

  function Each<T, U>(f: T -> U, items: seq<T>): (r: seq<U>)
    ensures |r| == |items| && forall i :: 0 <= i < |items| ==> r[i] == f(items[i])
  {
    if items == [] then [] else [f(items[0])] + Each(f, items[1..])
  }

  function SentAll<T>(f: T -> T, items: Items<T>): Items<T> {
    if items.None? || items.value == [] then None else Some(Each(f, items.value))
  }

  /** What of a struct the far end can tell. */
  function SentExtra(s: Extra): Extra {
    match s
    case BindingFlags(count, flags) => BindingFlags(count, Sent(flags))
    case MutableTypes(count, lists) => MutableTypes(count, SentAll(SentList, lists))
    case Unsupported(_) => s
  }

  // ---- scalars and arrays read back

  lemma ScalarsReadBack()
    ensures forall v: u32 :: ItemReadsBack(Writes32, Read32, v)
    ensures forall v: u64 :: ItemReadsBack(Writes64, Read64, v)
  {
    forall v: u32, tail: seq<u8>
      ensures Read32(Concat(Writes32(v)) + tail) == Some((v, |Concat(Writes32(v))|))
    {
      ConcatOne(LE32(v));
      One32(v, tail);
    }
    forall v: u64, tail: seq<u8>
      ensures Read64(Concat(Writes64(v)) + tail) == Some((v, |Concat(Writes64(v))|))
    {
      One64(v, tail);
    }
  }

  /** The array write of 32-bit elements is their writes one by one. */
  lemma {:induction false} WordsAreItems(values: seq<u32>)
    ensures LE32Array(values) == Concat(ItemWrites(Writes32, values))
    decreases |values|
  {
    if values != [] {
      WordsAreItems(values[1..]);
      ConcatOne(LE32(values[0]));
      ConcatAppend(Writes32(values[0]), ItemWrites(Writes32, values[1..]));
    }
  }

  lemma ArrayBytes<T>(count: u32, items: Items<T>, writes: T -> seq<seq<u8>>)
    ensures Concat(ArrayWrites(count, items, writes)) ==
            if items.Some? then LE64(count) + Concat(ItemWrites(writes, items.value)) else LE64(0)
  {
    if items.Some? {
      ConcatOne(LE64(count));
      ConcatAppend([LE64(count)], ItemWrites(writes, items.value));
    } else {
      ConcatOne(LE64(0));
    }
  }

  lemma WordInFront(v: u64, rest: seq<u8>)
    ensures |LE64(v) + rest| == 8 + |rest| && Word64(LE64(v) + rest, 0) == v && (LE64(v) + rest)[8..] == rest
  {
    assert (LE64(v) + rest)[0..8] == LE64(v);
    WordOfLE64(LE64(v) + rest, 0, v);
  }

  lemma HalfInFront(v: u32, rest: seq<u8>)
    ensures |LE32(v) + rest| == 4 + |rest| && Word(LE32(v) + rest, 0) == v && (LE32(v) + rest)[4..] == rest
  {
    assert (LE32(v) + rest)[0..4] == LE32(v);
    WordOfLE32(LE32(v) + rest, 0, v);
  }

  lemma ArrayReadsBack<T(!new)>(count: u32, items: Items<T>, writes: T -> seq<seq<u8>>,
                                read: seq<u8> -> Option<(T, nat)>, tail: seq<u8>)
    requires Counted(items, count)
    requires items.Some? ==> forall x :: x in items.value ==> ItemReadsBack(writes, read, x)
    ensures ReadArray(read, Concat(ArrayWrites(count, items, writes)) + tail) ==
            Some((Sent(items), |Concat(ArrayWrites(count, items, writes))|))
  {
    ArrayBytes(count, items, writes);
    if items.Some? {
      var body := Concat(ItemWrites(writes, items.value));
      assert LE64(count) + body + tail == LE64(count) + (body + tail);
      ItemsReadBack(writes, read, items.value, tail);
      hide LE64, ReadArray, ReadItems, ArrayWrites, ItemWrites, Concat;
      CountedReads(read, count, items.value, |body|, body + tail);
    } else {
      hide ReadArray, ArrayWrites, Concat, LE64;
      NoneReads(read, tail);
    }
  }

  lemma NoneReads<T>(read: seq<u8> -> Option<(T, nat)>, tail: seq<u8>)
    ensures ReadArray(read, LE64(0) + tail) == Some((None, 8))
  {
    WordInFront(0, tail);
  }

  /** An element count and the elements behind it. */
  lemma CountedReads<T>(read: seq<u8> -> Option<(T, nat)>, count: u32, items: seq<T>, n: nat, after: seq<u8>)
    requires count == |items| && ReadItems(read, after, count) == Some((items, n))
    ensures ReadArray(read, LE64(count) + after) == Some((Sent(Some(items)), 8 + n))
  {
    WordInFront(count, after);
    hide LE64, Word64;
  }

  // ---- structs read back

  lemma ListBytes(l: TypeList)
    ensures Concat(ListWrites(l)) == LE32(l.count) + Concat(ArrayWrites(l.count, l.types, Writes32))
  {
    ConcatOne(LE32(l.count));
    ArrayBytes(l.count, l.types, Writes32);
    if l.types.Some? {
      WordsAreItems(l.types.value);
      ConcatTwo(LE64(l.count), LE32Array(l.types.value));
      ConcatAppend([LE32(l.count)], [LE64(l.count), LE32Array(l.types.value)]);
    } else {
      ConcatOne(LE64(0));
      ConcatAppend([LE32(l.count)], [LE64(0)]);
    }
  }

  lemma ListReads(l: TypeList, tail: seq<u8>)
    requires ValidList(l)
    ensures ReadList(Concat(ListWrites(l)) + tail) == Some((SentList(l), |Concat(ListWrites(l))|))
  {
    ScalarsReadBack();
    ListBytes(l);
    var items := Concat(ArrayWrites(l.count, l.types, Writes32));
    ArrayReadsBack(l.count, l.types, Writes32, Read32, tail);
    HalfInFront(l.count, items + tail);
    hide LE32, Word, ReadArray, ListWrites, ArrayWrites;
    assert LE32(l.count) + items + tail == LE32(l.count) + (items + tail);
  }

  /** Sending a list with an empty array or with none makes the same bytes. */
  lemma ListSent(l: TypeList)
    requires ValidList(l)
    ensures Concat(ListWrites(SentList(l))) == Concat(ListWrites(l)) && ValidList(SentList(l))
    ensures ItemReadsBack(ListWrites, ReadList, SentList(l))
  {
    ListBytes(l);
    ListBytes(SentList(l));
    ArrayBytes(l.count, l.types, Writes32);
    ArrayBytes(l.count, Sent(l.types), Writes32);
    assert Concat(ItemWrites<u32>(Writes32, [])) == [];
    forall tail: seq<u8>
      ensures ReadList(Concat(ListWrites(SentList(l))) + tail) == Some((SentList(l), |Concat(ListWrites(SentList(l)))|))
    {
      ListReads(SentList(l), tail);
    }
  }

  /** Elements that are sent as something else that makes the same bytes. */
  lemma {:induction false} ItemsSent<T(!new)>(f: T -> T, writes: T -> seq<seq<u8>>, read: seq<u8> -> Option<(T, nat)>,
                                             items: seq<T>)
    requires forall x :: x in items ==> Concat(writes(f(x))) == Concat(writes(x)) && ItemReadsBack(writes, read, f(x))
    ensures Concat(ItemWrites(writes, Each(f, items))) == Concat(ItemWrites(writes, items))
    ensures forall y :: y in Each(f, items) ==> ItemReadsBack(writes, read, y)
    decreases |items|
  {
    if items != [] {
      ItemsSent(f, writes, read, items[1..]);
      ConcatAppend(writes(items[0]), ItemWrites(writes, items[1..]));
      ConcatAppend(writes(f(items[0])), ItemWrites(writes, Each(f, items[1..])));
      assert Each(f, items)[1..] == Each(f, items[1..]);
      hide ItemReadsBack, Concat;
    }
  }

  /** An array of them. */
  lemma SentAllReadsBack<T(!new)>(count: u32, items: Items<T>, f: T -> T, writes: T -> seq<seq<u8>>,
                                  read: seq<u8> -> Option<(T, nat)>, tail: seq<u8>)
    requires Counted(items, count)
    requires items.Some? ==> forall x :: x in items.value ==>
               Concat(writes(f(x))) == Concat(writes(x)) && ItemReadsBack(writes, read, f(x))
    ensures var bytes := Concat(ArrayWrites(count, SentAll(f, items), writes));
      && bytes == Concat(ArrayWrites(count, items, writes))
      && ReadArray(read, bytes + tail) == Some((SentAll(f, items), |bytes|))
  {
    var sent := SentAll(f, items);
    ArrayBytes(count, items, writes);
    ArrayBytes(count, sent, writes);
    if items.Some? { ItemsSent(f, writes, read, items.value); }
    assert Counted(sent, count) && Sent(sent) == sent;
    assert sent.Some? ==> sent.value == Each(f, items.value);
    hide ArrayWrites, ReadArray, Each, ItemReadsBack;
    ArrayReadsBack(count, sent, writes, read, tail);
  }

  lemma BindingBytes(b: Binding)
    ensures Concat(BindingWrites(b)) ==
            LE32(b.binding) + LE32(b.descriptorType) + LE32(b.count) + LE32(b.stageFlags)
            + Concat(ArrayWrites(b.count, b.samplers, Writes64))
  {
    var first, second := [LE32(b.binding), LE32(b.descriptorType)], [LE32(b.count), LE32(b.stageFlags)];
    ConcatTwo(LE32(b.binding), LE32(b.descriptorType));
    ConcatTwo(LE32(b.count), LE32(b.stageFlags));
    ConcatAppend(first, second);
    ConcatAppend(first + second, ArrayWrites(b.count, b.samplers, Writes64));
  }

  lemma FourInFront(a: u32, b: u32, c: u32, d: u32, rest: seq<u8>)
    ensures var bytes := LE32(a) + LE32(b) + LE32(c) + LE32(d) + rest;
      && |bytes| == 16 + |rest| && bytes[16..] == rest
      && Word(bytes, 0) == a && Word(bytes, 4) == b && Word(bytes, 8) == c && Word(bytes, 12) == d
  {
    var bytes := LE32(a) + LE32(b) + LE32(c) + LE32(d) + rest;
    assert bytes[0..4] == LE32(a) && bytes[4..8] == LE32(b) && bytes[8..12] == LE32(c) && bytes[12..16] == LE32(d);
    WordOfLE32(bytes, 0, a);
    WordOfLE32(bytes, 4, b);
    WordOfLE32(bytes, 8, c);
    WordOfLE32(bytes, 12, d);
  }

  /** A binding reads back with its samplers. */
  lemma BindingReadsBack(b: Binding, tail: seq<u8>)
    requires ValidBinding(b)
    ensures ReadBinding(Concat(BindingWrites(b)) + tail) == Some((SentBinding(b), |Concat(BindingWrites(b))|))
  {
    ScalarsReadBack();
    BindingBytes(b);
    var samplers := Concat(ArrayWrites(b.count, b.samplers, Writes64));
    ArrayReadsBack(b.count, b.samplers, Writes64, Read64, tail);
    FourInFront(b.binding, b.descriptorType, b.count, b.stageFlags, samplers + tail);
    hide LE32, Word, ReadArray, BindingWrites, ArrayWrites;
    var head := LE32(b.binding) + LE32(b.descriptorType) + LE32(b.count) + LE32(b.stageFlags);
    assert head + samplers + tail == head + (samplers + tail);
  }

  lemma SelfBytes(s: Extra)
    requires !s.Unsupported?
    ensures Concat(SelfWrites(s)) ==
            match s
            case BindingFlags(count, flags) => LE32(count) + Concat(ArrayWrites(count, flags, Writes32))
            case MutableTypes(count, lists) => LE32(count) + Concat(ArrayWrites(count, lists, ListWrites))
            case Unsupported(_) => []
  {
    match s
    case BindingFlags(count, flags) =>
      ConcatOne(LE32(count));
      ConcatAppend([LE32(count)], ArrayWrites(count, flags, Writes32));
    case MutableTypes(count, lists) =>
      ConcatOne(LE32(count));
      ConcatAppend([LE32(count)], ArrayWrites(count, lists, ListWrites));
  }

  lemma FlagsReadBack(count: u32, flags: Items<u32>, tail: seq<u8>)
    requires Counted(flags, count)
    ensures ReadExtra(BINDING_FLAGS_CREATE_INFO, LE32(count) + Concat(ArrayWrites(count, flags, Writes32)) + tail) ==
            Some((BindingFlags(count, Sent(flags)), 4 + |Concat(ArrayWrites(count, flags, Writes32))|))
  {
    ScalarsReadBack();
    ArrayReadsBack(count, flags, Writes32, Read32, tail);
    var items := Concat(ArrayWrites(count, flags, Writes32));
    HalfInFront(count, items + tail);
    hide LE32, Word, ReadArray, ArrayWrites;
    assert LE32(count) + items + tail == LE32(count) + (items + tail);
  }

  lemma ListsReadBack(count: u32, lists: Items<TypeList>, tail: seq<u8>)
    requires Counted(lists, count) && (lists.Some? ==> forall l :: l in lists.value ==> ValidList(l))
    ensures var items := Concat(ArrayWrites(count, SentAll(SentList, lists), ListWrites));
      && items == Concat(ArrayWrites(count, lists, ListWrites))
      && ReadExtra(MUTABLE_DESCRIPTOR_TYPE_CREATE_INFO_EXT, LE32(count) + items + tail) ==
         Some((MutableTypes(count, SentAll(SentList, lists)), 4 + |items|))
  {
    forall l | lists.Some? && l in lists.value
      ensures Concat(ListWrites(SentList(l))) == Concat(ListWrites(l)) && ItemReadsBack(ListWrites, ReadList, SentList(l))
    {
      ListSent(l);
    }
    SentAllReadsBack(count, lists, SentList, ListWrites, ReadList, tail);
    var items := Concat(ArrayWrites(count, SentAll(SentList, lists), ListWrites));
    hide LE32, ReadExtra, ReadArray, ArrayWrites, SentAll, Concat, ItemReadsBack, ListWrites;
    ListsStep(count, items, tail, SentAll(SentList, lists));
  }

  lemma ListsStep(count: u32, items: seq<u8>, tail: seq<u8>, lists: Items<TypeList>)
    requires ReadArray(ReadList, items + tail) == Some((lists, |items|))
    ensures ReadExtra(MUTABLE_DESCRIPTOR_TYPE_CREATE_INFO_EXT, LE32(count) + items + tail) ==
            Some((MutableTypes(count, lists), 4 + |items|))
  {
    HalfInFront(count, items + tail);
    hide LE32, Word, ReadArray;
    assert LE32(count) + items + tail == LE32(count) + (items + tail);
  }

  /** Each known struct reads back with its arrays, and arrays of arrays. */
  lemma ExtraReadsBack(has: Gate, s: Extra)
    requires ValidExtra(s) && !s.Unsupported?
    ensures Concat(SelfWrites(SentExtra(s))) == Concat(SelfWrites(s))
    ensures ReadsBack(Chain(has), ReadExtra, SentExtra(s))
  {
    SelfBytes(s);
    SelfBytes(SentExtra(s));
    if s.BindingFlags? {
      ArrayBytes(s.count, s.flags, Writes32);
      ArrayBytes(s.count, Sent(s.flags), Writes32);
      assert Concat(ItemWrites<u32>(Writes32, [])) == [];
    } else {
      ListsReadBack(s.listCount, s.lists, []);
    }
    forall tail: seq<u8>
      ensures ReadExtra(TypeOf(s), Concat(SelfWrites(SentExtra(s))) + tail) ==
              Some((SentExtra(s), |Concat(SelfWrites(SentExtra(s)))|))
    {
      if s.BindingFlags? {
        FlagsReadBack(s.count, Sent(s.flags), tail);
      } else {
        ListsReadBack(s.listCount, s.lists, tail);
      }
    }
  }

  lemma {:induction false} ChainSent(has: Gate, chain: seq<Extra>)
    requires forall s :: s in chain ==> ValidExtra(s)
    ensures Concat(ChainWrites(Chain(has), Each(SentExtra, chain))) == Concat(ChainWrites(Chain(has), chain))
    ensures forall s :: s in Each(SentExtra, chain) && Known(has, s) ==> ReadsBack(Chain(has), ReadExtra, s)
    decreases |chain|
  {
    if chain != [] {
      ChainSent(has, chain[1..]);
      var sent := Each(SentExtra, chain);
      assert sent[1..] == Each(SentExtra, chain[1..]);
      if Known(has, chain[0]) {
        ExtraReadsBack(has, chain[0]);
        KnownChainBytes(Chain(has), chain);
        KnownChainBytes(Chain(has), sent);
      }
    }
  }

  /** The far end recovers exactly the known structs that are not gated off, with
      every array and nested array in them. */
  lemma FarEndSeesKnownStructs(has: Gate, chain: seq<Extra>, tail: seq<u8>)
    requires forall s :: s in chain ==> ValidExtra(s)
    ensures ReadChain(ReadExtra, Concat(ChainWrites(Chain(has), chain)) + tail) ==
            Some((Keep(Chain(has), Each(SentExtra, chain)), |Concat(ChainWrites(Chain(has), chain))|))
  {
    ChainSent(has, chain);
    ChainRoundTrip(Chain(has), ReadExtra, Each(SentExtra, chain), tail);
  }

  // ---- the whole struct read back

  lemma BindingSent(b: Binding)
    requires ValidBinding(b)
    ensures Concat(BindingWrites(SentBinding(b))) == Concat(BindingWrites(b))
    ensures ItemReadsBack(BindingWrites, ReadBinding, SentBinding(b))
  {
    BindingBytes(b);
    BindingBytes(SentBinding(b));
    ArrayBytes(b.count, b.samplers, Writes64);
    ArrayBytes(b.count, Sent(b.samplers), Writes64);
    assert Concat(ItemWrites<u64>(Writes64, [])) == [];
    forall tail: seq<u8>
      ensures ReadBinding(Concat(BindingWrites(SentBinding(b))) + tail) ==
              Some((SentBinding(b), |Concat(BindingWrites(SentBinding(b)))|))
    {
      BindingReadsBack(SentBinding(b), tail);
    }
  }

  /** Flags, count and bindings. */
  function ReadOwn(bytes: seq<u8>): (r: Option<(u32, u32, Items<Binding>, nat)>) {
    if |bytes| < 8 then None
    else match ReadArray(ReadBinding, bytes[8..])
      case None => None
      case Some((bindings, n)) => Some((Word(bytes, 0), Word(bytes, 4), bindings, 8 + n))
  }

  function ReadInfo(bytes: seq<u8>): Option<(Info, nat)> {
    if |bytes| < 4 || Word(bytes, 0) != DESCRIPTOR_SET_LAYOUT_CREATE_INFO then None
    else match ReadChain(ReadExtra, bytes[4..])
      case None => None
      case Some((chain, n)) =>
        match ReadOwn(bytes[4 + n..])
        case None => None
        case Some((flags, count, bindings, m)) => Some((Info(chain, flags, count, bindings), 4 + n + m))
  }

  /** What of the whole struct the far end can tell. */
  function SentInfo(has: Gate, info: Info): Info {
    info.(chain := Keep(Chain(has), Each(SentExtra, info.chain)), bindings := SentAll(SentBinding, info.bindings))
  }

  lemma TwoInFront(a: u32, b: u32, rest: seq<u8>)
    ensures var bytes := LE32(a) + LE32(b) + rest;
      |bytes| == 8 + |rest| && bytes[8..] == rest && Word(bytes, 0) == a && Word(bytes, 4) == b
  {
    var bytes := LE32(a) + LE32(b) + rest;
    assert bytes[0..4] == LE32(a) && bytes[4..8] == LE32(b);
    WordOfLE32(bytes, 0, a);
    WordOfLE32(bytes, 4, b);
  }

  lemma OwnReadsBack(info: Info, tail: seq<u8>)
    requires ValidInfo(info)
    ensures ReadOwn(Concat(OwnWrites(info)) + tail) ==
            Some((info.flags, info.count, SentAll(SentBinding, info.bindings), |Concat(OwnWrites(info))|))
  {
    forall b | info.bindings.Some? && b in info.bindings.value
      ensures Concat(BindingWrites(SentBinding(b))) == Concat(BindingWrites(b))
      ensures ItemReadsBack(BindingWrites, ReadBinding, SentBinding(b))
    {
      BindingSent(b);
    }
    SentAllReadsBack(info.count, info.bindings, SentBinding, BindingWrites, ReadBinding, tail);
    var items := Concat(ArrayWrites(info.count, info.bindings, BindingWrites));
    ConcatTwo(LE32(info.flags), LE32(info.count));
    ConcatAppend([LE32(info.flags), LE32(info.count)], ArrayWrites(info.count, info.bindings, BindingWrites));
    hide Concat, LE32, Word, ReadArray, ArrayWrites, SentAll, ReadOwn;
    OwnStep(info.flags, info.count, items, tail, SentAll(SentBinding, info.bindings));
  }

  lemma OwnStep(flags: u32, count: u32, items: seq<u8>, tail: seq<u8>, bindings: Items<Binding>)
    requires ReadArray(ReadBinding, items + tail) == Some((bindings, |items|))
    ensures ReadOwn(LE32(flags) + LE32(count) + items + tail) == Some((flags, count, bindings, 8 + |items|))
    ensures |LE32(flags) + LE32(count) + items| == 8 + |items|
  {
    TwoInFront(flags, count, items + tail);
    hide LE32, Word, ReadArray;
    assert LE32(flags) + LE32(count) + items + tail == LE32(flags) + LE32(count) + (items + tail);
  }

  /** The bytes of a create-info decode to it, less what the encoder skips, with
      every array, nested array and binding, and nothing of what follows. */
  lemma InfoRoundTrip(has: Gate, info: Info, tail: seq<u8>)
    requires ValidInfo(info)
    ensures ReadInfo(Concat(Writes(has, info)) + tail) == Some((SentInfo(has, info), |Concat(Writes(has, info))|))
  {
    hide *;
    var chain, own := Concat(ChainWrites(Chain(has), info.chain)), Concat(OwnWrites(info));
    WritesParts(has, info);
    ChainPart(has, info, own + tail);
    OwnPart(has, info, tail);
    FromParts(chain, own, tail, SentInfo(has, info));
  }

  lemma ChainPart(has: Gate, info: Info, rest: seq<u8>)
    requires ValidInfo(info)
    ensures var chain := Concat(ChainWrites(Chain(has), info.chain));
      ReadChain(ReadExtra, chain + rest) == Some((SentInfo(has, info).chain, |chain|))
  {
    hide ReadChain, ChainWrites, Concat;
    FarEndSeesKnownStructs(has, info.chain, rest);
  }

  lemma OwnPart(has: Gate, info: Info, tail: seq<u8>)
    requires ValidInfo(info)
    ensures var own, sent := Concat(OwnWrites(info)), SentInfo(has, info);
      ReadOwn(own + tail) == Some((sent.flags, sent.count, sent.bindings, |own|))
  {
    hide ReadOwn, OwnWrites, Concat, ValidInfo;
    OwnReadsBack(info, tail);
  }

  lemma FromParts(chain: seq<u8>, own: seq<u8>, tail: seq<u8>, sent: Info)
    requires ReadChain(ReadExtra, chain + (own + tail)) == Some((sent.chain, |chain|))
    requires ReadOwn(own + tail) == Some((sent.flags, sent.count, sent.bindings, |own|))
    ensures ReadInfo(LE32(DESCRIPTOR_SET_LAYOUT_CREATE_INFO) + (chain + own) + tail) == Some((sent, 4 + |chain| + |own|))
  {
    var head := LE32(DESCRIPTOR_SET_LAYOUT_CREATE_INFO);
    hide LE32, Word, ReadInfo, ReadOwn, ReadChain;
    InfoParts(head, chain, own, tail);
    HalfInFront(DESCRIPTOR_SET_LAYOUT_CREATE_INFO, chain + (own + tail));
    InfoStep(head + (chain + own) + tail, sent, |chain|, |own|);
  }

  lemma WritesParts(has: Gate, info: Info)
    ensures Concat(Writes(has, info)) ==
            LE32(DESCRIPTOR_SET_LAYOUT_CREATE_INFO)
            + (Concat(ChainWrites(Chain(has), info.chain)) + Concat(OwnWrites(info)))
    ensures |Concat(Writes(has, info))| ==
            4 + |Concat(ChainWrites(Chain(has), info.chain))| + |Concat(OwnWrites(info))|
  {
    ConcatOne(LE32(DESCRIPTOR_SET_LAYOUT_CREATE_INFO));
    ConcatAppend(ChainWrites(Chain(has), info.chain), OwnWrites(info));
    ConcatAppend([LE32(DESCRIPTOR_SET_LAYOUT_CREATE_INFO)], ChainWrites(Chain(has), info.chain) + OwnWrites(info));
  }

  lemma InfoStep(bytes: seq<u8>, sent: Info, n: nat, m: nat)
    requires 4 + n <= |bytes| && Word(bytes, 0) == DESCRIPTOR_SET_LAYOUT_CREATE_INFO
    requires ReadChain(ReadExtra, bytes[4..]) == Some((sent.chain, n))
    requires ReadOwn(bytes[4 + n..]) == Some((sent.flags, sent.count, sent.bindings, m))
    ensures ReadInfo(bytes) == Some((sent, 4 + n + m))
  {
    hide Word, ReadChain, ReadOwn;
  }

  lemma InfoParts(head: seq<u8>, chain: seq<u8>, own: seq<u8>, tail: seq<u8>)
    ensures var bytes := head + (chain + own) + tail;
      && bytes == head + (chain + (own + tail))
      && bytes[|head|..] == chain + (own + tail) && bytes[|head| + |chain|..] == own + tail
  {
  }
}
