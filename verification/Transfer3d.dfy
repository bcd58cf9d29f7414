/** The bounds check on 3D transfers (validate_xfer_3d): 64-bit arithmetic with
    an overflow check on every operation but one. */
module Transfer3d {
  import opened Bits

  /** What the check reads of a resource and of a transfer request. */
  datatype Resource = Resource(width: u32, height: u32, depth: u32, size: u64)
  datatype Box = Box(x: u32, y: u32, z: u32, w: u32, h: u32, d: u32)
  datatype Transfer = Transfer(box: Box, offset: u64, stride: u32, layerStride: u32)

  datatype Checked = Fits(value: u64) | Overflow

  /** __builtin_add_overflow and __builtin_mul_overflow on 64-bit words. */
  function AddOverflow(a: u64, b: u64): Checked {
    if a + b < U64 then Fits(a + b) else Overflow
  }

  function MulOverflow(a: u64, b: u64): (r: Checked) {
    MulNonNegative(a, b);
    if a * b < U64 then Fits(a * b) else Overflow
  }

  lemma MulNonNegative(a: nat, b: nat)
    ensures a * b >= 0
  {}

  /** resource_size_bytes: 4 bytes a texel, a zero depth counts as one, and
      the products wrap. */
  function ResourceSizeBytes(w: u32, h: u32, d: u32): u64 {
    (((w * h) % U64 * (if d != 0 then d else 1)) % U64 * 4) % U64
  }

  /** The rest of the check, once the row and layer strides are settled; the
      product in its first line is the one that is not checked. */
  function AcceptStrides(r: Resource, t: Transfer, row: u64, stride: u64, layer: u64): bool
    requires t.box.h > 0 && t.box.d > 0
  {
    MulNonNegative(stride, t.box.h - 1);
    if layer == 0 || layer < (stride * (t.box.h - 1) + row) % U64 then false
    else
      match (MulOverflow(layer, t.box.d - 1), MulOverflow(stride, t.box.h - 1))
      case (Fits(layerTail), Fits(rowTail)) =>
        (match AddOverflow(t.offset, layerTail)
         case Overflow => false
         case Fits(n1) =>
           match AddOverflow(n1, rowTail)
           case Overflow => false
           case Fits(n2) =>
             match AddOverflow(n2, row)
             case Overflow => false
             case Fits(need) => need <= r.size)
      case _ => false
  }

  /** validate_xfer_3d */
  predicate Accepts(r: Resource, t: Transfer) {
    if t.box.w == 0 || t.box.h == 0 || t.box.d == 0 then false
    else if t.box.x + t.box.w > r.width || t.box.y + t.box.h > r.height || t.box.z + t.box.d > r.depth then false
    else
      match MulOverflow(t.box.w, 4)
      case Overflow => false
      case Fits(row) =>
        var stride := if t.stride != 0 then t.stride else row;
        if stride == 0 || stride < row then false
        else if t.layerStride != 0 then AcceptStrides(r, t, row, stride, t.layerStride)
        else
          match MulOverflow(stride, t.box.h)
          case Overflow => false
          case Fits(layer) => AcceptStrides(r, t, row, stride, layer)
  }

  // ---- what it should accept, in unbounded integers ------------------------

  function RowBytes(t: Transfer): nat { t.box.w * 4 }
  function Stride(t: Transfer): nat { if t.stride != 0 then t.stride else RowBytes(t) }
  function LayerStride(t: Transfer): nat {
    MulNonNegative(Stride(t), t.box.h);
    if t.layerStride != 0 then t.layerStride else Stride(t) * t.box.h
  }

  /** The address of byte b of row y of layer z of the box. */
  function Address(t: Transfer, z: nat, y: nat, b: nat): nat {
    MulNonNegative(z, LayerStride(t));
    MulNonNegative(y, Stride(t));
    t.offset + z * LayerStride(t) + y * Stride(t) + b
  }

  ghost predicate InBox(t: Transfer, z: nat, y: nat, b: nat) {
    z < t.box.d && y < t.box.h && b < RowBytes(t)
  }

  /** The box is not empty and inside the resource, rows do not overlap, layers
      do not overlap, and the last byte is inside the storage. */
  ghost predicate Sound(r: Resource, t: Transfer) {
    && t.box.w > 0 && t.box.h > 0 && t.box.d > 0
    && t.box.x + t.box.w <= r.width && t.box.y + t.box.h <= r.height && t.box.z + t.box.d <= r.depth
    && Stride(t) >= RowBytes(t)
    && LayerStride(t) >= (t.box.h - 1) * Stride(t) + RowBytes(t)
    && Address(t, t.box.d - 1, t.box.h - 1, RowBytes(t) - 1) < r.size
  }

  lemma AddressOfLast(t: Transfer)
    requires t.box.w > 0 && t.box.h > 0 && t.box.d > 0
    ensures Address(t, t.box.d - 1, t.box.h - 1, RowBytes(t) - 1) + 1
            == t.offset + (t.box.d - 1) * LayerStride(t) + (t.box.h - 1) * Stride(t) + RowBytes(t)
  {}

  /** After strides are settled, the 64-bit check is the unbounded one: what the
      unchecked product loses, the checked one behind it catches. */
  lemma StridesExact(r: Resource, t: Transfer)
    requires t.box.w > 0 && t.box.h > 0 && t.box.d > 0
    requires Stride(t) < U64 && LayerStride(t) < U64
    ensures AcceptStrides(r, t, RowBytes(t), Stride(t), LayerStride(t)) <==>
      && LayerStride(t) >= (t.box.h - 1) * Stride(t) + RowBytes(t)
      && Address(t, t.box.d - 1, t.box.h - 1, RowBytes(t) - 1) < r.size
  {
    AddressOfLast(t);
    var rows, layers := Stride(t) * (t.box.h - 1), LayerStride(t) * (t.box.d - 1);
    assert rows == (t.box.h - 1) * Stride(t) && layers == (t.box.d - 1) * LayerStride(t);
    MulNonNegative(Stride(t), t.box.h - 1);
    MulNonNegative(LayerStride(t), t.box.d - 1);
    if rows + RowBytes(t) < U64 { SmallMod(rows + RowBytes(t), U64); }
  }

  /** The check accepts exactly the sound transfers, for every stride and layer
      stride, given or defaulted. */
  lemma AcceptsIffSound(r: Resource, t: Transfer)
    ensures Accepts(r, t) <==> Sound(r, t)
  {
    if t.box.w > 0 && t.box.h > 0 && t.box.d > 0 {
      AddressOfLast(t);
      MulNonNegative(Stride(t), t.box.h);
      if LayerStride(t) < U64 {
        StridesExact(r, t);
      } else {
        // only a defaulted row stride can get this large; the rows alone are then too many bytes
        DefaultStrideTooLarge(t);
      }
    }
  }

  lemma DefaultStrideTooLarge(t: Transfer)
    requires t.box.w > 0 && t.box.h > 0 && t.box.d > 0 && LayerStride(t) >= U64
    ensures Address(t, t.box.d - 1, t.box.h - 1, RowBytes(t) - 1) >= U64 - 1
  {
    assert t.layerStride == 0;
    if t.stride != 0 {
      MulBound(t.stride, t.box.h);
      assert false;
    }
    AddressOfLast(t);
    MulNonNegative(t.box.d - 1, LayerStride(t));
    MulSub(t.box.h, 1, Stride(t));
    assert Stride(t) * t.box.h == t.box.h * Stride(t);
  }

  lemma MulBound(a: u32, b: u32)
    ensures a * b < U64
  {
    MulSub(U32 - 1, a, b);
    MulAtLeast(U32 - 1 - a, b);
  }

  /** Every byte of an accepted transfer lies inside the resource's storage. */
  lemma AcceptedBytesInside(r: Resource, t: Transfer, z: nat, y: nat, b: nat)
    requires Accepts(r, t) && InBox(t, z, y, b)
    ensures t.offset <= Address(t, z, y, b) < r.size
  {
    AcceptsIffSound(r, t);
    MulSub(t.box.d - 1, z, LayerStride(t));
    MulSub(t.box.h - 1, y, Stride(t));
    MulAtLeast(t.box.d - 1 - z, LayerStride(t));
    MulAtLeast(t.box.h - 1 - y, Stride(t));
    MulAtLeast(z, LayerStride(t));
    MulAtLeast(y, Stride(t));
  }

  /** Different positions of an accepted transfer are different bytes. */
  lemma AcceptedBytesDistinct(r: Resource, t: Transfer, z: nat, y: nat, b: nat, z': nat, y': nat, b': nat)
    requires Accepts(r, t) && InBox(t, z, y, b) && InBox(t, z', y', b')
    requires Address(t, z, y, b) == Address(t, z', y', b')
    ensures z == z' && y == y' && b == b'
  {
    AcceptsIffSound(r, t);
    LayerSpan(t, y, b);
    LayerSpan(t, y', b');
    var inLayer: nat, inLayer': nat := y * Stride(t) + b, y' * Stride(t) + b';
    MulSub(z, z', LayerStride(t));
    SmallMultiple(z - z', LayerStride(t));
    MulSub(y, y', Stride(t));
    SmallMultiple(y - y', Stride(t));
  }

  lemma LayerSpan(t: Transfer, y: nat, b: nat)
    requires y < t.box.h && b < RowBytes(t) && Stride(t) >= RowBytes(t)
    requires LayerStride(t) >= (t.box.h - 1) * Stride(t) + RowBytes(t)
    ensures 0 <= y * Stride(t) + b < LayerStride(t)
  {
    MulSub(t.box.h - 1, y, Stride(t));
    MulAtLeast(t.box.h - 1 - y, Stride(t));
    MulAtLeast(y, Stride(t));
  }

  /** The product at the check's unchecked line never wraps for a transfer that
      is accepted. */
  lemma AcceptedProductDidNotWrap(r: Resource, t: Transfer)
    requires Accepts(r, t)
    ensures Stride(t) * (t.box.h - 1) + RowBytes(t) < U64
  {
    AcceptsIffSound(r, t);
    MulNonNegative(t.box.d - 1, LayerStride(t));
    AddressOfLast(t);
    assert Stride(t) * (t.box.h - 1) == (t.box.h - 1) * Stride(t);
  }

  /** The recorded size of a resource is its true size exactly when that fits in
      64 bits; a larger resource is recorded too small. */
  lemma RecordedSizeExact(w: u32, h: u32, d: u32)
    ensures var layers := if d != 0 then d else 1;
      ResourceSizeBytes(w, h, d) == w * h * layers * 4 <==> w * h * layers * 4 < U64
  {
    var layers := if d != 0 then d else 1;
    MulBound(w, h);
    MulNonNegative(w, h);
    MulNonNegative(w * h, layers);
    SmallMod(w * h, U64);
    var texels := w * h * layers;
    SmallOrWrapped(texels);
  }

  lemma SmallOrWrapped(texels: nat)
    ensures (texels % U64 * 4) % U64 == texels * 4 <==> texels * 4 < U64
  {
    if texels * 4 < U64 {
      SmallMod(texels, U64);
      SmallMod(texels * 4, U64);
    }
  }

  /** A 2^31 by 2^31 by 1 resource is recorded with size 0. */
  lemma RecordedSizeCanWrap()
    ensures ResourceSizeBytes(0x8000_0000, 0x8000_0000, 1) == 0
  {}
}
