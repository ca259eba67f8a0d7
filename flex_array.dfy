/** The flex*() helpers of include/linux/flex_array.h over a byte-level model
    of memory: copying one flexible array struct into another (flex_cpy),
    allocating a copy (flex_dup), deserializing a byte buffer into a struct
    (mem_to_flex, mem_to_flex_dup), and serializing the elements into a byte
    buffer (flex_to_mem, flex_to_mem_dup).

    Each helper is a chain of bounds checks followed by memcpy/memset. The
    chain is a function of the sizes involved (CpyCheck, DupCheck, ...),
    specified by the failure conditions the header documents; the helper
    itself is a method that runs the chain and then writes memory. */
module FlexArray {
  import opened Memory
  import opened FlexSize

  datatype Option<T> = None | Some(value: T)

  /** __builtin_object_size(src, 1): the compile-time size of the source
      buffer when the compiler knows it, (size_t)-1 otherwise. */
  function ObjectSize(known: Option<nat>): nat
  {
    match known
    case None => SIZE_MAX
    case Some(k) => k
  }

  /** The values of a C integer type of at most 64 bits. */
  predicate IsCInt(n: int)
  {
    -0x8000_0000_0000_0000 <= n <= SIZE_MAX
  }

  /** The count member of the struct that starts at offset `base` of memory m. */
  function CountIn(shape: Shape, m: seq<byte>, base: nat): (n: nat)
    requires shape.Valid() && base + shape.headerSize <= |m|
    ensures n <= shape.CountMax()
  {
    DecodeLE(m[base + shape.countOffset .. base + shape.countOffset + shape.countWidth])
  }

  /** A struct whose bytes were copied from `image` has the count stored in image. */
  lemma CountOfCopiedHeader(shape: Shape, m: seq<byte>, base: nat, image: seq<byte>)
    requires shape.Valid() && shape.headerSize <= |image| && base + |image| <= |m|
    requires m[base .. base + |image|] == image
    ensures CountIn(shape, m, base) == CountIn(shape, image, 0)
  {
    var lo, w := shape.countOffset, shape.countWidth;
    var field, stored := m[base + lo .. base + lo + w], image[lo .. lo + w];
    forall i | 0 <= i < w
      ensures field[i] == stored[i]
    {
      assert m[base .. base + |image|][lo + i] == image[lo + i];
    }
    assert field == stored;
  }

  /** The count member is read from its own bytes only: memory that agrees
      on them holds the same count. */
  lemma CountOfSameField(shape: Shape, m: seq<byte>, m': seq<byte>, base: nat)
    requires shape.Valid() && base + shape.headerSize <= |m| && base + shape.headerSize <= |m'|
    requires forall i :: base + shape.countOffset <= i < base + shape.countOffset + shape.countWidth ==> m[i] == m'[i]
    ensures CountIn(shape, m, base) == CountIn(shape, m', base)
  {
    var lo, w := base + shape.countOffset, shape.countWidth;
    var field, field' := m[lo .. lo + w], m'[lo .. lo + w];
    assert forall i :: 0 <= i < w ==> field[i] == field'[i];
    assert field == field';
  }

  /** A flexible array struct of layout `shape` that starts at offset `base`
      of the allocation `buf`. `base` is 0 for a struct allocated on its own
      and the offset of the embedded struct for the final member of an
      encapsulating struct. The count member is stored in the header. */
  class FlexStruct {
    const shape: Shape
    const buf: array<byte>
    const base: nat

    constructor (shape: Shape, buf: array<byte>, base: nat)
      ensures this.shape == shape && this.buf == buf && this.base == base
    {
      this.shape := shape;
      this.buf := buf;
      this.base := base;
    }

    /** The header lies inside the allocation. */
    predicate Placed()
    {
      shape.Valid() && base + shape.headerSize <= buf.Length
    }

    function CountStart(): nat
    {
      base + shape.countOffset
    }

    function ElementsStart(): nat
    {
      base + shape.headerSize
    }

    /** The value of the count member. */
    function Count(): (n: nat)
      reads buf
      requires Placed()
      ensures n <= shape.CountMax()
    {
      CountIn(shape, buf[..], base)
    }

    /** sizeof(struct) plus the bytes of Count() elements. */
    function Size(): nat
      reads buf
      requires Placed()
    {
      shape.headerSize + shape.elemSize * Count()
    }

    /** A live struct: its allocation really holds Count() elements. */
    ghost predicate Valid()
      reads buf
    {
      Placed() && buf.Length <= SIZE_MAX && base + Size() <= buf.Length
    }

    /** The bytes of the struct: header and Count() elements. */
    function Image(): seq<byte>
      reads buf
      requires Valid()
    {
      buf[base .. base + Size()]
    }

    /** The bytes of the Count() elements. */
    function Elements(): seq<byte>
      reads buf
      requires Valid()
    {
      buf[ElementsStart() .. base + Size()]
    }

    /** The bytes of element i (p->flex[i]). */
    function Elem(i: nat): seq<byte>
      reads buf
      requires Placed() && ElementsStart() + shape.elemSize * (i + 1) <= buf.Length
    {
      buf[ElementsStart() + shape.elemSize * i .. ElementsStart() + shape.elemSize * (i + 1)]
    }

    /** p->count = n. */
    method SetCount(n: nat)
      requires Placed() && n <= shape.CountMax()
      modifies buf
      ensures buf[..] == Overwrite(old(buf[..]), CountStart(), EncodeLE(n, shape.countWidth))
      ensures Count() == n
      ensures forall i :: 0 <= i < buf.Length && !(CountStart() <= i < CountStart() + shape.countWidth) ==> buf[i] == old(buf[i])
    {
      var enc := EncodeLE(n, shape.countWidth);
      MemCpy(buf, CountStart(), enc);
      OverwriteOnlyTouchesItsRange(old(buf[..]), CountStart(), enc);
      DecodeEncode(n, shape.countWidth);
    }
  }

  /** A `struct T **alloc` argument: the pointer variable it points to. */
  class StructSlot {
    var ptr: FlexStruct?

    constructor ()
      ensures ptr == null
    {
      ptr := null;
    }
  }

  /** A `u8 **alloc` argument. */
  class BufferSlot {
    var ptr: array?<byte>

    constructor ()
      ensures ptr == null
    {
      ptr := null;
    }
  }

  /** An unsigned variable whose type has maximum `max`, reached through a pointer. */
  class SizeVar {
    const max: nat
    var value: nat

    constructor (max: nat, value: nat)
      ensures this.max == max && this.value == value
    {
      this.max := max;
      this.value := value;
    }
  }

  // ---------------------------------------------------------------------
  // Arithmetic facts the checks rely on
  // ---------------------------------------------------------------------

  /** With elements of at least one byte, comparing element bytes is comparing counts. */
  lemma MulMonotone(s: nat, a: nat, b: nat)
    requires s >= 1
    ensures s * a <= s * b <==> a <= b
  {
    if a <= b {
      assert s * b == s * a + s * (b - a);
    } else {
      var d := a - b - 1;
      assert s * a == s * b + s + s * d;
    }
  }

  /** A count that a C integer type can hold converts to size_t unchanged. */
  lemma ElementsBytesOfSizeT(shape: Shape, n: nat)
    requires shape.Valid() && n <= SIZE_MAX
    ensures ElementsBytes(shape, n).err == Ok <==> n <= shape.CountMax() && shape.elemSize * n <= SIZE_MAX
    ensures ElementsBytes(shape, n).err == Ok ==> ElementsBytes(shape, n).bytes == shape.elemSize * n
  {
    assert ToSizeT(n) == n;
  }

  /** The sizes of a live struct never overflow. */
  lemma LiveSizes(r: FlexStruct)
    requires r.Valid()
    ensures ElementsBytes(r.shape, r.Count()) == Sized(Ok, r.shape.elemSize * r.Count())
    ensures FasBytes(r.shape, r.Count()) == Sized(Ok, r.Size())
  {
    ElementsBytesOfCount(r.shape, r.Count());
    FasBytesOfCount(r.shape, r.Count());
  }

  // ---------------------------------------------------------------------
  // flex_cpy()
  // ---------------------------------------------------------------------

  /** The checks of flex_cpy(): the sizes of dst and src from their own count
      members, and dst must be at least as large as src. */
  function CpyCheck(shape: Shape, dstCount: nat, srcCount: nat): (r: Errno)
    requires shape.Valid() && dstCount <= shape.CountMax() && srcCount <= shape.CountMax()
    ensures r == Ok || r == E2BIG
    ensures r == Ok <==> shape.headerSize + shape.elemSize * dstCount <= SIZE_MAX && srcCount <= dstCount
  {
    var dstBytes := FasBytes(shape, dstCount);
    var srcBytes := FasBytes(shape, srcCount);
    FasBytesOfCount(shape, dstCount);
    FasBytesOfCount(shape, srcCount);
    MulMonotone(shape.elemSize, srcCount, dstCount);
    if dstBytes.err != Ok || srcBytes.err != Ok || dstBytes.bytes < srcBytes.bytes then E2BIG else Ok
  }

  /** The memory flex_cpy() leaves behind: the image of src at base, then
      zeros up to dst's former extent `room`, everything else untouched. */
  lemma CpyEffect(before: seq<byte>, base: nat, image: seq<byte>, room: nat, after: seq<byte>)
    requires |image| <= room && base + room <= |before|
    requires after == Overwrite(Overwrite(before, base, image), base + |image|, Zeros(room - |image|))
    ensures after[base .. base + |image|] == image
    ensures forall i :: base + |image| <= i < base + room ==> after[i] == 0
    ensures AgreeOutside(after, before, base, base + room)
  {
    var copied := Overwrite(before, base, image);
    OverwriteAt(before, base, image);
    OverwriteAt(copied, base + |image|, Zeros(room - |image|));
    assert forall i :: 0 <= i < |image| ==> after[base .. base + |image|][i] == image[i];
  }

  /** The writes of flex_cpy() once its checks pass: memcpy of `image` to
      offset base, memset of zeros over the rest of the `room` bytes there. */
  method CopyOver(buf: array<byte>, base: nat, image: seq<byte>, room: nat)
    requires |image| <= room && base + room <= buf.Length
    modifies buf
    ensures buf[..][base .. base + |image|] == image
    ensures forall i :: base + |image| <= i < base + room ==> buf[i] == 0
    ensures AgreeOutside(buf[..], old(buf[..]), base, base + room)
  {
    ghost var before := buf[..];
    MemCpy(buf, base, image);
    MemSet(buf, base + |image|, room - |image|, 0);
    CpyEffect(before, base, image, room, buf[..]);
  }

  /** flex_cpy(dst, src): copy src, header and elements, over dst and zero
      the rest of dst's former extent. Nothing outside that extent is written. */
  method FlexCpy(dst: FlexStruct, src: FlexStruct) returns (err: Errno)
    requires dst.Valid() && src.Valid()
    requires dst.shape == src.shape
    requires dst.buf != src.buf
    modifies dst.buf
    ensures err == CpyCheck(src.shape, old(dst.Count()), src.Count())
    ensures err == Ok <==> src.Count() <= old(dst.Count())
    ensures err != Ok ==> dst.buf[..] == old(dst.buf[..])
    ensures err == Ok ==>
              && dst.Valid()
              && dst.Count() == src.Count()
              && dst.Image() == src.Image()
              && (forall i :: dst.base + src.Size() <= i < dst.base + old(dst.Size()) ==> dst.buf[i] == 0)
              && AgreeOutside(dst.buf[..], old(dst.buf[..]), dst.base, dst.base + old(dst.Size()))
  {
    var shape := dst.shape;
    err := CpyCheck(shape, dst.Count(), src.Count());
    if err != Ok {
      return;
    }
    LiveSizes(dst);
    LiveSizes(src);
    var dstBytes := FasBytes(shape, dst.Count()).bytes;
    var srcBytes := FasBytes(shape, src.Count()).bytes;
    var image := src.buf[src.base .. src.base + srcBytes];
    CopyOver(dst.buf, dst.base, image, dstBytes);
    CountOfCopiedHeader(shape, dst.buf[..], dst.base, image);
    CountOfCopiedHeader(shape, src.buf[..], src.base, image);
  }

  // ---------------------------------------------------------------------
  // __flex_dup() / flex_dup()
  // ---------------------------------------------------------------------

  /** The size checks of __flex_dup(): the allocation is the bytes of src plus
      the `prefix` bytes of the encapsulating struct before it. */
  function DupCheck(shape: Shape, prefix: nat, srcCount: nat): (r: Sized)
    requires shape.Valid() && prefix <= SIZE_MAX && srcCount <= shape.CountMax()
    ensures r.err == Ok || r.err == E2BIG
    ensures r.err == Ok <==> prefix + shape.headerSize + shape.elemSize * srcCount <= SIZE_MAX
    ensures r.err == Ok ==> r.bytes == prefix + shape.headerSize + shape.elemSize * srcCount
  {
    var copy := FasBytes(shape, srcCount);
    var total := CheckAddOverflow(copy.bytes, prefix);
    FasBytesOfCount(shape, srcCount);
    if copy.err != Ok || total.overflow then Sized(E2BIG, 0) else Sized(Ok, total.value)
  }

  /** Copying an image behind a zeroed prefix leaves exactly the zeros and the image. */
  lemma DupEffect(mid: seq<byte>, prefix: nat, image: seq<byte>, after: seq<byte>)
    requires |mid| == prefix + |image| && mid[.. prefix] == Zeros(prefix)
    requires after == Overwrite(mid, prefix, image)
    ensures after == Zeros(prefix) + image
  {
    OverwriteAt(mid, prefix, image);
    assert forall i :: 0 <= i < prefix ==> mid[i] == mid[.. prefix][i];
  }

  /** The allocation and writes of __flex_dup(): kmalloc of prefix + |image|
      bytes, memset of the prefix when there is one, memcpy of image behind it. */
  method AllocBehindPrefix(prefix: nat, image: seq<byte>) returns (p: array?<byte>)
    ensures p != null ==> fresh(p) && p[..] == Zeros(prefix) + image
  {
    p := KMalloc(prefix + |image|);
    if p == null {
      return;
    }
    if prefix != 0 {
      ghost var fresh0 := p[..];
      MemSet(p, 0, prefix, 0);
      OverwriteOnlyTouchesItsRange(fresh0, 0, Zeros(prefix));
    }
    ghost var mid := p[..];
    MemCpy(p, prefix, image);
    DupEffect(mid, prefix, image, p[..]);
  }

  /** __flex_dup(alloc, dot_fas_member, src): allocate an (encapsulating)
      struct whose embedded struct starts `prefix` bytes in (0 for flex_dup),
      zero what precedes it and copy src into it. *alloc is written only on
      success. */
  method FlexDup(alloc: StructSlot?, prefix: nat, src: FlexStruct) returns (err: Errno)
    requires src.Valid() && prefix <= SIZE_MAX
    modifies alloc
    ensures err == EINVAL <==> alloc == null || old(alloc.ptr) != null
    ensures err == E2BIG <==>
              alloc != null && old(alloc.ptr) == null && DupCheck(src.shape, prefix, src.Count()).err == E2BIG
    ensures err != Ok && alloc != null ==> alloc.ptr == old(alloc.ptr)
    ensures err == Ok ==>
              && alloc != null && alloc.ptr != null
              && fresh(alloc.ptr) && fresh(alloc.ptr.buf)
              && alloc.ptr.shape == src.shape && alloc.ptr.base == prefix
              && alloc.ptr.buf[..] == Zeros(prefix) + src.Image()
              && alloc.ptr.Valid()
              && alloc.ptr.Count() == src.Count()
              && alloc.ptr.Image() == src.Image()
  {
    if alloc == null || alloc.ptr != null {
      return EINVAL;
    }
    var shape := src.shape;
    var sized := DupCheck(shape, prefix, src.Count());
    if sized.err != Ok {
      return E2BIG;
    }
    LiveSizes(src);
    var copyBytes := FasBytes(shape, src.Count()).bytes;
    var image := src.buf[src.base .. src.base + copyBytes];
    var p := AllocBehindPrefix(prefix, image);
    if p == null {
      return ENOMEM;
    }
    assert p[..][prefix .. prefix + |image|] == image;
    CountOfCopiedHeader(shape, p[..], prefix, image);
    CountOfCopiedHeader(shape, src.buf[..], src.base, image);
    var r := new FlexStruct(shape, p, prefix);
    assert image == src.Image();
    assert r.Count() == src.Count();
    assert r.Valid() && r.Image() == image;
    alloc.ptr := r;
    err := Ok;
  }

  // ---------------------------------------------------------------------
  // __mem_to_flex() / mem_to_flex()
  // ---------------------------------------------------------------------

  /** The checks of __mem_to_flex(): a non-negative count the count member can
      hold, at most INT_MAX bytes, no more than the known size of src, and no
      more elements than dst currently counts. */
  function MtfCheck(shape: Shape, n: int, srcSize: Option<nat>, dstCount: nat): (r: Errno)
    requires shape.Valid() && IsCInt(n) && dstCount <= shape.CountMax()
    ensures r == Ok || r == E2BIG
    ensures r == Ok <==>
              && 0 <= n <= shape.CountMax()
              && shape.elemSize * n <= INT_MAX
              && shape.elemSize * n <= ObjectSize(srcSize)
              && shape.elemSize * dstCount <= SIZE_MAX
              && n <= dstCount
  {
    if n < 0 then E2BIG
    else
      var copy := ElementsBytes(shape, n);
      ElementsBytesOfSizeT(shape, n);
      if copy.err != Ok || copy.bytes > INT_MAX || copy.bytes > ObjectSize(srcSize) then E2BIG
      else
        var room := ElementsBytes(shape, dstCount);
        CountMaxFitsSizeT(shape);
        ElementsBytesOfSizeT(shape, dstCount);
        MulMonotone(shape.elemSize, n, dstCount);
        if room.err != Ok || room.bytes < copy.bytes then E2BIG else Ok
  }

  /** `after` is `before` with `copy` at offset e, zeros over [wipeAt,
      wipeAt + wipeLen), and possibly other bytes in the count member at
      [c, c + w); nothing else differs. */
  ghost predicate Stored(before: seq<byte>, after: seq<byte>, e: nat, copy: seq<byte>,
                         wipeAt: nat, wipeLen: nat, c: nat, w: nat)
  {
    && |after| == |before|
    && e + |copy| <= |after| && wipeAt + wipeLen <= |after|
    && (forall i :: 0 <= i < |copy| ==> after[e + i] == copy[i])
    && (forall i :: wipeAt <= i < wipeAt + wipeLen ==> after[i] == 0)
    && (forall i :: (0 <= i < |after| && !(e <= i < e + |copy|) && !(wipeAt <= i < wipeAt + wipeLen)
                     && !(c <= i < c + w))
                    ==> after[i] == before[i])
  }

  /** The memory that the writes of __mem_to_flex() leave behind: copy at e,
      the wipe, then the count member's bytes `enc` at c, before the elements. */
  lemma StoreEffect(before: seq<byte>, e: nat, copy: seq<byte>, wipeAt: nat, wipeLen: nat, c: nat, enc: seq<byte>,
                    copied: seq<byte>, wiped: seq<byte>, after: seq<byte>)
    requires c + |enc| <= e && e + |copy| <= wipeAt && wipeAt + wipeLen <= |before|
    requires copied == Overwrite(before, e, copy)
    requires wiped == Overwrite(copied, wipeAt, Zeros(wipeLen))
    requires after == Overwrite(wiped, c, enc)
    ensures Stored(before, after, e, copy, wipeAt, wipeLen, c, |enc|)
  {
    OverwriteAt(before, e, copy);
    OverwriteAt(copied, wipeAt, Zeros(wipeLen));
    OverwriteAt(wiped, c, enc);
  }

  /** The writes of __mem_to_flex() once its checks pass: memcpy of `copy`
      to the elements, memset of wipeLen zero bytes at wipeAt, the count
      member set to n. */
  method StoreElements(dst: FlexStruct, copy: seq<byte>, wipeAt: nat, wipeLen: nat, n: nat)
    requires dst.Placed() && dst.ElementsStart() + |copy| <= wipeAt && wipeAt + wipeLen <= dst.buf.Length
    requires n <= dst.shape.CountMax()
    modifies dst.buf
    ensures dst.Count() == n
    ensures Stored(old(dst.buf[..]), dst.buf[..], dst.ElementsStart(), copy, wipeAt, wipeLen,
                   dst.CountStart(), dst.shape.countWidth)
  {
    ghost var before := dst.buf[..];
    MemCpy(dst.buf, dst.ElementsStart(), copy);
    ghost var copied := dst.buf[..];
    MemSet(dst.buf, wipeAt, wipeLen, 0);
    ghost var wiped := dst.buf[..];
    dst.SetCount(n);
    ghost var enc := EncodeLE(n, dst.shape.countWidth);
    StoreEffect(before, dst.ElementsStart(), copy, wipeAt, wipeLen, dst.CountStart(), enc, copied, wiped, dst.buf[..]);
  }

  /** __mem_to_flex(dst, ..., src, n) with the wipe the header documents:
      copy n elements from src, zero the rest of dst's former elements, set
      the count member to n. Only dst's former elements and its count member
      are written. */
  method MemToFlex(dst: FlexStruct, src: seq<byte>, srcSize: Option<nat>, n: int) returns (err: Errno)
    requires dst.Valid() && IsCInt(n)
    requires MtfCheck(dst.shape, n, srcSize, dst.Count()) == Ok ==> dst.shape.elemSize * n <= |src|
    modifies dst.buf
    ensures err == MtfCheck(dst.shape, n, srcSize, old(dst.Count()))
    ensures err != Ok ==> dst.buf[..] == old(dst.buf[..])
    ensures err == Ok ==> dst.Valid() && dst.Count() == n
    ensures err == Ok ==>
              var e, copy, room := dst.ElementsStart(), dst.shape.elemSize * n, dst.shape.elemSize * old(dst.Count());
              && 0 <= copy <= room && e + room <= dst.buf.Length && copy <= |src|
              && dst.buf[e .. e + copy] == src[.. copy]
              && (forall i :: e + copy <= i < e + room ==> dst.buf[i] == 0)
              && (forall i :: (0 <= i < dst.buf.Length && !(e <= i < e + room)
                               && !(dst.CountStart() <= i < dst.CountStart() + dst.shape.countWidth))
                              ==> dst.buf[i] == old(dst.buf[i]))
  {
    var shape := dst.shape;
    var dstCount := dst.Count();
    err := MtfCheck(shape, n, srcSize, dstCount);
    if err != Ok {
      return;
    }
    ElementsBytesOfSizeT(shape, n);
    CountMaxFitsSizeT(shape);
    ElementsBytesOfSizeT(shape, dstCount);
    MulMonotone(shape.elemSize, n, dstCount);
    var copyBytes := ElementsBytes(shape, n).bytes;
    var dstBytes := ElementsBytes(shape, dstCount).bytes;
    var e := dst.ElementsStart();
    StoreElements(dst, src[.. copyBytes], e + copyBytes, dstBytes - copyBytes, n as nat);
    assert dst.buf[e .. e + copyBytes] == src[.. copyBytes] by {
      assert forall i :: 0 <= i < copyBytes ==> dst.buf[e .. e + copyBytes][i] == src[.. copyBytes][i];
    }
  }

  /** __mem_to_flex() as written: the wipe starts at the END of dst's former
      elements (flex_array.h:392) instead of after the copied ones, so the
      former elements past the copy keep their old bytes and the bytes after
      the struct's validated extent are zeroed. Its second requires is where
      that wipe stays inside the allocation; beyond it the C code writes past
      the allocation. */
  method MemToFlexAsWritten(dst: FlexStruct, src: seq<byte>, srcSize: Option<nat>, n: int) returns (err: Errno)
    requires dst.Valid() && IsCInt(n)
    requires MtfCheck(dst.shape, n, srcSize, dst.Count()) == Ok ==>
               && dst.shape.elemSize * n <= |src|
               && dst.ElementsStart() + 2 * (dst.shape.elemSize * dst.Count()) - dst.shape.elemSize * n <= dst.buf.Length
    modifies dst.buf
    ensures err == MtfCheck(dst.shape, n, srcSize, old(dst.Count()))
    ensures err != Ok ==> dst.buf[..] == old(dst.buf[..])
    ensures err == Ok ==> dst.Valid() && dst.Count() == n
    ensures err == Ok ==>
              var e, copy, room := dst.ElementsStart(), dst.shape.elemSize * n, dst.shape.elemSize * old(dst.Count());
              && 0 <= copy <= room && e + 2 * room - copy <= dst.buf.Length && copy <= |src|
              && dst.buf[e .. e + copy] == src[.. copy]
              && (forall i :: e + copy <= i < e + room ==> dst.buf[i] == old(dst.buf[i]))
              && (forall i :: e + room <= i < e + 2 * room - copy ==> dst.buf[i] == 0)
              && (forall i :: (0 <= i < dst.buf.Length && !(e <= i < e + 2 * room - copy)
                               && !(dst.CountStart() <= i < dst.CountStart() + dst.shape.countWidth))
                              ==> dst.buf[i] == old(dst.buf[i]))
  {
    var shape := dst.shape;
    var dstCount := dst.Count();
    err := MtfCheck(shape, n, srcSize, dstCount);
    if err != Ok {
      return;
    }
    ElementsBytesOfSizeT(shape, n);
    CountMaxFitsSizeT(shape);
    ElementsBytesOfSizeT(shape, dstCount);
    MulMonotone(shape.elemSize, n, dstCount);
    var copyBytes := ElementsBytes(shape, n).bytes;
    var dstBytes := ElementsBytes(shape, dstCount).bytes;
    var e := dst.ElementsStart();
    StoreElements(dst, src[.. copyBytes], e + dstBytes, dstBytes - copyBytes, n as nat);
    assert dst.buf[e .. e + copyBytes] == src[.. copyBytes] by {
      assert forall i :: 0 <= i < copyBytes ==> dst.buf[e .. e + copyBytes][i] == src[.. copyBytes][i];
    }
  }

  /** The as-written wipe of a call that copies fewer elements than dst
      counts is never empty and starts exactly where dst's validated extent
      ends; on a struct allocated to exactly its count it ends past the
      allocation. */
  lemma AsWrittenWipeLeavesStruct(dst: FlexStruct, srcSize: Option<nat>, n: int)
    requires dst.Valid() && IsCInt(n)
    requires MtfCheck(dst.shape, n, srcSize, dst.Count()) == Ok && n < dst.Count()
    ensures var copy, room := dst.shape.elemSize * n, dst.shape.elemSize * dst.Count();
            && room < 2 * room - copy
            && dst.base + dst.Size() == dst.ElementsStart() + room
    ensures dst.buf.Length == dst.base + dst.Size() ==>
              dst.ElementsStart() + 2 * (dst.shape.elemSize * dst.Count()) - dst.shape.elemSize * n > dst.buf.Length
  {
    MulMonotone(dst.shape.elemSize, dst.Count(), n);
  }

  // ---------------------------------------------------------------------
  // __mem_to_flex_dup() / mem_to_flex_dup()
  // ---------------------------------------------------------------------

  /** The checks of __mem_to_flex_dup(): those of __mem_to_flex() on the count
      and the source, then the allocation sizeof(outer struct) plus the
      element bytes must fit in size_t. */
  function MtfDupCheck(shape: Shape, prefix: nat, n: int, srcSize: Option<nat>): (r: Sized)
    requires shape.Valid() && prefix + shape.headerSize <= SIZE_MAX && IsCInt(n)
    ensures r.err == Ok || r.err == E2BIG
    ensures r.err == Ok <==>
              && 0 <= n <= shape.CountMax()
              && shape.elemSize * n <= INT_MAX
              && shape.elemSize * n <= ObjectSize(srcSize)
              && prefix + shape.headerSize + shape.elemSize * n <= SIZE_MAX
    ensures r.err == Ok ==> r.bytes == prefix + shape.headerSize + shape.elemSize * n
  {
    if n < 0 then Sized(E2BIG, 0)
    else
      var copy := ElementsBytes(shape, n);
      ElementsBytesOfSizeT(shape, n);
      if copy.err != Ok || copy.bytes > INT_MAX || copy.bytes > ObjectSize(srcSize) then Sized(E2BIG, 0)
      else
        var total := CheckAddOverflow(prefix + shape.headerSize, copy.bytes);
        if total.overflow then Sized(E2BIG, 0) else Sized(Ok, total.value)
  }

  /** The memory __mem_to_flex_dup() fills in: zeros before the elements
      (which start at e) except the count member's bytes enc (at c), then
      the copied elements. */
  lemma MtfDupEffect(before: seq<byte>, e: nat, c: nat, enc: seq<byte>, copy: seq<byte>,
                     wiped: seq<byte>, copied: seq<byte>, after: seq<byte>)
    requires c + |enc| <= e && |before| == e + |copy|
    requires wiped == Overwrite(before, 0, Zeros(e))
    requires copied == Overwrite(wiped, e, copy)
    requires after == Overwrite(copied, c, enc)
    ensures after[e ..] == copy
    ensures forall i :: (0 <= i < e && !(c <= i < c + |enc|)) ==> after[i] == 0
  {
    OverwriteAt(before, 0, Zeros(e));
    OverwriteAt(wiped, e, copy);
    OverwriteAt(copied, c, enc);
    assert forall i :: 0 <= i < |copy| ==> after[e ..][i] == copy[i];
  }

  /** The writes of __mem_to_flex_dup() into the fresh allocation: memset of
      everything before the elements, memcpy of `copy` to the elements, the
      count member set to n. */
  method InitElements(r: FlexStruct, copy: seq<byte>, n: nat)
    requires r.Placed() && r.buf.Length == r.ElementsStart() + |copy| && n <= r.shape.CountMax()
    modifies r.buf
    ensures r.Count() == n
    ensures r.buf[r.ElementsStart() ..] == copy
    ensures forall i :: (0 <= i < r.ElementsStart() && !(r.CountStart() <= i < r.CountStart() + r.shape.countWidth))
                        ==> r.buf[i] == 0
  {
    ghost var before := r.buf[..];
    MemSet(r.buf, 0, r.ElementsStart(), 0);
    ghost var wiped := r.buf[..];
    MemCpy(r.buf, r.ElementsStart(), copy);
    ghost var copied := r.buf[..];
    r.SetCount(n);
    MtfDupEffect(before, r.ElementsStart(), r.CountStart(), EncodeLE(n, r.shape.countWidth), copy,
                 wiped, copied, r.buf[..]);
    assert r.buf[r.ElementsStart() ..] == r.buf[..][r.ElementsStart() ..];
  }

  /** __mem_to_flex_dup(alloc, dot_fas_member, src, n): allocate an
      (encapsulating) struct for exactly n elements, zero everything before
      the elements, copy n elements from src and set the count member.
      *alloc is written only on success; nothing is allocated on a check
      failure. */
  method MemToFlexDup(alloc: StructSlot?, shape: Shape, prefix: nat, src: seq<byte>, srcSize: Option<nat>, n: int)
    returns (err: Errno)
    requires shape.Valid() && prefix + shape.headerSize <= SIZE_MAX && IsCInt(n)
    requires MtfDupCheck(shape, prefix, n, srcSize).err == Ok ==> shape.elemSize * n <= |src|
    modifies alloc
    ensures err == EINVAL <==> alloc == null || old(alloc.ptr) != null
    ensures err == E2BIG <==>
              alloc != null && old(alloc.ptr) == null && MtfDupCheck(shape, prefix, n, srcSize).err == E2BIG
    ensures err != Ok && alloc != null ==> alloc.ptr == old(alloc.ptr)
    ensures err == Ok ==>
              && alloc != null && alloc.ptr != null
              && fresh(alloc.ptr) && fresh(alloc.ptr.buf)
              && alloc.ptr.shape == shape && alloc.ptr.base == prefix
              && alloc.ptr.buf.Length == prefix + shape.headerSize + shape.elemSize * n
              && alloc.ptr.Valid()
              && alloc.ptr.Count() == n
              && alloc.ptr.Elements() == src[.. shape.elemSize * n]
              && (forall i :: (0 <= i < alloc.ptr.ElementsStart()
                               && !(alloc.ptr.CountStart() <= i < alloc.ptr.CountStart() + shape.countWidth))
                              ==> alloc.ptr.buf[i] == 0)
  {
    if alloc == null || alloc.ptr != null {
      return EINVAL;
    }
    var sized := MtfDupCheck(shape, prefix, n, srcSize);
    if sized.err != Ok {
      return E2BIG;
    }
    ElementsBytesOfSizeT(shape, n);
    var copyBytes := ElementsBytes(shape, n).bytes;
    var allocBytes := sized.bytes;
    var p := KMalloc(allocBytes);
    if p == null {
      return ENOMEM;
    }
    var r := new FlexStruct(shape, p, prefix);
    InitElements(r, src[.. copyBytes], n as nat);
    alloc.ptr := r;
    err := Ok;
  }

  // ---------------------------------------------------------------------
  // flex_to_mem()
  // ---------------------------------------------------------------------

  /** The checks of flex_to_mem(): a sane non-negative buffer size that holds
      the element bytes, and a bytes_written type (absent when bytes_written
      is the NULL literal) that can hold their number. */
  function FtmCheck(shape: Shape, available: int, count: nat, writtenMax: Option<nat>): (r: Errno)
    requires shape.Valid() && count <= shape.CountMax()
    ensures r == Ok || r == E2BIG
    ensures r == Ok <==>
              && 0 <= available <= INT_MAX
              && shape.elemSize * count <= available
              && (writtenMax.Some? ==> shape.elemSize * count <= writtenMax.value)
  {
    if available < 0 || available > INT_MAX then E2BIG
    else
      var copy := ElementsBytes(shape, count);
      ElementsBytesOfCount(shape, count);
      if copy.err != Ok || available < copy.bytes || (writtenMax.Some? && copy.bytes > writtenMax.value) then E2BIG
      else Ok
  }

  /** flex_to_mem(dst, available, ptr, written): copy exactly the element
      bytes of ptr (no header) to the start of dst and store their number in
      *written when written is not NULL. */
  method FlexToMem(dst: array<byte>, available: int, ptr: FlexStruct, written: SizeVar?, writtenMax: Option<nat>)
    returns (err: Errno)
    requires ptr.Valid() && dst != ptr.buf
    requires 0 <= available <= INT_MAX ==> available <= dst.Length
    requires written != null ==> writtenMax == Some(written.max)
    modifies dst, written
    ensures err == FtmCheck(ptr.shape, available, ptr.Count(), writtenMax)
    ensures err != Ok ==> dst[..] == old(dst[..]) && (written != null ==> written.value == old(written.value))
    ensures err == Ok ==> dst[..] == Overwrite(old(dst[..]), 0, ptr.Elements())
    ensures err == Ok && written != null ==> written.value == |ptr.Elements()|
  {
    err := FtmCheck(ptr.shape, available, ptr.Count(), writtenMax);
    if err != Ok {
      return;
    }
    LiveSizes(ptr);
    var copyBytes := ElementsBytes(ptr.shape, ptr.Count()).bytes;
    MemCpy(dst, 0, ptr.buf[ptr.ElementsStart() .. ptr.ElementsStart() + copyBytes]);
    if written != null {
      written.value := copyBytes;
    }
  }

  /** Deserializing with mem_to_flex() and serializing again with
      flex_to_mem() (bytes_written NULL) gives back the source bytes. */
  method MemToFlexToMem(dst: FlexStruct, src: seq<byte>, srcSize: Option<nat>, n: int, out: array<byte>)
    returns (err: Errno)
    requires dst.Valid() && IsCInt(n) && out != dst.buf
    requires MtfCheck(dst.shape, n, srcSize, dst.Count()) == Ok ==>
               dst.shape.elemSize * n <= |src| && dst.shape.elemSize * n <= out.Length
    modifies dst.buf, out
    ensures err == MtfCheck(dst.shape, n, srcSize, old(dst.Count()))
    ensures err == Ok ==>
              0 <= dst.shape.elemSize * n <= out.Length && dst.shape.elemSize * n <= |src|
              && out[.. dst.shape.elemSize * n] == src[.. dst.shape.elemSize * n]
  {
    err := MemToFlex(dst, src, srcSize, n);
    if err != Ok {
      return;
    }
    var copy := dst.shape.elemSize * n;
    assert dst.Elements() == src[.. copy];
    var rc := FlexToMem(out, copy, dst, null, None);
    assert rc == Ok;
    assert out[.. copy] == out[..][.. copy];
  }

  // ---------------------------------------------------------------------
  // flex_to_mem_dup()
  // ---------------------------------------------------------------------

  /** The size checks of flex_to_mem_dup(): the element bytes fit in size_t
      and in the type of *alloc_size. */
  function FtmDupCheck(shape: Shape, count: nat, sizeMax: nat): (r: Errno)
    requires shape.Valid() && count <= shape.CountMax()
    ensures r == Ok || r == E2BIG
    ensures r == Ok <==> shape.elemSize * count <= SIZE_MAX && shape.elemSize * count <= sizeMax
  {
    var copy := ElementsBytes(shape, count);
    ElementsBytesOfCount(shape, count);
    if copy.err != Ok || copy.bytes > sizeMax then E2BIG else Ok
  }

  /** flex_to_mem_dup(alloc, alloc_size, ptr): allocate a copy of exactly the
      element bytes of ptr and publish it and its size through *alloc and
      *alloc_size, both written only on success. sizeMax is type_max() of
      *alloc_size's type, known even when alloc_size is NULL. */
  method FlexToMemDup(alloc: BufferSlot?, allocSize: SizeVar?, sizeMax: nat, ptr: FlexStruct) returns (err: Errno)
    requires ptr.Valid()
    requires allocSize != null ==> allocSize.max == sizeMax
    modifies alloc, allocSize
    ensures err == EINVAL <==> alloc == null || old(alloc.ptr) != null || allocSize == null
    ensures err == E2BIG <==>
              alloc != null && old(alloc.ptr) == null && allocSize != null
              && FtmDupCheck(ptr.shape, ptr.Count(), sizeMax) == E2BIG
    ensures err != Ok ==>
              && (alloc != null ==> alloc.ptr == old(alloc.ptr))
              && (allocSize != null ==> allocSize.value == old(allocSize.value))
    ensures err == Ok ==>
              && alloc != null && allocSize != null && alloc.ptr != null
              && fresh(alloc.ptr)
              && alloc.ptr[..] == ptr.Elements()
              && allocSize.value == |ptr.Elements()|
  {
    if alloc == null || alloc.ptr != null || allocSize == null {
      return EINVAL;
    }
    err := FtmDupCheck(ptr.shape, ptr.Count(), sizeMax);
    if err != Ok {
      return;
    }
    LiveSizes(ptr);
    var copyBytes := ElementsBytes(ptr.shape, ptr.Count()).bytes;
    var p := KMemDup(ptr.buf[ptr.ElementsStart() .. ptr.ElementsStart() + copyBytes]);
    if p == null {
      return ENOMEM;
    }
    allocSize.value := copyBytes;
    alloc.ptr := p;
  }
}
