/** The scenarios of lib/flex_array_kunit.c restated over the model: each
    test case is a method that builds the structs the C test builds, makes
    the same calls, and asserts what the C test expects. */
module FlexArrayKunit {
  import opened Memory
  import opened FlexSize
  import opened FlexArray

  // ---------------------------------------------------------------------
  // The test structs
  // ---------------------------------------------------------------------

  /** struct normal / struct decl_normal: a size_t count and u32 elements. */
  const Normal := Shape(8, 4, 0, 8)

  /** struct aligned / struct decl_aligned: an unsigned short count and char
      elements aligned to 8 bytes. */
  const Aligned := Shape(8, 1, 0, 2)

  /** struct flex_cpy_obj: a u8 count, `empty` at 8, `induce_padding` at 16,
      padding, `after_padding` at 24, u32 elements from 32. */
  const FlexCpyObj := Shape(32, 4, 0, 1)
  const InducePadding := 16
  const AfterPadding := 24

  /** struct flex_dup_obj: `flags` at 0, `junk` at 8, the embedded
      flex_cpy_obj `fas` at 16. */
  const FasOffset := 16

  /** struct tiny_flex: a u8 count and u8 elements. */
  const TinyFlex := Shape(1, 1, 0, 1)

  /** The bytes of a u32 in memory. */
  function Word(x: nat): seq<byte>
  {
    EncodeLE(x, 4)
  }

  /** kzalloc(n) in the tests, which stop at a failed allocation. */
  method KzAlloc(n: nat) returns (a: array<byte>)
    ensures fresh(a) && a.Length == n
    ensures forall i :: 0 <= i < n ==> a[i] == 0
  {
    a := new byte[n](_ => 0);
  }

  // ---------------------------------------------------------------------
  // struct_test
  // ---------------------------------------------------------------------

  /** COMPARE_STRUCTS for both pairs: __fas_bytes(13) is struct_size(13) and
      __fas_elements_bytes(13) is flex_array_size(13), and header plus
      element bytes is the offset of the elements plus 13 elements. */
  lemma StructTest()
    ensures FasBytes(Normal, 13) == Sized(Ok, StructSize(Normal, 13))
    ensures ElementsBytes(Normal, 13) == Sized(Ok, FlexArraySize(Normal, 13))
    ensures Normal.headerSize + FlexArraySize(Normal, 13) == 8 + 4 * 13
    ensures FasBytes(Aligned, 13) == Sized(Ok, StructSize(Aligned, 13))
    ensures ElementsBytes(Aligned, 13) == Sized(Ok, FlexArraySize(Aligned, 13))
    ensures Aligned.headerSize + FlexArraySize(Aligned, 13) == 8 + 1 * 13
  {
    FasBytesOfCount(Normal, 13);
    ElementsBytesOfCount(Normal, 13);
    assert Pow256(2) == 65536;
    FasBytesOfCount(Aligned, 13);
    ElementsBytesOfCount(Aligned, 13);
  }

  // ---------------------------------------------------------------------
  // flex_cpy_test
  // ---------------------------------------------------------------------

  /** The test source of flex_cpy_test and flex_dup_test outside its count
      member: a zero header, elements 'A' (0x41 in every byte), the
      element at `marked` 0x14141414 and, when there is one more, that one
      0x24242424. */
  ghost predicate CpySource(src: FlexStruct, elements: nat, marked: nat)
    reads src.buf
  {
    && src.shape == FlexCpyObj && src.base == 0 && src.buf.Length == 32 + 4 * elements
    && marked < elements <= marked + 2
    && (forall i :: 1 <= i < 32 ==> src.buf[i] == 0)
    && (forall i :: 32 <= i < 32 + 4 * marked ==> src.buf[i] == 0x41)
    && src.buf[32 + 4 * marked .. 36 + 4 * marked] == Word(0x14141414)
    && (elements == marked + 2 ==> src.buf[36 + 4 * marked .. 40 + 4 * marked] == Word(0x24242424))
  }

  /** Prepare the open-coded source: kzalloc, the count, memset of the
      elements with 'A', then the marked elements. */
  method NewCpySource(elements: nat, marked: nat) returns (src: FlexStruct)
    requires marked < elements <= marked + 2 && elements <= 255
    ensures fresh(src.buf) && CpySource(src, elements, marked) && src.Valid() && src.Count() == elements
  {
    var buf := KzAlloc(32 + 4 * elements);
    src := new FlexStruct(FlexCpyObj, buf, 0);
    src.SetCount(elements);
    ghost var counted := buf[..];
    MemSet(buf, 32, 4 * elements, 0x41);
    MemCpy(buf, 32 + 4 * marked, Word(0x14141414));
    ghost var first := buf[..];
    assert first[32 + 4 * marked .. 36 + 4 * marked] == Word(0x14141414);
    if elements == marked + 2 {
      MemCpy(buf, 36 + 4 * marked, Word(0x24242424));
      assert buf[..][32 + 4 * marked .. 36 + 4 * marked] == first[32 + 4 * marked .. 36 + 4 * marked];
    }
    CountOfSameField(FlexCpyObj, counted, buf[..], 0);
  }

  /** CHECK_COPY(ptr): induce_padding and the unsigned long after it are
      zero, the count is src's and 12, elements 0..10 are 0x41414141 (every
      byte 'A') and element 11 is 0x14141414. */
  ghost predicate CheckCopy(p: FlexStruct, src: FlexStruct)
    reads p.buf, src.buf
  {
    && p.Placed() && src.Placed() && p.shape == FlexCpyObj && p.buf.Length >= p.base + 80
    && p.buf[p.base + InducePadding] == 0
    && (forall i :: p.base + InducePadding + 1 <= i < p.base + InducePadding + 9 ==> p.buf[i] == 0)
    && src.Count() == p.Count() == 12
    && (forall i :: p.base + 32 <= i < p.base + 76 ==> p.buf[i] == 0x41)
    && p.buf[p.base + 76 .. p.base + 80] == Word(0x14141414)
  }

  /** A struct of the flex_cpy_obj layout whose 84 bytes past the count
      member all hold `marker`. */
  ghost predicate Marked(dst: FlexStruct, marker: byte)
    reads dst.buf
  {
    && dst.shape == FlexCpyObj && dst.base == 0 && dst.buf.Length == 84
    && forall i :: 1 <= i < 84 ==> dst.buf[i] == marker
  }

  /** memset(dst, marker, struct_size(src, flex, 13)); dst->count = 12. */
  method Mark(dst: FlexStruct, marker: byte)
    requires dst.shape == FlexCpyObj && dst.base == 0 && dst.buf.Length == 84
    modifies dst.buf
    ensures Marked(dst, marker) && dst.Valid() && dst.Count() == 12
  {
    MemSet(dst.buf, 0, 84, marker);
    dst.SetCount(12);
  }

  /** src count 12 into dst count 12: the copy succeeds, CHECK_COPY holds,
      and dst->flex[12] keeps the 0xFE marker. */
  method FlexCpyTarget(dst: FlexStruct, src: FlexStruct)
    requires CpySource(src, 13, 11) && src.Valid() && Marked(dst, 0xFE) && dst.Valid() && dst.Count() == 12
    requires dst.buf != src.buf
    modifies dst.buf, src.buf
    ensures CpySource(src, 13, 11) && src.Valid() && dst.Valid() && dst.shape == FlexCpyObj && dst.base == 0
    ensures dst.Count() == 12 && dst.buf.Length == 84 && dst.buf[80 .. 84] == Fill(4, 0xFE)
  {
    src.SetCount(12);
    var rc := FlexCpy(dst, src);
    assert rc == Ok;
    assert forall i :: 0 <= i < 80 ==> dst.buf[i] == src.buf[i] by {
      assert forall i :: 0 <= i < 80 ==> dst.Image()[i] == src.Image()[i];
    }
    assert CheckCopy(dst, src);
    assert dst.buf[80 .. 84] == Fill(4, 0xFE);
  }

  /** src count 13 into dst count 12 trips the overflow check and writes nothing. */
  method FlexCpyOverflow(dst: FlexStruct, src: FlexStruct)
    requires CpySource(src, 13, 11) && src.Valid() && dst.Valid() && dst.shape == FlexCpyObj && dst.base == 0
    requires dst.Count() == 12 && dst.buf.Length == 84 && dst.buf[80 .. 84] == Fill(4, 0xFE)
    requires dst.buf != src.buf
    modifies dst.buf, src.buf
    ensures CpySource(src, 13, 11) && src.Valid()
  {
    src.SetCount(13);
    var rc := FlexCpy(dst, src);
    assert rc == E2BIG;
    assert dst.buf[80 .. 84] == Fill(4, 0xFE);
  }

  /** src count 10 into a 0xFD-filled dst count 12: the count is adjusted,
      dst->flex[10] is wiped and dst->flex[12] is untouched. */
  method FlexCpySmall(dst: FlexStruct, src: FlexStruct)
    requires CpySource(src, 13, 11) && src.Valid() && Marked(dst, 0xFD) && dst.Valid() && dst.Count() == 12
    requires dst.buf != src.buf
    modifies dst.buf, src.buf
  {
    src.SetCount(10);
    var rc := FlexCpy(dst, src);
    assert rc == Ok;
    assert dst.Count() == 10;
    assert dst.buf[72 .. 76] == Fill(4, 0);
    assert dst.buf[80 .. 84] == Fill(4, 0xFD);
  }

  method FlexCpyTest()
  {
    var src := NewCpySource(13, 11);
    var dbuf := KzAlloc(84);
    var dst := new FlexStruct(FlexCpyObj, dbuf, 0);
    Mark(dst, 0xFE);
    FlexCpyTarget(dst, src);
    FlexCpyOverflow(dst, src);
    Mark(dst, 0xFD);
    FlexCpySmall(dst, src);
  }

  // ---------------------------------------------------------------------
  // flex_dup_test
  // ---------------------------------------------------------------------

  /** flex_dup() of the test source into the empty slot `slot`, the struct
      at offset `prefix` of the allocation (0 for flex_dup(), the offset of
      `fas` for __flex_dup()): unless kmalloc fails, the copy passes
      CHECK_COPY and every byte before it is zero. */
  method FlexDupGood(slot: StructSlot, prefix: nat, src: FlexStruct) returns (rc: Errno)
    requires CpySource(src, 12, 11) && src.Valid() && src.Count() == 12 && slot.ptr == null && prefix <= FasOffset
    modifies slot
    ensures rc == Ok || rc == ENOMEM
    ensures rc == Ok ==>
              && slot.ptr != null && slot.ptr.base == prefix && CheckCopy(slot.ptr, src)
              && forall i :: 0 <= i < prefix ==> slot.ptr.buf[i] == 0
    ensures rc == ENOMEM ==> slot.ptr == null
  {
    assert DupCheck(FlexCpyObj, prefix, 12).err == Ok;
    rc := FlexDup(slot, prefix, src);
    if rc == ENOMEM {
      return;
    }
    var p := slot.ptr;
    assert forall i :: 0 <= i < prefix + 80 ==> p.buf[i] == (Zeros(prefix) + src.Image())[i];
    assert forall i :: prefix <= i < prefix + 80 ==> p.buf[i] == src.buf[i - prefix];
  }

  method FlexDupTest()
  {
    var src := NewCpySource(12, 11);
    // Reject NULL alloc.
    var rc := FlexDup(null, 0, src);
    assert rc == EINVAL;
    // Good copy.
    var dst := new StructSlot();
    rc := FlexDupGood(dst, 0, src);
    if rc != Ok {
      return;
    }
    // Reject a filled *alloc.
    rc := FlexDup(dst, 0, src);
    assert rc == EINVAL;
    // Good encapsulated copy; flags (bytes 0-7) and junk (8-11) are zero.
    var encap := new StructSlot();
    rc := FlexDupGood(encap, FasOffset, src);
    if rc != Ok {
      return;
    }
    assert forall i :: 0 <= i < 12 ==> encap.ptr.buf[i] == 0;
  }

  // ---------------------------------------------------------------------
  // mem_to_flex_test
  // ---------------------------------------------------------------------

  /** char small[] = "Hello". */
  const Small: seq<byte> := [0x48, 0x65, 0x6C, 0x6C, 0x6F, 0]

  /** The destination of mem_to_flex_test apart from its count member: room
      for 256 elements, the rest of the header zero, every byte of flex[0]
      `first` and the elements after it zero. */
  ghost predicate MtfDst(dst: FlexStruct, first: byte)
    reads dst.buf
  {
    && dst.shape == FlexCpyObj && dst.base == 0 && dst.buf.Length == 32 + 4 * 256
    && (forall i :: 1 <= i < 32 ==> dst.buf[i] == 0)
    && (forall i :: 32 <= i < 36 ==> dst.buf[i] == first)
    && (forall i :: 36 <= i < 32 + 4 * 256 ==> dst.buf[i] == 0)
  }

  method NewMtfDst() returns (dst: FlexStruct)
    ensures fresh(dst.buf) && MtfDst(dst, 0) && dst.Valid() && dst.Count() == 9
  {
    var buf := KzAlloc(32 + 4 * 256);
    dst := new FlexStruct(FlexCpyObj, buf, 0);
    dst.SetCount(9);
  }

  /** mem_to_flex(dst, src, 1) from the 0x03-filled source: count 1,
      after_padding zero, flex[0] == 0x03030303 (every byte 3) and flex[1]
      zero; then dst->count = 9 again. */
  method MemToFlexShort(dst: FlexStruct, src: seq<byte>)
    requires MtfDst(dst, 0) && dst.Valid() && dst.Count() == 9 && src == Fill(4 * 256, 3)
    modifies dst.buf
    ensures MtfDst(dst, 3) && dst.Valid() && dst.Count() == 9
  {
    var rc := MemToFlex(dst, src, None, 1);
    assert rc == Ok;
    assert dst.Count() == 1;
    assert forall i :: AfterPadding <= i < 32 ==> dst.buf[i] == 0;
    forall i | 32 <= i < 36
      ensures dst.buf[i] == 3
    {
      assert dst.buf[32 .. 36][i - 32] == src[.. 4][i - 32];
    }
    assert forall i :: 36 <= i < 40 ==> dst.buf[i] == 0;
    dst.SetCount(9);
  }

  /** A mem_to_flex() call the checks refuse: -E2BIG, and dst is unchanged,
      so flex[0] is still 0x03030303 and flex[1] zero. */
  method MemToFlexRefused(dst: FlexStruct, src: seq<byte>, srcSize: Option<nat>, n: int, count: nat)
    requires MtfDst(dst, 3) && dst.Valid() && dst.Count() == count && IsCInt(n)
    requires MtfCheck(FlexCpyObj, n, srcSize, count) == E2BIG
    modifies dst.buf
    ensures MtfDst(dst, 3) && dst.Valid() && dst.Count() == count
  {
    var rc := MemToFlex(dst, src, srcSize, n);
    assert rc == E2BIG;
    assert forall i :: 0 <= i < dst.buf.Length ==> dst.buf[..][i] == old(dst.buf[..])[i];
  }

  method MemToFlexTest()
  {
    var src := Fill(4 * 256, 3);
    var dst := NewMtfDst();
    MemToFlexShort(dst, src);
    // A negative count, a read past the 6 bytes of small, INT_MAX + 1.
    MemToFlexRefused(dst, Small, Some(6), -1, 9);
    MemToFlexRefused(dst, Small, Some(6), 20, 9);
    MemToFlexRefused(dst, Small, Some(6), INT_MAX + 1, 9);
    // 256 elements into a struct whose u8 count says 255.
    dst.SetCount(255);
    assert forall i :: 32 + 4 * 254 <= i < 32 + 4 * 256 ==> dst.buf[i] == 0;
    MemToFlexRefused(dst, src, None, 256, 255);
  }

  /** The wipe of __mem_to_flex() on a destination whose allocation is
      filled with 0xFE and whose count is 9, copying one element: the
      documented wipe clears flex[1] and leaves flex[9], just past the
      struct, alone; the wipe as written leaves the stale flex[1] and clears
      flex[9]. */
  method NewStaleDst() returns (dst: FlexStruct)
    ensures fresh(dst.buf) && dst.shape == FlexCpyObj && dst.base == 0 && dst.buf.Length == 32 + 4 * 256
    ensures dst.Valid() && dst.Count() == 9
    ensures forall i :: 1 <= i < 32 + 4 * 256 ==> dst.buf[i] == 0xFE
  {
    var buf := KzAlloc(32 + 4 * 256);
    MemSet(buf, 0, 32 + 4 * 256, 0xFE);
    dst := new FlexStruct(FlexCpyObj, buf, 0);
    dst.SetCount(9);
  }

  method MemToFlexWipeTest()
  {
    var src := Fill(4 * 256, 3);
    var dst := NewStaleDst();
    var rc := MemToFlex(dst, src, None, 1);
    assert rc == Ok;
    assert forall i :: 36 <= i < 40 ==> dst.buf[i] == 0;
    assert forall i :: 68 <= i < 72 ==> dst.buf[i] == 0xFE;
    var stale := NewStaleDst();
    rc := MemToFlexAsWritten(stale, src, None, 1);
    assert rc == Ok;
    assert forall i :: 36 <= i < 40 ==> stale.buf[i] == 0xFE;
    assert forall i :: 68 <= i < 72 ==> stale.buf[i] == 0;
  }

  // ---------------------------------------------------------------------
  // mem_to_flex_dup_test
  // ---------------------------------------------------------------------

  /** The refused calls: a count over the u8 count type, a negative count, a
      read past small, INT_MAX + 1, and a NULL alloc. */
  method MemToFlexDupRefused(src: seq<byte>)
    requires src == Fill(260, 0xAB)
  {
    var tiny := new StructSlot();
    var rc := MemToFlexDup(tiny, TinyFlex, 0, src, None, 259);
    assert rc == E2BIG && tiny.ptr == null;
    rc := MemToFlexDup(tiny, TinyFlex, 0, src, None, -1);
    assert rc == E2BIG && tiny.ptr == null;
    rc := MemToFlexDup(tiny, TinyFlex, 0, Small, Some(6), 20);
    assert rc == E2BIG && tiny.ptr == null;
    rc := MemToFlexDup(tiny, TinyFlex, 0, Small, Some(6), INT_MAX + 1);
    assert rc == E2BIG && tiny.ptr == null;
    rc := MemToFlexDup(null, TinyFlex, 0, src, None, 259);
    assert rc == EINVAL;
  }

  /** A reasonable count: count 129 and bytes 0xAB, then a filled *alloc is refused. */
  method MemToFlexDupTiny(src: seq<byte>)
    requires src == Fill(260, 0xAB)
  {
    var tiny := new StructSlot();
    var rc := MemToFlexDup(tiny, TinyFlex, 0, src, None, 129);
    if rc == ENOMEM {
      return;
    }
    assert rc == Ok;
    var t := tiny.ptr;
    assert t.Count() == 129;
    assert t.Elements()[0] == t.Elements()[64] == t.Elements()[128] == 0xAB;
    assert t.buf[1] == t.buf[1 + 64] == t.buf[1 + 128] == 0xAB;
    rc := MemToFlexDup(tiny, TinyFlex, 0, src, None, 129);
    assert rc == EINVAL;
  }

  /** Encapsulated, count 25: after_padding, flags and junk zero, and
      flex[0], flex[12] and flex[24] 0xABABABAB (every byte 0xAB). */
  method MemToFlexDupEncap(src: seq<byte>)
    requires src == Fill(260, 0xAB)
  {
    var obj := new StructSlot();
    var rc := MemToFlexDup(obj, FlexCpyObj, FasOffset, src, None, 25);
    if rc == ENOMEM {
      return;
    }
    assert rc == Ok;
    var fas := obj.ptr;
    assert fas.Count() == 25;
    assert forall i :: FasOffset + AfterPadding <= i < FasOffset + 32 ==> fas.buf[i] == 0;
    assert forall i :: 0 <= i < 100 ==> fas.buf[48 + i] == fas.Elements()[i] == 0xAB;
    assert forall i :: 0 <= i < 12 ==> fas.buf[i] == 0;
  }

  method MemToFlexDupTest()
  {
    var src := Fill(260, 0xAB);
    assert src[0] == src[130] == src[259] == 0xAB;
    MemToFlexDupRefused(src);
    MemToFlexDupTiny(src);
    MemToFlexDupEncap(src);
  }

  // ---------------------------------------------------------------------
  // flex_to_mem_test and flex_to_mem_dup_test
  // ---------------------------------------------------------------------

  /** for (i = 0; i < count; i++) p->flex[i] = w, over u32 elements. */
  method FillElements(p: FlexStruct, count: nat, w: seq<byte>)
    requires p.Placed() && p.shape.elemSize == 4 && |w| == 4
    requires p.ElementsStart() + 4 * count <= p.buf.Length
    modifies p.buf
    ensures forall j :: p.ElementsStart() <= j < p.ElementsStart() + 4 * count ==>
              p.buf[j] == w[(j - p.ElementsStart()) % 4]
    ensures forall j :: 0 <= j < p.ElementsStart() ==> p.buf[j] == old(p.buf[j])
    ensures forall j :: p.ElementsStart() + 4 * count <= j < p.buf.Length ==> p.buf[j] == old(p.buf[j])
  {
    var e := p.ElementsStart();
    var i := 0;
    while i < count
      invariant 0 <= i <= count
      invariant forall j :: e <= j < e + 4 * i ==> p.buf[j] == w[(j - e) % 4]
      invariant forall j :: 0 <= j < e ==> p.buf[j] == old(p.buf[j])
      invariant forall j :: e + 4 * i <= j < p.buf.Length ==> p.buf[j] == old(p.buf[j])
    {
      MemCpy(p.buf, e + 4 * i, w);
      i := i + 1;
    }
  }

  /** A live flex_cpy_obj with `count` elements, each holding the u32 whose
      bytes are w. */
  ghost predicate Filled(p: FlexStruct, count: nat, w: seq<byte>)
    reads p.buf
  {
    && p.shape == FlexCpyObj && |w| == 4 && p.Valid() && p.Count() == count
    && forall j :: p.ElementsStart() <= j < p.ElementsStart() + 4 * count ==>
         p.buf[j] == w[(j - p.ElementsStart()) % 4]
  }

  /** kzalloc(total), count, after_padding = 13, then the fill loop, for the
      struct at offset `base` of the allocation. */
  method NewFilledSource(total: nat, base: nat, count: nat, w: seq<byte>) returns (p: FlexStruct)
    requires |w| == 4 && count <= 255 && base + 32 + 4 * count <= total <= SIZE_MAX
    ensures fresh(p.buf) && p.base == base && p.buf.Length == total && Filled(p, count, w)
  {
    var buf := KzAlloc(total);
    p := new FlexStruct(FlexCpyObj, buf, base);
    p.SetCount(count);
    ghost var counted := buf[..];
    MemCpy(buf, base + AfterPadding, EncodeLE(13, 8));
    FillElements(p, count, w);
    CountOfSameField(FlexCpyObj, counted, buf[..], base);
  }

  /** Element k of memory filled from e on holds the u32 whose bytes are w:
      the spot checks cast[k] == MAGIC_WORD. */
  lemma SpotCheck(m: seq<byte>, e: nat, count: nat, w: seq<byte>, k: nat)
    requires |w| == 4 && k < count && e + 4 * count <= |m|
    requires forall j :: e <= j < e + 4 * count ==> m[j] == w[(j - e) % 4]
    ensures m[e + 4 * k .. e + 4 * k + 4] == w
  {
    forall j | 0 <= j < 4
      ensures m[e + 4 * k .. e + 4 * k + 4][j] == w[j]
    {
      assert m[e + 4 * k + j] == w[(4 * k + j) % 4];
    }
  }

  /** A flex_to_mem() call the checks refuse: dst and *bytes_written unchanged. */
  method FlexToMemRefused(dst: array<byte>, available: int, src: FlexStruct, written: SizeVar)
    requires Filled(src, 200, Word(0xF1F2F3F4)) && dst != src.buf && dst.Length == 2 * 832
    requires FtmCheck(FlexCpyObj, available, 200, Some(written.max)) == E2BIG
    requires 0 <= available <= INT_MAX ==> available <= dst.Length
    requires forall i :: 0 <= i < dst.Length ==> dst[i] == 0
    modifies dst, written
    ensures forall i :: 0 <= i < dst.Length ==> dst[i] == 0
    ensures written.value == old(written.value)
  {
    var rc := FlexToMem(dst, available, src, written, Some(written.max));
    assert rc == E2BIG;
    assert forall i :: 0 <= i < dst.Length ==> dst[..][i] == old(dst[..])[i];
  }

  /** The good copy: bytes == copy_len, the spot checks, and cast[200] zero. */
  method FlexToMemGood(dst: array<byte>, src: FlexStruct, bytes: SizeVar)
    requires Filled(src, 200, Word(0xF1F2F3F4)) && src.base == 0 && dst != src.buf && dst.Length == 2 * 832
    requires bytes.max == SIZE_MAX
    requires forall i :: 800 <= i < 804 ==> dst[i] == 0
    modifies dst, bytes
  {
    ghost var before := dst[..];
    var rc := FlexToMem(dst, 800, src, bytes, Some(SIZE_MAX));
    assert rc == Ok;
    assert bytes.value == 800;
    var w := Word(0xF1F2F3F4);
    OverwriteAt(before, 0, src.Elements());
    assert forall j :: 0 <= j < 800 ==> dst[..][j] == src.Elements()[j] == src.buf[32 + j];
    SpotCheck(dst[..], 0, 200, w, 0);
    SpotCheck(dst[..], 0, 200, w, 100);
    SpotCheck(dst[..], 0, 200, w, 199);
    assert forall i :: 800 <= i < 804 ==> dst[i] == 0;
  }

  method FlexToMemTest()
  {
    var src := NewFilledSource(832, 0, 200, Word(0xF1F2F3F4));
    var dst := KzAlloc(2 * 832);
    var bytes := new SizeVar(SIZE_MAX, 0);
    // dst one byte too small.
    FlexToMemRefused(dst, 799, src, bytes);
    assert bytes.value == 0;
    // A u8 bytes_written cannot hold 800.
    var tooSmall := new SizeVar(255, 0);
    FlexToMemRefused(dst, 800, src, tooSmall);
    assert bytes.value == 0;
    FlexToMemGood(dst, src, bytes);
  }

  /** The refused calls: a u8 *alloc_size cannot hold 840, alloc_size is
      the NULL dst (of type u8 *), and a NULL alloc. */
  method FlexToMemDupRefused(dst: BufferSlot, bytes: SizeVar, src: FlexStruct)
    requires Filled(src, 210, Word(0xF0F1F2F3)) && dst.ptr == null && bytes.max == SIZE_MAX
    modifies dst, bytes
    ensures dst.ptr == null && bytes.value == old(bytes.value)
  {
    var tooSmall := new SizeVar(255, 0);
    var rc := FlexToMemDup(dst, tooSmall, 255, src);
    assert rc == E2BIG && dst.ptr == null && tooSmall.value == 0;
    rc := FlexToMemDup(dst, null, 255, src);
    assert rc == EINVAL && dst.ptr == null;
    rc := FlexToMemDup(null, bytes, SIZE_MAX, src);
    assert rc == EINVAL && dst.ptr == null;
  }

  /** The good copy: bytes == copy_len and the spot checks. */
  method FlexToMemDupGood(dst: BufferSlot, bytes: SizeVar, src: FlexStruct) returns (rc: Errno)
    requires Filled(src, 210, Word(0xF0F1F2F3)) && src.base == FasOffset && dst.ptr == null && bytes.max == SIZE_MAX
    modifies dst, bytes
    ensures rc == Ok || rc == ENOMEM
    ensures rc == Ok ==> dst.ptr != null
  {
    rc := FlexToMemDup(dst, bytes, SIZE_MAX, src);
    if rc == ENOMEM {
      return;
    }
    assert rc == Ok && bytes.value == 840;
    var w := Word(0xF0F1F2F3);
    var copy := dst.ptr[..];
    assert forall j :: 0 <= j < 840 ==> copy[j] == src.Elements()[j] == src.buf[48 + j];
    SpotCheck(copy, 0, 210, w, 0);
    SpotCheck(copy, 0, 210, w, 105);
    SpotCheck(copy, 0, 210, w, 209);
  }

  method FlexToMemDupTest()
  {
    var src := NewFilledSource(888, FasOffset, 210, Word(0xF0F1F2F3));
    var dst := new BufferSlot();
    var bytes := new SizeVar(SIZE_MAX, 0);
    FlexToMemDupRefused(dst, bytes, src);
    assert bytes.value == 0;
    var rc := FlexToMemDupGood(dst, bytes, src);
    if rc != Ok {
      return;
    }
    // A filled *alloc.
    bytes.value := 0;
    rc := FlexToMemDup(dst, bytes, SIZE_MAX, src);
    assert rc == EINVAL && bytes.value == 0;
  }
}
