/** Size arithmetic of the flexible-array helpers: the shape of a flexible
    array struct, the error codes, and __fas_elements_bytes() / __fas_bytes()
    (and their fas_*() wrappers), which compute byte counts in size_t and
    refuse a count the count member cannot hold or a size that overflows. */
module FlexSize {
  import opened Memory

  const SIZE_MAX: nat := 0xFFFF_FFFF_FFFF_FFFF
  const INT_MAX: nat := 0x7FFF_FFFF

  /** 0 and the three negative errno values the helpers return. */
  datatype Errno = Ok | EINVAL | E2BIG | ENOMEM

  /** The layout a flexible array struct type fixes at compile time:
      sizeof(struct), sizeof(element), and offset and width (1, 2, 4 or 8
      bytes, unsigned) of the count member. The elements start right after
      the header, at offset headerSize. */
  datatype Shape = Shape(headerSize: nat, elemSize: nat, countOffset: nat, countWidth: nat)
  {
    predicate Valid()
    {
      && 1 <= elemSize <= SIZE_MAX
      && countWidth in {1, 2, 4, 8}
      && countOffset + countWidth <= headerSize <= SIZE_MAX
    }

    /** type_max() of the count member's type. */
    function CountMax(): nat
    {
      Pow256(countWidth) - 1
    }
  }

  lemma CountMaxFitsSizeT(shape: Shape)
    requires shape.Valid()
    ensures shape.CountMax() <= SIZE_MAX
  {
    assert Pow256(8) == SIZE_MAX + 1;
  }

  /** A status together with the value written through the `bytes` pointer. */
  datatype Sized = Sized(err: Errno, bytes: nat)

  /** Conversion of a C integer to size_t: reduction modulo 2^64. */
  function ToSizeT(n: int): nat
  {
    n % (SIZE_MAX + 1)
  }

  /** check_mul_overflow() / check_add_overflow() on size_t: whether the exact
      result overflows, and the wrapped result that is stored. */
  datatype Checked = Checked(overflow: bool, value: nat)

  function CheckMulOverflow(a: nat, b: nat): Checked
  {
    Checked(a * b > SIZE_MAX, (a * b) % (SIZE_MAX + 1))
  }

  function CheckAddOverflow(a: nat, b: nat): Checked
  {
    Checked(a + b > SIZE_MAX, (a + b) % (SIZE_MAX + 1))
  }

  /** __fas_elements_bytes(p, ..., n, &bytes): the byte size of n elements. */
  function ElementsBytes(shape: Shape, n: int): (r: Sized)
    requires shape.Valid()
    ensures r.err == Ok || r.err == E2BIG
    ensures r.err == Ok <==> ToSizeT(n) <= shape.CountMax() && shape.elemSize * ToSizeT(n) <= SIZE_MAX
    ensures r.err == Ok ==> r.bytes == shape.elemSize * ToSizeT(n)
    ensures r.err == E2BIG ==> r.bytes == 0
  {
    var count := ToSizeT(n);
    var product := CheckMulOverflow(shape.elemSize, count);
    if count > shape.CountMax() || product.overflow then Sized(E2BIG, 0)
    else Sized(Ok, product.value)
  }

  /** __fas_bytes(p, ..., n, &bytes): the byte size of the struct with n elements. */
  function FasBytes(shape: Shape, n: int): (r: Sized)
    requires shape.Valid()
    ensures r.err == Ok || r.err == E2BIG
    ensures r.err == Ok <==>
              ElementsBytes(shape, n).err == Ok
              && shape.headerSize + ElementsBytes(shape, n).bytes <= SIZE_MAX
    ensures r.err == Ok ==> r.bytes == shape.headerSize + ElementsBytes(shape, n).bytes
    ensures r.err == E2BIG ==> r.bytes == 0
  {
    var elements := ElementsBytes(shape, n);
    var sum := CheckAddOverflow(shape.headerSize, elements.bytes);
    if elements.err != Ok || sum.overflow then Sized(E2BIG, 0)
    else Sized(Ok, sum.value)
  }

  /** For a count the count member can hold, __fas_elements_bytes() is the
      exact product, refused only when that does not fit in size_t. */
  lemma ElementsBytesOfCount(shape: Shape, n: nat)
    requires shape.Valid() && n <= shape.CountMax()
    ensures ElementsBytes(shape, n)
            == if shape.elemSize * n <= SIZE_MAX then Sized(Ok, shape.elemSize * n) else Sized(E2BIG, 0)
  {
    CountMaxFitsSizeT(shape);
  }

  /** For a count the count member can hold, __fas_bytes() is header plus
      elements, refused only when that does not fit in size_t. */
  lemma FasBytesOfCount(shape: Shape, n: nat)
    requires shape.Valid() && n <= shape.CountMax()
    ensures FasBytes(shape, n)
            == if shape.headerSize + shape.elemSize * n <= SIZE_MAX
               then Sized(Ok, shape.headerSize + shape.elemSize * n)
               else Sized(E2BIG, 0)
  {
    ElementsBytesOfCount(shape, n);
    if shape.elemSize * n > SIZE_MAX {
      assert shape.headerSize + shape.elemSize * n > SIZE_MAX;
    }
  }

  /** A count larger than the count member's type_max() is refused. */
  lemma CountOverTypeMaxRefused(shape: Shape, n: nat)
    requires shape.Valid() && shape.CountMax() < n <= SIZE_MAX
    ensures ElementsBytes(shape, n) == Sized(E2BIG, 0)
    ensures FasBytes(shape, n) == Sized(E2BIG, 0)
  {
  }

  /** A negative count (of a C integer type of at most 64 bits) is refused
      whenever the count member is narrower than 64 bits or the elements are
      wider than one byte: it converts to a size_t above 2^63. */
  lemma NegativeCountRefused(shape: Shape, n: int)
    requires shape.Valid() && -0x8000_0000_0000_0000 <= n < 0
    requires shape.countWidth < 8 || shape.elemSize > 1
    ensures ElementsBytes(shape, n) == Sized(E2BIG, 0)
  {
    var c := ToSizeT(n);
    NegativeToSizeT(n);
    assert c >= 0x8000_0000_0000_0000;
    if shape.countWidth < 8 {
      assert Pow256(4) == 0x1_0000_0000;
      Pow256Monotone(shape.countWidth, 4);
      assert shape.CountMax() < c;
    } else {
      MulAtLeastTwice(shape.elemSize, c);
      assert shape.elemSize * c > SIZE_MAX;
    }
  }

  lemma MulAtLeastTwice(a: nat, c: nat)
    requires a >= 2
    ensures a * c >= 2 * c
  {
    assert a * c == 2 * c + (a - 2) * c;
  }

  /** A negative n converts to n + 2^64. */
  lemma NegativeToSizeT(n: int)
    requires -(SIZE_MAX + 1) <= n < 0
    ensures ToSizeT(n) == n + SIZE_MAX + 1
  {
    var m := SIZE_MAX + 1;
    var k := n + m;
    assert 0 <= k < m;
    assert n == k + (-1) * m;
    assert k % m == k;
  }

  lemma {:induction false} Pow256Monotone(v: nat, w: nat)
    requires v <= w
    ensures Pow256(v) <= Pow256(w)
  {
    if v < w {
      Pow256Monotone(v, w - 1);
    }
  }

  // ---------------------------------------------------------------------
  // Reference: the kernel's saturating struct_size() / flex_array_size()
  // ---------------------------------------------------------------------

  /** size_mul() and size_add(): the exact result, or SIZE_MAX on overflow. */
  function SizeMul(a: nat, b: nat): nat
  {
    if a * b > SIZE_MAX then SIZE_MAX else a * b
  }

  function SizeAdd(a: nat, b: nat): nat
  {
    if a + b > SIZE_MAX then SIZE_MAX else a + b
  }

  /** flex_array_size(p, member, n) and struct_size(p, member, n). */
  function FlexArraySize(shape: Shape, n: nat): nat
  {
    SizeMul(n, shape.elemSize)
  }

  function StructSize(shape: Shape, n: nat): nat
  {
    SizeAdd(shape.headerSize, FlexArraySize(shape, n))
  }

  /** __fas_elements_bytes() agrees with flex_array_size() whenever it
      succeeds, succeeds whenever flex_array_size() did not saturate, and
      fails only when flex_array_size() saturated. */
  lemma ElementsBytesAgreesWithFlexArraySize(shape: Shape, n: nat)
    requires shape.Valid() && n <= shape.CountMax()
    ensures ElementsBytes(shape, n).err == Ok ==> ElementsBytes(shape, n).bytes == FlexArraySize(shape, n)
    ensures FlexArraySize(shape, n) < SIZE_MAX ==> ElementsBytes(shape, n).err == Ok
    ensures ElementsBytes(shape, n).err == E2BIG ==> FlexArraySize(shape, n) == SIZE_MAX
  {
    ElementsBytesOfCount(shape, n);
  }

  /** __fas_bytes() agrees with struct_size() in the same three ways. */
  lemma FasBytesAgreesWithStructSize(shape: Shape, n: nat)
    requires shape.Valid() && n <= shape.CountMax()
    ensures FasBytes(shape, n).err == Ok ==> FasBytes(shape, n).bytes == StructSize(shape, n)
    ensures StructSize(shape, n) < SIZE_MAX ==> FasBytes(shape, n).err == Ok
    ensures FasBytes(shape, n).err == E2BIG ==> StructSize(shape, n) == SIZE_MAX
  {
    FasBytesOfCount(shape, n);
  }
}
