# flex_array.h: flexible array struct helpers

This project models the flexible-array-struct helpers of the Linux header
`include/linux/flex_array.h`, together with the scenarios of the KUnit suite
`lib/flex_array_kunit.c`. A flexible array struct is a fixed header holding
an unsigned count member, followed by a trailing run of equally sized
elements. Each helper starts with a fixed chain of size checks and then
copies the struct with `memcpy`/`memset`. The helpers are:

- `__fas_elements_bytes` / `fas_elements_bytes` and `__fas_bytes` /
  `fas_bytes`: checked byte sizes. A count that is larger than the count
  member's type can hold is refused, and so is a size that overflows
  `size_t`.
- `flex_cpy`: struct-to-struct copy. It zero-wipes the rest of the
  destination's former extent.
- `__flex_dup` / `flex_dup`: allocate a struct and copy into it, possibly
  embedded in an encapsulating struct whose other bytes are zeroed.
- `__mem_to_flex` / `mem_to_flex` and `__mem_to_flex_dup` /
  `mem_to_flex_dup`: deserialize elements from a byte buffer into an
  existing struct or into a new allocation.
- `flex_to_mem` / `flex_to_mem_dup`: serialize the elements into a caller
  buffer or into a new buffer.

Modules:

- `Memory` (`memory.dfy`): bytes, `memcpy`/`memset` on arrays, and the
  little-endian encoding of an unsigned count member of width 1, 2, 4 or
  8. It also models `kmalloc`/`kmemdup` as allocations that may fail.
- `FlexSize` (`flex_size.dfy`):
  - `SIZE_MAX` and `INT_MAX`, the errno values, and the struct layout
    `Shape`;
  - the checked size macros as functions;
  - the kernel's saturating `struct_size()`/`flex_array_size()` as an
    independent reference to compare them with.
- `FlexArray` (`flex_array.dfy`): a struct is a `FlexStruct` object, meaning
  a layout plus an offset `base` in a byte array.
  - The count member lives inside the header bytes, so copying the header
    copies the count, as the source relies on.
  - Each helper's check chain is a function that states its failure
    conditions (`CpyCheck`, `DupCheck`, `MtfCheck`, `MtfDupCheck`,
    `FtmCheck`, `FtmDupCheck`).
  - Each helper itself is a method that runs the chain and then writes the
    arrays. Its postcondition gives the error code as that function,
    states that a failure writes nothing, and gives the exact contents
    written on success.
  - `*alloc`, `*bytes_written` and `*alloc_size` are small slot objects. A
    NULL pointer is a null reference.
- `FlexArrayKunit` (`flex_array_kunit.dfy`): each KUnit test case is restated
  as methods that build the same buffers, make the same calls and assert
  what the test expects. It also has the fill loops of the tests and one
  extra scenario that shows the wipe defect described under "Findings".

Representation choices:

- `size_t` values are naturals with `SIZE_MAX = 2^64 - 1`.
- A C integer count is an `int` in the range of a 64-bit type. Its
  conversion to `size_t` is explicit (`ToSizeT`, reduction modulo 2^64).
- `__builtin_object_size(src, 1)` is an `Option<nat>`. `None` is the
  unknown size `(size_t)-1`.
- A failed allocation returns `ENOMEM`. In the scenarios, a failed
  allocation ends the test, as `KUNIT_ASSERT_*` does.
- In the tests, a u32 element equal to a repeated byte (0x41414141,
  0x03030303, 0xABABABAB) is stated byte by byte.

## Model

| member | source | states |
|---|---|---|
| Memory.MemCpy | include/linux/flex_array.h:232 | memcpy: the destination array afterwards is the old contents with the source bytes at the offset; every other byte is unchanged |
| Memory.MemSet | include/linux/flex_array.h:235-236 | memset: the n bytes at the offset take the value; every other byte is unchanged |
| Memory.OverwriteOnlyTouchesItsRange | include/linux/flex_array.h:232-236 | a write of data at an offset leaves every byte outside its range unchanged, and reading that range back gives the data |
| Memory.DecodeEncode | include/linux/flex_array.h:395 | storing a count that the count member's type can hold and reading the member back returns the count |
| Memory.EncodeDecode | include/linux/flex_array.h:233 | every byte pattern of the count member is the encoding of the value it holds, so copying the bytes copies the count |
| Memory.DecodeZeros | lib/flex_array_kunit.c:135 | a zeroed (kzalloc'd) count member holds 0 |
| Memory.KMalloc | include/linux/flex_array.h:291-295 | kmalloc either fails (NULL) or returns a fresh buffer of exactly the requested size |
| Memory.KMemDup | include/linux/flex_array.h:624-629 | kmemdup either fails (NULL) or returns a fresh buffer equal to the source bytes |
| FlexSize.CountMaxFitsSizeT | include/linux/flex_array.h:126-127 | type_max of every count member type (1 to 8 bytes) fits in size_t |
| FlexSize.ElementsBytes | include/linux/flex_array.h:121-137 | __fas_elements_bytes succeeds exactly when the count, converted to size_t, is at most type_max of the count member and element size times count fits in size_t; then bytes is that product, otherwise -E2BIG with bytes 0 |
| FlexSize.FasBytes | include/linux/flex_array.h:171-185 | __fas_bytes succeeds exactly when __fas_elements_bytes does and sizeof(struct) plus its bytes fits in size_t; then bytes is that sum, otherwise -E2BIG with bytes 0 |
| FlexSize.ElementsBytesOfCount | include/linux/flex_array.h:152-155 | for a count the member can hold, as fas_elements_bytes passes it: the exact product, refused only on size_t overflow |
| FlexSize.FasBytesOfCount | include/linux/flex_array.h:199-202 | for a count the member can hold, as fas_bytes passes it: header plus elements, refused only on size_t overflow |
| FlexSize.CountOverTypeMaxRefused | include/linux/flex_array.h:128-132 | a count above type_max of the count member is refused by both size macros with bytes 0 |
| FlexSize.NegativeCountRefused | include/linux/flex_array.h:125-132 | a negative count converts to a size_t of at least 2^63 and is refused whenever the count member is narrower than 64 bits or elements are wider than a byte |
| FlexSize.ElementsBytesAgreesWithFlexArraySize | lib/flex_array_kunit.c:41-46 | __fas_elements_bytes equals flex_array_size whenever it succeeds, succeeds whenever flex_array_size does not saturate, and fails only when it saturates |
| FlexSize.FasBytesAgreesWithStructSize | lib/flex_array_kunit.c:34-39 | the same three agreements between __fas_bytes and struct_size |
| FlexArray.CountIn | include/linux/flex_array.h:152-155 | the count member read from memory is at most type_max of its type |
| FlexArray.CountOfCopiedHeader | include/linux/flex_array.h:232-233 | a struct whose header bytes were copied from another holds that struct's count |
| FlexArray.CountOfSameField | include/linux/flex_array.h:394-395 | the count depends only on the count member's own bytes |
| FlexArray.FlexStruct.SetCount | include/linux/flex_array.h:395 | assigning the count member writes only its bytes and reads back as the new count |
| FlexArray.MulMonotone | include/linux/flex_array.h:227 | comparing byte sizes of elements of one type is comparing counts |
| FlexArray.LiveSizes | include/linux/flex_array.h:225-226 | the size computations for a struct that really holds its count of elements never fail |
| FlexArray.CpyCheck | include/linux/flex_array.h:224-231 | flex_cpy's checks pass exactly when dst's size from its own count fits in size_t and src counts no more elements than dst; otherwise -E2BIG |
| FlexArray.CpyEffect | include/linux/flex_array.h:232-236 | after the memcpy and memset of flex_cpy: src's image at dst, zeros up to dst's former size, everything else as before |
| FlexArray.CopyOver | include/linux/flex_array.h:232-236 | the two writes of flex_cpy on the array: image copied, remainder zeroed, nothing outside dst's former extent touched |
| FlexArray.FlexCpy | include/linux/flex_array.h:216-240 | flex_cpy returns the check chain's result, which is 0 exactly when src's count is at most dst's old count; on failure dst is unchanged; on success the header and elements of dst equal src's, dst's count is src's, bytes from src's size to dst's old size are zero, and nothing past dst's old size changes |
| FlexArray.DupCheck | include/linux/flex_array.h:283-290 | __flex_dup's size checks pass exactly when the bytes before the embedded struct plus src's size fit in size_t; the allocation is that sum |
| FlexArray.DupEffect | include/linux/flex_array.h:298-302 | zeroed prefix then the copied image gives exactly zeros followed by src's image |
| FlexArray.AllocBehindPrefix | include/linux/flex_array.h:291-302 | the allocation, the memset of everything before the embedded struct and the memcpy of src: when kmalloc succeeds, a fresh buffer holding zeros and then src's image |
| FlexArray.FlexDup | include/linux/flex_array.h:268-308 | __flex_dup/flex_dup: -EINVAL exactly for a NULL alloc or a filled *alloc, -E2BIG exactly when the size checks fail, *alloc untouched on any failure; on success *alloc is a fresh allocation of zeros followed by an exact copy of src, holding src's count |
| FlexArray.MtfCheck | include/linux/flex_array.h:375-389 | __mem_to_flex's checks pass exactly when the count is non-negative, fits the count member, its bytes are at most INT_MAX and at most the known size of src, and it is at most dst's current count; otherwise -E2BIG |
| FlexArray.StoreEffect | include/linux/flex_array.h:390-395 | the memcpy, the wipe and the count store of __mem_to_flex leave copy, zeros and count bytes and nothing else changed |
| FlexArray.StoreElements | include/linux/flex_array.h:390-395 | the writes of __mem_to_flex on the array, with the count set to the requested count |
| FlexArray.MemToFlex | include/linux/flex_array.h:340-342 | __mem_to_flex with the documented wipe: the check chain's result; dst unchanged on failure; on success count n, the first n elements equal src, the rest of dst's former elements zero, and nothing else changed |
| FlexArray.MemToFlexAsWritten | include/linux/flex_array.h:365-399 | __mem_to_flex as written: the same checks, count and copy, but dst's former elements past the copy keep their old bytes and the wipe zeroes the bytes after dst's former extent |
| FlexArray.AsWrittenWipeLeavesStruct | include/linux/flex_array.h:392-393 | when fewer elements are copied than dst counts, the as-written wipe is non-empty and starts exactly at the end of dst's validated extent; on an allocation of exactly that extent it ends past the allocation |
| FlexArray.MtfDupCheck | include/linux/flex_array.h:459-471 | __mem_to_flex_dup's checks pass exactly when the count is non-negative, fits the count member, its bytes are at most INT_MAX and the known size of src, and sizeof(outer) plus those bytes fits in size_t; the allocation is that sum |
| FlexArray.MtfDupEffect | include/linux/flex_array.h:480-485 | memset before the elements, memcpy of the elements and the count store: zeros except the count bytes, then exactly the copied elements |
| FlexArray.InitElements | include/linux/flex_array.h:478-485 | the writes of __mem_to_flex_dup on the new allocation: count n, elements equal to the copy, all other bytes before the elements zero |
| FlexArray.MemToFlexDup | include/linux/flex_array.h:444-490 | __mem_to_flex_dup/mem_to_flex_dup: -EINVAL exactly for a NULL or filled *alloc, -E2BIG exactly when the checks fail, *alloc untouched on failure; on success a fresh allocation of sizeof(outer) plus the element bytes, count n, elements equal to the first n of src, and all other bytes zero |
| FlexArray.FtmCheck | include/linux/flex_array.h:562-571 | flex_to_mem's checks pass exactly when bytes_available is between 0 and INT_MAX, holds the element bytes, and (unless bytes_written is NULL) the element bytes fit the type of *bytes_written |
| FlexArray.FlexToMem | include/linux/flex_array.h:552-578 | flex_to_mem returns the check chain's result; on failure dst and *bytes_written are unchanged; on success exactly the element bytes (no header) are copied to the start of dst and their number is stored in *bytes_written when it is not NULL |
| FlexArray.MemToFlexToMem | include/linux/flex_array.h:343-345 | deserializing with mem_to_flex and serializing with flex_to_mem gives back the source bytes |
| FlexArray.FtmDupCheck | include/linux/flex_array.h:618-623 | flex_to_mem_dup's size checks pass exactly when the element bytes fit in size_t and in the type of *alloc_size |
| FlexArray.FlexToMemDup | include/linux/flex_array.h:602-635 | flex_to_mem_dup: -EINVAL exactly for a NULL alloc, a filled *alloc or a NULL alloc_size, -E2BIG exactly when the size checks fail, both slots untouched on failure; on success *alloc is a fresh buffer equal to the element bytes and *alloc_size their number |
| FlexArrayKunit.StructTest | lib/flex_array_kunit.c:34-55 | for struct normal and struct aligned, __fas_bytes(13) is struct_size(13), __fas_elements_bytes(13) is flex_array_size(13), and header plus element bytes is the element offset plus 13 elements |
| FlexArrayKunit.NewCpySource | lib/flex_array_kunit.c:135-139 | the open-coded source: zero header, the count, elements 'A', and the marked last elements |
| FlexArrayKunit.Mark | lib/flex_array_kunit.c:144-146 | the destination filled with a marker byte and given count 12 |
| FlexArrayKunit.FlexCpyTarget | lib/flex_array_kunit.c:149-155 | src count 12 into dst count 12: success, CHECK_COPY holds and dst->flex[12] still holds the 0xFE marker |
| FlexArrayKunit.FlexCpyOverflow | lib/flex_array_kunit.c:158-162 | src count 13 into dst count 12: -E2BIG and dst->flex[12] still holds the 0xFE marker |
| FlexArrayKunit.FlexDupGood | lib/flex_array_kunit.c:205-223 | flex_dup and __flex_dup of the source: the copy passes CHECK_COPY and every byte before the embedded struct (flags, junk) is zero |
| FlexArrayKunit.NewMtfDst | lib/flex_array_kunit.c:245-246 | the zeroed destination with room for 256 elements and count 9 |
| FlexArrayKunit.MemToFlexShort | lib/flex_array_kunit.c:252-260 | mem_to_flex of one element: success, count 1, after_padding zero, flex[0] 0x03030303 and flex[1] zero |
| FlexArrayKunit.MemToFlexRefused | lib/flex_array_kunit.c:263-291 | the refused mem_to_flex calls (-1, 20 from small, INT_MAX + 1, 256 into count 255): -E2BIG with flex[0] and flex[1] unchanged |
| FlexArrayKunit.FillElements | lib/flex_array_kunit.c:399-400 | the fill loop: every element from 0 to count - 1 holds the word, and no other byte changes |
| FlexArrayKunit.NewFilledSource | lib/flex_array_kunit.c:395-400 | the filled source struct: live, with its count, and every element holding the word |
| FlexArrayKunit.SpotCheck | lib/flex_array_kunit.c:427-429 | in memory filled by the loop, element k holds the word |
| FlexArrayKunit.FlexToMemRefused | lib/flex_array_kunit.c:408-420 | copy_len - 1 bytes available, or a u8 bytes_written: -E2BIG, dst and the counter unchanged |
| FlexArrayKunit.FlexToMemDupRefused | lib/flex_array_kunit.c:465-480 | a u8 alloc_size: -E2BIG; a NULL alloc_size or NULL alloc: -EINVAL; dst stays NULL and bytes unchanged |
| FlexArrayKunit.FlexToMemDupGood | lib/flex_array_kunit.c:483-491 | the good copy of flex_to_mem_dup: bytes == copy_len and the spot checks |

The remaining scenario methods carry their checks as assertions in their
bodies rather than as postconditions. They are `FlexCpySmall` (kunit
169-177), `FlexToMemGood` (kunit 423-431), `MemToFlexDupRefused`,
`MemToFlexDupTiny` and `MemToFlexDupEncap` (kunit 312-375), and the
`*Test` drivers.

## Left out

- `BUILD_BUG_ON(!__same_type(...))`, `typeof` plumbing and
  `__must_check`: compile-time checks. Source and destination share one
  `Shape` by precondition.
- Layout: the elements are assumed to start at `sizeof(struct)`. Alignment
  and padding are folded into the header size, and the field offsets used
  by the tests are constants.
- GFP flags and the real allocator: allocation is a nondeterministic
  success or a failure.
- Overlapping source and destination: `memcpy` requires disjoint buffers,
  so the source buffer is distinct from the destination by precondition.
- `__builtin_object_size(src, 1)`: only its value (known or unknown) is
  modelled, not how the compiler derives it.
- `kfree` in the tests: the model has no deallocation.
- MemToFlex: models the documented wipe of the remaining elements, which is
  weaker than the code on purpose, because the code's wipe at line 392 writes
  past the validated region; `MemToFlexAsWritten` models the code exactly.
- MemToFlexAsWritten: requires that the wipe past dst's extent stays inside
  the array, because in C a wipe beyond the allocation is undefined behaviour
  that an array model cannot represent.
- In `flex_dup_test`, the check after the encapsulated copy tests `dst`
  (not `encap`) for NULL (lib/flex_array_kunit.c:219). The scenario checks
  `encap`.
- In `flex_to_mem_test`, `too_small` is uninitialised. The scenario starts
  it at 0, and nothing reads it.

## Findings

| source | as written | input that shows it | evidently intended | confidence | as-written member | corrected member |
|---|---|---|---|---|---|---|
| include/linux/flex_array.h:392-393 | `__mem_to_flex` wipes `dst_bytes - copy_bytes` bytes starting at `flex + dst_bytes`, the end of dst's former elements | a struct with count 9 in a larger allocation filled with 0xFE, and `mem_to_flex(dst, src, 1)`: flex[1] keeps 0xFEFEFEFE and flex[9] to flex[16], past the struct, are zeroed; with an exact allocation the memset runs past it | the wipe starts at `flex + copy_bytes` and zeroes the former elements that were not copied (lines 340-342) | high (not executed) | FlexArray.MemToFlexAsWritten | FlexArray.MemToFlex |

`FlexArray.AsWrittenWipeLeavesStruct` proves the general statement about
the as-written wipe. `FlexArrayKunit.MemToFlexWipeTest` runs both versions
on the input above: the documented wipe zeroes flex[1] and leaves flex[9]
alone, and the as-written wipe does the reverse. The KUnit test does not
catch the defect, because its destination is zeroed and over-allocated
(lib/flex_array_kunit.c:245, 259). The rest of the model, the scenarios
included, uses `MemToFlex`.
