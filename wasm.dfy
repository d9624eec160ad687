/** Byte-level vocabulary of the WebAssembly binary format that the compiler emits:
    value types, section ids, opcodes, LEB128 decoding, and the packed return value. */
module Wasm {

  datatype Option<+T> = None | Some(value: T)

  type Byte = b: int | 0 <= b < 256
  type U32 = x: int | 0 <= x < 0x1_0000_0000

  /** Four raw bytes of an f32 literal. */
  type Quad = s: seq<Byte> | |s| == 4 witness [0, 0, 0, 0]

  const TWO32: int := 0x1_0000_0000

  // Section 5.5.16 of the WebAssembly Core Specification: magic "\0asm" and version 1.
  const MAGIC_AND_VERSION: seq<Byte> := [0x00, 0x61, 0x73, 0x6D, 0x01, 0x00, 0x00, 0x00]

  // Section ids (section 5.5.2 of the WebAssembly Core Specification).
  const SECTION_TYPE: Byte := 1
  const SECTION_IMPORT: Byte := 2
  const SECTION_FUNCTION: Byte := 3
  const SECTION_MEMORY: Byte := 5
  const SECTION_GLOBAL: Byte := 6
  const SECTION_EXPORT: Byte := 7
  const SECTION_CODE: Byte := 10

  // Value types, the function-type tag and the empty block type (sections 5.3.1, 5.3.3, 5.3.6).
  const I32: Byte := 0x7F
  const I64: Byte := 0x7E
  const F32: Byte := 0x7D
  const F64: Byte := 0x7C
  const FUNC_TYPE: Byte := 0x60
  const VOID: Byte := 0x40

  // Import and export descriptor kind for functions (sections 5.5.5 and 5.5.10).
  const EXTERNAL_FUNCTION: Byte := 0x00

  // Opcodes (section 5.4 of the WebAssembly Core Specification, MVP names).
  const UNREACHABLE: Byte := 0x00
  const IF: Byte := 0x04
  const END: Byte := 0x0B
  const CALL: Byte := 0x10
  const GET_LOCAL: Byte := 0x20
  const SET_LOCAL: Byte := 0x21
  const GET_GLOBAL: Byte := 0x23
  const SET_GLOBAL: Byte := 0x24
  const I32_CONST: Byte := 0x41
  const I64_CONST: Byte := 0x42
  const F32_CONST: Byte := 0x43
  const F64_CONST: Byte := 0x44
  const F32_LT: Byte := 0x5D
  const F32_GT: Byte := 0x5E
  const F32_ADD: Byte := 0x92
  const F32_SUB: Byte := 0x93
  const F32_MUL: Byte := 0x94
  const F32_DIV: Byte := 0x95

  /** A store through a `u8` keeps the low eight bits. */
  function ByteOf(x: int): (b: Byte)
    ensures 0 <= x < 256 ==> b == x
  {
    x % 256
  }

  /** The two-byte size field written by back-patching: `(size & 0x7F) | 0x80`, then `size >> 7`. */
  function SizeField(size: nat): (r: seq<Byte>)
    ensures |r| == 2 && r[0] >= 0x80
  {
    [size % 128 + 128, (size / 128) % 256]
  }

  /** Unsigned LEB128 (section 5.2.2): the value and the number of bytes it occupies. */
  function DecodeUnsigned(s: seq<Byte>): (r: Option<(nat, nat)>)
    ensures r.Some? ==> 1 <= r.value.1 <= |s|
  {
    if s == [] then None
    else if s[0] < 128 then Some((s[0], 1))
    else match DecodeUnsigned(s[1..])
      case None => None
      case Some((v, n)) => Some((s[0] - 128 + 128 * v, n + 1))
  }

  /** Signed LEB128 (section 5.2.2), as used by the immediate of `i32.const`. */
  function DecodeSigned(s: seq<Byte>): (r: Option<(int, nat)>)
    ensures r.Some? ==> 1 <= r.value.1 <= |s|
  {
    if s == [] then None
    else if s[0] < 64 then Some((s[0] as int, 1))
    else if s[0] < 128 then Some((s[0] as int - 128, 1))
    else match DecodeSigned(s[1..])
      case None => None
      case Some((v, n)) => Some((s[0] as int - 128 + 128 * v, n + 1))
  }

  /** A back-patched two-byte size field is a valid LEB128 encoding of `size`, two bytes long,
      exactly when `size` fits in 14 bits; whatever follows the field does not matter. */
  lemma SizeFieldDecodes(size: nat, rest: seq<Byte>)
    ensures size < 16384 ==> DecodeUnsigned(SizeField(size) + rest) == Some((size, 2))
    ensures size >= 16384 ==> DecodeUnsigned(SizeField(size) + rest) != Some((size, 2))
  {
    var f := SizeField(size) + rest;
    var q := size / 128;
    assert size == 128 * q + size % 128;
    assert f[1..] == [q % 256] + rest;
    if size < 16384 {
      assert q % 256 == q;
    } else if q % 256 < 128 {
      assert DecodeUnsigned(f[1..]) == Some((q % 256, 1));
      assert q % 256 != q;
      assert size % 128 + 128 * (q % 256) != size;
    } else {
      var inner := DecodeUnsigned(f[1..]);
      if inner.Some? {
        assert f[1..][1..] == rest;
        assert inner.value.1 >= 2;
      }
    }
  }

  /** A one-byte size field is the LEB128 encoding of its value exactly when the value is below 128. */
  lemma OneByteFieldDecodes(b: Byte, rest: seq<Byte>)
    ensures b < 128 <==> DecodeUnsigned([b] + rest) == Some((b as nat, 1))
  {
  }

  /** What the host's `put` does with the number it receives: it adds 128 to a negative value
      (public/create-ui.js). */
  function HostPut(n: int): (r: int)
    ensures n >= 0 ==> r == n
    ensures -128 <= n < 128 ==> 0 <= r < 128
  {
    if n < 0 then n + 128 else n
  }

  /** The compiler writes a character's raw byte as the immediate of `i32.const`; for an ASCII
      character the immediate decodes as signed LEB128 to a value that `put` turns back into
      that character, although bytes from 0x40 up decode as negative numbers. */
  lemma PutRecoversAsciiByte(c: Byte, rest: seq<Byte>)
    requires c < 128
    ensures DecodeSigned([c] + rest).Some?
    ensures HostPut(DecodeSigned([c] + rest).value.0) == c
    ensures DecodeSigned([c] + rest).value.1 == 1
    ensures c >= 64 ==> DecodeSigned([c] + rest).value.0 < 0
  {
  }

  /** The return value of the entry point: address in the high half, size in the low half. */
  function Pack(address: bv32, size: bv32): (r: bv32)
    ensures address < 0x1_0000 && size < 0x1_0000 ==> r >> 16 == address && r & 0xFFFF == size
  {
    // `address << 16`, written as the equal 32-bit product
    (address * 0x1_0000) | size
  }

  /** The module's size as the 32-bit difference of two addresses. */
  function SizeWord(n: nat): (w: bv32)
    ensures n < 0x1_0000 ==> w < 0x1_0000 && w as int == n
  {
    (n % TWO32) as bv32
  }
}
