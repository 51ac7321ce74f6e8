/**
 * Machine-level values the race detector works with: bytes, 64-bit
 * addresses, the 32-bit `UInt`/`Int` conversions of the C code, the
 * monitored program's memory, and little-endian loads from it.
 */
module Machine {

  /** An `unsigned char`. */
  type u8 = x: int | 0 <= x < 0x100

  const ADDR_LIMIT: int := 0x1_0000_0000_0000_0000
  const UINT_LIMIT: int := 0x1_0000_0000

  datatype Option<T> = None | Some(value: T)

  /** A machine address (`Addr`, 64 bits on amd64). */
  type Addr = x: int | 0 <= x < 0x1_0000_0000_0000_0000

  /** A C `Int`/`int32_t`. */
  type Int32 = x: int | -0x8000_0000 <= x < 0x8000_0000

  /** The monitored program's memory: the byte stored at every address. */
  type Memory = Addr -> u8

  /** `base + i` on `Addr`, which wraps around modulo 2^64. */
  function AddrAt(base: Addr, i: nat): (r: Addr)
    ensures base + i < ADDR_LIMIT ==> r == base + i
  {
    (base + i) % ADDR_LIMIT
  }

  /** The `(UInt)addr` cast: only the low 32 bits of the address survive. */
  function ToUInt(a: Addr): (r: nat)
    ensures r < UINT_LIMIT
    ensures a < UINT_LIMIT ==> r == a
  {
    a % UINT_LIMIT
  }

  /** Two's-complement wrap of an integer into `Int`. */
  function WrapInt32(x: int): (r: Int32)
    ensures (r - x) % UINT_LIMIT == 0
    ensures -0x8000_0000 <= x < 0x8000_0000 ==> r == x
  {
    var m := x % UINT_LIMIT;
    if m < 0x8000_0000 then m else m - UINT_LIMIT
  }

  /** Conversion of an `Int` to `unsigned char` (the value modulo 256). */
  function ToUChar(x: int): (r: u8)
    ensures (r - x) % 0x100 == 0
    ensures 0 <= x < 0x100 ==> r == x
  {
    x % 0x100
  }

  function Pow256(n: nat): (r: nat)
    ensures r > 0
  {
    if n == 0 then 1 else 0x100 * Pow256(n - 1)
  }

  /** The unsigned value of `bytes`, least significant byte first. */
  function LittleEndian(bytes: seq<u8>): nat
  {
    if bytes == [] then 0 else bytes[0] + 0x100 * LittleEndian(bytes[1..])
  }

  /** The `n` least significant bytes of `x`, least significant first. */
  function ToLittleEndian(x: nat, n: nat): (r: seq<u8>)
    ensures |r| == n
  {
    if n == 0 then [] else [x % 0x100] + ToLittleEndian(x / 0x100, n - 1)
  }

  lemma {:induction false} LittleEndianBound(bytes: seq<u8>)
    ensures LittleEndian(bytes) < Pow256(|bytes|)
  {
    if bytes != [] {
      LittleEndianBound(bytes[1..]);
    }
  }

  /** Encoding a value that fits in `n` bytes and decoding it gives it back. */
  lemma {:induction false} DecodeEncode(x: nat, n: nat)
    requires x < Pow256(n)
    ensures LittleEndian(ToLittleEndian(x, n)) == x
  {
    if n > 0 {
      DecodeEncode(x / 0x100, n - 1);
      assert ToLittleEndian(x, n)[1..] == ToLittleEndian(x / 0x100, n - 1);
    }
  }

  /** Decoding bytes and encoding the value again gives the same bytes. */
  lemma {:induction false} EncodeDecode(bytes: seq<u8>)
    ensures ToLittleEndian(LittleEndian(bytes), |bytes|) == bytes
  {
    if bytes != [] {
      EncodeDecode(bytes[1..]);
      var x := LittleEndian(bytes);
      assert x % 0x100 == bytes[0];
      assert x / 0x100 == LittleEndian(bytes[1..]);
    }
  }

  /** The `n` bytes of memory from `at` on (addresses wrap). */
  function Load(mem: Memory, at: Addr, n: nat): (r: seq<u8>)
  {
    seq<u8>(n, (i: nat) => mem(AddrAt(at, i)))
  }

  /** A 32-bit unsigned little-endian load, as `*(uint32_t*)at` on x86. */
  function LoadU32(mem: Memory, at: Addr): (r: nat)
    ensures r < UINT_LIMIT
    ensures ToLittleEndian(r, 4) == Load(mem, at, 4)
  {
    LittleEndianBound(Load(mem, at, 4));
    EncodeDecode(Load(mem, at, 4));
    LittleEndian(Load(mem, at, 4))
  }

  /** The `int32_t` whose two's-complement little-endian encoding is `bytes`. */
  function Int32Of(bytes: seq<u8>): (r: Int32)
    requires |bytes| == 4
    ensures Int32Bytes(r) == bytes
  {
    LittleEndianBound(bytes);
    EncodeDecode(bytes);
    var u := LittleEndian(bytes);
    if u < 0x8000_0000 then u else u - UINT_LIMIT
  }

  /** A 32-bit signed load, as `*(int32_t*)at`. */
  function LoadI32(mem: Memory, at: Addr): (r: Int32)
    ensures Int32Bytes(r) == Load(mem, at, 4)
  {
    Int32Of(Load(mem, at, 4))
  }

  /** An address-sized load, as `*(Addr*)at`. */
  function LoadAddr(mem: Memory, at: Addr): (r: Addr)
    ensures ToLittleEndian(r, 8) == Load(mem, at, 8)
  {
    LittleEndianBound(Load(mem, at, 8));
    EncodeDecode(Load(mem, at, 8));
    LittleEndian(Load(mem, at, 8))
  }

  /** Distance from `at` forward to `a`, counted modulo 2^64. */
  function Distance(at: Addr, a: Addr): nat
  {
    (a - at) % ADDR_LIMIT
  }

  /** Memory after writing `bytes` from `at` on. */
  function Store(mem: Memory, at: Addr, bytes: seq<u8>): Memory
  {
    a => if Distance(at, a) < |bytes| then bytes[Distance(at, a)] else mem(a)
  }

  lemma DistanceAt(at: Addr, i: nat)
    requires i < ADDR_LIMIT
    ensures Distance(at, AddrAt(at, i)) == i
  {
  }

  /** A load from inside a region reads the corresponding slice of a load of the whole region. */
  lemma LoadSlice(mem: Memory, at: Addr, size: nat, off: nat, n: nat)
    requires off + n <= size
    ensures Load(mem, AddrAt(at, off), n) == Load(mem, at, size)[off..off + n]
  {
    forall i | 0 <= i < n
      ensures AddrAt(AddrAt(at, off), i) == AddrAt(at, off + i)
    {
      AddrAtAdd(at, off, i);
    }
  }

  /** Two wrapped offsets add up to one: `(at + off) + i` is `at + (off + i)`. */
  lemma AddrAtAdd(at: Addr, off: nat, i: nat)
    ensures AddrAt(AddrAt(at, off), i) == AddrAt(at, off + i)
  {
    var x := at + off;
    var q := x / ADDR_LIMIT;
    assert x == q * ADDR_LIMIT + x % ADDR_LIMIT;
    assert x + i == q * ADDR_LIMIT + (x % ADDR_LIMIT + i);
  }

  /** A load of what was just stored reads those bytes back. */
  lemma {:induction false} LoadStore(mem: Memory, at: Addr, bytes: seq<u8>, off: nat, n: nat)
    requires off + n <= |bytes| < ADDR_LIMIT
    ensures Load(Store(mem, at, bytes), AddrAt(at, off), n) == bytes[off..off + n]
  {
    var m := Store(mem, at, bytes);
    forall i | 0 <= i < n
      ensures m(AddrAt(AddrAt(at, off), i)) == bytes[off + i]
    {
      assert AddrAt(AddrAt(at, off), i) == AddrAt(at, off + i);
      DistanceAt(at, off + i);
    }
  }

  /** The 4-byte little-endian encoding of an `Int` (two's complement). */
  function Int32Bytes(x: Int32): (r: seq<u8>)
    ensures |r| == 4
  {
    ToLittleEndian(x % UINT_LIMIT, 4)
  }

  /** Decoding the encoding of an `Int` gives it back. */
  lemma Int32OfBytes(x: Int32)
    ensures Int32Of(Int32Bytes(x)) == x
  {
    assert Pow256(4) == UINT_LIMIT;
    DecodeEncode(x % UINT_LIMIT, 4);
  }
}
