/**
 * The in-band command protocol: a monitored program talks to the detector
 * by storing a `ct_cmd` record (magic word, marker, payload) into its own
 * memory.  This module states the record layout, how a record is decoded
 * into an opcode, and what each opcode does to the detector's globals.
 */
module Commands {
  import opened Machine
  import opened Access

  /** `MAGIC`, the first 32-bit word of a command record. */
  const MAGIC: nat := 0x12345678

  /** Offsets of the `ct_cmd` members: `stored_magic`, `const_magic`, `payload`. */
  const MARKER_OFFSET: nat := 4
  const PAYLOAD_OFFSET: nat := 20
  const PAYLOAD_SIZE: nat := 128

  /** Payload offsets `ct_cmd_int` and `ct_cmd_ptr` are called with. */
  const INT_OFFSET: nat := 4
  const PTR_OFFSET: nat := 8

  /** `CONST_MAGIC`, "Valgrind command": 16 characters filling `const_magic`, no terminator. */
  const MARKER: seq<u8> := [0x56, 0x61, 0x6c, 0x67, 0x72, 0x69, 0x6e, 0x64, 0x20, 0x63, 0x6f, 0x6d, 0x6d, 0x61, 0x6e, 0x64]

  /** The opcode strings "begin_for", "end_for", "iter", "done", "thrd" and "stackbot". */
  const BEGIN_FOR: seq<u8> := [0x62, 0x65, 0x67, 0x69, 0x6e, 0x5f, 0x66, 0x6f, 0x72]
  const END_FOR: seq<u8> := [0x65, 0x6e, 0x64, 0x5f, 0x66, 0x6f, 0x72]
  const ITER: seq<u8> := [0x69, 0x74, 0x65, 0x72]
  const DONE: seq<u8> := [0x64, 0x6f, 0x6e, 0x65]
  const THRD: seq<u8> := [0x74, 0x68, 0x72, 0x64]
  const STACKBOT: seq<u8> := [0x73, 0x74, 0x61, 0x63, 0x6b, 0x62, 0x6f, 0x74]

  /** A C string: bytes up to, not including, its terminating NUL. */
  predicate CString(s: seq<u8>)
  {
    forall k :: 0 <= k < |s| ==> s[k] != 0
  }

  /** `ct_str_is(at, s)`: the memory at `at` begins with the characters of `s`. */
  predicate IsPrefixAt(mem: Memory, at: Addr, s: seq<u8>)
  {
    forall k :: 0 <= k < |s| ==> mem(AddrAt(at, k)) == s[k]
  }

  /** The 148 bytes of the command record at `cmd`. */
  function Record(mem: Memory, cmd: Addr): (r: seq<u8>)
    ensures |r| == CMD_SIZE
  {
    Load(mem, cmd, CMD_SIZE)
  }

  /** `s` occurs in the record at offset `off`. */
  predicate HasAt(r: seq<u8>, off: nat, s: seq<u8>)
  {
    off + |s| <= |r| && r[off..off + |s|] == s
  }

  /** A prefix test inside a record reads only the record's own bytes. */
  lemma IsPrefixAtRecord(mem: Memory, cmd: Addr, off: nat, s: seq<u8>)
    requires off + |s| <= CMD_SIZE
    ensures IsPrefixAt(mem, AddrAt(cmd, off), s) <==> HasAt(Record(mem, cmd), off, s)
  {
    LoadSlice(mem, cmd, CMD_SIZE, off, |s|);
    var l := Load(mem, AddrAt(cmd, off), |s|);
    if IsPrefixAt(mem, AddrAt(cmd, off), s) {
      assert l == s;
    }
  }

  /** The opcodes, with the operand the detector acts on. */
  datatype Command =
    | BeginFor
    | EndFor
    | Iter
    | Done
    | Thrd(id: Int32)
    | StackBot(bottom: Addr)
    | Unknown

  /** The `n` bytes at payload offset `oft` are the record's. */
  lemma PayloadSlice(mem: Memory, cmd: Addr, oft: nat, n: nat)
    requires oft + n <= PAYLOAD_SIZE
    ensures Load(mem, AddrAt(cmd, PAYLOAD_OFFSET + oft), n) == PayloadAt(mem, cmd)[oft..oft + n]
  {
    LoadSlice(mem, cmd, CMD_SIZE, PAYLOAD_OFFSET + oft, n);
    var r := Record(mem, cmd);
    assert r[PAYLOAD_OFFSET..][oft..oft + n] == r[PAYLOAD_OFFSET + oft..PAYLOAD_OFFSET + oft + n];
  }

  /**
   * `ct_cmd_int(cmd, oft)`: the `int32_t` at payload offset `oft`, whose
   * two's-complement bytes are the payload's four bytes there.
   */
  function CmdInt(mem: Memory, cmd: Addr, oft: nat): (r: Int32)
    ensures oft + 4 <= PAYLOAD_SIZE ==> Int32Bytes(r) == PayloadAt(mem, cmd)[oft..oft + 4]
  {
    var v := LoadI32(mem, AddrAt(cmd, PAYLOAD_OFFSET + oft));
    assert oft + 4 <= PAYLOAD_SIZE ==> Int32Bytes(v) == PayloadAt(mem, cmd)[oft..oft + 4] by {
      if oft + 4 <= PAYLOAD_SIZE {
        PayloadSlice(mem, cmd, oft, 4);
      }
    }
    v
  }

  /**
   * `ct_cmd_ptr(cmd, oft)`: the address at payload offset `oft`, whose
   * little-endian bytes are the payload's eight bytes there.
   */
  function CmdPtr(mem: Memory, cmd: Addr, oft: nat): (r: Addr)
    ensures oft + 8 <= PAYLOAD_SIZE ==> ToLittleEndian(r, 8) == PayloadAt(mem, cmd)[oft..oft + 8]
  {
    var v := LoadAddr(mem, AddrAt(cmd, PAYLOAD_OFFSET + oft));
    assert oft + 8 <= PAYLOAD_SIZE ==> ToLittleEndian(v, 8) == PayloadAt(mem, cmd)[oft..oft + 8] by {
      if oft + 8 <= PAYLOAD_SIZE {
        PayloadSlice(mem, cmd, oft, 8);
      }
    }
    v
  }

  /**
   * What `ct_process_command` makes of a record: nothing when the marker
   * does not match, otherwise the opcode its payload carries.
   */
  function DecodeRecord(r: seq<u8>): Option<Command>
    requires |r| == CMD_SIZE
  {
    if !HasAt(r, MARKER_OFFSET, MARKER) then None
    else Some(Opcode(r[PAYLOAD_OFFSET..]))
  }

  /**
   * The first opcode, in the order `begin_for`, `end_for`, `iter`, `done`,
   * `thrd`, `stackbot`, a payload begins with, with its operand.
   */
  function Opcode(p: seq<u8>): (r: Command)
    requires |p| == PAYLOAD_SIZE
    ensures r.Unknown? <==> !HasAt(p, 0, BEGIN_FOR) && !HasAt(p, 0, END_FOR) && !HasAt(p, 0, ITER)
                            && !HasAt(p, 0, DONE) && !HasAt(p, 0, THRD) && !HasAt(p, 0, STACKBOT)
    ensures r.BeginFor? <==> HasAt(p, 0, BEGIN_FOR)
    ensures r.EndFor? <==> HasAt(p, 0, END_FOR)
    ensures r.Iter? <==> HasAt(p, 0, ITER)
    ensures r.Done? <==> HasAt(p, 0, DONE)
    ensures r.Thrd? <==> HasAt(p, 0, THRD)
    ensures r.StackBot? <==> HasAt(p, 0, STACKBOT)
    ensures r.Thrd? ==> Int32Bytes(r.id) == p[INT_OFFSET..INT_OFFSET + 4]
    ensures r.StackBot? ==> ToLittleEndian(r.bottom, 8) == p[PTR_OFFSET..PTR_OFFSET + 8]
  {
    // the six opcode strings differ in their first byte, so at most one matches
    HasAtFirst(p, BEGIN_FOR);
    HasAtFirst(p, END_FOR);
    HasAtFirst(p, ITER);
    HasAtFirst(p, DONE);
    HasAtFirst(p, THRD);
    HasAtFirst(p, STACKBOT);
    if HasAt(p, 0, BEGIN_FOR) then BeginFor
    else if HasAt(p, 0, END_FOR) then EndFor
    else if HasAt(p, 0, ITER) then Iter
    else if HasAt(p, 0, DONE) then Done
    else if HasAt(p, 0, THRD) then Thrd(Int32Of(p[INT_OFFSET..INT_OFFSET + 4]))
    else if HasAt(p, 0, STACKBOT) then StackBot(AddrOf(p[PTR_OFFSET..PTR_OFFSET + 8]))
    else Unknown
  }

  /** The address whose eight little-endian bytes are `bytes`. */
  function AddrOf(bytes: seq<u8>): (r: Addr)
    requires |bytes| == 8
    ensures ToLittleEndian(r, 8) == bytes
  {
    LittleEndianBound(bytes);
    EncodeDecode(bytes);
    assert Pow256(8) == ADDR_LIMIT;
    LittleEndian(bytes)
  }

  /** The payload of the record at `cmd`. */
  function PayloadAt(mem: Memory, cmd: Addr): (p: seq<u8>)
    ensures |p| == PAYLOAD_SIZE
  {
    Record(mem, cmd)[PAYLOAD_OFFSET..]
  }

  /**
   * `ct_str_is(cmd->payload, s)` tests how the payload begins, and the
   * operands the decoder reads are the ones `ct_cmd_int` and `ct_cmd_ptr` load.
   */
  lemma PayloadInRecord(mem: Memory, cmd: Addr, s: seq<u8>)
    requires |s| <= PAYLOAD_SIZE
    ensures IsPrefixAt(mem, AddrAt(cmd, PAYLOAD_OFFSET), s) <==> HasAt(PayloadAt(mem, cmd), 0, s)
    ensures CmdInt(mem, cmd, INT_OFFSET) == Int32Of(PayloadAt(mem, cmd)[INT_OFFSET..INT_OFFSET + 4])
    ensures CmdPtr(mem, cmd, PTR_OFFSET) == AddrOf(PayloadAt(mem, cmd)[PTR_OFFSET..PTR_OFFSET + 8])
  {
    IsPrefixAtRecord(mem, cmd, PAYLOAD_OFFSET, s);
    var r := Record(mem, cmd);
    assert r[PAYLOAD_OFFSET..][..|s|] == r[PAYLOAD_OFFSET..PAYLOAD_OFFSET + |s|];
    LoadSlice(mem, cmd, CMD_SIZE, PAYLOAD_OFFSET + INT_OFFSET, 4);
    assert r[PAYLOAD_OFFSET..][INT_OFFSET..INT_OFFSET + 4] == r[PAYLOAD_OFFSET + INT_OFFSET..PAYLOAD_OFFSET + INT_OFFSET + 4];
    LoadSlice(mem, cmd, CMD_SIZE, PAYLOAD_OFFSET + PTR_OFFSET, 8);
    assert r[PAYLOAD_OFFSET..][PTR_OFFSET..PTR_OFFSET + 8] == r[PAYLOAD_OFFSET + PTR_OFFSET..PAYLOAD_OFFSET + PTR_OFFSET + 8];
  }

  /**
   * The command in the record at `cmd`, as `ct_process_command` reads it:
   * none unless `const_magic` holds the marker, and the operands of `thrd`
   * and `stackbot` are what `ct_cmd_int(cmd, 4)` and `ct_cmd_ptr(cmd, 8)` load.
   */
  function Decode(mem: Memory, cmd: Addr): (r: Option<Command>)
    ensures r.None? <==> !IsPrefixAt(mem, AddrAt(cmd, MARKER_OFFSET), MARKER)
    ensures r.Some? && r.value.Thrd? ==> r.value.id == CmdInt(mem, cmd, INT_OFFSET)
    ensures r.Some? && r.value.StackBot? ==> r.value.bottom == CmdPtr(mem, cmd, PTR_OFFSET)
  {
    IsPrefixAtRecord(mem, cmd, MARKER_OFFSET, MARKER);
    PayloadInRecord(mem, cmd, []);
    DecodeRecord(Record(mem, cmd))
  }

  /**
   * The record a store at `at` is taken for by `ct_on_store`, if any: one
   * is found exactly when the stored word is `MAGIC` and the marker follows it.
   */
  function Parse(mem: Memory, at: Addr): (r: Option<Command>)
    ensures r.Some? <==> LoadU32(mem, at) == MAGIC && IsPrefixAt(mem, AddrAt(at, MARKER_OFFSET), MARKER)
  {
    if LoadU32(mem, at) == MAGIC then Decode(mem, at) else None
  }

  function Zeros(n: nat): (r: seq<u8>)
    ensures |r| == n && forall k :: 0 <= k < n ==> r[k] == 0
  {
    seq(n, _ => 0)
  }

  /** A 128-byte payload for `c`: its opcode, then its operand at the offset the decoder reads. */
  function Payload(c: Command): (r: seq<u8>)
    ensures |r| == PAYLOAD_SIZE
  {
    match c
    case BeginFor => BEGIN_FOR + Zeros(PAYLOAD_SIZE - |BEGIN_FOR|)
    case EndFor => END_FOR + Zeros(PAYLOAD_SIZE - |END_FOR|)
    case Iter => ITER + Zeros(PAYLOAD_SIZE - |ITER|)
    case Done => DONE + Zeros(PAYLOAD_SIZE - |DONE|)
    case Thrd(id) => THRD + Int32Bytes(id) + Zeros(PAYLOAD_SIZE - 8)
    case StackBot(p) => STACKBOT + ToLittleEndian(p, 8) + Zeros(PAYLOAD_SIZE - 16)
    case Unknown => Zeros(PAYLOAD_SIZE)
  }

  /** The bytes of a command record for `c`, as a monitored program would store them. */
  function Encode(c: Command): (r: seq<u8>)
    ensures |r| == CMD_SIZE
  {
    ToLittleEndian(MAGIC, 4) + MARKER + Payload(c)
  }

  /** A payload that begins with a non-empty `s` begins with its first byte. */
  lemma HasAtFirst(p: seq<u8>, s: seq<u8>)
    requires 0 < |s|
    ensures HasAt(p, 0, s) ==> 0 < |p| && p[0] == s[0]
  {
    if HasAt(p, 0, s) {
      assert p[0..|s|][0] == p[0];
    }
  }

  /** A payload whose first byte differs from that of `s` does not begin with `s`. */
  lemma NotAt(p: seq<u8>, s: seq<u8>)
    requires 0 < |p| && 0 < |s| && p[0] != s[0]
    ensures !HasAt(p, 0, s)
  {
    if |s| <= |p| {
      assert p[0..|s|][0] == p[0];
    }
  }

  /** Decoding the payload for `c` gives `c` back. */
  lemma OpcodePayload(c: Command)
    ensures Opcode(Payload(c)) == c
  {
    var p := Payload(c);
    // the opcodes, and the empty payload, differ in their first byte
    if !c.BeginFor? {
      NotAt(p, BEGIN_FOR);
    }
    if !c.BeginFor? && !c.EndFor? {
      NotAt(p, END_FOR);
    }
    if c.Done? || c.Thrd? || c.StackBot? || c.Unknown? {
      NotAt(p, ITER);
    }
    if c.Thrd? || c.StackBot? || c.Unknown? {
      NotAt(p, DONE);
    }
    if c.StackBot? || c.Unknown? {
      NotAt(p, THRD);
    }
    match c {
      case Thrd(id) =>
        assert p[..4] == THRD;
        assert p[INT_OFFSET..INT_OFFSET + 4] == Int32Bytes(id);
        Int32OfBytes(id);
      case StackBot(b) =>
        assert p[..8] == STACKBOT;
        assert p[PTR_OFFSET..PTR_OFFSET + 8] == ToLittleEndian(b, 8);
        assert Pow256(8) == ADDR_LIMIT;
        DecodeEncode(b, 8);
      case BeginFor =>
        assert p[..|BEGIN_FOR|] == BEGIN_FOR;
      case EndFor =>
        assert p[..|END_FOR|] == END_FOR;
      case Iter =>
        assert p[..|ITER|] == ITER;
      case Done =>
        assert p[..|DONE|] == DONE;
      case Unknown =>
        NotAt(p, STACKBOT);
    }
  }

  /** Decoding the record for `c` gives `c` back. */
  lemma DecodeRecordEncode(c: Command)
    ensures DecodeRecord(Encode(c)) == Some(c)
  {
    var r := Encode(c);
    assert r[MARKER_OFFSET..MARKER_OFFSET + |MARKER|] == MARKER;
    assert r[PAYLOAD_OFFSET..] == Payload(c);
    OpcodePayload(c);
  }

  /**
   * Round trip through memory: once the record for `c` has been stored at
   * `at`, a store there is recognised as a command and decodes to `c`.
   */
  lemma ParseStore(mem: Memory, at: Addr, c: Command)
    ensures Parse(Store(mem, at, Encode(c)), at) == Some(c)
  {
    var e := Encode(c);
    var m := Store(mem, at, e);
    assert AddrAt(at, 0) == at;
    LoadStore(mem, at, e, 0, CMD_SIZE);
    assert e[0..CMD_SIZE] == e;
    assert Record(m, at) == e;
    LoadStore(mem, at, e, 0, 4);
    assert e[0..4] == ToLittleEndian(MAGIC, 4);
    assert Pow256(4) == UINT_LIMIT;
    DecodeEncode(MAGIC, 4);
    assert LoadU32(m, at) == MAGIC;
    DecodeRecordEncode(c);
  }

  /**
   * What `ct_process_command` does to the globals for a record at `at`
   * carrying `c` (clearing the page table on `end_for` aside): every opcode,
   * known or not, records `at` as the last command.
   */
  function Execute(g: Globals, c: Command, at: Addr, oracle: Addr): (r: Globals)
    ensures r.lastCmd == at
  {
    match c
    case BeginFor => g.(lastCmd := at)
    case EndFor => g.(currThread := 0, lastCmd := at)
    case Iter => g.(active := true, lastCmd := at)
    case Done => g.(active := false, lastCmd := at)
    case Thrd(id) => g.(currThread := WrapInt32(id + 1), lastCmd := at)
    case StackBot(p) => g.(stackbot := p, stackend := oracle, lastCmd := at)
    case Unknown => g.(lastCmd := at)
  }
}
