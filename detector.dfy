/**
 * The detector itself: the globals of the tool, the ownership table, and the
 * helpers Valgrind calls on every traced load, store and modify.
 */
module RaceDetector {
  import opened Machine
  import opened PageTable
  import opened Access
  import opened Commands

  /**
   * `ct_str_is(variable, constant)`: compare the characters of the C string
   * `constant` one by one with memory from `variable`, giving up at the first
   * mismatch.
   */
  method StrIs(mem: Memory, variable: Addr, constant: seq<u8>) returns (b: bool)
    requires CString(constant)
    ensures b == IsPrefixAt(mem, variable, constant)
  {
    var i := 0;
    while i < |constant|
      invariant 0 <= i <= |constant|
      invariant forall k :: 0 <= k < i ==> mem(AddrAt(variable, k)) == constant[k]
    {
      if mem(AddrAt(variable, i)) != constant[i] {
        return false;
      }
      i := i + 1;
    }
    return true;
  }

  /**
   * The tests `ct_process_command` makes of the record at `cmd`: the marker,
   * then the opcodes in turn; the first one that matches decides the command,
   * whose operand is read with `ct_cmd_int` or `ct_cmd_ptr`.
   */
  method ReadCommand(mem: Memory, cmd: Addr) returns (c: Option<Command>)
    ensures c == Decode(mem, cmd)
  {
    IsPrefixAtRecord(mem, cmd, MARKER_OFFSET, MARKER);
    var marked := StrIs(mem, AddrAt(cmd, MARKER_OFFSET), MARKER);
    if !marked {
      return None;
    }
    var payload := AddrAt(cmd, PAYLOAD_OFFSET);
    PayloadInRecord(mem, cmd, BEGIN_FOR);
    var matched := StrIs(mem, payload, BEGIN_FOR);
    if matched {
      return Some(BeginFor);
    }
    PayloadInRecord(mem, cmd, END_FOR);
    matched := StrIs(mem, payload, END_FOR);
    if matched {
      return Some(EndFor);
    }
    PayloadInRecord(mem, cmd, ITER);
    matched := StrIs(mem, payload, ITER);
    if matched {
      return Some(Iter);
    }
    PayloadInRecord(mem, cmd, DONE);
    matched := StrIs(mem, payload, DONE);
    if matched {
      return Some(Done);
    }
    PayloadInRecord(mem, cmd, THRD);
    matched := StrIs(mem, payload, THRD);
    if matched {
      return Some(Thrd(CmdInt(mem, cmd, INT_OFFSET)));
    }
    PayloadInRecord(mem, cmd, STACKBOT);
    matched := StrIs(mem, payload, STACKBOT);
    if matched {
      return Some(StackBot(CmdPtr(mem, cmd, PTR_OFFSET)));
    }
    return Some(Unknown);
  }

  /**
   * The owner tags after a store has given the first `n` bytes of the
   * access at `base` the tag `v`: those bytes read `v`, all others what they
   * read before (`owners`).  A load changes nothing.
   */
  ghost predicate StampedBelow(f: Addr -> u8, owners: Addr -> u8, base: Addr, n: nat, store: bool, v: u8)
  {
    forall b :: f(b) == (if store && Offset(base, b) < n then v else owners(b))
  }

  /** Stamping byte `i` of the access extends the stamped prefix by one byte. */
  lemma StampStep(f: Addr -> u8, owners: Addr -> u8, base: Addr, i: nat, store: bool, v: u8)
    requires i < UINT_LIMIT && StampedBelow(f, owners, base, i, store, v)
    ensures StampedBelow(if store then Stamp(f, AddrAt(base, i), v) else f, owners, base, i + 1, store, v)
  {
    forall b
      ensures ToUInt(b) == ToUInt(AddrAt(base, i)) <==> Offset(base, b) == i
    {
      OffsetAt(base, i, b);
    }
  }

  /** The owner tags of an empty table: every byte unowned. */
  function Unowned(): Addr -> u8
  {
    _ => 0
  }

  /** The stamped prefix depends on the earlier tags only through their values. */
  lemma StampedCongruent(f: Addr -> u8, owners: Addr -> u8, owners': Addr -> u8, base: Addr, n: nat, v: u8, active: bool)
    requires forall b :: owners(b) == owners'(b)
    requires if active then StampedBelow(f, owners, base, n, true, v) else forall b :: f(b) == owners(b)
    ensures StampedBelow(f, owners', base, n, active, v)
  {
  }

  /** Byte `i` of the access still has the tag it had before the first `i` were stamped. */
  lemma StampedAt(f: Addr -> u8, owners: Addr -> u8, base: Addr, i: nat, store: bool, v: u8)
    requires i < UINT_LIMIT && StampedBelow(f, owners, base, i, store, v)
    ensures f(AddrAt(base, i)) == owners(AddrAt(base, i))
  {
  }

  /** One step of the scan: a flagged byte ends it, any other lets it go on. */
  lemma ScanStep(g: Globals, tags: seq<u8>, base: Addr, oracle: Addr, i: nat, se: Addr, flagged: bool, se': Addr)
    requires i < |tags|
    requires var d := SuppressStep(AddrAt(base, i), se, g.stackbot, g.lastCmd, oracle);
      && flagged == (Conflict(g, tags[i]) && !d.suppressed)
      && se' == if Conflict(g, tags[i]) then d.stackend else se
    ensures flagged ==> Scan(g, tags, base, oracle, i, se) == Outcome(i, se')
    ensures !flagged ==> Scan(g, tags, base, oracle, i, se) == Scan(g, tags, base, oracle, i + 1, se')
  {
  }

  /** The tool's state: its scalar globals and `g_ct_pagetab_L3`. */
  class Detector {
    var active: bool
    var currThread: Int32
    var stackbot: Addr
    var stackend: Addr
    var lastCmd: Addr
    const table: PagetabL3

    ghost predicate Valid()
      reads table, table.Repr, table.pageSet
    {
      this !in table.Repr && table.Valid() && table.Sound()
    }

    function Snapshot(): Globals
      reads this
    {
      Globals(active, currThread, stackbot, stackend, lastCmd)
    }

    /** The owner tag of `b`. */
    ghost function Tag(b: Addr): u8
      reads table
    {
      table.owners(b)
    }

    /**
     * The owner tags of the `n` bytes from `base` on: the view of the table
     * the access contracts are written in.  Its ensures only spells the
     * sequence out element by element, so that callers can use it.
     */
    ghost function Tags(base: Addr, n: nat): (t: seq<u8>)
      reads table
      ensures |t| == n && forall i :: 0 <= i < n ==> t[i] == Tag(AddrAt(base, i))
    {
      var owners := table.owners;
      seq<u8>(n, (i: nat) => owners(AddrAt(base, i)))
    }

    /** The tool at start-up: inactive, every global zero, every byte unowned. */
    constructor ()
      ensures Valid() && Snapshot() == INITIAL
      ensures forall b :: Tag(b) == 0
      ensures fresh(table) && table.Repr == {} && table.pageSet == {}
    {
      active := false;
      currThread := 0;
      stackbot := 0;
      stackend := 0;
      lastCmd := 0;
      table := new PagetabL3();
    }

    /**
     * `ct_suppress(addr)`, where `oracle` is what `ct_stack_end()` returns:
     * its only effect is the refresh of the stack end.
     */
    method Suppress(addr: Addr, oracle: Addr) returns (suppressed: bool)
      modifies this
      ensures var d := SuppressStep(addr, old(stackend), stackbot, lastCmd, oracle);
        suppressed == d.suppressed && Snapshot() == old(Snapshot()).(stackend := d.stackend)
    {
      if stackend <= addr < stackbot {
        return true;
      }
      if addr < stackend {
        stackend := oracle;
        if stackend <= addr < stackbot {
          return true;
        }
      }
      if lastCmd <= addr < lastCmd + CMD_SIZE {
        return true;
      }
      return false;
    }

    /**
     * The first half of one iteration of the loop of `ct_on_access`: look up
     * the page of `addr` (creating it if need be) and read its tag; a tag of
     * another thread is a conflict and goes to `ct_suppress`.  The byte is
     * flagged when it is a conflict `ct_suppress` does not wave through.
     */
    method Inspect(addr: Addr, oracle: Addr) returns (page: Page, owner: u8, flagged: bool)
      requires Valid()
      modifies this, table, table.Repr, table.pageSet
      ensures Valid() && page == table.PageOf(addr) && table.owners == old(table.owners)
      ensures fresh(table.Repr - old(table.Repr)) && fresh(table.pageSet - old(table.pageSet))
      ensures owner == old(Tag(addr))
      ensures var d := SuppressStep(addr, old(stackend), stackbot, lastCmd, oracle);
        var conflict := Conflict(old(Snapshot()), owner);
        && flagged == (conflict && !d.suppressed)
        && Snapshot() == old(Snapshot()).(stackend := if conflict then d.stackend else old(stackend))
    {
      assert this !in table.Repr;
      page, owner := table.Probe(addr);
      flagged := false;
      if owner != 0 && owner != currThread {
        label probed:
        var suppressed := Suppress(addr, oracle);
        flagged := !suppressed;
        table.Unaffected@probed();
      }
    }

    /**
     * One iteration of the loop of `ct_on_access`, for byte `i` of the
     * access: inspect it, and on a store that is not flagged give the byte
     * the current thread's tag (truncated to a byte).
     */
    method CheckByte(base: Addr, i: nat, store: bool, oracle: Addr) returns (owner: u8, flagged: bool)
      requires Valid()
      modifies this, table, table.Repr, table.pageSet
      ensures Valid()
      ensures fresh(table.Repr - old(table.Repr)) && fresh(table.pageSet - old(table.pageSet))
      ensures owner == old(Tag(AddrAt(base, i)))
      ensures var d := SuppressStep(AddrAt(base, i), old(stackend), stackbot, lastCmd, oracle);
        var conflict := Conflict(old(Snapshot()), owner);
        && flagged == (conflict && !d.suppressed)
        && Snapshot() == old(Snapshot()).(stackend := if conflict then d.stackend else old(stackend))
      ensures table.owners ==
        if store && !flagged then Stamp(old(table.owners), AddrAt(base, i), ToUChar(currThread))
        else old(table.owners)
    {
      var addr := AddrAt(base, i);
      var page;
      page, owner, flagged := Inspect(addr, oracle);
      if store && !flagged {
        table.SetOwner(page, addr, ToUChar(currThread));
      }
    }

    /**
     * The body of the loop of `ct_on_access` for byte `i`, stated against
     * the scan and the stamped prefix: a flagged byte ends the scan, any
     * other lets it go on from byte `i + 1` with one more byte stamped.
     */
    method ScanByte(base: Addr, i: nat, store: bool, oracle: Addr, ghost g: Globals, ghost tags: seq<u8>,
                    ghost owners: Addr -> u8)
      returns (owner: u8, flagged: bool)
      requires Valid() && i < |tags| <= MAX_DSIZE && Snapshot() == g.(stackend := stackend)
      requires tags[i] == owners(AddrAt(base, i))
      requires StampedBelow(table.owners, owners, base, i, store, ToUChar(g.currThread))
      modifies this, table, table.Repr, table.pageSet
      ensures Valid() && Snapshot() == g.(stackend := stackend) && owner == tags[i]
      ensures fresh(table.Repr - old(table.Repr)) && fresh(table.pageSet - old(table.pageSet))
      ensures flagged ==> Scan(g, tags, base, oracle, i, old(stackend)) == Outcome(i, stackend)
      ensures flagged ==> table.owners == old(table.owners)
      ensures !flagged ==> Scan(g, tags, base, oracle, i, old(stackend)) == Scan(g, tags, base, oracle, i + 1, stackend)
      ensures !flagged ==> StampedBelow(table.owners, owners, base, i + 1, store, ToUChar(g.currThread))
    {
      ghost var f := table.owners;
      StampedAt(f, owners, base, i, store, ToUChar(g.currThread));
      owner, flagged := CheckByte(base, i, store, oracle);
      ScanStep(g, tags, base, oracle, i, old(stackend), flagged, stackend);
      StampStep(f, owners, base, i, store, ToUChar(g.currThread));
    }

    /**
     * `ct_on_access(base, size, store)`: check the bytes of the access in
     * turn, report the first conflict `ct_suppress` does not wave through and
     * stop there; on a store, every byte checked before that point becomes
     * the current thread's (its tag truncated to a byte).
     */
    method OnAccess(base: Addr, size: nat, store: bool, oracle: Addr) returns (report: Option<Race>)
      requires Valid() && size <= MAX_DSIZE
      modifies this, table, table.Repr, table.pageSet
      ensures Valid()
      ensures fresh(table.Repr - old(table.Repr)) && fresh(table.pageSet - old(table.pageSet))
      ensures var o := Check(old(Snapshot()), old(Tags(base, size)), base, oracle);
        && report == Report(old(Snapshot()), old(Tags(base, size)), base, o)
        && Snapshot() == old(Snapshot()).(stackend := o.stackend)
        && StampedBelow(table.owners, old(table.owners), base, o.stop, store, ToUChar(old(currThread)))
    {
      report := ScanAccess(base, size, store, oracle, Snapshot(), Tags(base, size), table.owners);
    }

    /**
     * The loop of `ct_on_access`, for globals `g` and the tags `tags` the
     * access finds in the table `owners`: the report and the stack end are
     * those of `Check`, and on a store the bytes before its stop are stamped.
     */
    method ScanAccess(base: Addr, size: nat, store: bool, oracle: Addr, ghost g: Globals, ghost tags: seq<u8>,
                      ghost owners: Addr -> u8)
      returns (report: Option<Race>)
      requires Valid() && size == |tags| <= MAX_DSIZE && Snapshot() == g && table.owners == owners
      requires forall i :: 0 <= i < size ==> tags[i] == owners(AddrAt(base, i))
      modifies this, table, table.Repr, table.pageSet
      ensures Valid()
      ensures fresh(table.Repr - old(table.Repr)) && fresh(table.pageSet - old(table.pageSet))
      ensures var o := Check(g, tags, base, oracle);
        && report == Report(g, tags, base, o)
        && Snapshot() == g.(stackend := o.stackend)
        && StampedBelow(table.owners, owners, base, o.stop, store, ToUChar(g.currThread))
    {
      ghost var v := ToUChar(currThread);
      report := None;
      var i := 0;
      while i < size
        invariant 0 <= i <= size
        invariant Valid() && report == None
        invariant fresh(table.Repr - old(table.Repr)) && fresh(table.pageSet - old(table.pageSet))
        invariant Snapshot() == g.(stackend := stackend)
        invariant Scan(g, tags, base, oracle, i, stackend) == Check(g, tags, base, oracle)
        invariant StampedBelow(table.owners, owners, base, i, store, v)
      {
        var owner, flagged := ScanByte(base, i, store, oracle, g, tags, owners);
        if flagged {
          report := Some(Race(currThread - 1, AddrAt(base, i), base, size, owner as int - 1));
          assert report == Report(g, tags, base, Outcome(i, stackend));
          break;
        }
        i := i + 1;
      }
      assert Check(g, tags, base, oracle) == Outcome(i, stackend);
    }

    /**
     * The switch of `ct_process_command` for a command whose marker matched:
     * act on the opcode and remember `cmd` as the last command; `end_for`
     * also empties the ownership table.
     */
    method Perform(c: Command, cmd: Addr, oracle: Addr)
      requires Valid()
      modifies this, table
      ensures Valid() && Snapshot() == Execute(old(Snapshot()), c, cmd, oracle)
      ensures forall b :: Tag(b) == if c == EndFor then 0 else old(Tag(b))
      ensures table.Repr <= old(table.Repr) && table.pageSet <= old(table.pageSet)
    {
      label start:
      match c {
        case BeginFor =>
        case EndFor =>
          var _ := table.Clear();
          currThread := 0;
        case Iter =>
          active := true;
        case Done =>
          active := false;
        case Thrd(id) =>
          currThread := WrapInt32(id + 1);
        case StackBot(p) =>
          stackbot := p;
          stackend := oracle;
        case Unknown =>
      }
      lastCmd := cmd;
      if c != EndFor {
        table.Unaffected@start();
      }
    }

    /** `ct_process_command(cmd)`: a record whose marker does not match is ignored. */
    method ProcessCommand(mem: Memory, cmd: Addr, oracle: Addr)
      requires Valid()
      modifies this, table
      ensures Valid()
      ensures Decode(mem, cmd) == None ==> Snapshot() == old(Snapshot())
      ensures Decode(mem, cmd).Some? ==>
        Snapshot() == Execute(old(Snapshot()), Decode(mem, cmd).value, cmd, oracle)
      ensures forall b :: Tag(b) == if Decode(mem, cmd) == Some(EndFor) then 0 else old(Tag(b))
      ensures table.Repr <= old(table.Repr) && table.pageSet <= old(table.pageSet)
    {
      var c := ReadCommand(mem, cmd);
      if c.Some? {
        Perform(c.value, cmd, oracle);
      }
    }

    /** `trace_load`: a load is checked only while the detector is active, and never takes ownership. */
    method TraceLoad(addr: Addr, size: nat, oracle: Addr) returns (report: Option<Race>)
      requires Valid() && size <= MAX_DSIZE
      modifies this, table, table.Repr, table.pageSet
      ensures Valid()
      ensures forall b :: Tag(b) == old(Tag(b))
      ensures fresh(table.Repr - old(table.Repr)) && fresh(table.pageSet - old(table.pageSet))
      ensures !old(active) ==> report == None && Snapshot() == old(Snapshot())
      ensures old(active) ==>
        var o := Check(old(Snapshot()), old(Tags(addr, size)), addr, oracle);
        && report == Report(old(Snapshot()), old(Tags(addr, size)), addr, o)
        && Snapshot() == old(Snapshot()).(stackend := o.stackend)
    {
      if active {
        report := OnAccess(addr, size, false, oracle);
      } else {
        report := None;
      }
    }

    /**
     * What a traced store does: a store whose first word is `MAGIC` is first
     * interpreted as a command; then, if the detector is (now) active, the
     * store is checked against, and takes, ownership.
     */
    twostate predicate StoreLaw(mem: Memory, addr: Addr, size: nat, oracle: Addr, new report: Option<Race>)
      reads this, table, table.Repr, table.pageSet
      requires old(Valid()) && Valid()
    {
      var c := Parse(mem, addr);
      var g := if c.Some? then Execute(old(Snapshot()), c.value, addr, oracle) else old(Snapshot());
      var cleared := c == Some(EndFor);
      var tags := if cleared then Zeros(size) else old(Tags(addr, size));
      var o := Check(g, tags, addr, oracle);
      && report == (if g.active then Report(g, tags, addr, o) else None)
      && Snapshot() == (if g.active then g.(stackend := o.stackend) else g)
      && StampedBelow(table.owners, if cleared then Unowned() else old(table.owners),
                      addr, o.stop, g.active, ToUChar(g.currThread))
    }

    /**
     * `ct_on_store(addr, size)`.  A command's own store is never reported
     * when it lies within the record, since the record is then the last
     * command; a `done` store is not checked at all.
     */
    method OnStore(mem: Memory, addr: Addr, size: nat, oracle: Addr) returns (report: Option<Race>)
      requires Valid() && size <= MAX_DSIZE
      modifies this, table, table.Repr, table.pageSet
      ensures Valid() && StoreLaw(mem, addr, size, oracle, report)
      ensures fresh(table.Repr - old(table.Repr)) && fresh(table.pageSet - old(table.pageSet))
      ensures Parse(mem, addr).Some? && size <= CMD_SIZE && addr + size <= ADDR_LIMIT ==> report == None
      ensures Parse(mem, addr) == Some(Done) ==> report == None && forall b :: Tag(b) == old(Tag(b))
    {
      ghost var c := Parse(mem, addr);
      ghost var prior: Addr -> u8 := if c == Some(EndFor) then Unowned() else table.owners;
      if LoadU32(mem, addr) == MAGIC {
        assert c == Decode(mem, addr);
        ProcessCommand(mem, addr, oracle);
        if c == Some(EndFor) {
          assert Tags(addr, size) == Zeros(size);
        } else {
          assert Tags(addr, size) == old(Tags(addr, size));
        }
        if c.Some? && size <= CMD_SIZE && addr + size <= ADDR_LIMIT {
          InCommandNoReport(Snapshot(), Tags(addr, size), addr, oracle);
        }
      }
      forall b
        ensures table.owners(b) == prior(b)
      {
        assert Tag(b) == if c == Some(EndFor) then 0 else old(Tag(b));
      }
      ghost var mid := table.owners;
      ghost var v := ToUChar(currThread);
      ghost var stop := Check(Snapshot(), Tags(addr, size), addr, oracle).stop;
      if active {
        report := OnAccess(addr, size, true, oracle);
      } else {
        report := None;
      }
      StampedCongruent(table.owners, mid, prior, addr, stop, v, active);
      DoneStoreKeeps(mem, addr, size, oracle, report);
    }

    /** A `done` store reports nothing and leaves every owner tag as it was. */
    twostate lemma DoneStoreKeeps(new mem: Memory, new addr: Addr, new size: nat, oracle: Addr, new report: Option<Race>)
      requires old(Valid()) && Valid() && StoreLaw(mem, addr, size, oracle, report)
      ensures Parse(mem, addr) == Some(Done) ==> report == None && forall b :: Tag(b) == old(Tag(b))
    {
    }

    /** `trace_store`: exactly `ct_on_store`. */
    method TraceStore(mem: Memory, addr: Addr, size: nat, oracle: Addr) returns (report: Option<Race>)
      requires Valid() && size <= MAX_DSIZE
      modifies this, table, table.Repr, table.pageSet
      ensures Valid() && StoreLaw(mem, addr, size, oracle, report)
      ensures fresh(table.Repr - old(table.Repr)) && fresh(table.pageSet - old(table.pageSet))
    {
      report := OnStore(mem, addr, size, oracle);
    }

    /** `trace_modify`: a load and store of the same location, handled exactly like a store. */
    method TraceModify(mem: Memory, addr: Addr, size: nat, oracle: Addr) returns (report: Option<Race>)
      requires Valid() && size <= MAX_DSIZE
      modifies this, table, table.Repr, table.pageSet
      ensures Valid() && StoreLaw(mem, addr, size, oracle, report)
      ensures fresh(table.Repr - old(table.Repr)) && fresh(table.pageSet - old(table.pageSet))
    {
      report := OnStore(mem, addr, size, oracle);
    }
  }
}
