/**
 * The decisions `ct_on_access` takes for one traced access, as functions of
 * the detector's globals and of the owner tags the access finds: which
 * conflicting bytes `ct_suppress` waves through, which byte (if any) is
 * reported, and how `g_ct_stackend` evolves on the way.
 */
module Access {
  import opened Machine

  /** `sizeof(ct_cmd)`: a 4-byte magic word, a 16-byte marker, a 128-byte payload. */
  const CMD_SIZE: nat := 148

  /** The largest access Valgrind reports to the helpers. */
  const MAX_DSIZE: nat := 512

  /**
   * The detector's scalar globals: `g_ct_active`, `g_ct_curr_thread`,
   * `g_ct_stackbot`, `g_ct_stackend` and `g_ct_last_cmd` (as an address).
   */
  datatype Globals = Globals(
    active: bool,
    currThread: Int32,
    stackbot: Addr,
    stackend: Addr,
    lastCmd: Addr)

  /** The values the globals start with: all zero, inactive. */
  const INITIAL: Globals := Globals(false, 0, 0, 0, 0)

  /** What `ct_suppress` decides, and the value it leaves in `g_ct_stackend`. */
  datatype Decision = Decision(suppressed: bool, stackend: Addr)

  /** `p` lies in the command record most recently processed. */
  predicate InCommand(p: Addr, lastCmd: Addr)
  {
    lastCmd <= p < lastCmd + CMD_SIZE
  }

  /**
   * `ct_suppress(p)`: the stack test, repeated with the fresh stack end
   * `oracle` when `p` is below the recorded one, then the command-record test.
   * In closed form: the stack end is refreshed exactly when `p` is below it,
   * and `p` is suppressed exactly when it lies between the (possibly
   * refreshed) stack end and the stack bottom, or inside the command record.
   */
  function SuppressStep(p: Addr, stackend: Addr, stackbot: Addr, lastCmd: Addr, oracle: Addr): (d: Decision)
    ensures d.stackend == if p < stackend then oracle else stackend
    ensures d.suppressed <==> (d.stackend <= p < stackbot || InCommand(p, lastCmd))
  {
    if stackend <= p < stackbot then Decision(true, stackend)
    else
      var se := if p < stackend then oracle else stackend;
      if p < stackend && se <= p < stackbot then Decision(true, se)
      else if InCommand(p, lastCmd) then Decision(true, se)
      else Decision(false, se)
  }

  /** An owner tag the current thread may not touch: owned, and by someone else. */
  predicate Conflict(g: Globals, owner: u8)
  {
    owner != 0 && owner != g.currThread
  }

  /** How far a scan got, and the stack end it left behind. */
  datatype Outcome = Outcome(stop: nat, stackend: Addr)

  /**
   * The loop of `ct_on_access` from byte `i` on, with stack end `se`:
   * `tags[k]` is the owner tag byte `k` of the access finds.  A conflicting
   * byte goes to `ct_suppress`; the first one it does not suppress stops the
   * scan.  `stop == |tags|` when no byte stops it.
   */
  function Scan(g: Globals, tags: seq<u8>, base: Addr, oracle: Addr, i: nat, se: Addr): (r: Outcome)
    requires i <= |tags|
    ensures i <= r.stop <= |tags|
    decreases |tags| - i
  {
    if i == |tags| then Outcome(i, se)
    else if Conflict(g, tags[i]) then
      var d := SuppressStep(AddrAt(base, i), se, g.stackbot, g.lastCmd, oracle);
      if d.suppressed then Scan(g, tags, base, oracle, i + 1, d.stackend)
      else Outcome(i, d.stackend)
    else Scan(g, tags, base, oracle, i + 1, se)
  }

  /** The whole scan of one access, starting from the recorded stack end; it stops within the access. */
  function Check(g: Globals, tags: seq<u8>, base: Addr, oracle: Addr): (r: Outcome)
    ensures r.stop <= |tags|
  {
    Scan(g, tags, base, oracle, 0, g.stackend)
  }

  /** The diagnostic `ct_on_access` prints, as an event. */
  datatype Race = Race(thread: int, addr: Addr, base: Addr, size: nat, owner: int)

  /**
   * What one access reports: nothing when the scan ran to the end, otherwise
   * the byte it stopped at, the accessor `g_ct_curr_thread - 1` and the
   * owner `owner - 1` (`ct_on_access` returns after printing once).
   */
  function Report(g: Globals, tags: seq<u8>, base: Addr, o: Outcome): (r: Option<Race>)
    ensures r.Some? <==> o.stop < |tags|
    ensures r.Some? ==> r.value.base == base && r.value.size == |tags|
                        && exists i :: 0 <= i < |tags| && r.value.addr == AddrAt(base, i)
  {
    if o.stop < |tags| then
      Some(Race(g.currThread - 1, AddrAt(base, o.stop), base, |tags|, tags[o.stop] as int - 1))
    else None
  }

  /** The stack end in effect when byte `i` is examined, had no byte before it stopped the scan. */
  function StackEndBefore(g: Globals, tags: seq<u8>, base: Addr, oracle: Addr, i: nat): Addr
    requires i <= |tags|
  {
    if i == 0 then g.stackend
    else
      var se := StackEndBefore(g, tags, base, oracle, i - 1);
      if Conflict(g, tags[i - 1]) then
        SuppressStep(AddrAt(base, i - 1), se, g.stackbot, g.lastCmd, oracle).stackend
      else se
  }

  /** Byte `i` is a conflict `ct_suppress` does not wave through. */
  predicate Flagged(g: Globals, tags: seq<u8>, base: Addr, oracle: Addr, i: nat)
    requires i < |tags|
  {
    && Conflict(g, tags[i])
    && !SuppressStep(AddrAt(base, i), StackEndBefore(g, tags, base, oracle, i),
                     g.stackbot, g.lastCmd, oracle).suppressed
  }

  /**
   * The stack end is refreshed at most once per access: it becomes the
   * oracle's value as soon as a conflicting byte below the recorded stack
   * end has been examined, and stays the recorded one until then.
   */
  lemma {:induction false} StackEndBeforeIs(g: Globals, tags: seq<u8>, base: Addr, oracle: Addr, i: nat)
    requires i <= |tags|
    ensures StackEndBefore(g, tags, base, oracle, i) ==
      if exists j :: 0 <= j < i && Conflict(g, tags[j]) && AddrAt(base, j) < g.stackend
      then oracle else g.stackend
  {
    if i > 0 {
      StackEndBeforeIs(g, tags, base, oracle, i - 1);
      if exists j :: 0 <= j < i && Conflict(g, tags[j]) && AddrAt(base, j) < g.stackend {
        var j :| 0 <= j < i && Conflict(g, tags[j]) && AddrAt(base, j) < g.stackend;
        if j < i - 1 {
          assert exists j' :: 0 <= j' < i - 1 && Conflict(g, tags[j']) && AddrAt(base, j') < g.stackend;
        }
      }
    }
  }

  /** The scan from byte `i` on, once bytes before `i` have all passed. */
  lemma {:induction false} ScanFrom(g: Globals, tags: seq<u8>, base: Addr, oracle: Addr, i: nat)
    requires i <= |tags|
    requires forall j :: 0 <= j < i ==> !Flagged(g, tags, base, oracle, j)
    ensures var r := Scan(g, tags, base, oracle, i, StackEndBefore(g, tags, base, oracle, i));
      && (forall j :: 0 <= j < r.stop ==> !Flagged(g, tags, base, oracle, j))
      && (r.stop < |tags| ==>
            && Flagged(g, tags, base, oracle, r.stop)
            && r.stackend == SuppressStep(AddrAt(base, r.stop),
                 StackEndBefore(g, tags, base, oracle, r.stop), g.stackbot, g.lastCmd, oracle).stackend)
      && (r.stop == |tags| ==> r.stackend == StackEndBefore(g, tags, base, oracle, |tags|))
    decreases |tags| - i
  {
    if i < |tags| && !Flagged(g, tags, base, oracle, i) {
      ScanFrom(g, tags, base, oracle, i + 1);
    }
  }

  /**
   * The scan stops at the first flagged byte and at no other: every byte
   * before the stop passed, the byte it stopped at is flagged, and when it
   * ran to the end the stack end it leaves is the one `ct_suppress` left last.
   */
  lemma CheckFirst(g: Globals, tags: seq<u8>, base: Addr, oracle: Addr)
    ensures var r := Check(g, tags, base, oracle);
      && (forall j :: 0 <= j < r.stop ==> !Flagged(g, tags, base, oracle, j))
      && (r.stop < |tags| ==> Flagged(g, tags, base, oracle, r.stop))
      && (r.stop == |tags| ==> r.stackend == StackEndBefore(g, tags, base, oracle, |tags|))
  {
    ScanFrom(g, tags, base, oracle, 0);
  }

  /**
   * One report per access: an access is reported exactly when one of its
   * bytes is flagged, and then the report names the first such byte, the
   * accessor and that byte's owner.
   */
  lemma ReportIff(g: Globals, tags: seq<u8>, base: Addr, oracle: Addr)
    ensures var r := Report(g, tags, base, Check(g, tags, base, oracle));
      && (r.Some? <==> exists i :: 0 <= i < |tags| && Flagged(g, tags, base, oracle, i))
      && (r.Some? ==> exists i ::
            && 0 <= i < |tags| && Flagged(g, tags, base, oracle, i)
            && (forall j :: 0 <= j < i ==> !Flagged(g, tags, base, oracle, j))
            && r.value == Race(g.currThread - 1, AddrAt(base, i), base, |tags|, tags[i] as int - 1))
  {
    CheckFirst(g, tags, base, oracle);
  }

  /** An access that finds nothing but unowned bytes and its own thread's tags is never reported. */
  lemma NoConflictNoReport(g: Globals, tags: seq<u8>, base: Addr, oracle: Addr)
    requires forall i :: 0 <= i < |tags| ==> !Conflict(g, tags[i])
    ensures Check(g, tags, base, oracle) == Outcome(|tags|, g.stackend)
  {
    CheckFirst(g, tags, base, oracle);
    StackEndBeforeIs(g, tags, base, oracle, |tags|);
  }

  /**
   * A thread's own tags, as a store writes them (`g_ct_curr_thread` truncated
   * to a byte), count as no conflict exactly when the thread id is a byte
   * already or truncates to 0: a thread with an id outside 0..255 is reported
   * when it touches again a byte it stored to itself.
   */
  lemma OwnTagConflict(g: Globals)
    ensures !Conflict(g, ToUChar(g.currThread)) <==> (0 <= g.currThread < 0x100 || g.currThread % 0x100 == 0)
  {
    var v := ToUChar(g.currThread);
    assert v == g.currThread % 0x100;
  }

  /**
   * An access lying inside the command record last processed is never
   * reported, whatever owner tags it finds (all of its bytes are suppressed).
   */
  lemma InCommandNoReport(g: Globals, tags: seq<u8>, base: Addr, oracle: Addr)
    requires g.lastCmd <= base && base + |tags| <= g.lastCmd + CMD_SIZE
    requires base + |tags| <= ADDR_LIMIT
    ensures Check(g, tags, base, oracle).stop == |tags|
  {
    forall i | 0 <= i < |tags|
      ensures AddrAt(base, i) == base + i
    {
    }
    CheckFirst(g, tags, base, oracle);
  }

  /**
   * Position of the owner tag of `b` in an access starting at `base`: tags
   * are indexed by the address's low 32 bits, so this is the distance from
   * `base` to `b` modulo 2^32.
   */
  function Offset(base: Addr, b: Addr): (r: nat)
    ensures r < UINT_LIMIT
  {
    (b - base) % UINT_LIMIT
  }

  /**
   * Byte `i < 2^32` of an access shares its owner tag with exactly the
   * addresses at offset `i`; in particular the bytes of one access have
   * distinct tags.
   */
  lemma OffsetAt(base: Addr, i: nat, b: Addr)
    requires i < UINT_LIMIT
    ensures ToUInt(AddrAt(base, i)) == ToUInt(b) <==> Offset(base, b) == i
  {
  }
}
