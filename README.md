# checkedthreads race detector, in Dafny

checkedthreads ships a Valgrind tool that checks parallel loops for races.
It runs all the iterations of a loop on one real thread, and tags every byte
of memory with the logical thread that last stored to it. When an access from
one logical thread finds a byte owned by another, the tool reports a race.
Some accesses are exempt: stack frames below the point where the framework was
entered, and the command record the program itself stores to drive the tool.

This project models the core of that tool (`valgrind/checkedthreads_main.c`)
in five modules:

- `Machine` (`machine.dfy`) holds the machine-level values: bytes, 64-bit
  addresses that wrap, and the `(UInt)` cast that keeps the low 32 bits. It
  also gives `Int` two's-complement wrap-around, the `unsigned char`
  truncation, and little-endian loads from the monitored program's memory.
- `PageTable` (`pagetable.dfy`) holds the three-level ownership table
  (`ct_pagetab_L3` → `ct_pagetab_L2` → `ct_pagetab_L1` → `ct_page`) as
  classes updated in place:
  - `ct_get_page` is modelled as `GetPage`, together with its three lookup
    steps.
  - `ct_clear_pagetab` is modelled as `Clear`, together with its three nested
    while-loops. Teardown is proved to free every node of the table exactly
    once, and nothing else.
  - Every level's `last_alloc_*`/`prev_alloc_*` chain is tied to a ghost
    sequence visiting exactly the non-null entries of that level's index array.
  - A ghost map `owners` gives the owner tag every address reads as.
- `Access` (`access.dfy`) holds the decisions `ct_on_access` makes, as pure
  functions: the closed form of `ct_suppress`, the scan that stops at the
  first conflict `ct_suppress` does not wave through, and the report it prints.
- `Commands` (`commands.dfy`) holds the in-band command protocol: the
  148-byte `ct_cmd` record, its decoding in `ct_process_command`'s
  first-match order, an encoder with round-trip lemmas, and the effect of
  each opcode on the globals.
- `RaceDetector` (`detector.dfy`) holds the tool itself: a class with the
  globals `g_ct_active`, `g_ct_curr_thread`, `g_ct_stackbot`,
  `g_ct_stackend`, `g_ct_last_cmd` and the table. Its methods are
  `ct_suppress`, `ct_on_access` (its `for` loop is the method `ScanAccess`, with invariants),
  `ct_str_is`, `ct_process_command`, `trace_load`, `ct_on_store`,
  `trace_store` and `trace_modify`, each proved against the functions of
  `Access` and `Commands`.

Behaviours kept as the code has them:

- The index macros cast the address to a 32-bit `UInt` first. So the
  top-level index is always 0, and the L1 index sees only bits 24–31.
  Addresses that agree in their low 32 bits share one owner tag.
- `owning_thread` holds `unsigned char`. A store writes
  `g_ct_curr_thread mod 256`, while the conflict test compares the stored tag
  with the full `Int`. So a thread's own tags are no conflict for it only
  when its id (`g_ct_curr_thread`) lies in 0..255 or is a multiple of 256
  (`Access.OwnTagConflict`). A thread with any other id is reported when it
  touches again a byte it stored to itself. `NoConflictNoReport` holds for
  every id, but its premise covers such a thread's own tags only within that
  range.
- In `ct_on_access` the `break` comes before the ownership update. The byte
  that is reported keeps its owner. A conflicting byte that `ct_suppress`
  waves through is taken over on a store, like every other byte scanned
  before the report.
- `g_ct_last_cmd` starts at 0. So until the first command, the 148 bytes from
  address 0 count as "the command record" and are suppressed.
- A record whose marker matches but whose opcode is unknown still becomes
  `g_ct_last_cmd`.

Memory is a parameter `mem: Memory` of the operations that read it. The value
`ct_stack_end()` would return is a parameter `oracle`. A report is a value
`Race(thread, addr, base, size, owner)` returned by the access check, not
printed text.

## Model

| member | source | states |
|---|---|---|
| Machine.AddrAt | valgrind/checkedthreads_main.c:441 | `base+i` on a 64-bit `Addr` is the plain sum whenever that sum stays below 2^64. |
| Machine.ToUInt | valgrind/checkedthreads_main.c:299-302 | The `(UInt)` cast yields a value below 2^32, and leaves an address below 2^32 unchanged. |
| Machine.WrapInt32 | valgrind/checkedthreads_main.c:506 | `ct_cmd_int(cmd, 4)+1` wraps like a 32-bit `Int`: the result is congruent to the mathematical value mod 2^32, and equal to it when it fits. |
| Machine.ToUChar | valgrind/checkedthreads_main.c:457 | The store of `g_ct_curr_thread` into `unsigned char owning_thread[]` keeps the value mod 256, and keeps it unchanged when it is already a byte. |
| Machine.LoadU32 | valgrind/checkedthreads_main.c:531 | `p->stored_magic` is the unsigned 32-bit value whose little-endian encoding is the four bytes at `at`, so it is below 2^32. |
| Machine.DecodeEncode | valgrind/checkedthreads_main.c:474-482 | A value that fits in `n` bytes, written little-endian and read back, is unchanged. |
| Machine.EncodeDecode | valgrind/checkedthreads_main.c:474-482 | Bytes read as a little-endian value and written back are unchanged. |
| Machine.Int32Of | valgrind/checkedthreads_main.c:481 | The `int32_t` read from four bytes encodes back, in two's complement, to exactly those bytes. |
| Machine.LoadI32 | valgrind/checkedthreads_main.c:481 | `*(int32_t*)at` is the value whose two's-complement encoding is the four bytes at `at`. |
| Machine.LoadAddr | valgrind/checkedthreads_main.c:476 | `*(Addr*)at` is the value whose little-endian encoding is the eight bytes at `at`. |
| Machine.AddrAtAdd | valgrind/checkedthreads_main.c:441 | Two wrapped offsets compose: `(at+off)+i` is `at+(off+i)` modulo 2^64. |
| Machine.LoadSlice | valgrind/checkedthreads_main.c:474-482 | A load at an offset inside a region reads the corresponding slice of the whole region's load, so `&cmd->payload[oft]` reads bytes of the record. |
| Machine.LoadStore | valgrind/checkedthreads_main.c:279-283 | A load of bytes just stored reads them back. |
| Machine.Int32OfBytes | valgrind/checkedthreads_main.c:479-482 | The `int32_t` load inverts its two's-complement encoding. |
| PageTable.L2Index | valgrind/checkedthreads_main.c:299 | `L2_PAGETAB(addr)` is an index into `pagetabs_L2`: below 4096. |
| PageTable.L1Index | valgrind/checkedthreads_main.c:300 | `L1_PAGETAB(addr)` is an index into `pagetabs_L1`: below 4096. |
| PageTable.PageIndex | valgrind/checkedthreads_main.c:301 | `PAGE(addr)` is an index into `pages`: below 4096. |
| PageTable.ByteInPage | valgrind/checkedthreads_main.c:302 | `BYTE_IN_PAGE(addr)` is an index into `owning_thread`: below `PAGE_SIZE`. |
| PageTable.IndexSplit | valgrind/checkedthreads_main.c:299-302 | After the `(UInt)` cast, `L2_PAGETAB` is always 0, `L1_PAGETAB` is below 256, and the three indices with `BYTE_IN_PAGE` recompose the low 32 bits. |
| PageTable.SamePageIff | valgrind/checkedthreads_main.c:299-302 | Two addresses select the same page exactly when their low 32 bits agree above bit 12. |
| PageTable.SameByteIff | valgrind/checkedthreads_main.c:299-302 | Two addresses select the same owner byte exactly when their low 32 bits agree. |
| PageTable.Page.constructor | valgrind/checkedthreads_main.c:372 | A page from `VG_(calloc)` is all zero (every byte unowned), and links to the previous chain head. |
| PageTable.PagetabL1.constructor | valgrind/checkedthreads_main.c:363 | An L1 table from `VG_(calloc)` has every page slot null and an empty page chain, and is valid. |
| PageTable.PagetabL2.constructor | valgrind/checkedthreads_main.c:354 | An L2 table from `VG_(calloc)` has every L1 slot null and an empty L1 chain, and is valid. |
| PageTable.PagetabL3.constructor | valgrind/checkedthreads_main.c:340 | The static root `{{0},0}`: every L2 slot null, an empty chain, the table valid and sound, and every address unowned. |
| PageTable.PushPage | valgrind/checkedthreads_main.c:371-375 | Linking a new page in front of a page chain gives a chain again: linked, null-terminated and without repeats. |
| PageTable.PushL1 | valgrind/checkedthreads_main.c:362-366 | The same for a new L1 table in front of an L1 chain. |
| PageTable.PushL2 | valgrind/checkedthreads_main.c:353-357 | The same for a new L2 table in front of the L2 chain. |
| PageTable.PagetabL1.LookupPage | valgrind/checkedthreads_main.c:369-376 | The page slot is found, or filled with a fresh all-zero page pushed on the page chain. Other slots are unchanged, and the chain invariant is kept. |
| PageTable.PagetabL2.LookupL1 | valgrind/checkedthreads_main.c:360-367 | The L1 slot is found, or filled with a fresh empty L1 table pushed on the L1 chain. Other slots are unchanged, and the chain invariant is kept. |
| PageTable.PagetabL3.PageOf | valgrind/checkedthreads_main.c:344-378 | The page an address reaches through the three index arrays, if any, is one of the table's pages. |
| PageTable.PagetabL3.PageOfInjective | valgrind/checkedthreads_main.c:344-378 | A page sits in exactly one slot: two addresses reach the same existing page exactly when their three indices agree. |
| PageTable.PagetabL3.SlotPage | valgrind/checkedthreads_main.c:344-378 | Addresses with the same three indices reach the same page. |
| PageTable.PagetabL3.LookupL2 | valgrind/checkedthreads_main.c:350-358 | The first step of `ct_get_page`: the L2 slot is found, or filled with a fresh empty table pushed on the root chain. No address changes page, and the root stays valid. |
| PageTable.PagetabL3.LookupL1 | valgrind/checkedthreads_main.c:360-367 | The second step: the L1 table of `a` is found or created in its L2 table. No address changes page, and the root stays valid. |
| PageTable.PagetabL3.LookupPage | valgrind/checkedthreads_main.c:369-377 | The third step: the page of `a` is found, or created all-zero. Only the addresses of that slot can change page. |
| PageTable.PagetabL3.L2Added | valgrind/checkedthreads_main.c:353-357 | The root invariant survives linking a new L2 table into an empty slot. |
| PageTable.PagetabL3.L2AddedPages | valgrind/checkedthreads_main.c:353-357 | That step moves no address to another page. |
| PageTable.PagetabL3.L1Added | valgrind/checkedthreads_main.c:362-366 | The root invariant survives an L2 table gaining an L1 table. |
| PageTable.PagetabL3.L1AddedPages | valgrind/checkedthreads_main.c:362-366 | That step moves no address to another page. |
| PageTable.PagetabL3.PageAdded | valgrind/checkedthreads_main.c:369-376 | The root invariant survives an L1 table gaining a page in one slot, whether the page is new or was already there. |
| PageTable.PagetabL3.GetPage | valgrind/checkedthreads_main.c:344-378 | Lazy, idempotent lookup. See [GetPage](#getpage) below the table. |
| PageTable.PagetabL3.LookupSlots | valgrind/checkedthreads_main.c:351-377 | The three lookups return the page of `a`. No other address changes page, an existing page is returned as is, and otherwise one fresh all-zero page is added. Only fresh nodes join the table, and no owner tag changes. |
| PageTable.PagetabL3.LookupBelow | valgrind/checkedthreads_main.c:360-377 | The same for the last two lookups, below the L2 table of `a`. |
| PageTable.PagetabL3.OwnersKept | valgrind/checkedthreads_main.c:369-376 | Creating a zero page at the slot of `a` changes no owner tag. |
| PageTable.PagetabL3.Unaffected | valgrind/checkedthreads_main.c:416-435 | A step that writes nothing of the table (such as `ct_suppress`) keeps its invariant and owner tags. |
| PageTable.PagetabL3.Probe | valgrind/checkedthreads_main.c:442-444 | `ct_get_page` then the read of `owning_thread[BYTE_IN_PAGE(addr)]` yields the owner tag of `addr`, and no tag changes. |
| PageTable.Stamp | valgrind/checkedthreads_main.c:455-458 | Definition, without a contract of its own: owner tags after one byte is given tag `v`, at every address sharing that byte's low 32 bits. `SetOwner` and `StampKept` state the write against it. |
| PageTable.PagetabL3.Owner | valgrind/checkedthreads_main.c:442-444 | Definition, without a contract of its own: the tag `owning_thread[BYTE_IN_PAGE(a)]` of the page `a` reaches, or 0 when there is none. `Sound` ties `owners` to it, and `Probe` states the read. |
| PageTable.PagetabL3.SetOwner | valgrind/checkedthreads_main.c:455-458 | The tag write changes the owner of exactly the addresses sharing the low 32 bits of `a`, and moves no page. |
| PageTable.PagetabL3.StampKept | valgrind/checkedthreads_main.c:457 | The same, as a lemma about the heap before and after the write. |
| PageTable.PagetabL1.FreePages | valgrind/checkedthreads_main.c:391-398 | The innermost teardown loop frees the pages along the page chain, newest first, then the L1 table. |
| PageTable.PagetabL1.FreeOrderExact | valgrind/checkedthreads_main.c:391-399 | That order lists each page of the table once, then the table, and nothing else. |
| PageTable.L1FreeOrderExact | valgrind/checkedthreads_main.c:389-401 | The teardown of an L1 chain without repeats lists each of its tables and each of their pages once, and nothing else. |
| PageTable.L1FreeOrderKept | valgrind/checkedthreads_main.c:389-401 | The teardown order of an L1 chain depends only on those tables, so freeing one table's pages leaves the order of the others alone. |
| PageTable.PagetabL2.FreeL1s | valgrind/checkedthreads_main.c:386-400 | The middle loop frees each L1 table's pages and the table, along the L1 chain. |
| PageTable.PagetabL2.FreeOrderExact | valgrind/checkedthreads_main.c:388-403 | That order lists each L1 table of the L2 table and each of their pages once, then the L2 table, and nothing else. |
| PageTable.L2FreeOrderExact | valgrind/checkedthreads_main.c:385-405 | The teardown of an L2 chain without repeats lists each of its tables, their L1 tables and those tables' pages once, and nothing else. |
| PageTable.L2FreeOrderKept | valgrind/checkedthreads_main.c:385-405 | The teardown order of an L2 chain depends only on those tables and their L1 tables. |
| PageTable.FreeL2Chain | valgrind/checkedthreads_main.c:383-405 | The outer loop walks the L2 chain from its head and frees the chain's nodes in teardown order. |
| PageTable.PagetabL3.FreeOrderExact | valgrind/checkedthreads_main.c:380-405 | Teardown lists every L2 table, L1 table and page of the table exactly once, and nothing else. |
| PageTable.PagetabL3.FreeL2s | valgrind/checkedthreads_main.c:380-405 | The three loops free the table in teardown order. They free every L2 table, L1 table and page of the table, each once, and nothing else. |
| PageTable.PagetabL3.ClearRoot | valgrind/checkedthreads_main.c:406-407 | After the loops the root's slots are all null and its chain is empty. Every address then has no page and reads as owner 0, and the root is valid. |
| PageTable.PagetabL3.Clear | valgrind/checkedthreads_main.c:380-408 | Full reset. See [Clear](#clear) below the table. |
| Access.InCommand | valgrind/checkedthreads_main.c:431 | Definition, without a contract of its own: `p` lies in the 148 bytes from `g_ct_last_cmd`, up to `g_ct_last_cmd+1`. `InCommandNoReport` and `SuppressStep` state what follows from it. |
| Access.SuppressStep | valgrind/checkedthreads_main.c:416-435 | The `ct_suppress` decision. See [SuppressStep](#suppressstep) below the table. |
| Access.Conflict | valgrind/checkedthreads_main.c:445 | Definition, without a contract of its own: the tag is owned and differs from `g_ct_curr_thread`. `NoConflictNoReport` states what follows from it. |
| Access.Scan | valgrind/checkedthreads_main.c:440-459 | The loop of `ct_on_access` from byte `i` stops at or after `i`, and never past the end. |
| Access.StackEndBefore | valgrind/checkedthreads_main.c:423-425 | Definition, without a contract of its own: the stack end in effect when byte `i` is examined, had no earlier byte stopped the scan. `StackEndBeforeIs` gives its closed form. |
| Access.Flagged | valgrind/checkedthreads_main.c:445-446 | Definition, without a contract of its own: byte `i` is a conflict that `ct_suppress` does not wave through, given the stack end in effect there. `CheckFirst` and `ReportIff` state what follows from it. |
| Access.StackEndBeforeIs | valgrind/checkedthreads_main.c:423-425 | The stack end in effect at byte `i` is the oracle's value once some earlier byte was a conflict below the recorded stack end. Otherwise it is the recorded one. |
| Access.ScanFrom | valgrind/checkedthreads_main.c:440-453 | From a point where no earlier byte was flagged, the scan stops at the first flagged byte, with the stack end `ct_suppress` left there. Otherwise it runs to the end. |
| Access.Check | valgrind/checkedthreads_main.c:440-453 | The scan of a whole access stops within the access. `CheckFirst` states where. |
| Access.CheckFirst | valgrind/checkedthreads_main.c:440-453 | The whole scan stops at the first flagged byte and at no other. |
| Access.Report | valgrind/checkedthreads_main.c:445-452 | A report exists exactly when the scan stopped before the end. It names the access's `base` and `size`, and an address that is one of its bytes. |
| Access.ReportIff | valgrind/checkedthreads_main.c:445-453 | One report per access. See [ReportIff](#reportiff) below the table. |
| Access.NoConflictNoReport | valgrind/checkedthreads_main.c:445 | An access that finds only unowned bytes and its own thread's tags is not reported, and leaves the stack end alone. |
| Access.OwnTagConflict | valgrind/checkedthreads_main.c:445-457 | A thread's own tag, as a store writes it (`g_ct_curr_thread` as an `unsigned char`), is no conflict for that thread exactly when the id lies in 0..255 or is a multiple of 256. |
| Access.InCommandNoReport | valgrind/checkedthreads_main.c:431-433 | An access lying inside the last command record is never reported, whatever tags it finds. |
| Access.Offset | valgrind/checkedthreads_main.c:302 | Owner-tag position of an address relative to the access base, below 2^32. |
| Access.OffsetAt | valgrind/checkedthreads_main.c:441-443 | Byte `i` of an access (with `base+i` wrapping) shares its tag with exactly the addresses at offset `i`, so the bytes of one access have distinct tags. |
| Commands.Record | valgrind/checkedthreads_main.c:279-283 | A `ct_cmd` record is 148 bytes. |
| Commands.IsPrefixAtRecord | valgrind/checkedthreads_main.c:486 | A `ct_str_is` test on a member of the record reads only the record's own bytes. |
| Commands.PayloadSlice | valgrind/checkedthreads_main.c:474-482 | The bytes at payload offset `oft` are the record's bytes there, so `&cmd->payload[oft]` reads the payload. |
| Commands.CmdInt | valgrind/checkedthreads_main.c:479-482 | `ct_cmd_int(cmd, oft)` is the `int32_t` whose two's-complement bytes are the payload's four bytes at `oft`. |
| Commands.CmdPtr | valgrind/checkedthreads_main.c:474-477 | `ct_cmd_ptr(cmd, oft)` is the address whose little-endian bytes are the payload's eight bytes at `oft`. |
| Commands.Opcode | valgrind/checkedthreads_main.c:489-516 | Each of `begin_for`, `end_for`, `iter`, `done`, `thrd` and `stackbot` is decoded exactly when the payload begins with its opcode string, and the payload is an unknown command exactly when it begins with none of them. `thrd` carries the `int32_t` encoded at offset 4, and `stackbot` the address encoded at offset 8. |
| Commands.AddrOf | valgrind/checkedthreads_main.c:476 | The address decoded from eight bytes encodes back to exactly those bytes. |
| Commands.Decode | valgrind/checkedthreads_main.c:484-516 | A record is no command exactly when `const_magic` does not hold the marker. The operands of `thrd` and `stackbot` are what `ct_cmd_int(cmd, 4)` and `ct_cmd_ptr(cmd, 8)` load. |
| Commands.Parse | valgrind/checkedthreads_main.c:528-533 | A store is taken for a command exactly when its first word is `MAGIC` and the marker follows it. |
| Commands.PayloadInRecord | valgrind/checkedthreads_main.c:474-482 | The payload prefix tests, and the operands `ct_cmd_int(cmd, 4)` and `ct_cmd_ptr(cmd, 8)`, are read from the payload slice of the record. |
| Commands.Payload | valgrind/checkedthreads_main.c:277 | An encoded payload is `MAX_CMD` = 128 bytes. |
| Commands.Encode | valgrind/checkedthreads_main.c:279-283 | An encoded record is `sizeof(ct_cmd)` = 148 bytes. |
| Commands.OpcodePayload | valgrind/checkedthreads_main.c:489-516 | Decoding the payload written for any opcode gives that opcode back, with its operand, in the first-match order. |
| Commands.DecodeRecordEncode | valgrind/checkedthreads_main.c:484-516 | Decoding the record written for any command gives it back. |
| Commands.ParseStore | valgrind/checkedthreads_main.c:528-533 | Once the record for `c` has been stored at `at`, a store at `at` is recognised by its magic word and decodes to `c`. |
| Commands.Execute | valgrind/checkedthreads_main.c:484-519 | Every opcode past the marker test, known or not, sets `g_ct_last_cmd` to the record. |
| Commands.NotAt | valgrind/checkedthreads_main.c:465-470 | A prefix test fails when the first characters differ. |
| RaceDetector.StrIs | valgrind/checkedthreads_main.c:462-472 | `ct_str_is` returns true exactly when memory from `variable` begins with the characters of `constant`. |
| RaceDetector.ReadCommand | valgrind/checkedthreads_main.c:484-516 | The cascade of `ct_str_is` tests yields `Decode`: nothing on a marker mismatch, else the first opcode matched, with its `ct_cmd_int`/`ct_cmd_ptr` operand. |
| RaceDetector.StampedBelow | valgrind/checkedthreads_main.c:455-458 | Definition, without a contract of its own: after a store stamped the first `n` bytes of an access with `v`, those bytes read `v` and every other address reads what it did before. `StampStep` and `OnAccess` state the stamping against it. |
| RaceDetector.StampStep | valgrind/checkedthreads_main.c:455-458 | Stamping byte `i` extends the prefix of the access that carries the new tag by one byte. |
| RaceDetector.StampedAt | valgrind/checkedthreads_main.c:441-444 | Byte `i` of an access still has its original tag after bytes `0..i-1` were stamped. |
| RaceDetector.ScanStep | valgrind/checkedthreads_main.c:445-453 | One step of the scan: a flagged byte ends it, any other continues at `i + 1`. |
| RaceDetector.Detector.constructor | valgrind/checkedthreads_main.c:285-342 | The tool at start-up, with the static initialisers: inactive, every global 0, a fresh empty table, and every byte unowned. |
| RaceDetector.Detector.Suppress | valgrind/checkedthreads_main.c:416-435 | `ct_suppress` returns `SuppressStep`'s decision, and changes nothing but `g_ct_stackend`. |
| RaceDetector.Detector.Inspect | valgrind/checkedthreads_main.c:441-447 | The first half of one loop iteration: the tag is read, and the byte is flagged exactly when it is a conflict `ct_suppress` does not wave through. The stack end moves only on a conflict. |
| RaceDetector.Detector.CheckByte | valgrind/checkedthreads_main.c:441-458 | One loop iteration: as `Inspect`, and on a store that is not flagged, the byte's tag becomes `g_ct_curr_thread mod 256`. |
| RaceDetector.Detector.ScanByte | valgrind/checkedthreads_main.c:441-458 | The same iteration, stated as one step of `Scan` and one more stamped byte. |
| RaceDetector.Detector.OnAccess | valgrind/checkedthreads_main.c:437-460 | The ownership-update law. See [OnAccess](#onaccess) below the table. |
| RaceDetector.Detector.ScanAccess | valgrind/checkedthreads_main.c:440-459 | The loop, for the globals and tags found at entry: it returns the report of `Check`, and leaves the stack end `Check` leaves. On a store the bytes before the stop are stamped, and nothing else changes. |
| RaceDetector.Detector.Perform | valgrind/checkedthreads_main.c:489-518 | The opcode switch. See [Perform](#perform) below the table. |
| RaceDetector.Detector.ProcessCommand | valgrind/checkedthreads_main.c:484-519 | A marker mismatch changes nothing, not even `g_ct_last_cmd`. Otherwise the decoded command is performed. Only `end_for` changes owner tags, resetting all of them to 0. |
| RaceDetector.Detector.TraceLoad | valgrind/checkedthreads_main.c:521-526 | Inactive: no report and no state change. Active: exactly the check of `ct_on_access` with `store` false. No owner tag changes either way. |
| RaceDetector.Detector.StoreLaw | valgrind/checkedthreads_main.c:528-537 | Definition, without a contract of its own: the store law. A store whose first word is `MAGIC` is executed as a command, and then, if the detector is active, checked as an access against the resulting state. `OnStore`, `TraceStore` and `TraceModify` are proved against it. |
| RaceDetector.Detector.OnStore | valgrind/checkedthreads_main.c:528-537 | The store law. See [OnStore](#onstore) below the table. |
| RaceDetector.Detector.DoneStoreKeeps | valgrind/checkedthreads_main.c:528-537 | A store of a `done` command reports nothing and leaves every owner tag as it was. |
| RaceDetector.Detector.TraceStore | valgrind/checkedthreads_main.c:539-542 | `trace_store` satisfies the same store law as `ct_on_store`. |
| RaceDetector.Detector.TraceModify | valgrind/checkedthreads_main.c:544-547 | `trace_modify` satisfies exactly the store law of `trace_store`. |

`RaceDetector.StampedCongruent` is a proof helper with no row: two equal tag functions give the same stamped result, which `OnStore` uses to carry `StampedBelow` from the tags after the command to the tags before it.

The longer contracts are spelled out here.

### GetPage

`ct_get_page` (`PageTable.PagetabL3.GetPage`) always returns a page.

- That page serves every address with the same three indices.
- No other address changes page.
- An existing page is returned, and nothing is allocated.
- Otherwise exactly one fresh all-zero page is added.
- No owner tag changes.
- The chain invariant at all levels is kept.

### Clear

`ct_clear_pagetab` (`PageTable.PagetabL3.Clear`) is the full reset.

- It frees every node in teardown order: each L2 table, L1 table and page of the table exactly once, and nothing else.
- Afterwards every `pagetabs_L2` entry is null, `last_alloc_pagetab_L2` is null, and the chains are empty.
- Every address then has no page and reads as owner 0.
- So a later `GetPage` yields a fresh zero page.

### SuppressStep

The `ct_suppress` decision, in closed form (`Access.SuppressStep`):

- The stack end is replaced by the oracle's value exactly when `p` is below it.
- `p` is suppressed exactly when it lies between the resulting stack end and `g_ct_stackbot`, or within the 148 bytes from `g_ct_last_cmd`.

### ReportIff

One report per access (`Access.ReportIff`):

- An access is reported exactly when one of its bytes is flagged. A flagged byte is owned, by another thread, and not suppressed.
- The report names the first such byte, the accessor `curr-1`, the access and that byte's `owner-1`.

### OnAccess

`ct_on_access` (`RaceDetector.Detector.OnAccess`) returns the report of the scan and leaves the stack end the scan left.

- On a store, every byte scanned before the reported one gets the stored tag, including suppressed conflicts.
- No other byte changes.
- On a load, nothing changes.

### Perform

The opcode switch (`RaceDetector.Detector.Perform`) changes the globals as `Execute` says.

- `end_for` clears the table, every tag becomes 0, and the current thread becomes 0.
- `iter` activates the check, and `done` deactivates it.
- `thrd` sets the current thread to the operand plus 1.
- `stackbot` sets the stack bottom, and the stack end to the oracle's value.
- An unknown opcode changes nothing but `g_ct_last_cmd`.

### OnStore

`ct_on_store` (`RaceDetector.Detector.OnStore`):

- A store whose first word is `MAGIC` is first performed as a command.
- Then the store is checked against the state it left: table cleared on `end_for`, active after `iter`. This happens only if the detector is then active.
- A command's own store lying within its record is never reported.
- A `done` store is not checked, and changes no tag.

## Left out

- Valgrind IR instrumentation (`lk_instrument`, `flushEvents`, event buffering), option parsing and tool registration. They only arrange for the helpers to be called.
- The helpers are assumed to be called with `size <= MAX_DSIZE` (512), as the instrumentation asserts. Sizes of 0 are allowed too.
- `VG_(printf)` and `VG_(get_and_pp_StackTrace)`: a report is the returned `Race` value. The `clo_print_commands` echoes and the "unknown command" warning are not modelled.
- `VG_(calloc)` is a fresh zero-filled object, and allocation failure is not modelled. `VG_(free)` is not a heap operation: `Clear` returns the freed nodes in the order they are freed and drops the table.
- `ct_stack_end` is the parameter `oracle`. One access passes the same value to every refresh it makes.
- `ct_pagetab_stack`, `g_ct_pagetab_stack` and `ct_page.index` are declared but unused by the core, and are not modelled.
- `volatile` qualifiers have no sequential meaning and are dropped. The monitored program's memory is a parameter `mem` that does not change during a call.
- RaceDetector.Detector.Suppress: compares against `g_ct_last_cmd + 148` in unbounded integers, without the address wrap-around a record ending beyond 2^64 would cause.
- The accessor and owner of a `Race` (`g_ct_curr_thread - 1`, `owner - 1`) are unbounded integers, while C computes them in `int`.
- Commands.Execute: `ct_cmd_int(cmd, 4)+1` is undefined behaviour in C on `INT_MAX`; the model wraps it as two's complement.
- The table's `owners` map and the ghost footprints (`Repr`, `l1s`, `pageSet`, the `alloc*` chains) are proof devices, not part of the C state.
- ProcessCommand: the decoding (`ReadCommand`) and the switch (`Perform`) are two methods, one after the other. The C function interleaves the `ct_str_is` tests with the branches, with the same effect.
