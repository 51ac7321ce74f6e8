/**
 * The ownership page table: a lazily allocated three-level radix table
 * from an address to a 4096-byte page of one-byte owner tags
 * (`ct_pagetab_L3` -> `ct_pagetab_L2` -> `ct_pagetab_L1` -> `ct_page`).
 *
 * Every level threads the nodes it allocates onto a chain that starts at
 * its `lastAlloc...` field and continues through the nodes' `prevAlloc...`
 * fields; teardown walks only these chains.  The ghost sequences
 * `allocPages`, `allocL1` and `allocL2` are those chains, newest first.
 * Each node also records, in ghost constants, the table it belongs to and
 * the slot it occupies there; the root's `Valid()` says that every chain
 * visits exactly the non-null entries of its index array, each once.
 *
 * The index arrays and the tag array are members of their structs, not
 * separate allocations, so they are fields of fixed-length sequence type
 * that the operations update in place.
 */
module PageTable {
  import opened Machine

  const PAGE_SIZE: nat := 0x1000
  const NUM_PAGES: nat := 0x1000
  const NUM_L1_PAGETABS: nat := 0x1000
  const NUM_L2_PAGETABS: nat := 0x1000

  /** `unsigned char owning_thread[PAGE_SIZE]`. */
  type Tags = s: seq<u8> | |s| == PAGE_SIZE witness seq(PAGE_SIZE, _ => 0)
  /** `ct_page* pages[NUM_PAGES]`. */
  type PageSlots = s: seq<Page?> | |s| == NUM_PAGES witness seq(NUM_PAGES, _ => null)
  /** `ct_pagetab_L1* pagetabs_L1[NUM_L1_PAGETABS]`. */
  type L1Slots = s: seq<PagetabL1?> | |s| == NUM_L1_PAGETABS witness seq(NUM_L1_PAGETABS, _ => null)
  /** `ct_pagetab_L2* pagetabs_L2[NUM_L2_PAGETABS]`. */
  type L2Slots = s: seq<PagetabL2?> | |s| == NUM_L2_PAGETABS witness seq(NUM_L2_PAGETABS, _ => null)

  // The index macros.  Each one casts the address to a 32-bit `UInt` first.

  function L2Index(a: Addr): (r: nat)
    ensures r < NUM_L2_PAGETABS
  {
    ((ToUInt(a) / 0x100_0000) / 0x1000) % 0x1000
  }

  function L1Index(a: Addr): (r: nat)
    ensures r < NUM_L1_PAGETABS
  {
    (ToUInt(a) / 0x100_0000) % 0x1000
  }

  function PageIndex(a: Addr): (r: nat)
    ensures r < NUM_PAGES
  {
    (ToUInt(a) / 0x1000) % 0x1000
  }

  function ByteInPage(a: Addr): (r: nat)
    ensures r < PAGE_SIZE
  {
    ToUInt(a) % 0x1000
  }

  /** `a` and `b` select the same page: the same slot at all three levels. */
  predicate SamePage(a: Addr, b: Addr)
  {
    L2Index(a) == L2Index(b) && L1Index(a) == L1Index(b) && PageIndex(a) == PageIndex(b)
  }

  /**
   * Because of the 32-bit cast the top-level index is always 0 and the
   * other indices are the bit fields 24..31, 12..23 and 0..11 of the low word.
   */
  lemma IndexSplit(a: Addr)
    ensures L2Index(a) == 0
    ensures L1Index(a) < 0x100
    ensures ToUInt(a) == L1Index(a) * 0x100_0000 + PageIndex(a) * 0x1000 + ByteInPage(a)
  {
    var x := ToUInt(a);
    assert x / 0x100_0000 < 0x100;
    assert x / 0x1000 == (x / 0x100_0000) * 0x1000 + (x / 0x1000) % 0x1000;
  }

  /** Two addresses share a page exactly when their low 32 bits agree above bit 12. */
  lemma SamePageIff(a: Addr, b: Addr)
    ensures SamePage(a, b) <==> ToUInt(a) / PAGE_SIZE == ToUInt(b) / PAGE_SIZE
  {
    IndexSplit(a);
    IndexSplit(b);
  }

  /**
   * Two addresses select the same owner byte exactly when their low
   * 32 bits agree, whatever their high bits are.
   */
  lemma SameByteIff(a: Addr, b: Addr)
    ensures (SamePage(a, b) && ByteInPage(a) == ByteInPage(b)) <==> ToUInt(a) == ToUInt(b)
  {
    IndexSplit(a);
    IndexSplit(b);
  }

  /** `s` lists no object twice. */
  ghost predicate NoRepeats(s: seq<object>)
  {
    forall i, j :: 0 <= i < j < |s| ==> s[i] != s[j]
  }

  /** Two lists without repeats and without a common element make a list without repeats. */
  lemma NoRepeatsAppend(s: seq<object>, t: seq<object>)
    requires NoRepeats(s) && NoRepeats(t) && forall o :: o in s ==> o !in t
    ensures NoRepeats(s + t)
  {
    forall i, j | 0 <= i < j < |s + t|
      ensures (s + t)[i] != (s + t)[j]
    {
      if j < |s| {
        assert (s + t)[i] == s[i] && (s + t)[j] == s[j];
      } else if i < |s| {
        assert (s + t)[i] == s[i] && (s + t)[j] == t[j - |s|];
        assert t[j - |s|] in t;
      } else {
        assert (s + t)[i] == t[i - |s|] && (s + t)[j] == t[j - |s|];
      }
    }
  }

  /** `ct_page`: one owner tag per byte; 0 means unowned, t + 1 means logical thread t. */
  class Page {
    var owningThread: Tags
    const prevAllocPage: Page?
    /** The L1 table holding this page, and the page's slot in it. */
    ghost const parent: PagetabL1
    ghost const slot: nat

    /** `calloc` of a page followed by linking it in front of `prev`. */
    constructor (prev: Page?, ghost parent: PagetabL1, ghost slot: nat)
      ensures forall k :: 0 <= k < PAGE_SIZE ==> owningThread[k] == 0
      ensures prevAllocPage == prev && this.parent == parent && this.slot == slot
    {
      owningThread := seq(PAGE_SIZE, _ => 0);
      prevAllocPage := prev;
      this.parent := parent;
      this.slot := slot;
    }
  }

  /** The `i`-th node of `chain` follows the one before it. */
  ghost predicate PageLinked(chain: seq<Page>, i: int)
    requires 0 < i < |chain|
  {
    chain[i - 1].prevAllocPage == chain[i]
  }

  /** `chain` is the list reached from `head` through `prevAllocPage`, each node once. */
  ghost predicate PageChain(chain: seq<Page>, head: Page?)
  {
    && head == (if chain == [] then null else chain[0])
    && (forall i :: 0 < i < |chain| ==> PageLinked(chain, i))
    && (chain != [] ==> chain[|chain| - 1].prevAllocPage == null)
    && (forall i, j :: 0 <= i < j < |chain| ==> chain[i] != chain[j])
  }

  /** Linking a new page in front of the chain keeps it a chain. */
  lemma PushPage(chain: seq<Page>, head: Page?, p: Page)
    requires PageChain(chain, head) && p.prevAllocPage == head && p !in chain
    ensures PageChain([p] + chain, p)
  {
    var chain' := [p] + chain;
    forall i | 1 < i < |chain'|
      ensures PageLinked(chain', i)
    {
      assert chain'[i - 1] == chain[i - 2];
      assert PageLinked(chain, i - 1);
    }
  }

  /** `ct_pagetab_L1`: up to 4096 pages. */
  class PagetabL1 {
    var pages: PageSlots
    var lastAllocPage: Page?
    const prevAllocPagetabL1: PagetabL1?
    /** The L2 table holding this table, and this table's slot in it. */
    ghost const parent: PagetabL2
    ghost const slot: nat
    /** The allocation chain from `lastAllocPage`, newest first. */
    ghost var allocPages: seq<Page>

    /** The page chain visits exactly the non-null slots, each once. */
    ghost predicate Valid()
      reads this
    {
      && PageChain(allocPages, lastAllocPage)
      && (forall s :: 0 <= s < NUM_PAGES && pages[s] != null ==>
            pages[s] in allocPages && pages[s].slot == s)
      && (forall p :: p in allocPages ==>
            p.parent == this && p.slot < NUM_PAGES && pages[p.slot] == p)
    }

    /** `calloc` of an L1 table followed by linking it in front of `prev`. */
    constructor (prev: PagetabL1?, ghost parent: PagetabL2, ghost slot: nat)
      ensures Valid()
      ensures forall s :: 0 <= s < NUM_PAGES ==> pages[s] == null
      ensures allocPages == [] && lastAllocPage == null
      ensures prevAllocPagetabL1 == prev && this.parent == parent && this.slot == slot
    {
      pages := seq(NUM_PAGES, _ => null);
      lastAllocPage := null;
      prevAllocPagetabL1 := prev;
      this.parent := parent;
      this.slot := slot;
      allocPages := [];
    }

    /** The last step of `ct_get_page`: find or create the page in slot `ps`. */
    method LookupPage(ps: nat) returns (page: Page)
      requires Valid() && ps < NUM_PAGES
      modifies this
      ensures Valid() && page == pages[ps] && page in allocPages
      ensures forall s :: 0 <= s < NUM_PAGES && s != ps ==> pages[s] == old(pages[s])
      ensures old(pages[ps]) != null ==> page == old(pages[ps]) && allocPages == old(allocPages)
      ensures old(pages[ps]) == null ==>
        && fresh(page)
        && (forall k :: 0 <= k < PAGE_SIZE ==> page.owningThread[k] == 0)
        && page.prevAllocPage == old(lastAllocPage) && lastAllocPage == page
        && allocPages == [page] + old(allocPages)
    {
      var existing := pages[ps];
      if existing != null {
        page := existing;
      } else {
        page := new Page(lastAllocPage, this, ps);
        PushPage(allocPages, lastAllocPage, page);
        lastAllocPage := page;
        pages := pages[ps := page];
        allocPages := [page] + allocPages;
      }
    }

    /** The nodes teardown frees for this table, in the order it frees them. */
    ghost function FreeOrder(): seq<object>
      reads this
    {
      var s: seq<object> := allocPages;
      s + [this]
    }

    /** Teardown of this table lists each of its pages once, and then the table. */
    lemma FreeOrderExact()
      requires Valid()
      ensures NoRepeats(FreeOrder())
      ensures forall o: object :: o in FreeOrder() ==> o is Page || o == this
      ensures this in FreeOrder()
      ensures forall o: object :: o in FreeOrder() && o is Page ==> o as Page in allocPages
      ensures forall p: Page :: p in allocPages ==> p in FreeOrder()
    {
      var s: seq<object> := allocPages;
      assert forall i, j :: 0 <= i < j < |s| ==> s[i] == allocPages[i] && s[j] == allocPages[j];
      NoRepeatsAppend(s, [this]);
    }

    /**
     * The innermost loop of `ct_clear_pagetab`: walk the page chain from
     * `lastAllocPage`, freeing each page, then free this table.
     */
    method FreePages() returns (freed: seq<object>)
      requires Valid()
      ensures freed == FreeOrder()
    {
      freed := [];
      var page := lastAllocPage;
      ghost var k := 0;
      while page != null
        invariant 0 <= k <= |allocPages|
        invariant page == (if k < |allocPages| then allocPages[k] else null)
        invariant freed == allocPages[..k]
        decreases |allocPages| - k
      {
        if k + 1 < |allocPages| {
          assert PageLinked(allocPages, k + 1);
        }
        var prevPage := page.prevAllocPage;
        freed := freed + [page];
        assert allocPages[..k + 1] == allocPages[..k] + [page];
        page := prevPage;
        k := k + 1;
      }
      assert allocPages[..k] == allocPages;
      freed := freed + [this];
    }
  }

  /** The `i`-th node of `chain` follows the one before it. */
  ghost predicate PagetabL1Linked(chain: seq<PagetabL1>, i: int)
    requires 0 < i < |chain|
  {
    chain[i - 1].prevAllocPagetabL1 == chain[i]
  }

  /** `chain` is the list reached from `head` through `prevAllocPagetabL1`, each node once. */
  ghost predicate L1Chain(chain: seq<PagetabL1>, head: PagetabL1?)
  {
    && head == (if chain == [] then null else chain[0])
    && (forall i :: 0 < i < |chain| ==> PagetabL1Linked(chain, i))
    && (chain != [] ==> chain[|chain| - 1].prevAllocPagetabL1 == null)
    && (forall i, j :: 0 <= i < j < |chain| ==> chain[i] != chain[j])
  }

  lemma PushL1(chain: seq<PagetabL1>, head: PagetabL1?, c: PagetabL1)
    requires L1Chain(chain, head) && c.prevAllocPagetabL1 == head && c !in chain
    ensures L1Chain([c] + chain, c)
  {
    var chain' := [c] + chain;
    forall i | 1 < i < |chain'|
      ensures PagetabL1Linked(chain', i)
    {
      assert chain'[i - 1] == chain[i - 2];
      assert PagetabL1Linked(chain, i - 1);
    }
  }

  /** Teardown order of a chain of L1 tables, newest first. */
  ghost function L1FreeOrder(cs: seq<PagetabL1>): seq<object>
    reads set c | c in cs
  {
    if cs == [] then [] else L1FreeOrder(cs[..|cs| - 1]) + cs[|cs| - 1].FreeOrder()
  }

  /**
   * Teardown of a chain of valid L1 tables lists each table once and each
   * of their pages once, and nothing else.
   */
  lemma {:induction false} L1FreeOrderExact(cs: seq<PagetabL1>)
    requires forall i, j :: 0 <= i < j < |cs| ==> cs[i] != cs[j]
    requires forall c :: c in cs ==> c.Valid()
    ensures NoRepeats(L1FreeOrder(cs))
    ensures forall o: object :: o in L1FreeOrder(cs) ==> o is Page || o is PagetabL1
    ensures forall o: object :: o in L1FreeOrder(cs) && o is PagetabL1 ==> o as PagetabL1 in cs
    ensures forall c: PagetabL1 :: c in cs ==> c in L1FreeOrder(cs)
    ensures forall o: object :: o in L1FreeOrder(cs) && o is Page ==>
      var p := o as Page; p.parent in cs && p in p.parent.allocPages
    ensures forall p: Page :: p.parent in cs && p in p.parent.allocPages ==> p in L1FreeOrder(cs)
  {
    if cs != [] {
      var init, last := cs[..|cs| - 1], cs[|cs| - 1];
      assert cs == init + [last];
      L1FreeOrderExact(init);
      last.FreeOrderExact();
      assert forall o: object :: o in L1FreeOrder(init) ==> o !in last.FreeOrder();
      NoRepeatsAppend(L1FreeOrder(init), last.FreeOrder());
    }
  }

  lemma L1FreeOrderSnoc(cs: seq<PagetabL1>, j: nat)
    requires j < |cs|
    ensures L1FreeOrder(cs[..j + 1]) == L1FreeOrder(cs[..j]) + cs[j].FreeOrder()
  {
    assert cs[..j + 1][..j] == cs[..j];
  }

  /** `ct_pagetab_L2`: up to 4096 L1 tables. */
  class PagetabL2 {
    var pagetabsL1: L1Slots
    var lastAllocPagetabL1: PagetabL1?
    const prevAllocPagetabL2: PagetabL2?
    /** The slot of this table in the root's `pagetabsL2`. */
    ghost const slot: nat
    /** The allocation chain from `lastAllocPagetabL1`, newest first. */
    ghost var allocL1: seq<PagetabL1>

    /** The L1 chain visits exactly the non-null slots, each once. */
    ghost predicate Valid()
      reads this
    {
      && L1Chain(allocL1, lastAllocPagetabL1)
      && (forall s :: 0 <= s < NUM_L1_PAGETABS && pagetabsL1[s] != null ==>
            pagetabsL1[s] in allocL1 && pagetabsL1[s].slot == s)
      && (forall c :: c in allocL1 ==>
            c.parent == this && c.slot < NUM_L1_PAGETABS && pagetabsL1[c.slot] == c)
    }

    constructor (prev: PagetabL2?, ghost slot: nat)
      ensures Valid()
      ensures forall s :: 0 <= s < NUM_L1_PAGETABS ==> pagetabsL1[s] == null
      ensures allocL1 == [] && lastAllocPagetabL1 == null
      ensures prevAllocPagetabL2 == prev && this.slot == slot
    {
      pagetabsL1 := seq(NUM_L1_PAGETABS, _ => null);
      lastAllocPagetabL1 := null;
      prevAllocPagetabL2 := prev;
      this.slot := slot;
      allocL1 := [];
    }

    /** The middle step of `ct_get_page`: find or create the L1 table in slot `i1`. */
    method LookupL1(i1: nat) returns (c: PagetabL1)
      requires Valid() && i1 < NUM_L1_PAGETABS
      modifies this
      ensures Valid() && c == pagetabsL1[i1] && c in allocL1
      ensures forall s :: 0 <= s < NUM_L1_PAGETABS && s != i1 ==> pagetabsL1[s] == old(pagetabsL1[s])
      ensures old(pagetabsL1[i1]) != null ==> c == old(pagetabsL1[i1]) && allocL1 == old(allocL1)
      ensures old(pagetabsL1[i1]) == null ==>
        && fresh(c) && c.Valid() && c.allocPages == []
        && (forall s :: 0 <= s < NUM_PAGES ==> c.pages[s] == null)
        && c.prevAllocPagetabL1 == old(lastAllocPagetabL1) && lastAllocPagetabL1 == c
        && allocL1 == [c] + old(allocL1)
    {
      var existing := pagetabsL1[i1];
      if existing != null {
        c := existing;
      } else {
        c := new PagetabL1(lastAllocPagetabL1, this, i1);
        PushL1(allocL1, lastAllocPagetabL1, c);
        lastAllocPagetabL1 := c;
        pagetabsL1 := pagetabsL1[i1 := c];
        allocL1 := [c] + allocL1;
      }
    }

    ghost function FreeOrder(): seq<object>
      reads this, set c | c in allocL1
    {
      L1FreeOrder(allocL1) + [this]
    }

    /** Teardown of this table lists each of its L1 tables and their pages once, and then the table. */
    lemma FreeOrderExact()
      requires Valid() && forall c :: c in allocL1 ==> c.Valid()
      ensures NoRepeats(FreeOrder())
      ensures forall o: object :: o in FreeOrder() ==> o is Page || o is PagetabL1 || o == this
      ensures this in FreeOrder()
      ensures forall o: object :: o in FreeOrder() && o is PagetabL1 ==> o as PagetabL1 in allocL1
      ensures forall c: PagetabL1 :: c in allocL1 ==> c in FreeOrder()
      ensures forall o: object :: o in FreeOrder() && o is Page ==>
        var p := o as Page; p.parent in allocL1 && p in p.parent.allocPages
      ensures forall p: Page :: p.parent in allocL1 && p in p.parent.allocPages ==> p in FreeOrder()
    {
      L1FreeOrderExact(allocL1);
      NoRepeatsAppend(L1FreeOrder(allocL1), [this]);
    }

    /**
     * The middle loop of `ct_clear_pagetab`: walk the L1 chain from
     * `lastAllocPagetabL1`, freeing each table's pages and the table, then
     * free this table.
     */
    method FreeL1s() returns (freed: seq<object>)
      requires Valid() && forall c :: c in allocL1 ==> c.Valid()
      ensures freed == FreeOrder()
    {
      freed := [];
      var pagetabL1 := lastAllocPagetabL1;
      ghost var j := 0;
      while pagetabL1 != null
        invariant 0 <= j <= |allocL1|
        invariant pagetabL1 == (if j < |allocL1| then allocL1[j] else null)
        invariant freed == L1FreeOrder(allocL1[..j])
        decreases |allocL1| - j
      {
        if j + 1 < |allocL1| {
          assert PagetabL1Linked(allocL1, j + 1);
        }
        var prevPagetabL1 := pagetabL1.prevAllocPagetabL1;
        label before:
        var more := pagetabL1.FreePages();
        L1FreeOrderKept@before(allocL1[..j]);
        L1FreeOrderSnoc(allocL1, j);
        freed := freed + more;
        pagetabL1 := prevPagetabL1;
        j := j + 1;
      }
      assert allocL1[..j] == allocL1;
      freed := freed + [this];
    }
  }

  /** The `i`-th node of `chain` follows the one before it. */
  ghost predicate PagetabL2Linked(chain: seq<PagetabL2>, i: int)
    requires 0 < i < |chain|
  {
    chain[i - 1].prevAllocPagetabL2 == chain[i]
  }

  /** `chain` is the list reached from `head` through `prevAllocPagetabL2`, each node once. */
  ghost predicate L2Chain(chain: seq<PagetabL2>, head: PagetabL2?)
  {
    && head == (if chain == [] then null else chain[0])
    && (forall i :: 0 < i < |chain| ==> PagetabL2Linked(chain, i))
    && (chain != [] ==> chain[|chain| - 1].prevAllocPagetabL2 == null)
    && (forall i, j :: 0 <= i < j < |chain| ==> chain[i] != chain[j])
  }

  lemma PushL2(chain: seq<PagetabL2>, head: PagetabL2?, n: PagetabL2)
    requires L2Chain(chain, head) && n.prevAllocPagetabL2 == head && n !in chain
    ensures L2Chain([n] + chain, n)
  {
    var chain' := [n] + chain;
    forall i | 1 < i < |chain'|
      ensures PagetabL2Linked(chain', i)
    {
      assert chain'[i - 1] == chain[i - 2];
      assert PagetabL2Linked(chain, i - 1);
    }
  }

  /** Teardown order of a chain of L2 tables, newest first. */
  ghost function L2FreeOrder(ns: seq<PagetabL2>): seq<object>
    reads set n | n in ns, set n, c | n in ns && c in n.allocL1 :: c
  {
    if ns == [] then [] else L2FreeOrder(ns[..|ns| - 1]) + ns[|ns| - 1].FreeOrder()
  }

  /**
   * Teardown of a chain of valid L2 tables lists each table, each of their
   * L1 tables and each page of those once, and nothing else.
   */
  lemma {:induction false} L2FreeOrderExact(ns: seq<PagetabL2>)
    requires forall i, j :: 0 <= i < j < |ns| ==> ns[i] != ns[j]
    requires forall n :: n in ns ==> n.Valid()
    requires forall n, c :: n in ns && c in n.allocL1 ==> c.Valid()
    ensures NoRepeats(L2FreeOrder(ns))
    ensures forall o: object :: o in L2FreeOrder(ns) ==> o is Page || o is PagetabL1 || o is PagetabL2
    ensures forall o: object :: o in L2FreeOrder(ns) && o is PagetabL2 ==> o as PagetabL2 in ns
    ensures forall n: PagetabL2 :: n in ns ==> n in L2FreeOrder(ns)
    ensures forall o: object :: o in L2FreeOrder(ns) && o is PagetabL1 ==>
      var c := o as PagetabL1; c.parent in ns && c in c.parent.allocL1
    ensures forall c: PagetabL1 :: c.parent in ns && c in c.parent.allocL1 ==> c in L2FreeOrder(ns)
    ensures forall o: object :: o in L2FreeOrder(ns) && o is Page ==>
      var p := o as Page; p.parent.parent in ns && p.parent in p.parent.parent.allocL1 && p in p.parent.allocPages
    ensures forall p: Page :: p.parent.parent in ns && p.parent in p.parent.parent.allocL1 && p in p.parent.allocPages ==>
      p in L2FreeOrder(ns)
  {
    if ns != [] {
      var init, last := ns[..|ns| - 1], ns[|ns| - 1];
      assert ns == init + [last];
      L2FreeOrderExact(init);
      last.FreeOrderExact();
      assert forall o: object :: o in L2FreeOrder(init) ==> o !in last.FreeOrder();
      NoRepeatsAppend(L2FreeOrder(init), last.FreeOrder());
    }
  }

  /** Teardown order of a chain of L1 tables depends only on those tables. */
  twostate lemma {:induction false} L1FreeOrderKept(cs: seq<PagetabL1>)
    requires forall k :: 0 <= k < |cs| ==> unchanged(cs[k])
    ensures L1FreeOrder(cs) == old(L1FreeOrder(cs))
  {
    if cs != [] {
      L1FreeOrderKept(cs[..|cs| - 1]);
    }
  }

  /** Teardown order of a chain of L2 tables depends only on those tables and their L1 tables. */
  twostate lemma {:induction false} L2FreeOrderKept(ns: seq<PagetabL2>)
    requires forall k :: 0 <= k < |ns| ==> unchanged(ns[k])
    requires forall k, j :: 0 <= k < |ns| && 0 <= j < |ns[k].allocL1| ==> unchanged(ns[k].allocL1[j])
    ensures L2FreeOrder(ns) == old(L2FreeOrder(ns))
  {
    if ns != [] {
      L2FreeOrderKept(ns[..|ns| - 1]);
      L1FreeOrderKept(ns[|ns| - 1].allocL1);
    }
  }

  lemma L2FreeOrderSnoc(ns: seq<PagetabL2>, i: nat)
    requires i < |ns|
    ensures L2FreeOrder(ns[..i + 1]) == L2FreeOrder(ns[..i]) + ns[i].FreeOrder()
  {
    assert ns[..i + 1][..i] == ns[..i];
  }

  /**
   * The outer loop of `ct_clear_pagetab`: walk the L2 chain from `head`,
   * freeing each L2 table's L1 tables and pages and then the L2 table itself.
   */
  method FreeL2Chain(head: PagetabL2?, ghost chain: seq<PagetabL2>) returns (freed: seq<object>)
    requires L2Chain(chain, head)
    requires forall n :: n in chain ==> n.Valid()
    requires forall n, c :: n in chain && c in n.allocL1 ==> c.Valid()
    ensures freed == L2FreeOrder(chain)
  {
    freed := [];
    var pagetabL2 := head;
    ghost var i := 0;
    while pagetabL2 != null
      invariant 0 <= i <= |chain|
      invariant pagetabL2 == (if i < |chain| then chain[i] else null)
      invariant freed == L2FreeOrder(chain[..i])
      decreases |chain| - i
    {
      if i + 1 < |chain| {
        assert PagetabL2Linked(chain, i + 1);
      }
      var prevPagetabL2 := pagetabL2.prevAllocPagetabL2;
      label before:
      var more := pagetabL2.FreeL1s();
      L2FreeOrderKept@before(chain[..i]);
      L2FreeOrderSnoc(chain, i);
      freed := freed + more;
      pagetabL2 := prevPagetabL2;
      i := i + 1;
    }
    assert chain[..i] == chain;
  }

  /** The owner tags `f` after the byte `a` (every address with its low 32 bits) is given the tag `v`. */
  function Stamp(f: Addr -> u8, a: Addr, v: u8): Addr -> u8
  {
    b => if ToUInt(b) == ToUInt(a) then v else f(b)
  }

  /** `ct_pagetab_L3`, the root: up to 4096 L2 tables. */
  class PagetabL3 {
    var pagetabsL2: L2Slots
    var lastAllocPagetabL2: PagetabL2?
    /** The allocation chain from `lastAllocPagetabL2`, newest first. */
    ghost var allocL2: seq<PagetabL2>
    /** Every L1 table and every page of the table. */
    ghost var l1s: set<PagetabL1>
    ghost var pageSet: set<Page>
    /** The owner tag every address reads as. */
    ghost var owners: Addr -> u8
    /** The L2 and L1 tables of the structure (neither the root nor the pages). */
    ghost var Repr: set<object>

    /** The root's own invariant: its chain visits exactly the non-null slots. */
    ghost predicate RootValid()
      reads this`pagetabsL2, this`lastAllocPagetabL2, this`allocL2
    {
      && L2Chain(allocL2, lastAllocPagetabL2)
      && (forall s :: 0 <= s < NUM_L2_PAGETABS && pagetabsL2[s] != null ==>
            pagetabsL2[s] in allocL2 && pagetabsL2[s].slot == s)
      && (forall n :: n in allocL2 ==> n.slot < NUM_L2_PAGETABS && pagetabsL2[n.slot] == n)
    }

    ghost predicate Valid()
      reads this`pagetabsL2, this`lastAllocPagetabL2, this`allocL2, this`l1s, this`pageSet, this`Repr, Repr
    {
      && (forall o :: o in Repr ==> o is PagetabL2 || o is PagetabL1)
      && (forall n :: n in allocL2 ==> n in Repr)
      && (forall c :: c in l1s ==> c in Repr)
      && RootValid()
      && (forall n :: n in allocL2 ==> n.Valid())
      && (forall n, c :: n in allocL2 && c in n.allocL1 ==> c in l1s)
      && (forall c :: c in l1s ==> c.Valid())
      && (forall c, p :: c in l1s && p in c.allocPages ==> p in pageSet)
      // and nothing else: every node of the footprint hangs on a chain
      && (forall n: PagetabL2 :: n in Repr ==> n.slot < NUM_L2_PAGETABS && pagetabsL2[n.slot] == n)
      && (forall c: PagetabL1 :: c in Repr ==> c in l1s)
      && (forall c {:trigger c.parent} :: c in l1s ==>
            c.parent in Repr && c.slot < NUM_L1_PAGETABS && c.parent.pagetabsL1[c.slot] == c)
      && (forall p {:trigger p.parent} :: p in pageSet ==> p.parent in l1s && p.slot < NUM_PAGES && p.parent.pages[p.slot] == p)
    }

    /** `owners` is what the pages hold: the tag of each address, or 0 where no page exists. */
    ghost predicate Sound()
      reads this, Repr, pageSet
      requires Valid()
    {
      forall a {:trigger Owner(a)} :: owners(a) == Owner(a)
    }

    /** The empty table `{{0},0}`. */
    constructor ()
      ensures Valid() && Sound()
      ensures allocL2 == [] && lastAllocPagetabL2 == null
      ensures l1s == {} && pageSet == {} && Repr == {}
      ensures forall s :: 0 <= s < NUM_L2_PAGETABS ==> pagetabsL2[s] == null
      ensures forall b :: owners(b) == 0
    {
      pagetabsL2 := seq(NUM_L2_PAGETABS, _ => null);
      lastAllocPagetabL2 := null;
      allocL2 := [];
      l1s := {};
      pageSet := {};
      owners := _ => 0;
      Repr := {};
    }

    /** The page holding the owner tag of `a`, or null if none was created. */
    ghost function PageOf(a: Addr): (p: Page?)
      reads this`pagetabsL2, this`lastAllocPagetabL2, this`allocL2, this`l1s, this`pageSet, this`Repr, Repr
      requires Valid()
      ensures p != null ==> p in pageSet
    {
      var n := pagetabsL2[L2Index(a)];
      if n == null then null
      else
        var c := n.pagetabsL1[L1Index(a)];
        if c == null then null
        else
          assert c in n.allocL1 && c in l1s;
          c.pages[PageIndex(a)]
    }

    /** The owner tag of `a`: 0 when its page was never created. */
    ghost function Owner(a: Addr): u8
      reads this`pagetabsL2, this`lastAllocPagetabL2, this`allocL2, this`l1s, this`pageSet, this`Repr, Repr, pageSet
      requires Valid()
    {
      var p := PageOf(a);
      if p == null then 0 else p.owningThread[ByteInPage(a)]
    }

    /** A page of the table sits in exactly one slot: the one of every address it serves. */
    lemma PageOfInjective(a: Addr, b: Addr)
      requires Valid() && PageOf(a) != null
      ensures PageOf(b) == PageOf(a) <==> SamePage(a, b)
    {
      if PageOf(b) == PageOf(a) {
        var na, nb := pagetabsL2[L2Index(a)], pagetabsL2[L2Index(b)];
        var ca, cb := na.pagetabsL1[L1Index(a)], nb.pagetabsL1[L1Index(b)];
        assert ca in na.allocL1 && cb in nb.allocL1;
        assert ca in l1s && cb in l1s;
        assert PageOf(a) in ca.allocPages && PageOf(b) in cb.allocPages;
      }
    }

    /** Every address with the indices of `a` reaches the page of `a`. */
    lemma SlotPage(a: Addr)
      requires Valid()
      ensures forall b :: SamePage(a, b) ==> PageOf(b) == PageOf(a)
    {
    }

    /** The first step of `ct_get_page`: find or create the L2 table of `a`. */
    method LookupL2(a: Addr) returns (n: PagetabL2)
      requires Valid()
      modifies this
      ensures Valid() && n == pagetabsL2[L2Index(a)] && n in allocL2
      ensures l1s == old(l1s) && pageSet == old(pageSet) && owners == old(owners)
      ensures forall b :: PageOf(b) == old(PageOf(b))
      ensures old(pagetabsL2[L2Index(a)]) != null ==>
        n == old(pagetabsL2[L2Index(a)]) && allocL2 == old(allocL2) && Repr == old(Repr)
      ensures old(pagetabsL2[L2Index(a)]) == null ==>
        && fresh(n) && n.allocL1 == []
        && n.prevAllocPagetabL2 == old(lastAllocPagetabL2) && lastAllocPagetabL2 == n
        && allocL2 == [n] + old(allocL2) && Repr == old(Repr) + {n}
      ensures fresh(Repr - old(Repr))
    {
      var i2 := L2Index(a);
      var existing := pagetabsL2[i2];
      if existing != null {
        n := existing;
      } else {
        n := new PagetabL2(lastAllocPagetabL2, i2);
        PushL2(allocL2, lastAllocPagetabL2, n);
        lastAllocPagetabL2 := n;
        pagetabsL2 := pagetabsL2[i2 := n];
        allocL2 := [n] + allocL2;
        Repr := Repr + {n};
        L2Added(n, i2);
        L2AddedPages(n, i2);
      }
    }

    /** The root stays valid when a new L2 table `n` without L1 tables fills the empty slot `i2`. */
    twostate lemma L2Added(new n: PagetabL2, i2: nat)
      requires old(Valid()) && i2 < NUM_L2_PAGETABS && old(pagetabsL2[i2]) == null && n !in old(Repr)
      requires n.Valid() && n.allocL1 == [] && n.slot == i2
      requires forall s :: 0 <= s < NUM_L1_PAGETABS ==> n.pagetabsL1[s] == null
      requires L2Chain(allocL2, lastAllocPagetabL2) && allocL2 == [n] + old(allocL2)
      requires pagetabsL2 == old(pagetabsL2)[i2 := n]
      requires l1s == old(l1s) && pageSet == old(pageSet) && Repr == old(Repr) + {n}
      requires forall o :: o in old(Repr) ==> unchanged(o)
      ensures Valid()
    {
      forall m: PagetabL2 | m in Repr
        ensures m.slot < NUM_L2_PAGETABS && pagetabsL2[m.slot] == m
      {
        if m != n {
          assert m in old(Repr) && old(pagetabsL2[m.slot]) == m;
        }
      }
      forall c {:trigger c.parent} | c in l1s
        ensures c.parent in Repr && c.slot < NUM_L1_PAGETABS && c.parent.pagetabsL1[c.slot] == c
      {
        assert c.parent in old(Repr);
      }
      forall p {:trigger p.parent} | p in pageSet
        ensures p.parent in l1s && p.slot < NUM_PAGES && p.parent.pages[p.slot] == p
      {
        assert p.parent in old(Repr);
      }
    }

    /** The same step leaves every address on the page it had. */
    twostate lemma L2AddedPages(new n: PagetabL2, i2: nat)
      requires old(Valid()) && Valid() && i2 < NUM_L2_PAGETABS && old(pagetabsL2[i2]) == null && n !in old(Repr)
      requires n.Valid() && n.allocL1 == [] && n.slot == i2
      requires forall s :: 0 <= s < NUM_L1_PAGETABS ==> n.pagetabsL1[s] == null
      requires L2Chain(allocL2, lastAllocPagetabL2) && allocL2 == [n] + old(allocL2)
      requires pagetabsL2 == old(pagetabsL2)[i2 := n]
      requires l1s == old(l1s) && pageSet == old(pageSet) && Repr == old(Repr) + {n}
      requires forall o :: o in old(Repr) ==> unchanged(o)
      ensures forall b :: PageOf(b) == old(PageOf(b))
    {
      forall b
        ensures PageOf(b) == old(PageOf(b))
      {
        var m := pagetabsL2[L2Index(b)];
        if m != null && m != n {
          assert m in old(allocL2);
          var d := m.pagetabsL1[L1Index(b)];
          if d != null {
            assert d in m.allocL1 && d in l1s;
          }
        }
      }
    }

    /** The second step of `ct_get_page`: find or create the L1 table of `a` in `n`. */
    method LookupL1(n: PagetabL2, a: Addr) returns (c: PagetabL1)
      requires Valid() && n == pagetabsL2[L2Index(a)] && n in allocL2
      modifies this, n
      ensures Valid() && c == n.pagetabsL1[L1Index(a)] && c in l1s
      ensures allocL2 == old(allocL2) && pageSet == old(pageSet) && owners == old(owners)
      ensures forall b :: PageOf(b) == old(PageOf(b))
      ensures old(n.pagetabsL1[L1Index(a)]) != null ==>
        c == old(n.pagetabsL1[L1Index(a)]) && l1s == old(l1s) && Repr == old(Repr)
      ensures old(n.pagetabsL1[L1Index(a)]) == null ==>
        && fresh(c) && c.allocPages == []
        && c.prevAllocPagetabL1 == old(n.lastAllocPagetabL1) && n.lastAllocPagetabL1 == c
        && n.allocL1 == [c] + old(n.allocL1)
        && l1s == old(l1s) + {c} && Repr == old(Repr) + {c}
    {
      var i1 := L1Index(a);
      c := n.LookupL1(i1);
      l1s := l1s + {c};
      Repr := Repr + {c};
      L1Added(n, c, i1);
      L1AddedPages(n, c, i1);
    }

    /**
     * The root stays valid when the L2 table `n` gains in slot `i1` the L1
     * table `c` (either the one there already, or a new one without pages).
     */
    twostate lemma L1Added(new n: PagetabL2, new c: PagetabL1, i1: nat)
      requires old(Valid()) && n in old(allocL2) && i1 < NUM_L1_PAGETABS
      requires allocL2 == old(allocL2) && pagetabsL2 == old(pagetabsL2)
      requires lastAllocPagetabL2 == old(lastAllocPagetabL2) && pageSet == old(pageSet)
      requires l1s == old(l1s) + {c} && Repr == old(Repr) + {c}
      requires n.Valid() && c == n.pagetabsL1[i1] && c.Valid()
      requires forall s :: 0 <= s < NUM_L1_PAGETABS && s != i1 ==> n.pagetabsL1[s] == old(n.pagetabsL1[s])
      requires old(n.pagetabsL1[i1]) != null ==> c == old(n.pagetabsL1[i1]) && n.allocL1 == old(n.allocL1)
      requires old(n.pagetabsL1[i1]) == null ==>
        && c.allocPages == [] && n.allocL1 == [c] + old(n.allocL1)
        && forall s :: 0 <= s < NUM_PAGES ==> c.pages[s] == null
      requires forall o :: o in old(Repr) && o != n ==> unchanged(o)
      ensures Valid()
    {
      forall d {:trigger d.parent} | d in l1s
        ensures d.parent in Repr && d.slot < NUM_L1_PAGETABS && d.parent.pagetabsL1[d.slot] == d
      {
        if d != c {
          assert d.parent in old(Repr) && old(d.parent.pagetabsL1[d.slot]) == d;
        }
      }
      forall p {:trigger p.parent} | p in pageSet
        ensures p.parent in l1s && p.slot < NUM_PAGES && p.parent.pages[p.slot] == p
      {
        assert p.parent in old(l1s) && p.parent in old(Repr);
      }
    }

    /** The same step leaves every address on the page it had. */
    twostate lemma L1AddedPages(new n: PagetabL2, new c: PagetabL1, i1: nat)
      requires old(Valid()) && Valid() && n in old(allocL2) && i1 < NUM_L1_PAGETABS
      requires allocL2 == old(allocL2) && pagetabsL2 == old(pagetabsL2)
      requires lastAllocPagetabL2 == old(lastAllocPagetabL2) && pageSet == old(pageSet)
      requires l1s == old(l1s) + {c} && Repr == old(Repr) + {c}
      requires n.Valid() && c == n.pagetabsL1[i1] && c.Valid()
      requires forall s :: 0 <= s < NUM_L1_PAGETABS && s != i1 ==> n.pagetabsL1[s] == old(n.pagetabsL1[s])
      requires old(n.pagetabsL1[i1]) != null ==> c == old(n.pagetabsL1[i1]) && n.allocL1 == old(n.allocL1)
      requires old(n.pagetabsL1[i1]) == null ==>
        && c.allocPages == [] && n.allocL1 == [c] + old(n.allocL1)
        && forall s :: 0 <= s < NUM_PAGES ==> c.pages[s] == null
      requires forall o :: o in old(Repr) && o != n ==> unchanged(o)
      ensures forall b :: PageOf(b) == old(PageOf(b))
    {
      forall b
        ensures PageOf(b) == old(PageOf(b))
      {
        var m := pagetabsL2[L2Index(b)];
        if m != null {
          assert m in old(allocL2);
          var d := m.pagetabsL1[L1Index(b)];
          if d != null {
            assert d in m.allocL1 && d in l1s;
          }
        }
      }
    }

    /** The last step of `ct_get_page`: find or create the page of `a` in `c`. */
    method LookupPage(n: PagetabL2, c: PagetabL1, a: Addr) returns (page: Page)
      requires Valid() && n == pagetabsL2[L2Index(a)] && n in allocL2
      requires c == n.pagetabsL1[L1Index(a)] && c in l1s
      modifies this, c
      ensures Valid() && page == PageOf(a)
      ensures allocL2 == old(allocL2) && l1s == old(l1s) && owners == old(owners) && Repr == old(Repr)
      ensures forall b :: !SamePage(a, b) ==> PageOf(b) == old(PageOf(b))
      ensures old(PageOf(a)) != null ==> page == old(PageOf(a)) && pageSet == old(pageSet)
      ensures old(PageOf(a)) == null ==>
        && fresh(page)
        && (forall k :: 0 <= k < PAGE_SIZE ==> page.owningThread[k] == 0)
        && page.prevAllocPage == old(c.lastAllocPage) && c.lastAllocPage == page
        && c.allocPages == [page] + old(c.allocPages)
        && pageSet == old(pageSet) + {page}
    {
      page := c.LookupPage(PageIndex(a));
      pageSet := pageSet + {page};
      PageAdded(c, page, PageIndex(a));
    }

    /**
     * The root stays valid when the L1 table `c` gains in slot `ps` the page
     * `page` (either the one there already, or a new one).
     */
    twostate lemma PageAdded(new c: PagetabL1, new page: Page, ps: nat)
      requires old(Valid()) && c in old(l1s) && ps < NUM_PAGES
      requires allocL2 == old(allocL2) && pagetabsL2 == old(pagetabsL2)
      requires lastAllocPagetabL2 == old(lastAllocPagetabL2)
      requires l1s == old(l1s) && Repr == old(Repr) && pageSet == old(pageSet) + {page}
      requires c.Valid() && page == c.pages[ps] && page in c.allocPages
      requires old(c.pages[ps]) != null ==> page == old(c.pages[ps]) && c.allocPages == old(c.allocPages)
      requires old(c.pages[ps]) == null ==> c.allocPages == [page] + old(c.allocPages)
      requires forall o :: o in old(Repr) && o != c ==> unchanged(o)
      ensures Valid()
    {
      forall d {:trigger d.parent} | d in l1s
        ensures d.parent in Repr && d.slot < NUM_L1_PAGETABS && d.parent.pagetabsL1[d.slot] == d
      {
        assert d.parent in old(Repr);
      }
      forall p {:trigger p.parent} | p in pageSet
        ensures p.parent in l1s && p.slot < NUM_PAGES && p.parent.pages[p.slot] == p
      {
        if p != page {
          assert p.parent in old(l1s) && old(p.parent.pages[p.slot]) == p;
          if p.parent == c {
            assert p in old(c.allocPages);
          }
        }
      }
    }

    /**
     * `ct_get_page`: the page of `a`, created zero-filled (all bytes
     * unowned) together with any missing table on the way.  Exactly one
     * page is added when `a` had none and none otherwise, the pages of all
     * other slots stay where they were, and no owner tag changes.
     */
    method GetPage(a: Addr) returns (page: Page)
      requires Valid() && Sound()
      modifies this, Repr
      ensures Valid() && Sound() && page == PageOf(a)
      ensures forall b :: SamePage(a, b) ==> PageOf(b) == page
      ensures forall b :: !SamePage(a, b) ==> PageOf(b) == old(PageOf(b))
      ensures old(PageOf(a)) != null ==>
        page == old(PageOf(a)) && pageSet == old(pageSet) && Repr == old(Repr)
      ensures old(PageOf(a)) == null ==>
        && fresh(page)
        && (forall k :: 0 <= k < PAGE_SIZE ==> page.owningThread[k] == 0)
        && pageSet == old(pageSet) + {page}
      ensures owners == old(owners)
      ensures fresh(Repr - old(Repr))
    {
      page := LookupSlots(a);
      SlotPage(a);
      OwnersKept(a, page);
    }

    /** The three lookups of `ct_get_page`, each creating its table or page when missing. */
    method LookupSlots(a: Addr) returns (page: Page)
      requires Valid()
      modifies this, Repr
      ensures Valid() && page == PageOf(a)
      ensures forall b :: !SamePage(a, b) ==> PageOf(b) == old(PageOf(b))
      ensures old(PageOf(a)) != null ==>
        page == old(PageOf(a)) && pageSet == old(pageSet) && Repr == old(Repr)
      ensures old(PageOf(a)) == null ==>
        && fresh(page)
        && (forall k :: 0 <= k < PAGE_SIZE ==> page.owningThread[k] == 0)
        && pageSet == old(pageSet) + {page}
      ensures owners == old(owners)
      ensures fresh(Repr - old(Repr))
    {
      var n := LookupL2(a);
      ghost var r1 := Repr;
      page := LookupBelow(n, a);
      assert forall o :: o in Repr - old(Repr) ==> o in Repr - r1 || o in r1 - old(Repr);
    }

    /** The last two lookups of `ct_get_page`, below the L2 table `n` of `a`. */
    method LookupBelow(n: PagetabL2, a: Addr) returns (page: Page)
      requires Valid() && n == pagetabsL2[L2Index(a)] && n in allocL2
      modifies this, Repr
      ensures Valid() && page == PageOf(a)
      ensures forall b :: !SamePage(a, b) ==> PageOf(b) == old(PageOf(b))
      ensures old(PageOf(a)) != null ==>
        page == old(PageOf(a)) && pageSet == old(pageSet) && Repr == old(Repr)
      ensures old(PageOf(a)) == null ==>
        && fresh(page)
        && (forall k :: 0 <= k < PAGE_SIZE ==> page.owningThread[k] == 0)
        && pageSet == old(pageSet) + {page}
      ensures owners == old(owners)
      ensures fresh(Repr - old(Repr))
    {
      var c := LookupL1(n, a);
      page := LookupPage(n, c, a);
    }

    /**
     * No owner tag changes when the only page that may have appeared is
     * `page`, zero-filled, at the slot of `a`, and no page that existed
     * was written.
     */
    twostate lemma OwnersKept(a: Addr, new page: Page)
      requires old(Valid()) && old(Sound()) && Valid() && page == PageOf(a) && owners == old(owners)
      requires forall b :: SamePage(a, b) ==> PageOf(b) == page
      requires forall b :: !SamePage(a, b) ==> PageOf(b) == old(PageOf(b))
      requires old(PageOf(a)) != null ==> page == old(PageOf(a))
      requires old(PageOf(a)) == null ==> forall k :: 0 <= k < PAGE_SIZE ==> page.owningThread[k] == 0
      requires forall p :: p in old(pageSet) ==> unchanged(p)
      ensures Sound() && forall b :: Owner(b) == old(Owner(b))
    {
      forall b
        ensures Owner(b) == old(Owner(b))
      {
        if SamePage(a, b) {
          assert old(PageOf(b)) == old(PageOf(a));
        }
      }
    }

    /** The table's invariant and abstraction survive any step that leaves the table alone. */
    twostate lemma Unaffected()
      requires old(Valid()) && old(Sound())
      requires unchanged(this) && unchanged(Repr) && unchanged(pageSet)
      ensures Valid() && Sound()
      ensures forall a :: PageOf(a) == old(PageOf(a))
    {
    }

    /** `ct_get_page(a)` followed by the read of the owner tag of `a` from that page. */
    method Probe(a: Addr) returns (page: Page, owner: u8)
      requires Valid() && Sound()
      modifies this, Repr
      ensures Valid() && Sound() && page == PageOf(a) && owner == owners(a)
      ensures owners == old(owners)
      ensures fresh(Repr - old(Repr)) && fresh(pageSet - old(pageSet))
    {
      page := GetPage(a);
      owner := page.owningThread[ByteInPage(a)];
      assert owner == Owner(a);
    }

    /** `page->owning_thread[BYTE_IN_PAGE(a)] = v` for the page of `a`. */
    method SetOwner(page: Page, a: Addr, v: u8)
      requires Valid() && Sound() && PageOf(a) == page
      modifies this, page
      ensures Valid() && Sound() && pageSet == old(pageSet) && Repr == old(Repr)
      ensures forall b :: PageOf(b) == old(PageOf(b))
      ensures owners == Stamp(old(owners), a, v)
    {
      page.owningThread := page.owningThread[ByteInPage(a) := v];
      owners := Stamp(owners, a, v);
      StampKept(page, a, v);
    }

    /**
     * Writing tag `v` for `a` into its page changes the owner of exactly the
     * addresses sharing the low 32 bits of `a`, and no page of the table.
     */
    twostate lemma StampKept(new page: Page, a: Addr, new v: u8)
      requires old(Valid()) && old(Sound()) && old(PageOf(a)) == page
      requires pagetabsL2 == old(pagetabsL2) && lastAllocPagetabL2 == old(lastAllocPagetabL2)
      requires allocL2 == old(allocL2) && l1s == old(l1s) && pageSet == old(pageSet) && Repr == old(Repr)
      requires unchanged(Repr) && owners == Stamp(old(owners), a, v)
      requires page.owningThread == old(PageOf(a).owningThread)[ByteInPage(a) := v]
      requires forall p :: p in pageSet && p != page ==> unchanged(p)
      ensures Valid() && Sound() && forall b :: PageOf(b) == old(PageOf(b))
    {
      forall b
        ensures Owner(b) == if ToUInt(b) == ToUInt(a) then v else old(Owner(b))
      {
        SameByteIff(a, b);
        PageOfInjective(a, b);
      }
    }

    /** The nodes teardown frees, in the order it frees them. */
    ghost function FreeOrder(): seq<object>
      reads this, set n | n in allocL2, set n, c | n in allocL2 && c in n.allocL1 :: c
    {
      L2FreeOrder(allocL2)
    }

    /**
     * Teardown lists every node of the table once: exactly its L2 tables,
     * its L1 tables and its pages (the root itself is static).
     */
    lemma FreeOrderExact()
      requires Valid()
      ensures NoRepeats(FreeOrder())
      ensures forall o: object :: o in FreeOrder() <==> o in Repr || o in pageSet
    {
      L2FreeOrderExact(allocL2);
      forall o: object | o in Repr || o in pageSet
        ensures o in FreeOrder()
      {
        if o is Page {
          var p := o as Page;
          assert p.parent in l1s;
        } else if o is PagetabL1 {
          var c := o as PagetabL1;
          assert c.parent in allocL2;
        }
      }
    }

    /**
     * The freeing loops of `ct_clear_pagetab`, run from the root's
     * `lastAllocPagetabL2`: they free every L2 table, L1 table and page of
     * the table, each once, and nothing else.
     */
    method FreeL2s() returns (freed: seq<object>)
      requires Valid()
      ensures freed == FreeOrder()
      ensures NoRepeats(freed) && forall o: object :: o in freed <==> o in Repr || o in pageSet
    {
      freed := FreeL2Chain(lastAllocPagetabL2, allocL2);
      FreeOrderExact();
    }

    /**
     * `ct_clear_pagetab`: free every page, L1 table and L2 table along the
     * allocation chains (the nodes freed are returned in the order they are
     * freed), then empty the root.
     */
    method Clear() returns (freed: seq<object>)
      requires Valid()
      modifies this
      ensures Valid() && freed == old(FreeOrder())
      ensures NoRepeats(freed) && forall o: object :: o in freed <==> o in old(Repr) || o in old(pageSet)
      ensures allocL2 == [] && lastAllocPagetabL2 == null
      ensures forall s :: 0 <= s < NUM_L2_PAGETABS ==> pagetabsL2[s] == null
      ensures Sound() && forall b :: PageOf(b) == null && owners(b) == 0
      ensures Repr == {} && pageSet == {}
    {
      freed := FreeL2s();
      L2FreeOrderKept(allocL2);
      ClearRoot();
    }

    /** The last two statements of `ct_clear_pagetab`: empty the root's slots and its chain. */
    method ClearRoot()
      modifies this
      ensures Valid()
      ensures allocL2 == [] && lastAllocPagetabL2 == null
      ensures forall s :: 0 <= s < NUM_L2_PAGETABS ==> pagetabsL2[s] == null
      ensures Sound() && forall b :: PageOf(b) == null && owners(b) == 0
      ensures Repr == {} && pageSet == {}
    {
      pagetabsL2 := seq(NUM_L2_PAGETABS, _ => null);
      lastAllocPagetabL2 := null;
      allocL2 := [];
      l1s := {};
      pageSet := {};
      owners := _ => 0;
      Repr := {};
    }
  }
}
