/** The TLB, page table and physical memory of Project8/vm_manager.c, for any number F of
    frames from 1 to 256. The ghost field `faults` is the list of pages faulted so far. */
module VmManager {
  import opened Pager
  import opened Modular
  import PagerLaws

  type Byte = x: int | 0 <= x < 256

  datatype TLBItem = TLBItem(pageNumber: nat, frameNumber: nat, valid: bool)
  datatype PageTableItem = PageTableItem(frameNumber: nat, valid: bool)

  class Machine {
    const f: nat
    const store: seq<Byte>
    const tlb: array<TLBItem>
    const pageTable: array<PageTableItem>
    const memory: array<Byte>
    var totalCnt: nat
    var tlbMissCnt: nat
    var pageFaultCnt: nat
    var nextFrame: nat
    var nextTLBIndex: nat
    ghost var faults: seq<nat>
    ghost var recent: seq<nat>

    ghost predicate Shaped() {
      && 1 <= f <= 256 && |store| == PAGE_NUM * PAGE_SIZE
      && tlb.Length == TLB_SIZE && pageTable.Length == PAGE_NUM && memory.Length == f * PAGE_SIZE
    }

    ghost function PageBytes(page: nat): seq<Byte>
      requires Shaped() && page < PAGE_NUM
    {
      store[page * PAGE_SIZE..(page + 1) * PAGE_SIZE]
    }

    ghost function FrameBytes(frame: nat): seq<Byte>
      requires Shaped() && frame < f
      reads memory
    {
      memory[frame * PAGE_SIZE..(frame + 1) * PAGE_SIZE]
    }

    /** A page in memory has the frame of its fault, and the frame holds the page. */
    ghost predicate Loaded(k: nat)
      requires Shaped() && k < |faults| && faults[k] < PAGE_NUM
      reads this`faults, pageTable, memory
    {
      && pageTable[faults[k]] == PageTableItem(k % f, true)
      && FrameBytes(k % f) == PageBytes(faults[k])
    }

    ghost predicate Backed(p: nat)
      requires Shaped() && p < PAGE_NUM
      reads this`faults, pageTable
    {
      pageTable[p].valid ==> p in Window(faults, f)
    }

    ghost predicate PagesAgree()
      requires Shaped()
      reads this`faults, pageTable, memory
    {
      && Spaced(faults, f) && (forall k :: 0 <= k < |faults| ==> faults[k] < PAGE_NUM)
      && (forall k :: Oldest(faults, f) <= k < |faults| ==> Loaded(k))
      && (forall p :: 0 <= p < PAGE_NUM ==> Backed(p))
    }

    /** Every valid TLB entry agrees with the page table. */
    ghost predicate TLBAgrees()
      requires Shaped()
      reads this`nextTLBIndex, tlb, pageTable
    {
      && nextTLBIndex < TLB_SIZE
      && forall i :: 0 <= i < TLB_SIZE && tlb[i].valid ==>
           tlb[i].pageNumber < PAGE_NUM &&
           pageTable[tlb[i].pageNumber] == PageTableItem(tlb[i].frameNumber, true)
    }

    /** The slot of the k-th page missed since the TLB was flushed has that page. */
    ghost predicate Remembered(k: nat)
      requires Shaped() && k < |recent|
      reads this`recent, tlb
    {
      tlb[k % TLB_SIZE].valid && tlb[k % TLB_SIZE].pageNumber == recent[k]
    }

    /** A valid slot has one of the last 16 of those pages. */
    ghost predicate Recalls(i: nat)
      requires Shaped() && i < TLB_SIZE
      reads this`recent, tlb
    {
      tlb[i].valid ==> exists k :: Oldest(recent, TLB_SIZE) <= k < |recent| && k % TLB_SIZE == i
                                   && tlb[i].pageNumber == recent[k]
    }

    /** The TLB holds exactly the last 16 pages missed since it was flushed. */
    ghost predicate TLBShows()
      requires Shaped()
      reads this`recent, this`nextTLBIndex, tlb
    {
      && nextTLBIndex == |recent| % TLB_SIZE
      && (forall k :: Oldest(recent, TLB_SIZE) <= k < |recent| ==> Remembered(k))
      && (forall i :: 0 <= i < TLB_SIZE ==> Recalls(i))
    }

    ghost predicate Valid()
      reads this, tlb, pageTable, memory
      ensures Valid() ==> Shaped() && PagesAgree() && pageFaultCnt == |faults|
    {
      && Shaped() && PagesAgree() && TLBAgrees() && TLBShows() && |recent| <= tlbMissCnt
      && pageFaultCnt == |faults| && nextFrame == |faults| % f
      && pageFaultCnt <= tlbMissCnt <= totalCnt
    }

    /** main's initialisation: everything zeroed. */
    constructor (f: nat, store: seq<Byte>)
      requires 1 <= f <= 256 && |store| == PAGE_NUM * PAGE_SIZE
      ensures Valid() && faults == [] && this.f == f && this.store == store
      ensures totalCnt == 0 && tlbMissCnt == 0 && pageFaultCnt == 0 && nextFrame == 0 && nextTLBIndex == 0
      ensures forall i :: 0 <= i < tlb.Length ==> tlb[i] == TLBItem(0, 0, false)
      ensures forall p :: 0 <= p < pageTable.Length ==> pageTable[p] == PageTableItem(0, false)
      ensures fresh(tlb) && fresh(pageTable) && fresh(memory)
    {
      this.f, this.store := f, store;
      tlb := new TLBItem[TLB_SIZE](_ => TLBItem(0, 0, false));
      pageTable := new PageTableItem[PAGE_NUM](_ => PageTableItem(0, false));
      memory := new Byte[f * PAGE_SIZE](_ => 0);
      totalCnt, tlbMissCnt, pageFaultCnt, nextFrame, nextTLBIndex := 0, 0, 0, 0, 0;
      faults, recent := [], [];
    }

    lemma LoadedWhenValid(p: nat) returns (k: nat)
      requires Shaped() && PagesAgree() && p in Window(faults, f)
      ensures k == LatestFault(faults, p) && Oldest(faults, f) <= k && Loaded(k)
    {
      var w := Window(faults, f);
      var i :| 0 <= i < |w| && w[i] == p;
      assert faults[i + Oldest(faults, f)] == p;
      k := LatestFault(faults, p);
    }

    ghost function LookedUp(): (t: Tlb)
      reads this`recent, this`tlbMissCnt
      ensures t.misses == tlbMissCnt
    {
      Tlb(recent, tlbMissCnt)
    }

    ghost predicate InTLB(page: nat)
      reads tlb
    {
      exists i :: 0 <= i < tlb.Length && tlb[i].valid && tlb[i].pageNumber == page
    }

    method CheckTLB(page: nat) returns (hit: bool, frame: nat)
      requires Shaped() && TLBAgrees() && page < PAGE_NUM
      ensures hit ==> pageTable[page] == PageTableItem(frame, true)
      ensures hit <==> InTLB(page)
    {
      for i := 0 to TLB_SIZE
        invariant forall k :: 0 <= k < i ==> !(tlb[k].valid && tlb[k].pageNumber == page)
      {
        if tlb[i].pageNumber == page {
          if tlb[i].valid {
            return true, tlb[i].frameNumber;
          }
        }
      }
      return false, 0;
    }

    /** A page hits iff it is one of the last 16 missed since the TLB was flushed. */
    lemma HitIff(page: nat)
      requires Shaped() && TLBShows()
      ensures InTLB(page) <==> page in Window(recent, TLB_SIZE)
    {
      var w, from := Window(recent, TLB_SIZE), Oldest(recent, TLB_SIZE);
      if InTLB(page) {
        var i :| 0 <= i < TLB_SIZE && tlb[i].valid && tlb[i].pageNumber == page;
        assert Recalls(i);
        var k :| from <= k < |recent| && k % TLB_SIZE == i && tlb[i].pageNumber == recent[k];
        assert w[k - from] == page;
      }
      if page in w {
        var k :| 0 <= k < |w| && w[k] == page;
        assert Remembered(k + from);
      }
    }

    method UpdateTLB(page: nat, frame: nat)
      requires Shaped() && TLBAgrees() && TLBShows()
      requires page < PAGE_NUM && pageTable[page] == PageTableItem(frame, true)
      modifies this`nextTLBIndex, this`recent, tlb
      ensures TLBAgrees() && TLBShows() && recent == old(recent) + [page]
      ensures tlb[..] == old(tlb[..])[old(nextTLBIndex) := TLBItem(page, frame, true)]
      ensures nextTLBIndex == (old(nextTLBIndex) + 1) % TLB_SIZE
    {
      ghost var was := recent;
      ModNext(|recent|, TLB_SIZE);
      tlb[nextTLBIndex] := TLBItem(page, frame, true);
      nextTLBIndex := (nextTLBIndex + 1) % TLB_SIZE;
      recent := recent + [page];
      forall k | Oldest(recent, TLB_SIZE) <= k < |recent| ensures Remembered(k) {
        if k < |was| {
          assert old(Remembered(k));
          FrameOf(k, |was|, TLB_SIZE);
        }
      }
      forall i | 0 <= i < TLB_SIZE ensures Recalls(i) {
        if i != |was| % TLB_SIZE && tlb[i].valid {
          assert old(Recalls(i));
          var k :| Oldest(was, TLB_SIZE) <= k < |was| && k % TLB_SIZE == i && tlb[i].pageNumber == was[k];
          FrameOf(k, |was|, TLB_SIZE);
          assert recent[k] == was[k];
        } else if i == |was| % TLB_SIZE {
          assert recent[|was|] == page;
        }
      }
    }

    method GetFrame() returns (frame: nat)
      requires f > 0
      modifies this`nextFrame
      ensures frame == old(nextFrame) && nextFrame == (old(nextFrame) + 1) % f
    {
      frame := nextFrame;
      nextFrame := (nextFrame + 1) % f;
    }

    /** The read of one page from the backing store into a frame. */
    method ReadPage(page: nat, frame: nat)
      requires Shaped() && page < PAGE_NUM && frame < f
      modifies memory
      ensures FrameBytes(frame) == PageBytes(page)
      ensures forall g :: 0 <= g < f && g != frame ==> FrameBytes(g) == old(FrameBytes(g))
    {
      ghost var base, from, was := frame * PAGE_SIZE, page * PAGE_SIZE, memory[..];
      for j := 0 to PAGE_SIZE
        invariant forall i :: 0 <= i < |was| && !(base <= i < base + j) ==> memory[i] == was[i]
        invariant forall i :: base <= i < base + j ==> memory[i] == store[i - base + from]
      {
        memory[frame * PAGE_SIZE + j] := store[page * PAGE_SIZE + j];
      }
      forall d | 0 <= d < PAGE_SIZE ensures FrameBytes(frame)[d] == PageBytes(page)[d] {
        assert memory[base + d] == store[base + d - base + from];
      }
      forall g | 0 <= g < f && g != frame ensures FrameBytes(g) == old(FrameBytes(g)) {
        OtherFrame(memory[..], was, frame, g);
      }
    }

    static lemma OtherFrame(now: seq<Byte>, was: seq<Byte>, frame: nat, g: nat)
      requires |now| == |was| && (frame + 1) * PAGE_SIZE <= |now| && (g + 1) * PAGE_SIZE <= |now| && g != frame
      requires forall i :: 0 <= i < |was| && !(frame * PAGE_SIZE <= i < (frame + 1) * PAGE_SIZE) ==> now[i] == was[i]
      ensures now[g * PAGE_SIZE..(g + 1) * PAGE_SIZE] == was[g * PAGE_SIZE..(g + 1) * PAGE_SIZE]
    {
    }

    /** The eviction loop: takes the first valid page off the frame, if any has it. */
    method Evict(frame: nat) returns (ghost evicted: int)
      requires Shaped()
      modifies pageTable
      ensures -1 <= evicted < PAGE_NUM
      ensures evicted >= 0 ==> old(pageTable[evicted]) == PageTableItem(frame, true)
                               && pageTable[evicted] == PageTableItem(frame, false)
      ensures evicted == -1 ==> forall p :: 0 <= p < PAGE_NUM ==> pageTable[p] != PageTableItem(frame, true)
      ensures forall p :: 0 <= p < PAGE_NUM && p != evicted ==> pageTable[p] == old(pageTable[p])
    {
      for i := 0 to PAGE_NUM
        invariant forall p :: 0 <= p < PAGE_NUM ==> pageTable[p] == old(pageTable[p])
        invariant forall p :: 0 <= p < i ==> pageTable[p] != PageTableItem(frame, true)
      {
        if pageTable[i].valid && pageTable[i].frameNumber == frame {
          pageTable[i] := pageTable[i].(valid := false);
          return i;
        }
      }
      return -1;
    }

    /** The window slides by one page: the page whose frame is taken leaves it. */
    lemma WindowSlides(page: nat)
      requires f > 0 && page !in Window(faults, f)
      ensures var next := faults + [page];
              && Oldest(next, f) == (if |faults| >= f then Oldest(faults, f) + 1 else Oldest(faults, f))
              && (forall p :: p in Window(next, f) <==>
                    p == page || exists k :: Oldest(next, f) <= k < |faults| && faults[k] == p)
    {
      var next := faults + [page];
      var w := Window(next, f);
      forall p ensures p in w <==> p == page || exists k :: Oldest(next, f) <= k < |faults| && faults[k] == p {
        if k :| Oldest(next, f) <= k < |faults| && faults[k] == p {
          assert w[k - Oldest(next, f)] == p;
        }
        assert w[|w| - 1] == page;
      }
    }

    /** Of the pages in memory, only the oldest can have the frame taken next. */
    static lemma FrameOf(k: nat, n: nat, f: nat)
      requires f > 0 && k < n <= k + f
      ensures k % f == n % f <==> n >= f && k == n - f
    {
      if n - k < f {
        ModSpread(k, n, f);
      } else {
        ModShift(k, f);
      }
    }

    /** The oldest page in memory, if the frame is taken, is the one the loop evicts. */
    lemma EvictsOldest(frame: nat)
      requires Shaped() && PagesAgree() && frame == |faults| % f
      ensures |faults| >= f ==> pageTable[faults[|faults| - f]] == PageTableItem(frame, true)
      ensures forall p :: 0 <= p < PAGE_NUM && pageTable[p] == PageTableItem(frame, true) ==>
                |faults| >= f && p == faults[|faults| - f]
    {
      if |faults| >= f {
        assert Loaded(|faults| - f);
        FrameOf(|faults| - f, |faults|, f);
      }
      forall p | 0 <= p < PAGE_NUM && pageTable[p] == PageTableItem(frame, true)
        ensures |faults| >= f && p == faults[|faults| - f]
      {
        assert Backed(p);
        var k := LoadedWhenValid(p);
        FrameOf(k, |faults|, f);
      }
    }

    /** The body of page_fault() on the page table and the memory. */
    method LoadPage(page: nat, frame: nat)
      requires Shaped() && PagesAgree() && page < PAGE_NUM && page !in Window(faults, f)
      requires frame == |faults| % f
      modifies this`faults, pageTable, memory
      ensures PagesAgree() && faults == old(faults) + [page]
      ensures pageTable[page] == PageTableItem(frame, true)
      ensures forall p :: 0 <= p < PAGE_NUM && p != page ==>
                pageTable[p] == old(if pageTable[p] == PageTableItem(frame, true)
                                    then PageTableItem(frame, false) else pageTable[p])
    {
      EvictsOldest(frame);
      WindowSlides(page);
      TouchKeepsSpaced(faults, f, page);
      ReadPage(page, frame);
      ghost var evicted := Evict(frame);
      pageTable[page] := PageTableItem(frame, true);
      ghost var was := faults;
      faults := faults + [page];
      forall k | Oldest(faults, f) <= k < |faults| ensures Loaded(k) {
        if k < |was| {
          assert old(Loaded(k));
          FrameOf(k, |was|, f);
        }
      }
      forall p | 0 <= p < PAGE_NUM ensures Backed(p) {
        assert old(Backed(p));
      }
    }

    method PageFault(page: nat)
      requires Valid() && page < PAGE_NUM && !pageTable[page].valid && pageFaultCnt < tlbMissCnt
      modifies this`pageFaultCnt, this`nextFrame, this`nextTLBIndex, this`recent, this`faults, tlb, pageTable, memory
      ensures Valid() && faults == old(faults) + [page] && recent == []
      ensures pageFaultCnt == old(pageFaultCnt) + 1 && nextFrame == (old(nextFrame) + 1) % f
      ensures pageTable[page] == PageTableItem(old(nextFrame), true)
      ensures forall p :: 0 <= p < PAGE_NUM && p != page ==>
                pageTable[p] == old(if pageTable[p] == PageTableItem(nextFrame, true)
                                    then PageTableItem(nextFrame, false) else pageTable[p])
      ensures nextTLBIndex == 0 && forall i :: 0 <= i < TLB_SIZE ==> tlb[i] == TLBItem(0, 0, false)
    {
      NotInMemory(page);
      hide PagesAgree, TLBAgrees, TLBShows, Window;
      pageFaultCnt := pageFaultCnt + 1;
      var frame := GetFrame();
      ModNext(|faults|, f);
      LoadPage(page, frame);
      FlushTLB();
    }

    /** The TLB is zeroed. */
    method FlushTLB()
      requires Shaped()
      modifies this`nextTLBIndex, this`recent, tlb
      ensures TLBAgrees() && TLBShows() && recent == []
      ensures nextTLBIndex == 0 && forall i :: 0 <= i < TLB_SIZE ==> tlb[i] == TLBItem(0, 0, false)
    {
      forall i | 0 <= i < TLB_SIZE {
        tlb[i] := TLBItem(0, 0, false);
      }
      nextTLBIndex := 0;
      recent := [];
    }

    /** Brings the page into memory if the page table does not have it. */
    method EnsureLoaded(page: nat)
      requires Valid() && page < PAGE_NUM && pageFaultCnt < tlbMissCnt
      modifies this`pageFaultCnt, this`nextFrame, this`nextTLBIndex, this`recent, this`faults, tlb, pageTable, memory
      ensures Valid() && faults == Touch(old(faults), f, page) && pageTable[page].valid
      ensures recent == if page in Window(old(faults), f) then old(recent) else []
      ensures pageFaultCnt == old(pageFaultCnt) + if old(pageTable[page].valid) then 0 else 1
    {
      assert Backed(page);
      ValidPagesAreWindow(page);
      if !pageTable[page].valid {
        NotInMemory(page);
        PageFault(page);
        TouchLoads(old(faults), f, page);
        ghost var k := LoadedWhenValid(page);
      }
    }

    /** The miss path of translate_address: page table, page fault, TLB update. */
    method Miss(page: nat) returns (frame: nat)
      requires Valid() && page < PAGE_NUM && tlbMissCnt < totalCnt
      modifies this`tlbMissCnt, this`pageFaultCnt, this`nextFrame, this`nextTLBIndex, this`recent,
               this`faults, tlb, pageTable, memory
      ensures Valid() && faults == Touch(old(faults), f, page)
      ensures pageTable[page] == PageTableItem(frame, true) && tlbMissCnt == old(tlbMissCnt) + 1
      ensures InTLB(page)
      ensures recent == (if page in Window(old(faults), f) then old(recent) else []) + [page]
      ensures pageFaultCnt == old(pageFaultCnt) + if old(pageTable[page].valid) then 0 else 1
    {
      tlbMissCnt := tlbMissCnt + 1;
      EnsureLoaded(page);
      frame := pageTable[page].frameNumber;
      ghost var at := nextTLBIndex;
      UpdateTLB(page, frame);
      assert tlb[..][at] == TLBItem(page, frame, true);
    }

    /** TLB first, then the page table. */
    method FindFrame(page: nat) returns (frame: nat)
      requires Valid() && page < PAGE_NUM && tlbMissCnt < totalCnt
      modifies this`tlbMissCnt, this`pageFaultCnt, this`nextFrame, this`nextTLBIndex, this`recent,
               this`faults, tlb, pageTable, memory
      ensures Valid() && faults == Touch(old(faults), f, page) && InTLB(page)
      ensures pageTable[page] == PageTableItem(frame, true)
      ensures LookedUp() == Lookup(old(LookedUp()), old(faults), f, page)
      ensures tlbMissCnt == old(tlbMissCnt) + if old(InTLB(page)) then 0 else 1
      ensures pageFaultCnt == old(pageFaultCnt) + if old(pageTable[page].valid) then 0 else 1
      ensures old(InTLB(page)) ==> recent == old(recent) && tlb[..] == old(tlb[..])
    {
      assert Backed(page);
      HitIff(page);
      var hit;
      hit, frame := CheckTLB(page);
      if !hit {
        frame := Miss(page);
      }
    }

    /** translate_address: the physical address, and the list of faults, are those of the
        pager without TLB; the byte there is the backing store's. */
    method TranslateAddress(logical: nat) returns (physical: nat)
      requires Valid()
      modifies this`totalCnt, this`tlbMissCnt, this`pageFaultCnt, this`nextFrame, this`nextTLBIndex, this`recent,
               this`faults, tlb, pageTable, memory
      ensures Valid() && totalCnt == old(totalCnt) + 1
      ensures LookedUp() == Lookup(old(LookedUp()), old(faults), f, PageOf(logical))
      ensures faults == Touch(old(faults), f, PageOf(logical))
      ensures tlbMissCnt == old(tlbMissCnt) + if old(InTLB(PageOf(logical))) then 0 else 1
      ensures pageFaultCnt == old(pageFaultCnt) + if old(pageTable[PageOf(logical)].valid) then 0 else 1
      ensures old(InTLB(PageOf(logical))) ==> recent == old(recent) && tlb[..] == old(tlb[..])
      ensures PageOf(logical) in faults && physical == Physical(faults, f, logical)
      ensures physical < memory.Length && memory[physical] == store[logical % (PAGE_NUM * PAGE_SIZE)]
    {
      totalCnt := totalCnt + 1;
      var frame := FindFrame(PageOf(logical));
      physical := frame * PAGE_SIZE + logical % PAGE_SIZE;
      AddressFacts(logical, frame);
    }

    lemma AddressFacts(logical: nat, frame: nat)
      requires Shaped() && PagesAgree() && pageTable[PageOf(logical)] == PageTableItem(frame, true)
      ensures PageOf(logical) in faults
      ensures var physical := frame * PAGE_SIZE + logical % PAGE_SIZE;
              && physical == Physical(faults, f, logical) && physical < memory.Length
              && memory[physical] == store[logical % (PAGE_NUM * PAGE_SIZE)]
    {
      assert Backed(PageOf(logical));
      var k := LoadedWhenValid(PageOf(logical));
      ByteOf(k, logical);
    }

    /** The valid pages are exactly those of the last min(F, faults) faults. */
    lemma ValidPagesAreWindow(page: nat)
      requires Shaped() && PagesAgree() && page < PAGE_NUM
      ensures pageTable[page].valid <==> page in Window(faults, f)
    {
      assert Backed(page);
      NotInMemory(page);
    }

    lemma NotInMemory(page: nat)
      requires Shaped() && PagesAgree() && page < PAGE_NUM
      ensures !pageTable[page].valid ==> page !in Window(faults, f)
    {
      if page in Window(faults, f) {
        var k := LoadedWhenValid(page);
      }
    }

    lemma ByteOf(k: nat, logical: nat)
      requires Shaped() && k < |faults| && faults[k] == PageOf(logical) && Loaded(k)
      ensures k % f * PAGE_SIZE + logical % PAGE_SIZE < memory.Length
      ensures memory[k % f * PAGE_SIZE + logical % PAGE_SIZE] == store[logical % (PAGE_NUM * PAGE_SIZE)]
    {
      var offset := logical % PAGE_SIZE;
      LowBits(logical);
      assert FrameBytes(k % f)[offset] == PageBytes(faults[k])[offset];
    }

    method AccessMemory(physical: nat) returns (value: Byte)
      requires physical < memory.Length
      ensures value == memory[physical]
    {
      return memory[physical];
    }

    /** One more reference after those of `before`. */
    method Reference(ghost before: seq<nat>, logical: nat) returns (physical: nat, value: Byte)
      requires Valid() && faults == Faults(Pages(before), f) && LookedUp() == Lookups(Pages(before), f)
      modifies this`totalCnt, this`tlbMissCnt, this`pageFaultCnt, this`nextFrame, this`nextTLBIndex, this`recent,
               this`faults, tlb, pageTable, memory
      ensures Valid() && totalCnt == old(totalCnt) + 1
      ensures faults == Faults(Pages(before + [logical]), f)
      ensures LookedUp() == Lookups(Pages(before + [logical]), f)
      ensures AddressedAs(before + [logical], f, physical)
      ensures value == store[logical % (PAGE_NUM * PAGE_SIZE)]
    {
      NextReference(before, logical, f);
      hide Valid, Faults, Lookups, Pages;
      physical := TranslateAddress(logical);
      value := AccessMemory(physical);
    }

    /** The k-th answer: the physical address of the pager without TLB, and the stored byte. */
    ghost predicate Answers(refs: seq<nat>, k: nat, physical: nat, value: Byte)
      requires Shaped() && k < |refs|
    {
      && AddressedAs(refs[..k + 1], f, physical)
      && value == store[refs[k] % (PAGE_NUM * PAGE_SIZE)]
    }

    ghost predicate AllAnswered(refs: seq<nat>, answers: seq<(nat, Byte)>)
      requires Shaped()
    {
      |answers| <= |refs| && forall k :: 0 <= k < |answers| ==> Answers(refs, k, answers[k].0, answers[k].1)
    }

    lemma AnswersGrow(refs: seq<nat>, answers: seq<(nat, Byte)>, physical: nat, value: Byte)
      requires Shaped() && AllAnswered(refs, answers) && |answers| < |refs|
      requires Answers(refs, |answers|, physical, value)
      ensures AllAnswered(refs, answers + [(physical, value)])
    {
    }

    /** The machine after the first i references. */
    ghost predicate Served(refs: seq<nat>, i: nat)
      requires i <= |refs|
      reads this, tlb, pageTable, memory
      ensures Served(refs, i) ==> Shaped()
    {
      && Valid() && totalCnt == i
      && faults == Faults(Pages(refs[..i]), f) && LookedUp() == Lookups(Pages(refs[..i]), f)
    }

    /** One turn of main's loop. */
    method Serve(refs: seq<nat>, i: nat) returns (physical: nat, value: Byte)
      requires i < |refs| && Served(refs, i)
      modifies this`totalCnt, this`tlbMissCnt, this`pageFaultCnt, this`nextFrame, this`nextTLBIndex, this`recent,
               this`faults, tlb, pageTable, memory
      ensures Served(refs, i + 1) && Answers(refs, i, physical, value)
    {
      hide Valid, Faults, Lookups, AddressedAs;
      assert refs[..i + 1] == refs[..i] + [refs[i]];
      physical, value := Reference(refs[..i], refs[i]);
    }

    /** main's loop over a whole reference string. */
    method Run(refs: seq<nat>) returns (answers: seq<(nat, Byte)>)
      requires Valid() && faults == [] && totalCnt == 0
      modifies this`totalCnt, this`tlbMissCnt, this`pageFaultCnt, this`nextFrame, this`nextTLBIndex, this`recent,
               this`faults, tlb, pageTable, memory
      ensures Valid() && totalCnt == |refs| == |answers|
      ensures pageFaultCnt == |Faults(Pages(refs), f)|
      ensures tlbMissCnt == Lookups(Pages(refs), f).misses
      ensures pageFaultCnt == |PagerLaws.Faulting(Pages(refs), f, |refs|)|
      ensures tlbMissCnt == |PagerLaws.Missing(Pages(refs), f, |refs|)|
      ensures AllAnswered(refs, answers)
    {
      answers := [];
      assert Served(refs, 0) && AllAnswered(refs, answers);
      hide *;
      for i := 0 to |refs|
        invariant Served(refs, i) && i == |answers| && AllAnswered(refs, answers)
      {
        var physical, value := Serve(refs, i);
        AnswersGrow(refs, answers, physical, value);
        answers := answers + [(physical, value)];
      }
      WholeRun(refs);
    }

    lemma WholeRun(refs: seq<nat>)
      requires Served(refs, |refs|)
      ensures Valid() && totalCnt == |refs|
      ensures pageFaultCnt == |Faults(Pages(refs), f)| && tlbMissCnt == Lookups(Pages(refs), f).misses
      ensures pageFaultCnt == |PagerLaws.Faulting(Pages(refs), f, |refs|)|
      ensures tlbMissCnt == |PagerLaws.Missing(Pages(refs), f, |refs|)|
    {
      PagerLaws.CountsAre(Pages(refs), f);
      assert refs[..|refs|] == refs;
    }
  }
}
