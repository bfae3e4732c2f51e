/** A pager without TLB that replaces pages first in, first out: the specification that the
    machine of Project8/vm_manager.c is proved against. Its state is the list of pages that
    have faulted so far; fault k is served by frame k mod F. */
module Pager {
  const PAGE_SIZE := 256
  const PAGE_NUM := 256

  function PageOf(logical: nat): nat {
    logical / PAGE_SIZE % PAGE_NUM
  }

  /** Page number and offset together are the low 16 bits of the address. */
  lemma LowBits(logical: nat)
    ensures logical % (PAGE_NUM * PAGE_SIZE) == PageOf(logical) * PAGE_SIZE + logical % PAGE_SIZE
  {
  }

  /** The index of the oldest fault whose page is still in memory. */
  function Oldest(faults: seq<nat>, f: nat): nat {
    if |faults| > f then |faults| - f else 0
  }

  /** The pages in memory: those of the last min(F, faults) faults. */
  function Window(faults: seq<nat>, f: nat): seq<nat> {
    faults[Oldest(faults, f)..]
  }

  function Touch(faults: seq<nat>, f: nat, page: nat): seq<nat> {
    if page in Window(faults, f) then faults else faults + [page]
  }

  /** The faults caused by a whole reference string. */
  function Faults(pages: seq<nat>, f: nat): seq<nat> {
    if pages == [] then [] else Touch(Faults(pages[..|pages| - 1], f), f, pages[|pages| - 1])
  }

  // ---------- the TLB in front of it ----------

  const TLB_SIZE := 16

  /** The pages missed since, and including, the latest fault, and all misses so far. */
  datatype Tlb = Tlb(recent: seq<nat>, misses: nat)

  /** A reference misses unless its page is one of the last 16 missed; a fault flushes the rest. */
  function Lookup(t: Tlb, faults: seq<nat>, f: nat, page: nat): Tlb {
    if page in Window(t.recent, TLB_SIZE) then t
    else Tlb((if page in Window(faults, f) then t.recent else []) + [page], t.misses + 1)
  }

  /** The misses caused by a whole reference string. */
  function Lookups(pages: seq<nat>, f: nat): Tlb {
    if pages == [] then Tlb([], 0)
    else
      var before, last := pages[..|pages| - 1], pages[|pages| - 1];
      Lookup(Lookups(before, f), Faults(before, f), f, last)
  }

  // ---------- addresses ----------

  /** The latest fault on the page. */
  function LatestFault(faults: seq<nat>, page: nat): (k: nat)
    requires page in faults
    ensures k < |faults| && faults[k] == page
    ensures forall i :: k < i < |faults| ==> faults[i] != page
  {
    if faults[|faults| - 1] == page then |faults| - 1
    else
      assert faults == faults[..|faults| - 1] + [faults[|faults| - 1]];
      LatestFault(faults[..|faults| - 1], page)
  }

  /** The physical address of a logical one, once its page is in memory. */
  function Physical(faults: seq<nat>, f: nat, logical: nat): nat
    requires f > 0 && PageOf(logical) in faults
  {
    LatestFault(faults, PageOf(logical)) % f * PAGE_SIZE + logical % PAGE_SIZE
  }

  /** It lies in the frame of the latest fault on its page: fault k took frame k mod F. */
  lemma PhysicalIs(faults: seq<nat>, f: nat, logical: nat, k: nat)
    requires f > 0 && k < |faults| && faults[k] == logical / 256 % 256
    requires forall i :: k < i < |faults| ==> faults[i] != faults[k]
    ensures PageOf(logical) in faults && Physical(faults, f, logical) == k % f * 256 + logical % 256
  {
    var j := LatestFault(faults, PageOf(logical));
    assert j == k;
  }

  function Pages(refs: seq<nat>): seq<nat> {
    seq(|refs|, i requires 0 <= i < |refs| => PageOf(refs[i]))
  }

  lemma PagesSnoc(refs: seq<nat>, logical: nat)
    ensures Pages(refs + [logical]) == Pages(refs) + [PageOf(logical)]
  {
  }

  /** One more reference. */
  lemma NextReference(refs: seq<nat>, logical: nat, f: nat)
    ensures Faults(Pages(refs + [logical]), f) == Touch(Faults(Pages(refs), f), f, PageOf(logical))
    ensures Lookups(Pages(refs + [logical]), f)
            == Lookup(Lookups(Pages(refs), f), Faults(Pages(refs), f), f, PageOf(logical))
  {
    var pages := Pages(refs + [logical]);
    PagesSnoc(refs, logical);
    assert pages[..|pages| - 1] == Pages(refs);
  }

  /** Every page that the TLB can hold is in memory, so that a fault is always a miss too. */
  lemma {:induction false} MissesCoverFaults(pages: seq<nat>, f: nat)
    requires f > 0
    ensures forall p :: p in Lookups(pages, f).recent ==> p in Window(Faults(pages, f), f)
    ensures |Faults(pages, f)| <= Lookups(pages, f).misses <= |pages|
    decreases |pages|
  {
    if pages == [] {
    } else {
      var before, last := pages[..|pages| - 1], pages[|pages| - 1];
      MissesCoverFaults(before, f);
      TouchLoads(Faults(before, f), f, last);
    }
  }

  /** The physical address this pager gives the last reference of the string. */
  ghost predicate AddressedAs(refs: seq<nat>, f: nat, physical: nat)
    requires f > 0 && refs != []
  {
    var faults, last := Faults(Pages(refs), f), refs[|refs| - 1];
    PageOf(last) in faults && physical == Physical(faults, f, last)
  }

  lemma TouchLoads(faults: seq<nat>, f: nat, page: nat)
    requires f > 0
    ensures page in Window(Touch(faults, f, page), f) && page in Touch(faults, f, page)
  {
    var t := Touch(faults, f, page);
    if t != faults {
      assert t[|t| - 1] == page && Window(t, f)[|Window(t, f)| - 1] == page;
    }
  }

  /** Any F + 1 consecutive faults hit different pages. */
  ghost predicate Spaced(faults: seq<nat>, f: nat) {
    forall i, j :: 0 <= i < j < |faults| && j - i <= f ==> faults[i] != faults[j]
  }

  lemma TouchKeepsSpaced(faults: seq<nat>, f: nat, page: nat)
    requires Spaced(faults, f)
    ensures Spaced(Touch(faults, f, page), f)
  {
  }

  lemma {:induction false} FaultsSpaced(pages: seq<nat>, f: nat)
    ensures Spaced(Faults(pages, f), f)
    decreases |pages|
  {
    if pages == [] {
    } else {
      FaultsSpaced(pages[..|pages| - 1], f);
      TouchKeepsSpaced(Faults(pages[..|pages| - 1], f), f, pages[|pages| - 1]);
    }
  }

  function Distinct(pages: seq<nat>): set<nat> {
    set p | p in pages
  }

  lemma DistinctSnoc(s: seq<nat>, x: nat)
    ensures Distinct(s + [x]) == Distinct(s) + {x}
  {
  }

  /** The pages that fault are exactly the pages touched. */
  lemma {:induction false} FaultedIsTouched(pages: seq<nat>, f: nat)
    requires f > 0
    ensures Distinct(Faults(pages, f)) == Distinct(pages)
    decreases |pages|
  {
    if pages == [] {
    } else {
      var before, last := pages[..|pages| - 1], pages[|pages| - 1];
      assert pages == before + [last];
      FaultedIsTouched(before, f);
      DistinctSnoc(before, last);
      DistinctSnoc(Faults(before, f), last);
    }
  }

  /** With at least as many frames as pages touched, each page faults exactly once. */
  lemma {:induction false} EnoughFrames(pages: seq<nat>, f: nat)
    requires f > 0 && |Distinct(pages)| <= f
    ensures |Faults(pages, f)| == |Distinct(pages)|
    decreases |pages|
  {
    if pages != [] {
      var before, last := pages[..|pages| - 1], pages[|pages| - 1];
      assert pages == before + [last];
      DistinctSnoc(before, last);
      if last in before {
        assert Distinct(pages) == Distinct(before);
      } else {
        assert last !in Distinct(before);
        assert |Distinct(pages)| == |Distinct(before)| + 1;
      }
      EnoughFrames(before, f);
      FaultedIsTouched(before, f);
      assert last in Faults(before, f) <==> last in Distinct(Faults(before, f));
      assert Window(Faults(before, f), f) == Faults(before, f);
    } else {
      assert Distinct(pages) == {};
    }
  }

  lemma {:induction false} FewPages(pages: set<nat>, n: nat)
    requires forall p :: p in pages ==> p < n
    ensures |pages| <= n
  {
    if n > 0 {
      FewPages(pages - {n - 1}, n - 1);
      assert |pages| <= |pages - {n - 1}| + 1;
    } else {
      assert pages == {};
    }
  }

  /** As shipped, with a frame for every page, the fault count is the number of pages touched. */
  lemma ShippedFaultCount(pages: seq<nat>)
    requires forall p :: p in pages ==> p < PAGE_NUM
    ensures |Faults(pages, PAGE_NUM)| == |Distinct(pages)|
  {
    FewPages(Distinct(pages), PAGE_NUM);
    EnoughFrames(pages, PAGE_NUM);
  }
}
