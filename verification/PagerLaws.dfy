/** What the fault and miss counts of a reference string are, without the lists that the pager keeps:
    when a reference faults, and when it misses the TLB, by what came before it. */
module PagerLaws {
  import opened Pager

  function FaultCount(pages: seq<nat>, f: nat, i: nat): nat
    requires i <= |pages|
  {
    |Faults(pages[..i], f)|
  }

  /** The pages faulted by the first i references. */
  function Faulted(pages: seq<nat>, f: nat, i: nat): seq<nat>
    requires i <= |pages|
  {
    Faults(pages[..i], f)
  }

  function MissCount(pages: seq<nat>, f: nat, i: nat): nat
    requires i <= |pages|
  {
    Lookups(pages[..i], f).misses
  }

  /** Reference i faults; or misses. */
  predicate FaultAt(pages: seq<nat>, f: nat, i: nat)
    requires i < |pages|
  {
    FaultCount(pages, f, i + 1) != FaultCount(pages, f, i)
  }

  predicate MissAt(pages: seq<nat>, f: nat, i: nat)
    requires i < |pages|
  {
    MissCount(pages, f, i + 1) != MissCount(pages, f, i)
  }

  lemma StepAt(pages: seq<nat>, f: nat, i: nat)
    requires i < |pages|
    ensures Faults(pages[..i + 1], f) == Touch(Faults(pages[..i], f), f, pages[i])
    ensures Lookups(pages[..i + 1], f) == Lookup(Lookups(pages[..i], f), Faults(pages[..i], f), f, pages[i])
  {
    assert pages[..i + 1][..i] == pages[..i];
  }

  // ---------- faults ----------

  /** What a reference does to the list of faults. */
  lemma FaultStep(pages: seq<nat>, f: nat, i: nat)
    requires i < |pages|
    ensures FaultAt(pages, f, i) <==> pages[i] !in Window(Faulted(pages, f, i), f)
    ensures FaultCount(pages, f, i) == |Faulted(pages, f, i)|
    ensures Faulted(pages, f, i + 1) == Faulted(pages, f, i) + if FaultAt(pages, f, i) then [pages[i]] else []
  {
    StepAt(pages, f, i);
    hide Faults, Window;
  }

  /** Each fault in the list is that of some reference. */
  lemma {:induction false} FaultSource(pages: seq<nat>, f: nat, i: nat, k: nat) returns (j: nat)
    requires i <= |pages| && k < |Faulted(pages, f, i)|
    ensures j < i && FaultAt(pages, f, j) && FaultCount(pages, f, j) == k
    ensures pages[j] == Faulted(pages, f, i)[k]
    decreases i
  {
    assert pages[..0] == [];
    if i == 0 {
      assert false;
    } else {
      FaultStep(pages, f, i - 1);
      hide *;
      if k < |Faulted(pages, f, i - 1)| {
        j := FaultSource(pages, f, i - 1, k);
      } else {
        j := i - 1;
      }
    }
  }

  /** Each reference that faults is in the list from then on, at its number. */
  lemma {:induction false} FaultKept(pages: seq<nat>, f: nat, i: nat, j: nat)
    requires j < i <= |pages| && FaultAt(pages, f, j)
    ensures FaultCount(pages, f, j) < |Faulted(pages, f, i)|
    ensures Faulted(pages, f, i)[FaultCount(pages, f, j)] == pages[j]
    decreases i
  {
    FaultStep(pages, f, i - 1);
    hide *;
    if j == i - 1 {
    } else {
      FaultKept(pages, f, i - 1, j);
    }
  }

  /** A reference does not fault iff its page has been faulted among the last F faults. */
  lemma FaultIff(pages: seq<nat>, f: nat, i: nat)
    requires i < |pages|
    ensures !FaultAt(pages, f, i) <==>
            exists j :: 0 <= j < i && pages[j] == pages[i] && FaultAt(pages, f, j)
                        && FaultCount(pages, f, i) - FaultCount(pages, f, j) <= f
    ensures FaultCount(pages, f, 0) == 0
    ensures FaultCount(pages, f, i + 1) == FaultCount(pages, f, i) + if FaultAt(pages, f, i) then 1 else 0
  {
    FaultStep(pages, f, i);
    var faults := Faulted(pages, f, i);
    assert FaultCount(pages, f, 0) == 0 by { assert pages[..0] == []; }
    assert FaultCount(pages, f, i + 1) == |Faulted(pages, f, i + 1)|;
    hide Faulted, FaultCount, FaultAt;
    if pages[i] in Window(faults, f) {
      var w := Window(faults, f);
      var d :| 0 <= d < |w| && w[d] == pages[i];
      var j := FaultSource(pages, f, i, d + Oldest(faults, f));
    }
    forall j | 0 <= j < i && pages[j] == pages[i] && FaultAt(pages, f, j)
               && FaultCount(pages, f, i) - FaultCount(pages, f, j) <= f
      ensures pages[i] in Window(faults, f)
    {
      FaultKept(pages, f, i, j);
      assert Window(faults, f)[FaultCount(pages, f, j) - Oldest(faults, f)] == pages[i];
    }
  }

  // ---------- misses ----------

  function Recent(pages: seq<nat>, f: nat, i: nat): seq<nat>
    requires i <= |pages|
  {
    Lookups(pages[..i], f).recent
  }

  /** The misses before those of the recent list. */
  function Forgotten(pages: seq<nat>, f: nat, i: nat): int
    requires i <= |pages|
  {
    MissCount(pages, f, i) - |Recent(pages, f, i)|
  }

  /** What a reference does to the counts and to the recent list. */
  lemma LookupAt(pages: seq<nat>, f: nat, i: nat)
    requires f > 0 && i < |pages|
    ensures MissAt(pages, f, i) <==> pages[i] !in Window(Recent(pages, f, i), TLB_SIZE)
    ensures FaultAt(pages, f, i) ==> MissAt(pages, f, i)
    ensures FaultCount(pages, f, i + 1) == FaultCount(pages, f, i) + if FaultAt(pages, f, i) then 1 else 0
    ensures MissCount(pages, f, i + 1) == MissCount(pages, f, i) + if MissAt(pages, f, i) then 1 else 0
    ensures Recent(pages, f, i + 1)
            == if !MissAt(pages, f, i) then Recent(pages, f, i)
               else if FaultAt(pages, f, i) then [pages[i]] else Recent(pages, f, i) + [pages[i]]
  {
    StepAt(pages, f, i);
    MissesCoverFaults(pages[..i], f);
    hide Faults, Lookups;
    var w := Window(Recent(pages, f, i), TLB_SIZE);
    if pages[i] in w {
      assert pages[i] in Recent(pages, f, i);
    }
  }

  lemma {:induction false} MissSource(pages: seq<nat>, f: nat, i: nat, k: nat) returns (j: nat)
    requires f > 0 && i <= |pages| && k < |Recent(pages, f, i)|
    ensures j < i && MissAt(pages, f, j) && MissCount(pages, f, j) == Forgotten(pages, f, i) + k
    ensures pages[j] == Recent(pages, f, i)[k] && FaultCount(pages, f, j + 1) == FaultCount(pages, f, i)
    decreases i
  {
    assert pages[..0] == [];
    if i == 0 {
      assert false;
    } else {
      LookupAt(pages, f, i - 1);
      hide FaultCount, MissCount, Recent, FaultAt, MissAt;
      if !MissAt(pages, f, i - 1) || (!FaultAt(pages, f, i - 1) && k < |Recent(pages, f, i)| - 1) {
        j := MissSource(pages, f, i - 1, k);
      } else {
        j := i - 1;
      }
    }
  }

  lemma {:induction false} FaultCountGrows(pages: seq<nat>, f: nat, i: nat, j: nat)
    requires f > 0 && j <= i <= |pages|
    ensures FaultCount(pages, f, j) <= FaultCount(pages, f, i)
    decreases i
  {
    if i == j {
    } else {
      LookupAt(pages, f, i - 1);
      FaultCountGrows(pages, f, i - 1, j);
    }
  }

  /** The miss of reference j is in the recent list of the first i. */
  ghost predicate Kept(pages: seq<nat>, f: nat, i: nat, j: nat)
    requires j < i <= |pages|
  {
    var k := MissCount(pages, f, j) - Forgotten(pages, f, i);
    0 <= k < |Recent(pages, f, i)| && Recent(pages, f, i)[k] == pages[j]
  }

  lemma KeptStep(pages: seq<nat>, f: nat, i: nat, j: nat)
    requires f > 0 && j <= i < |pages|
    requires j == i || (Kept(pages, f, i, j) && !FaultAt(pages, f, i))
    ensures j < i || MissAt(pages, f, j) ==> Kept(pages, f, i + 1, j)
  {
    LookupAt(pages, f, i);
    hide FaultCount, MissCount, Recent, FaultAt, MissAt;
  }

  /** Each miss since the latest fault, and including it, is in the recent list. */
  lemma {:induction false} MissKept(pages: seq<nat>, f: nat, i: nat, j: nat)
    requires f > 0 && j < i <= |pages| && MissAt(pages, f, j)
    requires FaultCount(pages, f, j + 1) == FaultCount(pages, f, i)
    ensures Kept(pages, f, i, j)
    decreases i
  {
    hide *;
    if j < i - 1 {
      LookupAt(pages, f, i - 1);
      FaultCountGrows(pages, f, i - 1, j + 1);
      MissKept(pages, f, i - 1, j);
    }
    KeptStep(pages, f, i - 1, j);
  }

  /** Reference j missed on the page of reference i, is among the last 16 misses before it, and
      nothing has faulted since. */
  ghost predicate Shields(pages: seq<nat>, f: nat, i: nat, j: nat)
    requires i < |pages|
  {
    && j < i && pages[j] == pages[i] && MissAt(pages, f, j)
    && FaultCount(pages, f, j + 1) == FaultCount(pages, f, i)
    && MissCount(pages, f, i) - MissCount(pages, f, j) <= TLB_SIZE
  }

  lemma ShieldedBy(pages: seq<nat>, f: nat, i: nat) returns (j: nat)
    requires f > 0 && i < |pages| && pages[i] in Window(Recent(pages, f, i), TLB_SIZE)
    ensures Shields(pages, f, i, j)
  {
    hide MissCount, MissAt, FaultCount, Recent;
    var recent := Recent(pages, f, i);
    var w := Window(recent, TLB_SIZE);
    var d :| 0 <= d < |w| && w[d] == pages[i];
    j := MissSource(pages, f, i, d + Oldest(recent, TLB_SIZE));
  }

  lemma ShieldedHits(pages: seq<nat>, f: nat, i: nat, j: nat)
    requires f > 0 && i < |pages| && Shields(pages, f, i, j)
    ensures pages[i] in Window(Recent(pages, f, i), TLB_SIZE)
  {
    hide MissCount, MissAt, FaultCount, Recent;
    var recent := Recent(pages, f, i);
    MissKept(pages, f, i, j);
    var k := MissCount(pages, f, j) - Forgotten(pages, f, i);
    assert Window(recent, TLB_SIZE)[k - Oldest(recent, TLB_SIZE)] == pages[i];
  }

  /** A reference hits the TLB iff its page has been missed among the last 16 misses, and nothing has
      faulted since. */
  lemma HitIff(pages: seq<nat>, f: nat, i: nat)
    requires f > 0 && i < |pages|
    ensures !MissAt(pages, f, i) <==> exists j: nat :: Shields(pages, f, i, j)
    ensures MissCount(pages, f, 0) == 0
    ensures MissCount(pages, f, i + 1) == MissCount(pages, f, i) + if MissAt(pages, f, i) then 1 else 0
  {
    LookupAt(pages, f, i);
    assert MissCount(pages, f, 0) == 0 by { assert pages[..0] == []; }
    hide *;
    if pages[i] in Window(Recent(pages, f, i), TLB_SIZE) {
      var j := ShieldedBy(pages, f, i);
    }
    forall j: nat | Shields(pages, f, i, j)
      ensures pages[i] in Window(Recent(pages, f, i), TLB_SIZE)
    {
      ShieldedHits(pages, f, i, j);
    }
  }

  // ---------- the counts ----------

  ghost function Faulting(pages: seq<nat>, f: nat, i: nat): set<nat>
    requires i <= |pages|
  {
    set j: nat | j < i && FaultAt(pages, f, j)
  }

  ghost function Missing(pages: seq<nat>, f: nat, i: nat): set<nat>
    requires i <= |pages|
  {
    set j: nat | j < i && MissAt(pages, f, j)
  }

  lemma FaultingGrows(pages: seq<nat>, f: nat, i: nat)
    requires i < |pages|
    ensures |Faulting(pages, f, i + 1)| == |Faulting(pages, f, i)| + if FaultAt(pages, f, i) then 1 else 0
  {
    hide FaultAt;
    assert i !in Faulting(pages, f, i);
    assert Faulting(pages, f, i + 1) == Faulting(pages, f, i) + if FaultAt(pages, f, i) then {i} else {};
  }

  lemma MissingGrows(pages: seq<nat>, f: nat, i: nat)
    requires i < |pages|
    ensures |Missing(pages, f, i + 1)| == |Missing(pages, f, i)| + if MissAt(pages, f, i) then 1 else 0
  {
    hide MissAt;
    assert i !in Missing(pages, f, i);
    assert Missing(pages, f, i + 1) == Missing(pages, f, i) + if MissAt(pages, f, i) then {i} else {};
  }

  lemma NothingYet(pages: seq<nat>, f: nat)
    ensures FaultCount(pages, f, 0) == |Faulting(pages, f, 0)| == 0
    ensures MissCount(pages, f, 0) == |Missing(pages, f, 0)| == 0
  {
    assert pages[..0] == [] && Faulting(pages, f, 0) == {} && Missing(pages, f, 0) == {};
  }

  lemma {:induction false} CountsUpTo(pages: seq<nat>, f: nat, i: nat)
    requires f > 0 && i <= |pages|
    ensures FaultCount(pages, f, i) == |Faulting(pages, f, i)|
    ensures MissCount(pages, f, i) == |Missing(pages, f, i)|
    decreases i
  {
    hide *;
    if i == 0 {
      NothingYet(pages, f);
    } else {
      LookupAt(pages, f, i - 1);
      FaultingGrows(pages, f, i - 1);
      MissingGrows(pages, f, i - 1);
      CountsUpTo(pages, f, i - 1);
    }
  }

  /** The two counts are the numbers of references that fault and that miss. */
  lemma CountsAre(pages: seq<nat>, f: nat)
    requires f > 0
    ensures |Faults(pages, f)| == |Faulting(pages, f, |pages|)|
    ensures Lookups(pages, f).misses == |Missing(pages, f, |pages|)|
  {
    CountsUpTo(pages, f, |pages|);
    assert pages[..|pages|] == pages;
    hide Faults, Lookups, FaultAt, MissAt;
  }

  /** A page referenced twice in a row misses at most once. */
  lemma AgainHits(pages: seq<nat>, f: nat, i: nat)
    requires f > 0 && i + 1 < |pages| && pages[i] == pages[i + 1]
    ensures !MissAt(pages, f, i + 1) && !FaultAt(pages, f, i + 1)
  {
    LookupAt(pages, f, i);
    LookupAt(pages, f, i + 1);
    hide FaultCount, MissCount, Recent, FaultAt, MissAt;
    var w := Window(Recent(pages, f, i + 1), TLB_SIZE);
    if MissAt(pages, f, i) {
      assert w[|w| - 1] == pages[i];
    }
  }
}
