/** The contiguous allocator of Project7/allocator.c on values: the region list as a sequence
    of blocks, and the memory it stands for as a map from address to owner. */
module Allocator {
  import opened Options
  import opened Sequences

  type Owner = Option<string>

  /** A region: the addresses begin..end, both included, and who owns them. */
  datatype Block = Block(begin: int, end: int, name: Owner)

  function Size(b: Block): int {
    b.end - b.begin + 1
  }

  predicate Fits(b: Block, size: nat) {
    b.name.None? && Size(b) >= size
  }

  const PAGE := 4096

  /** main rounds the size up to whole pages with a shift. */
  function RoundUp(processSize: int): (size: int)
    ensures size % PAGE == 0 && processSize <= size < processSize + PAGE
  {
    if processSize % PAGE != 0 then (processSize / PAGE + 1) * PAGE else processSize / PAGE * PAGE
  }

  /** The size that request() gets: converted to a 64-bit unsigned number. */
  function Requested(processSize: int): (size: nat)
    ensures size % PAGE == 0
    ensures 0 <= processSize < 0x8000_0000 ==> processSize <= size < processSize + PAGE
    ensures size == 0 && -0x8000_0000 <= processSize < 0x8000_0000 ==> -PAGE < processSize <= 0
  {
    RoundUp(processSize) % 0x1_0000_0000_0000_0000
  }

  // ---------- request ----------

  /** Whether the scan replaces its candidate `best` by `b`. As in the source: 'B' keeps the
      largest hole and 'W' the smallest, the reverse of the comments there. */
  predicate Better(strategy: char, b: Block, best: Block) {
    || (strategy == 'B' && Size(b) > Size(best))
    || (strategy == 'W' && Size(b) < Size(best))
  }

  predicate Known(strategy: char) {
    strategy == 'F' || strategy == 'B' || strategy == 'W'
  }

  /** The region chosen among the first n, or -1: for 'F' the first that fits, for 'B' the leftmost
      of the largest, for 'W' the leftmost of the smallest that fit. */
  function Dest(bs: seq<Block>, size: nat, strategy: char, n: nat): (k: int)
    requires n <= |bs|
    ensures -1 <= k < n
    ensures strategy != 'F' && strategy != 'B' && strategy != 'W' ==> k == -1
    ensures k >= 0 ==> bs[k].name == None && bs[k].end - bs[k].begin + 1 >= size
    ensures k == -1 && (strategy == 'F' || strategy == 'B' || strategy == 'W') ==>
              forall i :: 0 <= i < n ==> !Fits(bs[i], size)
  {
    if n == 0 || !Known(strategy) then -1
    else
      var k := Dest(bs, size, strategy, n - 1);
      if Fits(bs[n - 1], size) && (k == -1 || Better(strategy, bs[n - 1], bs[k])) then n - 1 else k
  }

  /** What replaces the chosen hole: the named part and, unless it fits exactly, the rest. */
  function Halves(b: Block, name: string, size: nat): seq<Block> {
    if Size(b) == size then [b.(name := Some(name))]
    else [Block(b.begin, b.begin + size - 1, Some(name)), Block(b.begin + size, b.end, None)]
  }

  /** Names the region k, splitting off the part that is not needed. */
  function Place(bs: seq<Block>, k: nat, name: string, size: nat): seq<Block>
    requires k < |bs|
  {
    bs[..k] + Halves(bs[k], name, size) + bs[k + 1..]
  }

  function Request(bs: seq<Block>, name: string, size: nat, strategy: char): seq<Block> {
    var k := Dest(bs, size, strategy, |bs|);
    if k == -1 then bs else Place(bs, k, name, size)
  }

  predicate Fails(bs: seq<Block>, size: nat, strategy: char) {
    Dest(bs, size, strategy, |bs|) == -1
  }

  /** Region k is the one that the strategy's letter asks for. */
  ghost predicate Chosen(bs: seq<Block>, size: nat, strategy: char, k: nat) {
    && k < |bs| && bs[k].name == None && Size(bs[k]) >= size
    && forall i :: 0 <= i < |bs| && bs[i].name == None && Size(bs[i]) >= size ==>
         match strategy
         case 'F' => k <= i
         case 'B' => Size(bs[i]) <= Size(bs[k]) && (i < k ==> Size(bs[i]) < Size(bs[k]))
         case 'W' => Size(bs[i]) >= Size(bs[k]) && (i < k ==> Size(bs[i]) > Size(bs[k]))
         case _ => false
  }

  /** r is bs after the first `size` addresses of region k got the name. */
  ghost predicate Taken(bs: seq<Block>, k: nat, name: string, size: nat, r: seq<Block>) {
    && k < |bs| && k < |r| && r[..k] == bs[..k]
    && r[k] == Block(bs[k].begin, bs[k].begin + size - 1, Some(name))
    && if Size(bs[k]) == size then r[k + 1..] == bs[k + 1..]
       else r[k + 1..] == [Block(bs[k].begin + size, bs[k].end, None)] + bs[k + 1..]
  }

  /** The scan's decision about one more region. */
  lemma DestStep(bs: seq<Block>, size: nat, strategy: char, i: nat)
    requires i < |bs| && (strategy == 'B' || strategy == 'W')
    ensures var k := Dest(bs, size, strategy, i);
            Dest(bs, size, strategy, i + 1)
            == if Fits(bs[i], size)
                  && (k == -1 || if strategy == 'B' then Size(bs[i]) > Size(bs[k]) else Size(bs[i]) < Size(bs[k]))
               then i else k
  {
  }

  /** The letters: 'F' takes the first region that fits, 'B' the first of the largest, 'W' the first
      of the smallest. */
  lemma {:induction false} DestByLetter(bs: seq<Block>, size: nat, strategy: char, n: nat)
    requires n <= |bs| && Dest(bs, size, strategy, n) >= 0
    ensures var k := Dest(bs, size, strategy, n);
            forall i :: 0 <= i < n && Fits(bs[i], size) ==>
              && (strategy == 'F' ==> k <= i)
              && (strategy == 'B' ==> Size(bs[i]) <= Size(bs[k]) && (i < k ==> Size(bs[i]) < Size(bs[k])))
              && (strategy == 'W' ==> Size(bs[i]) >= Size(bs[k]) && (i < k ==> Size(bs[i]) > Size(bs[k])))
  {
    if n == 0 {
    } else if Dest(bs, size, strategy, n - 1) >= 0 {
      DestByLetter(bs, size, strategy, n - 1);
    }
  }

  lemma DestIsChosen(bs: seq<Block>, size: nat, strategy: char)
    requires Dest(bs, size, strategy, |bs|) >= 0
    ensures Chosen(bs, size, strategy, Dest(bs, size, strategy, |bs|))
  {
    DestByLetter(bs, size, strategy, |bs|);
    hide Dest;
    assert forall i :: 0 <= i < |bs| ==> (Fits(bs[i], size) <==> bs[i].name == None && Size(bs[i]) >= size);
  }

  ghost predicate SomeFits(bs: seq<Block>, size: nat) {
    exists i :: 0 <= i < |bs| && bs[i].name == None && Size(bs[i]) >= size
  }

  lemma DestIff(bs: seq<Block>, size: nat, strategy: char)
    ensures Dest(bs, size, strategy, |bs|) >= 0 <==> Known(strategy) && SomeFits(bs, size)
  {
    var k := Dest(bs, size, strategy, |bs|);
    hide Dest;
    if Known(strategy) && SomeFits(bs, size) {
      var i :| 0 <= i < |bs| && bs[i].name == None && Size(bs[i]) >= size;
      assert Fits(bs[i], size);
    }
  }

  /** A request takes the region its letter asks for, and is refused only if no region fits or the
      letter is unknown. */
  lemma RequestTakes(bs: seq<Block>, name: string, size: nat, strategy: char)
    ensures var k, r := Dest(bs, size, strategy, |bs|), Request(bs, name, size, strategy);
            && (k >= 0 ==> Chosen(bs, size, strategy, k) && Taken(bs, k, name, size, r))
            && (k == -1 ==> r == bs)
            && (k >= 0 <==> Known(strategy) && SomeFits(bs, size))
  {
    hide Dest, Place, Chosen, Taken, SomeFits;
    var k := Dest(bs, size, strategy, |bs|);
    DestIff(bs, size, strategy);
    if k >= 0 {
      DestIsChosen(bs, size, strategy);
      PlaceTakes(bs, k, name, size);
    }
  }

  lemma PlaceTakes(bs: seq<Block>, k: nat, name: string, size: nat)
    requires k < |bs|
    ensures Taken(bs, k, name, size, Place(bs, k, name, size))
  {
  }

  // ---------- release ----------

  function Clear(o: Owner, name: string): Owner {
    if o == Some(name) then None else o
  }

  function ClearBlock(b: Block, name: string): Block {
    b.(name := Clear(b.name, name))
  }

  function Last(bs: seq<Block>): Block
    requires bs != []
  {
    bs[|bs| - 1]
  }

  /** The end of the list already passed, after the next region joins it: it swallows an
      unused predecessor when it is unused itself. */
  function Append(done: seq<Block>, b: Block): seq<Block> {
    if b.name.None? && done != [] && Last(done).name.None?
    then done[..|done| - 1] + [b.(begin := Last(done).begin)]
    else done + [b]
  }

  /** The single pass of release() over `rest`, with `done` behind it. */
  function Pass(done: seq<Block>, rest: seq<Block>, name: string): seq<Block>
    decreases |rest|
  {
    if rest == [] then done
    else Pass(Append(done, ClearBlock(rest[0], name)), rest[1..], name)
  }

  function Release(bs: seq<Block>, name: string): seq<Block> {
    Pass([], bs, name)
  }

  // ---------- the memory the regions stand for ----------

  /** The owners of the addresses, from the first region's begin on. */
  function Expand(bs: seq<Block>): (cells: seq<Owner>) {
    if bs == [] then [] else Cells(bs[0]) + Expand(bs[1..])
  }

  function Cells(b: Block): seq<Owner> {
    if Size(b) <= 0 then [] else Same(b.name, Size(b))
  }

  function Same(o: Owner, n: nat): seq<Owner> {
    seq(n, _ => o)
  }

  /** The regions tile [lo, hi] in order, without gap, overlap or empty region. */
  ghost predicate Tiles(bs: seq<Block>, lo: int, hi: int)
    decreases |bs|
  {
    if bs == [] then lo == hi + 1
    else bs[0].begin == lo <= bs[0].end && Tiles(bs[1..], bs[0].end + 1, hi)
  }

  ghost predicate Coalesced(bs: seq<Block>) {
    forall i :: 0 <= i < |bs| - 1 ==> bs[i].name.Some? || bs[i + 1].name.Some?
  }

  ghost predicate Aligned(bs: seq<Block>) {
    forall i :: 0 <= i < |bs| ==> bs[i].begin % PAGE == 0
  }

  ghost predicate Inv(bs: seq<Block>, memory: int) {
    bs != [] && Tiles(bs, 0, memory - 1) && Coalesced(bs) && Aligned(bs)
  }

  /** A run of `size` consecutive unused addresses starting at address a. */
  ghost predicate FreeRun(cells: seq<Owner>, a: int, size: nat) {
    0 <= a <= a + size <= |cells| && forall i :: a <= i < a + size ==> cells[i] == None
  }

  ghost predicate HasFreeRun(cells: seq<Owner>, size: nat) {
    exists a :: FreeRun(cells, a, size)
  }

  lemma {:induction false} ExpandConcat(a: seq<Block>, b: seq<Block>)
    ensures Expand(a + b) == Expand(a) + Expand(b)
    decreases |a|
  {
    if a == [] {
      assert a + b == b;
    } else {
      assert (a + b)[1..] == a[1..] + b;
      ExpandConcat(a[1..], b);
    }
  }

  lemma {:induction false} TilesConcat(a: seq<Block>, b: seq<Block>, lo: int, mid: int, hi: int)
    requires mid == lo + |Expand(a)|
    ensures Tiles(a, lo, mid - 1) && Tiles(b, mid, hi) ==> Tiles(a + b, lo, hi)
    ensures Tiles(a + b, lo, hi) ==> Tiles(a, lo, mid - 1) && Tiles(b, mid, hi)
    decreases |a|
  {
    if a == [] {
      assert a + b == b;
    } else {
      assert (a + b)[1..] == a[1..] + b;
      if a[0].begin == lo <= a[0].end {
        TilesConcat(a[1..], b, a[0].end + 1, mid, hi);
      }
    }
  }

  /** Regions that tile [lo, hi] own hi - lo + 1 addresses in all. */
  lemma {:induction false} TilesLength(bs: seq<Block>, lo: int, hi: int)
    requires Tiles(bs, lo, hi)
    ensures |Expand(bs)| == hi - lo + 1
    decreases |bs|
  {
    if bs == [] {
    } else {
      TilesLength(bs[1..], bs[0].end + 1, hi);
    }
  }

  /** The map really is by address: the cells of a region are those at its addresses. */
  lemma {:induction false} CellsAtAddresses(bs: seq<Block>, lo: int, hi: int, k: nat, a: int)
    requires Tiles(bs, lo, hi) && k < |bs| && bs[k].begin <= a <= bs[k].end
    ensures lo <= a <= hi && |Expand(bs)| == hi - lo + 1
    ensures Expand(bs)[a - lo] == bs[k].name
    decreases k
  {
    TilesLength(bs, lo, hi);
    TilesLength(bs[1..], bs[0].end + 1, hi);
    if k == 0 {
    } else {
      CellsAtAddresses(bs[1..], bs[0].end + 1, hi, k - 1, a);
    }
  }

  /** The regions before and from k meet at the begin of k. */
  lemma SplitAt(bs: seq<Block>, lo: int, hi: int, k: nat)
    requires Tiles(bs, lo, hi) && k < |bs|
    ensures bs[k].begin == lo + |Expand(bs[..k])|
    ensures Tiles(bs[..k], lo, bs[k].begin - 1) && Tiles(bs[k + 1..], bs[k].end + 1, hi)
    ensures bs[k].begin <= bs[k].end
    ensures Expand(bs) == Expand(bs[..k]) + Cells(bs[k]) + Expand(bs[k + 1..])
  {
    var mid := lo + |Expand(bs[..k])|;
    assert bs == bs[..k] + bs[k..];
    TilesConcat(bs[..k], bs[k..], lo, mid, hi);
    ExpandConcat(bs[..k], bs[k..]);
    assert bs[k..][1..] == bs[k + 1..];
  }

  lemma Join(a: seq<Block>, b: seq<Block>, c: seq<Block>, lo: int, m1: int, m2: int, hi: int)
    requires Tiles(a, lo, m1 - 1) && Tiles(b, m1, m2 - 1) && Tiles(c, m2, hi)
    ensures Tiles(a + b + c, lo, hi)
    ensures Expand(a + b + c) == Expand(a) + Expand(b) + Expand(c)
  {
    TilesLength(a, lo, m1 - 1);
    TilesLength(b, m1, m2 - 1);
    TilesConcat(a, b, lo, m1, m2 - 1);
    ExpandConcat(a, b);
    TilesConcat(a + b, c, lo, m2, hi);
    ExpandConcat(a + b, c);
  }

  /** The cells with [from, to) given to `o`. */
  function Fill(cells: seq<Owner>, from: int, to: int, o: Owner): seq<Owner> {
    seq(|cells|, i requires 0 <= i < |cells| => if from <= i < to then o else cells[i])
  }

  lemma HalvesTile(b: Block, name: string, size: nat)
    requires 0 < size <= Size(b)
    ensures Tiles(Halves(b, name, size), b.begin, b.end)
    ensures Expand(Halves(b, name, size)) == Same(Some(name), size) + Same(None, Size(b) - size)
  {
    var h := Halves(b, name, size);
    if Size(b) != size {
      assert h[1..] == [h[1]] && h[1..][1..] == [];
      assert Expand(h[1..]) == Cells(h[1]);
    } else {
      assert h[1..] == [];
    }
  }

  lemma FillMiddle(a: seq<Owner>, c: seq<Owner>, n: nat, size: nat, o: Owner)
    requires size <= n
    ensures a + (Same(o, size) + Same(None, n - size)) + c
            == Fill(a + Same(None, n) + c, |a|, |a| + size, o)
  {
  }

  lemma PlaceExpands(bs: seq<Block>, k: nat, name: string, size: nat, memory: int)
    requires Tiles(bs, 0, memory - 1) && k < |bs| && 0 < size <= Size(bs[k])
    ensures Tiles(Place(bs, k, name, size), 0, memory - 1)
    ensures Expand(Place(bs, k, name, size))
         == Expand(bs[..k]) + (Same(Some(name), size) + Same(None, Size(bs[k]) - size)) + Expand(bs[k + 1..])
  {
    hide Tiles, Expand;
    var b := bs[k];
    SplitAt(bs, 0, memory - 1, k);
    HalvesTile(b, name, size);
    Join(bs[..k], Halves(b, name, size), bs[k + 1..], 0, b.begin, b.end + 1, memory - 1);
  }

  lemma FitGivesRun(bs: seq<Block>, size: nat, memory: int, k: nat)
    requires Tiles(bs, 0, memory - 1) && k < |bs| && Fits(bs[k], size)
    ensures FreeRun(Expand(bs), bs[k].begin, size)
  {
    SplitAt(bs, 0, memory - 1, k);
  }

  lemma HoleCells(bs: seq<Block>, k: nat, memory: int)
    requires Tiles(bs, 0, memory - 1) && k < |bs| && bs[k].name.None?
    ensures bs[k].begin == |Expand(bs[..k])| && Size(bs[k]) > 0
    ensures Expand(bs) == Expand(bs[..k]) + Same(None, Size(bs[k])) + Expand(bs[k + 1..])
  {
    SplitAt(bs, 0, memory - 1, k);
  }

  lemma PlaceOwns(bs: seq<Block>, k: nat, name: string, size: nat, memory: int)
    requires Tiles(bs, 0, memory - 1) && 0 < size && k < |bs| && Fits(bs[k], size)
    ensures Expand(Place(bs, k, name, size)) == Fill(Expand(bs), bs[k].begin, bs[k].begin + size, Some(name))
  {
    HoleCells(bs, k, memory);
    PlaceExpands(bs, k, name, size, memory);
    FillMiddle(Expand(bs[..k]), Expand(bs[k + 1..]), Size(bs[k]), size, Some(name));
  }

  /** A successful request takes exactly `size` addresses from the begin of the chosen region,
      all of them unused before, and touches no other address. */
  lemma RequestOwns(bs: seq<Block>, name: string, size: nat, strategy: char, memory: int)
    requires Tiles(bs, 0, memory - 1) && size > 0 && !Fails(bs, size, strategy)
    ensures var k := Dest(bs, size, strategy, |bs|);
            && FreeRun(Expand(bs), bs[k].begin, size)
            && Expand(Request(bs, name, size, strategy))
               == Fill(Expand(bs), bs[k].begin, bs[k].begin + size, Some(name))
            && Tiles(Request(bs, name, size, strategy), 0, memory - 1)
  {
    hide Tiles, Expand, FreeRun;
    FitGivesRun(bs, size, memory, Dest(bs, size, strategy, |bs|));
    PlaceOwns(bs, Dest(bs, size, strategy, |bs|), name, size, memory);
    PlaceExpands(bs, Dest(bs, size, strategy, |bs|), name, size, memory);
  }

  lemma RequestKeepsCoalesced(bs: seq<Block>, name: string, size: nat, strategy: char)
    requires Coalesced(bs)
    ensures Coalesced(Request(bs, name, size, strategy))
  {
  }

  lemma RequestKeepsAligned(bs: seq<Block>, name: string, size: nat, strategy: char)
    requires Aligned(bs) && size % PAGE == 0
    ensures Aligned(Request(bs, name, size, strategy))
  {
  }

  /** A zero size breaks the tiling, and only a zero size: exactly when it finds a hole,
      because the named region it leaves is empty. */
  lemma RequestKeepsTilesIff(bs: seq<Block>, name: string, size: nat, strategy: char, memory: int)
    requires Tiles(bs, 0, memory - 1)
    ensures Tiles(Request(bs, name, size, strategy), 0, memory - 1) <==> size > 0 || Fails(bs, size, strategy)
  {
    if !Fails(bs, size, strategy) {
      if size > 0 {
        RequestOwns(bs, name, size, strategy, memory);
      } else {
        EmptyPlaceBreaksTiles(bs, Dest(bs, size, strategy, |bs|), name, memory);
      }
    }
  }

  /** Which zero requests are refused: those with an unknown strategy, and all when no region is
      unused. */
  lemma ZeroFailsIff(bs: seq<Block>, strategy: char, memory: int)
    requires Tiles(bs, 0, memory - 1)
    ensures Fails(bs, 0, strategy) <==> !Known(strategy) || forall i :: 0 <= i < |bs| ==> bs[i].name.Some?
  {
    if Fails(bs, 0, strategy) && Known(strategy) {
      forall i | 0 <= i < |bs| ensures bs[i].name.Some? {
        SplitAt(bs, 0, memory - 1, i);
        assert !Fits(bs[i], 0);
      }
    }
  }

  lemma EmptyPlaceBreaksTiles(bs: seq<Block>, k: nat, name: string, memory: int)
    requires Tiles(bs, 0, memory - 1) && k < |bs|
    ensures !Tiles(Place(bs, k, name, 0), 0, memory - 1)
  {
    SplitAt(bs, 0, memory - 1, k);
    var r := Place(bs, k, name, 0);
    if Tiles(r, 0, memory - 1) {
      SplitAt(r, 0, memory - 1, k);
    }
  }

  // ---------- a request fails exactly when no run is free ----------

  /** In coalesced memory a free run lies inside one region. */
  lemma {:induction false} RunGivesFit(bs: seq<Block>, lo: int, hi: int, a: int, size: nat)
    requires Tiles(bs, lo, hi) && Coalesced(bs) && size > 0
    requires FreeRun(Expand(bs), a, size)
    ensures exists k :: 0 <= k < |bs| && Fits(bs[k], size)
    decreases |bs|
  {
    var b, rest := bs[0], bs[1..];
    var n := Size(b);
    if a < n {
      assert Expand(bs)[a] == b.name;
      if rest != [] {
        assert bs[1] == rest[0] && rest[0].name.Some?;
        assert Expand(bs)[n] == Expand(rest)[0] == rest[0].name;
      }
      assert Fits(bs[0], size);
    } else {
      forall i | a - n <= i < a - n + size ensures Expand(rest)[i] == None {
        assert Expand(bs)[i + n] == None;
      }
      assert Coalesced(rest) by {
        assert forall i :: 0 <= i < |rest| ==> rest[i] == bs[i + 1];
      }
      RunGivesFit(rest, b.end + 1, hi, a - n, size);
      var k :| 0 <= k < |rest| && Fits(rest[k], size);
      assert Fits(bs[k + 1], size);
    }
  }

  /** F, B and W refuse a request exactly when no run of `size` addresses is unused. */
  lemma FailsIffNoFreeRun(bs: seq<Block>, size: nat, strategy: char, memory: int)
    requires Inv(bs, memory) && size > 0 && Known(strategy)
    ensures Fails(bs, size, strategy) <==> !HasFreeRun(Expand(bs), size)
  {
    if HasFreeRun(Expand(bs), size) {
      var a :| FreeRun(Expand(bs), a, size);
      RunGivesFit(bs, 0, memory - 1, a, size);
    }
    if !Fails(bs, size, strategy) {
      FitGivesRun(bs, size, memory, Dest(bs, size, strategy, |bs|));
    }
  }

  /** A negative size becomes an enormous one, which nothing fits. */
  lemma NegativeRequestFails(bs: seq<Block>, name: string, processSize: int, strategy: char, memory: int)
    requires Tiles(bs, 0, memory - 1) && memory < 0x8000_0000 && -0x8000_0000 <= processSize <= -PAGE
    ensures Request(bs, name, Requested(processSize), strategy) == bs
  {
    var size := Requested(processSize);
    assert size >= 0x8000_0000;
    hide Requested, Tiles;
    if !Fails(bs, size, strategy) {
      RegionIsSmall(bs, memory, Dest(bs, size, strategy, |bs|));
    }
  }

  lemma RegionIsSmall(bs: seq<Block>, memory: int, k: nat)
    requires Tiles(bs, 0, memory - 1) && k < |bs|
    ensures Size(bs[k]) <= memory
  {
    SplitAt(bs, 0, memory - 1, k);
    TilesLength(bs, 0, memory - 1);
  }

  // ---------- release ----------

  function ClearCells(cells: seq<Owner>, name: string): seq<Owner> {
    seq(|cells|, i requires 0 <= i < |cells| => Clear(cells[i], name))
  }

  lemma SingleTile(b: Block, lo: int)
    requires b.begin == lo <= b.end
    ensures Tiles([b], lo, b.end) && Expand([b]) == Cells(b)
  {
  }

  /** Merging an unused region into its unused predecessor keeps the memory as it is. */
  lemma MergeFacts(done: seq<Block>, b: Block, lo: int)
    requires done != [] && Tiles(done, lo, b.begin - 1) && b.begin <= b.end
    requires b.name.None? && Last(done).name.None?
    ensures Tiles(Append(done, b), lo, b.end)
    ensures Expand(Append(done, b)) == Expand(done) + Cells(b)
  {
    var k := |done| - 1;
    SplitAt(done, lo, b.begin - 1, k);
    assert done[k + 1..] == [];
    var merged := b.(begin := done[k].begin);
    SingleTile(merged, merged.begin);
    Join(done[..k], [merged], [], lo, merged.begin, b.end + 1, b.end);
    assert done[..k] + [merged] + [] == Append(done, b);
    assert Cells(merged) == Cells(done[k]) + Cells(b);
  }

  lemma AppendFacts(done: seq<Block>, b: Block, lo: int)
    requires Tiles(done, lo, b.begin - 1) && b.begin <= b.end
    ensures Tiles(Append(done, b), lo, b.end)
    ensures Expand(Append(done, b)) == Expand(done) + Cells(b)
  {
    if b.name.None? && done != [] && Last(done).name.None? {
      MergeFacts(done, b, lo);
    } else {
      SingleTile(b, b.begin);
      Join(done, [b], [], lo, b.begin, b.end + 1, b.end);
      assert done + [b] + [] == Append(done, b);
      assert Expand([]) == [];
    }
  }

  lemma ClearStep(rest: seq<Block>, name: string)
    requires rest != []
    ensures ClearCells(Expand(rest), name)
            == Cells(ClearBlock(rest[0], name)) + ClearCells(Expand(rest[1..]), name)
  {
  }

  /** One pass frees exactly the addresses of `name`, however many regions bear the name. */
  lemma {:induction false} PassFrees(done: seq<Block>, rest: seq<Block>, name: string, lo: int, mid: int, hi: int)
    requires Tiles(done, lo, mid - 1) && Tiles(rest, mid, hi)
    ensures Tiles(Pass(done, rest, name), lo, hi)
    ensures Expand(Pass(done, rest, name)) == Expand(done) + ClearCells(Expand(rest), name)
    decreases |rest|
  {
    if rest == [] {
      assert ClearCells([], name) == [];
    } else {
      var b := ClearBlock(rest[0], name);
      AppendFacts(done, b, lo);
      PassFrees(Append(done, b), rest[1..], name, lo, b.end + 1, hi);
      ClearStep(rest, name);
      Associative(Expand(done), Cells(b), ClearCells(Expand(rest[1..]), name));
    }
  }

  /** One pass coalesces everything, whatever the list was like before. */
  lemma {:induction false} PassCoalesces(done: seq<Block>, rest: seq<Block>, name: string)
    requires Coalesced(done) && Aligned(done) && Aligned(rest)
    ensures Coalesced(Pass(done, rest, name)) && Aligned(Pass(done, rest, name))
    ensures done != [] || rest != [] ==> Pass(done, rest, name) != []
    decreases |rest|
  {
    if rest == [] {
    } else {
      PassCoalesces(Append(done, ClearBlock(rest[0], name)), rest[1..], name);
    }
  }

  lemma ReleaseFacts(bs: seq<Block>, name: string, memory: int)
    requires bs != [] && Tiles(bs, 0, memory - 1) && Aligned(bs)
    ensures Inv(Release(bs, name), memory)
    ensures Expand(Release(bs, name)) == ClearCells(Expand(bs), name)
  {
    PassFrees([], bs, name, 0, 0, memory - 1);
    PassCoalesces([], bs, name);
    assert Expand([]) + ClearCells(Expand(bs), name) == ClearCells(Expand(bs), name);
  }

  /** Every address owned by the name is unused afterwards, and no other changes its owner. */
  lemma ReleaseFrees(bs: seq<Block>, name: string, memory: int)
    requires bs != [] && Tiles(bs, 0, memory - 1)
    ensures var before, after := Expand(bs), Expand(Release(bs, name));
            && |before| == |after| == memory
            && forall a :: 0 <= a < memory ==> after[a] == if before[a] == Some(name) then None else before[a]
  {
    PassFrees([], bs, name, 0, 0, memory - 1);
    TilesLength(bs, 0, memory - 1);
    assert Expand([]) + ClearCells(Expand(bs), name) == ClearCells(Expand(bs), name);
  }

  function IfNamed(b: Block, except: Owner): seq<Block> {
    if b.name.Some? && b.name != except then [b] else []
  }

  /** The regions with a name other than `except`. */
  function Named(bs: seq<Block>, except: Owner): seq<Block> {
    if bs == [] then [] else IfNamed(bs[0], except) + Named(bs[1..], except)
  }

  lemma {:induction false} NamedSnoc(bs: seq<Block>, b: Block, except: Owner)
    ensures Named(bs + [b], except) == Named(bs, except) + IfNamed(b, except)
    decreases |bs|
  {
    hide IfNamed;
    if bs == [] {
      assert bs + [b] == [b];
    } else {
      assert (bs + [b])[1..] == bs[1..] + [b];
      NamedSnoc(bs[1..], b, except);
    }
  }

  lemma NamedAppend(done: seq<Block>, b: Block)
    ensures Named(Append(done, b), None) == Named(done, None) + IfNamed(b, None)
  {
    NamedSnoc(done, b, None);
    if b.name.None? && done != [] && Last(done).name.None? {
      var init := done[..|done| - 1];
      assert done == init + [Last(done)];
      NamedSnoc(init, Last(done), None);
      NamedSnoc(init, b.(begin := Last(done).begin), None);
    }
  }

  lemma {:induction false} PassKeepsNamed(done: seq<Block>, rest: seq<Block>, name: string)
    ensures Named(Pass(done, rest, name), None) == Named(done, None) + Named(rest, Some(name))
    decreases |rest|
  {
    if rest == [] {
    } else {
      var b := ClearBlock(rest[0], name);
      NamedAppend(done, b);
      PassKeepsNamed(Append(done, b), rest[1..], name);
      assert IfNamed(b, None) == IfNamed(rest[0], Some(name));
      Associative(Named(done, None), IfNamed(b, None), Named(rest[1..], Some(name)));
    }
  }

  /** The regions of other names stay as they are, each by itself. */
  lemma ReleaseKeepsOthers(bs: seq<Block>, name: string)
    ensures Named(Release(bs, name), None) == Named(bs, Some(name))
  {
    PassKeepsNamed([], bs, name);
  }

  // ---------- every call sequence ----------

  datatype Command = RQ(name: string, processSize: int, strategy: char) | RL(name: string)

  function Execute(bs: seq<Block>, c: Command): seq<Block> {
    match c
    case RQ(name, processSize, strategy) => Request(bs, name, Requested(processSize), strategy)
    case RL(name) => Release(bs, name)
  }

  function Run(bs: seq<Block>, cs: seq<Command>): seq<Block>
    decreases |cs|
  {
    if cs == [] then bs else Run(Execute(bs, cs[0]), cs[1..])
  }

  /** main's initial list: one unused region. */
  function Initial(memory: int): seq<Block> {
    [Block(0, memory - 1, None)]
  }

  /** Not a request for nothing, unless its strategy is unknown or no region is unused. */
  predicate Harmless(bs: seq<Block>, c: Command) {
    c.RQ? && Requested(c.processSize) == 0 ==>
      !Known(c.strategy) || forall i :: 0 <= i < |bs| ==> bs[i].name.Some?
  }

  /** Exactly the harmless commands keep the invariant. */
  lemma ExecuteKeepsInvIff(bs: seq<Block>, c: Command, memory: int)
    requires Inv(bs, memory)
    ensures Inv(Execute(bs, c), memory) <==> Harmless(bs, c)
  {
    match c
    case RQ(name, processSize, strategy) =>
      var size := Requested(processSize);
      RequestKeepsTilesIff(bs, name, size, strategy, memory);
      RequestKeepsCoalesced(bs, name, size, strategy);
      RequestKeepsAligned(bs, name, size, strategy);
      ZeroFailsIff(bs, strategy, memory);
    case RL(name) =>
      ReleaseFacts(bs, name, memory);
  }

  /** A run of `size` unused addresses got the name, and no other address changed its owner. */
  ghost predicate Given(before: seq<Owner>, after: seq<Owner>, name: string, size: nat) {
    exists from :: FreeRun(before, from, size) && GivenFrom(before, after, name, size, from)
  }

  ghost predicate GivenFrom(before: seq<Owner>, after: seq<Owner>, name: string, size: nat, from: int) {
    |after| == |before| && forall a :: 0 <= a < |before| ==>
      after[a] == if from <= a < from + size then Some(name) else before[a]
  }

  lemma RequestGives(bs: seq<Block>, name: string, size: nat, strategy: char, memory: int)
    requires Tiles(bs, 0, memory - 1) && size > 0 && !Fails(bs, size, strategy)
    ensures Given(Expand(bs), Expand(Request(bs, name, size, strategy)), name, size)
  {
    hide Tiles, Expand, FreeRun;
    RequestOwns(bs, name, size, strategy, memory);
    var from := bs[Dest(bs, size, strategy, |bs|)].begin;
    assert GivenFrom(Expand(bs), Fill(Expand(bs), from, from + size, Some(name)), name, size, from);
  }

  /** What a command does to the addresses: a release frees exactly those of its name; a request
      gives exactly as many as it asks for if so many in a row are unused, and changes nothing
      otherwise. */
  ghost predicate Effect(before: seq<Owner>, after: seq<Owner>, c: Command) {
    match c
    case RL(name) =>
      |after| == |before| && forall a :: 0 <= a < |before| ==>
        after[a] == if before[a] == Some(name) then None else before[a]
    case RQ(name, processSize, strategy) =>
      if Requested(processSize) > 0 && Known(strategy) && HasFreeRun(before, Requested(processSize))
      then Given(before, after, name, Requested(processSize))
      else after == before
  }

  lemma CommandEffect(bs: seq<Block>, c: Command, memory: int)
    requires Inv(bs, memory) && Harmless(bs, c)
    ensures Effect(Expand(bs), Expand(Execute(bs, c)), c)
  {
    match c
    case RL(name) => ReleaseFrees(bs, name, memory);
    case RQ(name, processSize, strategy) =>
      hide Tiles, Expand, Coalesced, Aligned, HasFreeRun, FreeRun, Given, Requested, SomeFits, Dest;
      var size := Requested(processSize);
      ZeroFailsIff(bs, strategy, memory);
      DestIff(bs, size, strategy);
      if size > 0 && Known(strategy) {
        FailsIffNoFreeRun(bs, size, strategy, memory);
      }
      if !Fails(bs, size, strategy) {
        RequestGives(bs, name, size, strategy, memory);
      }
  }

  predicate AllHarmless(bs: seq<Block>, cs: seq<Command>)
    decreases |cs|
  {
    cs == [] || (Harmless(bs, cs[0]) && AllHarmless(Execute(bs, cs[0]), cs[1..]))
  }

  lemma {:induction false} RunKeepsInv(bs: seq<Block>, cs: seq<Command>, memory: int)
    requires Inv(bs, memory) && AllHarmless(bs, cs)
    ensures Inv(Run(bs, cs), memory)
    decreases |cs|
  {
    if cs == [] {
    } else {
      ExecuteKeepsInvIff(bs, cs[0], memory);
      RunKeepsInv(Execute(bs, cs[0]), cs[1..], memory);
    }
  }

  /** After any harmless commands, the regions tile the memory in aligned, coalesced regions, and a
      request is refused exactly when no run of that many addresses is unused. */
  lemma ReachableMemory(memory: int, cs: seq<Command>, size: nat, strategy: char)
    requires memory > 0 && AllHarmless(Initial(memory), cs) && size > 0 && Known(strategy)
    ensures var bs := Run(Initial(memory), cs);
            Inv(bs, memory) && (Fails(bs, size, strategy) <==> !HasFreeRun(Expand(bs), size))
  {
    assert Inv(Initial(memory), memory);
    RunKeepsInv(Initial(memory), cs, memory);
    FailsIffNoFreeRun(Run(Initial(memory), cs), size, strategy, memory);
  }

  /** A takes half of the memory, Z asks for zero bytes, A releases. */
  function ZeroRequest(): seq<Command> {
    [RQ("A", 4096, 'F'), RQ("Z", 0, 'F'), RL("A")]
  }

  /** What is left of 8192 bytes, all unused but in pieces around Z's empty region. */
  function InPieces(): seq<Block> {
    [Block(0, 4095, None), Block(4096, 4095, Some("Z")), Block(4096, 8191, None)]
  }

  /** After a request for zero bytes all the memory can be unused and a request for it refused. */
  lemma ZeroRequestLosesMemory()
    ensures Run(Initial(8192), ZeroRequest()) == InPieces()
    ensures Fails(InPieces(), 8192, 'F') && HasFreeRun(Expand(InPieces()), 8192)
  {
    PiecesLeft();
    PiecesRefuse();
    PiecesAreUnused();
  }

  function AfterA(): seq<Block> {
    [Block(0, 4095, Some("A")), Block(4096, 8191, None)]
  }

  function AfterZ(): seq<Block> {
    [Block(0, 4095, Some("A")), Block(4096, 4095, Some("Z")), Block(4096, 8191, None)]
  }

  lemma TakeA()
    ensures Request(Initial(8192), "A", 4096, 'F') == AfterA()
  {
  }

  lemma TakeZ()
    ensures Request(AfterA(), "Z", 0, 'F') == AfterZ()
  {
    assert Dest(AfterA(), 0, 'F', 2) == 1;
  }

  lemma FreeA()
    ensures Release(AfterZ(), "A") == InPieces()
  {
    var bs := AfterZ();
    assert Append([], ClearBlock(bs[0], "A")) == InPieces()[..1];
    assert Append(InPieces()[..1], bs[1]) == InPieces()[..2];
    assert Append(InPieces()[..2], bs[2]) == InPieces();
    assert bs[1..][1..][1..] == [] && bs[1..][1..][0] == bs[2];
    hide Append;
  }

  lemma PiecesLeft()
    ensures Run(Initial(8192), ZeroRequest()) == InPieces()
  {
    var cs := ZeroRequest();
    TakeA();
    TakeZ();
    FreeA();
    assert Requested(4096) == 4096 && Requested(0) == 0;
    hide Request, Release, Initial, AfterA, AfterZ, InPieces, Requested;
    assert cs[1..][0] == cs[1] && cs[1..][1..][0] == cs[2] && cs[1..][1..][1..] == [];
    assert Run(AfterZ(), cs[1..][1..]) == InPieces();
    assert Run(AfterA(), cs[1..]) == InPieces();
  }

  lemma PiecesRefuse()
    ensures Fails(InPieces(), 8192, 'F')
  {
  }

  lemma PiecesAreUnused()
    ensures HasFreeRun(Expand(InPieces()), 8192)
  {
    var bs := InPieces();
    assert bs[1..][1..][1..] == [];
    assert Expand(bs) == Same(None, 4096) + Same(None, 4096);
    assert FreeRun(Expand(bs), 0, 8192);
  }

  // ---------- a request undone by a release ----------

  predicate Fresh(bs: seq<Block>, name: string) {
    forall i :: 0 <= i < |bs| ==> bs[i].name != Some(name)
  }

  /** Some region bears the name. */
  ghost predicate Bears(bs: seq<Block>, name: string) {
    exists i :: 0 <= i < |bs| && bs[i].name == Some(name)
  }

  lemma BearsIff(bs: seq<Block>, name: string)
    ensures Bears(bs, name) <==> !Fresh(bs, name)
  {
  }

  /** Passing over regions that need neither clearing nor merging changes nothing. */
  lemma {:induction false} PassUnchanged(done: seq<Block>, keep: seq<Block>, rest: seq<Block>, name: string)
    requires Coalesced(done + keep) && Fresh(keep, name)
    ensures Pass(done, keep + rest, name) == Pass(done + keep, rest, name)
    decreases |keep|
  {
    if keep == [] {
      assert keep + rest == rest && done + keep == done;
    } else {
      assert keep[0].name != Some(name);
      if done != [] {
        assert (done + keep)[|done| - 1] == Last(done) && (done + keep)[|done|] == keep[0];
      }
      assert Append(done, keep[0]) == done + [keep[0]];
      assert (done + [keep[0]]) + keep[1..] == done + keep;
      assert (keep + rest)[1..] == keep[1..] + rest;
      PassUnchanged(done + [keep[0]], keep[1..], rest, name);
    }
  }

  lemma PassNext(done: seq<Block>, b: Block, rest: seq<Block>, name: string)
    ensures Pass(done, [b] + rest, name) == Pass(Append(done, ClearBlock(b, name)), rest, name)
  {
    hide Append, ClearBlock;
    assert ([b] + rest)[1..] == rest;
  }

  /** Passing over the split hole puts it back together. */
  lemma PassHalves(done: seq<Block>, b: Block, name: string, size: nat, rest: seq<Block>)
    requires Fits(b, size) && (done != [] ==> Last(done).name.Some?)
    ensures Pass(done, Halves(b, name, size) + rest, name) == Pass(done + [b], rest, name)
  {
    hide Pass;
    var h := Halves(b, name, size);
    if Size(b) == size {
      PassNext(done, h[0], rest, name);
    } else {
      var cleared := ClearBlock(h[0], name);
      assert h + rest == [h[0]] + ([h[1]] + rest);
      PassNext(done, h[0], [h[1]] + rest, name);
      assert Append(done, cleared) == done + [cleared];
      PassNext(done + [cleared], h[1], rest, name);
      assert (done + [cleared])[..|done|] == done;
    }
  }

  lemma ReleaseUndoesHalves(pre: seq<Block>, b: Block, post: seq<Block>, name: string, size: nat)
    requires Coalesced(pre + [b] + post) && Fresh(pre, name) && Fresh(post, name) && Fits(b, size)
    ensures Release(pre + Halves(b, name, size) + post, name) == pre + [b] + post
  {
    var h, bs := Halves(b, name, size), pre + [b] + post;
    assert pre + h + post == pre + (h + post);
    assert [] + pre == pre;
    assert Coalesced(pre) by {
      assert forall i :: 0 <= i < |pre| ==> pre[i] == bs[i];
    }
    PassUnchanged([], pre, h + post, name);
    assert pre != [] ==> bs[|pre| - 1] == Last(pre) && bs[|pre|] == b;
    PassHalves(pre, b, name, size, post);
    assert post + [] == post;
    PassUnchanged(pre + [b], post, [], name);
  }

  /** Under a fresh name, releasing what was requested restores the very same regions. */
  lemma RequestThenRelease(bs: seq<Block>, name: string, size: nat, strategy: char)
    requires Coalesced(bs) && Fresh(bs, name)
    ensures Release(Request(bs, name, size, strategy), name) == bs
  {
    var k := Dest(bs, size, strategy, |bs|);
    if k == -1 {
      ReleaseOfFresh(bs, name);
    } else {
        ReleaseUndoesPlace(bs, k, name, size);
    }
  }

  lemma ReleaseOfFresh(bs: seq<Block>, name: string)
    requires Coalesced(bs) && Fresh(bs, name)
    ensures Release(bs, name) == bs
  {
    assert bs + [] == bs && [] + bs == bs;
    PassUnchanged([], bs, [], name);
  }

  lemma ReleaseUndoesPlace(bs: seq<Block>, k: nat, name: string, size: nat)
    requires Coalesced(bs) && Fresh(bs, name) && k < |bs| && Fits(bs[k], size)
    ensures Release(bs[..k] + Halves(bs[k], name, size) + bs[k + 1..], name) == bs
  {
    var pre, b, post := bs[..k], bs[k], bs[k + 1..];
    assert pre + [b] + post == bs;
    ReleaseUndoesHalves(pre, b, post, name, size);
  }
}
