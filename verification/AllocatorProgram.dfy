/** The doubly linked region list of Project7/allocator.c, updated in place. The ghost field
    `nodes` lists the live regions in order; a freed region just leaves it. */
module AllocatorProgram {
  import opened Allocator
  import opened Options

  class Region {
    var begin: int
    var end: int
    var name: Owner
    var pre: Region?
    var next: Region?

    /** makeRegion: links the new region between its neighbours. An empty name leaves the
        region unused. */
    constructor (begin: int, end: int, name: string, pre: Region?, next: Region?)
      modifies if pre == null then {} else {pre}, if next == null then {} else {next}
      ensures this.begin == begin && this.end == end && this.pre == pre && this.next == next
      ensures this.name == if name == "" then None else Some(name)
      ensures pre != null ==> pre.next == this && pre.begin == old(pre.begin)
                              && pre.end == old(pre.end) && pre.name == old(pre.name)
      ensures next != null ==> next.pre == this && next.begin == old(next.begin)
                               && next.end == old(next.end) && next.name == old(next.name)
      ensures pre != null && pre != next ==> pre.pre == old(pre.pre)
      ensures next != null && pre != next ==> next.next == old(next.next)
    {
      this.begin := begin;
      this.end := end;
      this.name := if name == "" then None else Some(name);
      this.pre := pre;
      this.next := next;
      new;
      if pre != null {
        pre.next := this;
      }
      if next != null {
        next.pre := this;
      }
    }
  }

  ghost function At(nodes: seq<Region>, i: int): Region? {
    if 0 <= i < |nodes| then nodes[i] else null
  }

  /** r is s with x inserted at k. */
  ghost predicate InsertedAt<T>(s: seq<T>, k: nat, x: T, r: seq<T>) {
    && k <= |s| && |r| == |s| + 1 && r[k] == x
    && (forall j {:trigger r[j]} :: 0 <= j < k ==> r[j] == s[j])
    && (forall j {:trigger r[j]} :: k < j < |r| ==> r[j] == s[j - 1])
  }

  /** r is s without its element k. */
  ghost predicate RemovedAt<T>(s: seq<T>, k: nat, r: seq<T>) {
    && k < |s| && |r| == |s| - 1
    && (forall j {:trigger r[j]} :: 0 <= j < |r| ==> r[j] == if j < k then s[j] else s[j + 1])
  }

  lemma Insertion<T>(s: seq<T>, k: nat, x: T) returns (r: seq<T>)
    requires k <= |s|
    ensures InsertedAt(s, k, x, r)
  {
    r := s[..k] + [x] + s[k..];
  }

  lemma Removal<T>(s: seq<T>, k: nat) returns (r: seq<T>)
    requires k < |s|
    ensures RemovedAt(s, k, r)
  {
    r := s[..k] + s[k + 1..];
  }

  lemma PlaceInserts(bs: seq<Block>, k: nat, name: string, size: nat)
    requires k < |bs| && Size(bs[k]) != size
    ensures var b := bs[k].(name := Some(name));
            InsertedAt(bs[k := b][k := b.(end := b.begin + size - 1)], k + 1,
                       Block(b.begin + size, b.end, None), Place(bs, k, name, size))
  {
  }

  lemma AppendMerges(bs: seq<Block>, i: nat, b: Block)
    requires 0 < i < |bs| && b.name.None? && bs[i - 1].name.None?
    ensures RemovedAt(bs[i := b.(begin := bs[i - 1].begin)], i - 1, Append(bs[..i], b) + bs[i + 1..])
  {
  }

  class Memory {
    var list: Region
    ghost var nodes: seq<Region>
    ghost var blocks: seq<Block>

    /** `pre` and `next` are mutually inverse along the whole list, whose regions are `blocks`. */
    ghost predicate Valid()
      reads this, nodes
    {
      && |nodes| == |blocks| > 0 && list == nodes[0]
      && (forall i, j :: 0 <= i < j < |nodes| ==> nodes[i] != nodes[j])
      && (forall i :: 0 <= i < |nodes| ==> Node(i))
    }

    ghost predicate Node(i: nat)
      requires i < |nodes| == |blocks|
      reads this, nodes
    {
      && nodes[i].pre == At(nodes, i - 1) && nodes[i].next == At(nodes, i + 1)
      && blocks[i] == Block(nodes[i].begin, nodes[i].end, nodes[i].name)
    }

    /** main's initial list: a single unused region. */
    constructor (memorySize: int)
      ensures Valid() && fresh(nodes)
      ensures blocks == Initial(memorySize)
    {
      var r := new Region(0, memorySize - 1, "", null, null);
      list := r;
      nodes := [r];
      blocks := Initial(memorySize);
    }

    /** The first-fit loop of request(). */
    method FirstFit(size: nat) returns (dest: Region?, ghost k: int)
      requires Valid()
      ensures k == Dest(blocks, size, 'F', |blocks|) && dest == At(nodes, k)
    {
      ghost var i := 0;
      dest, k := list, -1;
      while dest != null
        invariant 0 <= i <= |nodes| && dest == At(nodes, i)
        invariant forall j :: 0 <= j < i ==> !Fits(blocks[j], size)
        decreases |nodes| - i
      {
        assert Node(i);
        if dest.name.None? && dest.end - dest.begin + 1 >= size {
          k := i;
          break;
        }
        dest := dest.next;
        i := i + 1;
      }
      if Dest(blocks, size, 'F', |blocks|) >= 0 {
        DestByLetter(blocks, size, 'F', |blocks|);
      }
    }

    /** The best-fit and worst-fit loops of request(), which differ in one comparison. */
    method BestOrWorstFit(size: nat, strategy: char) returns (dest: Region?, ghost k: int)
      requires Valid() && (strategy == 'B' || strategy == 'W')
      ensures k == Dest(blocks, size, strategy, |blocks|) && dest == At(nodes, k)
    {
      assert Dest(blocks, size, strategy, 0) == -1;
      hide Dest, Better;
      ghost var i := 0;
      dest, k := null, -1;
      var cur: Region? := list;
      while cur != null
        invariant 0 <= i <= |nodes| && cur == At(nodes, i)
        invariant k == Dest(blocks, size, strategy, i) && dest == At(nodes, k)
        decreases |nodes| - i
      {
        assert Node(i);
        DestStep(blocks, size, strategy, i);
        var curSize := cur.end - cur.begin + 1;
        if cur.name.None? && curSize >= size {
          if dest == null {
            dest, k := cur, i;
          } else {
            assert Node(k);
            var destSize := dest.end - dest.begin + 1;
            if if strategy == 'B' then curSize > destSize else curSize < destSize {
              dest, k := cur, i;
            }
          }
        }
        cur := cur.next;
        i := i + 1;
      }
    }

    method Choose(size: nat, strategy: char) returns (dest: Region?, ghost k: int)
      requires Valid()
      ensures k == Dest(blocks, size, strategy, |blocks|) && dest == At(nodes, k)
    {
      if strategy == 'F' {
        dest, k := FirstFit(size);
      } else if strategy == 'B' || strategy == 'W' {
        dest, k := BestOrWorstFit(size, strategy);
      } else {
        dest, k := null, -1;
      }
    }

    /** request(): the answer tells whether a region was allocated, and k which one. */
    method RequestMemory(name: string, size: nat, strategy: char) returns (ok: bool, ghost k: int)
      requires Valid()
      modifies this, nodes
      ensures Valid() && forall i :: 0 <= i < |nodes| ==> nodes[i] in old(nodes) || fresh(nodes[i])
      ensures blocks == Request(old(blocks), name, size, strategy)
      ensures ok <==> Known(strategy) && SomeFits(old(blocks), size)
      ensures if ok then k >= 0 && Chosen(old(blocks), size, strategy, k) && Taken(old(blocks), k, name, size, blocks)
              else blocks == old(blocks)
    {
      var dest;
      dest, k := Choose(size, strategy);
      RequestTakes(blocks, name, size, strategy);
      assert k >= 0 ==> Node(k);
      hide Chosen, Taken, Place;
      if dest == null || dest.name.Some? {
        return false, k;
      }
      Allocate(dest, k, name, size);
      return true, k;
    }

    method Allocate(dest: Region, ghost k: nat, name: string, size: nat)
      requires Valid() && k < |nodes| && nodes[k] == dest
      modifies this`nodes, this`blocks, nodes
      ensures Valid() && forall i :: 0 <= i < |nodes| ==> nodes[i] in old(nodes) || fresh(nodes[i])
      ensures blocks == Place(old(blocks), k, name, size)
    {
      assert Node(k);
      Name(dest, k, name);
      if dest.end - dest.begin + 1 != size {
        PlaceInserts(old(blocks), k, name, size);
        Split(dest, k, size, Place(old(blocks), k, name, size));
      } else {
        assert blocks == Place(old(blocks), k, name, size);
      }
    }

    method Name(dest: Region, ghost k: nat, name: string)
      requires Valid() && k < |nodes| && nodes[k] == dest
      modifies this`blocks, dest`name
      ensures Valid() && blocks == old(blocks)[k := old(blocks)[k].(name := Some(name))]
    {
      dest.name := Some(name);
      blocks := blocks[k := blocks[k].(name := Some(name))];
      forall i | 0 <= i < |nodes| ensures Node(i) {
        assert old(Node(i));
      }
    }

    /** The end of request(): a new unused region takes what is left of the hole. */
    method Split(dest: Region, ghost k: nat, size: nat, ghost target: seq<Block>)
      requires Valid() && k < |nodes| && nodes[k] == dest
      requires var b := blocks[k];
               InsertedAt(blocks[k := b.(end := b.begin + size - 1)], k + 1, Block(b.begin + size, b.end, None), target)
      modifies this`nodes, this`blocks, nodes
      ensures Valid() && forall i :: 0 <= i < |nodes| ==> nodes[i] in old(nodes) || fresh(nodes[i])
      ensures blocks == target
    {
      assert Node(k);
      var rest := new Region(dest.begin + size, dest.end, "", dest, dest.next);
      dest.next := rest;
      dest.end := dest.begin + size - 1;
      nodes := Insertion(nodes, k + 1, rest);
      blocks := target;
      forall i | 0 <= i < |nodes| ensures Node(i) {
        assert i <= k ==> old(Node(i));
        assert i > k + 1 ==> old(Node(i - 1));
      }
    }

    /** The region loses its name when it is the released one. */
    method ClearName(cur: Region, ghost i: nat, name: string) returns (found: bool)
      requires Valid() && i < |nodes| && nodes[i] == cur
      modifies this`blocks, cur`name
      ensures Valid() && blocks == old(blocks)[i := ClearBlock(old(blocks)[i], name)]
      ensures found <==> old(blocks)[i].name == Some(name)
    {
      assert Node(i);
      found := false;
      if cur.name.Some? && cur.name.value == name {
        cur.name := None;
        found := true;
      }
      blocks := blocks[i := ClearBlock(blocks[i], name)];
      forall x | 0 <= x < |nodes| ensures Node(x) {
        assert old(Node(x));
      }
    }

    /** The rest of a turn: an unused region swallows its unused predecessor. The source also has a
        forward merge, behind a condition that contradicts itself (cur->next both null and not
        null). */
    method MergeUnused(cur: Region, ghost i: nat) returns (ghost j: nat)
      requires Valid() && i < |nodes| && nodes[i] == cur
      modifies this, nodes
      ensures Valid() && forall x :: 0 <= x < |nodes| ==> nodes[x] in old(nodes)
      ensures blocks == Append(old(blocks)[..i], old(blocks)[i]) + old(blocks)[i + 1..]
      ensures j == |Append(old(blocks)[..i], old(blocks)[i])| - 1 && j < |nodes| && nodes[j] == cur
    {
      assert Node(i);
      j := i;
      if i > 0 { assert Node(i - 1); }
      if cur.name.None? && cur.pre != null && cur.pre.name.None? {
        AppendMerges(blocks, i, blocks[i]);
        MergeBackward(cur, i, Append(blocks[..i], blocks[i]) + blocks[i + 1..]);
        j := i - 1;
      } else {
        assert blocks == Append(blocks[..i], blocks[i]) + blocks[i + 1..];
      }
    }

    /** One turn of the loop of release(): clears the region when it bears the name, then merges,
        and goes on after it. */
    method ReleaseStep(cur: Region, ghost i: nat, name: string)
      returns (found: bool, after: Region?, ghost j: nat)
      requires Valid() && i < |nodes| && nodes[i] == cur
      modifies this, nodes
      ensures Valid() && forall x :: 0 <= x < |nodes| ==> nodes[x] in old(nodes)
      ensures found <==> old(blocks)[i].name == Some(name)
      ensures var done := Append(old(blocks)[..i], ClearBlock(old(blocks)[i], name));
              && blocks == done + old(blocks)[i + 1..]
              && j == |done| && after == At(nodes, j)
    {
      found := ClearName(cur, i, name);
      assert blocks[..i] == old(blocks)[..i] && blocks[i + 1..] == old(blocks)[i + 1..];
      j := MergeUnused(cur, i);
      assert Node(j);
      j := j + 1;
      after := cur.next;
    }

    /** The backward merge: the region before `cur` leaves the list. */
    method MergeBackward(cur: Region, ghost i: nat, ghost target: seq<Block>)
      requires Valid() && 0 < i < |nodes| && nodes[i] == cur
      requires RemovedAt(blocks[i := blocks[i].(begin := blocks[i - 1].begin)], i - 1, target)
      modifies this, nodes
      ensures Valid() && forall x :: 0 <= x < |nodes| ==> nodes[x] in old(nodes)
      ensures blocks == target && nodes[i - 1] == cur
    {
      assert Node(i) && Node(i - 1);
      var temp := cur.pre;
      cur.pre := temp.pre;
      if temp.pre != null {
        temp.pre.next := cur;
      }
      cur.begin := temp.begin;
      if cur.pre == null {
        list := cur;
      }
      nodes := Removal(nodes, i - 1);
      blocks := target;
      forall x | 0 <= x < |nodes| ensures Node(x) {
        assert x < i - 1 ==> old(Node(x));
        assert x >= i - 1 ==> old(Node(x + 1));
      }
    }

    /** release(): one pass over the list; tells whether any region bore the name. */
    method ReleaseMemory(name: string) returns (flag: bool)
      requires Valid()
      modifies this, nodes
      ensures Valid() && forall x :: 0 <= x < |nodes| ==> nodes[x] in old(nodes)
      ensures blocks == Release(old(blocks), name)
      ensures flag <==> Bears(old(blocks), name)
    {
      ghost var done, rest := [], blocks;
      var cur: Region? := list;
      flag := false;
      assert done + rest == blocks;
      while cur != null
        invariant Valid() && forall x :: 0 <= x < |nodes| ==> nodes[x] in old(nodes)
        invariant blocks == done + rest && cur == At(nodes, |done|)
        invariant Pass(done, rest, name) == Release(old(blocks), name)
        invariant Fresh(old(blocks), name) <==> !flag && Fresh(rest, name)
        decreases |rest|
      {
        assert blocks[..|done|] == done && blocks[|done| + 1..] == rest[1..] && blocks[|done|] == rest[0];
        ghost var i := |done|;
        assert Fresh(rest, name) <==> rest[0].name != Some(name) && Fresh(rest[1..], name) by {
          assert forall x :: 0 < x < |rest| ==> rest[x] == rest[1..][x - 1];
        }
        done, rest := Append(done, ClearBlock(rest[0], name)), rest[1..];
        var found;
        ghost var j;
        found, cur, j := ReleaseStep(cur, i, name);
        flag := flag || found;
      }
      assert rest == [] && blocks == done;
      BearsIff(old(blocks), name);
    }
  }
}
