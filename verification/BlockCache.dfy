/** The write-back block cache (fs/bc.c). */
module Cache {
  import opened FsBytes
  import opened FsLayout

  class BlockCache {
    var disk: seq<Block>
    var cache: map<nat, Block>   // the pages mapped at DISKMAP
    var dirty: set<nat>          // their PTE_D bits

    /** What the file system sees of block `b`: the page if mapped, else the disk. */
    function View(): (d: Disk)
      reads this
      ensures |d| == |disk|
      ensures forall b :: 0 <= b < |d| ==> d[b] == if b in cache then cache[b] else disk[b]
    {
      seq(|disk|, b requires 0 <= b < |disk| reads this => if b in cache then cache[b] else disk[b])
    }

    /** A mapped page that is not dirty equals its disk block. */
    ghost predicate Valid()
      reads this
    {
      && dirty <= cache.Keys
      && (forall b :: b in cache ==> b < |disk|)
      && (forall b :: b in cache && b !in dirty ==> cache[b] == disk[b])
    }

    /** Block `b` is on disk as the file system sees it. */
    ghost predicate Durable(b: nat)
      reads this
    {
      b < |disk| && disk[b] == View()[b]
    }

    /** Otherwise diskaddr panics (block zero, or no such block), or bc_pgfault
        does (a free block). */
    ghost predicate Accessible(b: nat)
      reads this
    {
      InUse(View(), b)
    }

    constructor (d: seq<Block>)
      ensures Valid() && View() == d && cache == map[]
    {
      disk := d;
      cache := map[];
      dirty := {};
    }

    /** bc_pgfault: the block is read through the new mapping, which leaves the
        page dirty. */
    method Fault(b: nat)
      requires Valid() && Accessible(b) && b !in cache
      modifies this
      ensures Valid() && View() == old(View()) && b in cache
      ensures disk == old(disk) && forall x :: old(Durable(x)) ==> Durable(x)
    {
      cache := cache[b := disk[b]];
      dirty := dirty + {b};
      assert View() == old(View());
    }

    /** A load through a pointer into the disk map. */
    method Read(b: nat) returns (page: Block)
      requires Valid() && Accessible(b)
      modifies this
      ensures Valid() && View() == old(View()) && page == View()[b]
      ensures disk == old(disk) && forall x :: old(Durable(x)) ==> Durable(x)
    {
      if b !in cache {
        Fault(b);
      }
      page := cache[b];
    }

    method ReadWord(b: nat, k: nat) returns (w: nat)
      requires Valid() && Accessible(b)
      modifies this
      ensures Valid() && View() == old(View()) && w == WordAt(View(), b, k)
      ensures disk == old(disk) && forall x :: old(Durable(x)) ==> Durable(x)
    {
      var page := Read(b);
      w := Word(page, k);
    }

    /** Stores through a pointer into the disk map. */
    method Write(b: nat, page: Block)
      requires Valid() && Accessible(b)
      modifies this
      ensures Valid() && View() == old(View())[b := page] && b in cache && b in dirty
      ensures disk == old(disk) && forall x :: x != b && old(Durable(x)) ==> Durable(x)
    {
      hide InUse;
      ghost var d := View();
      if b !in cache {
        Fault(b);
      }
      cache := cache[b := page];
      dirty := dirty + {b};
      forall x | 0 <= x < |disk| ensures View()[x] == d[b := page][x] {
      }
    }

    method WriteWord(b: nat, k: nat, w: nat)
      requires Valid() && Accessible(b)
      modifies this
      ensures Valid() && View() == PutAt(old(View()), b, k, w)
      ensures disk == old(disk) && forall x :: x != b && old(Durable(x)) ==> Durable(x)
    {
      var page := Read(b);
      Write(b, PutWord(page, k, w));
    }

    /** flush_block: afterwards the block is on disk, and nothing looks different. */
    method FlushBlock(b: nat)
      requires Valid() && b < |disk|
      modifies this
      ensures Valid() && View() == old(View()) && Durable(b)
      ensures forall x :: old(Durable(x)) ==> Durable(x)
      ensures forall x :: 0 <= x < |disk| && x != b ==> disk[x] == old(disk)[x]
    {
      if b in cache && b in dirty {
        disk := disk[b := cache[b]];
        dirty := dirty - {b};
      }
      assert View() == old(View());
    }
  }
}
