/**
 A process's address map (kernel/proc/procvmm.c): the list of mapped regions,
 the test for collisions, the search for a hole, and the calls that map, resize
 and unmap. Addresses do not wrap around.
 */
module AddressMap {
  import opened Bytes

  const PAGE: nat := 4096

  const EINVAL: nat := 22
  const ENOMEM: nat := 12

  datatype Kind = Anon | File(offset: nat, fileSize: nat) | Shm

  datatype Region = Region(start: nat, size: nat, kind: Kind)

  function RoundDown(a: nat): (r: nat)
    ensures r <= a < r + PAGE && r % PAGE == 0
  {
    a - a % PAGE
  }

  function RoundUp(a: nat): (r: nat)
    ensures a <= r < a + PAGE && r % PAGE == 0
  {
    RoundDown(a + PAGE - 1)
  }

  /** get_mmap_iter. */
  predicate Holds(r: Region, a: nat) {
    r.start <= a < r.start + r.size
  }

  /** coll_check_iter on two different regions: four tests. */
  predicate Collides(b: Region, c: Region) {
    var (bs, be, cs, ce) := (b.start, b.start + b.size, c.start, c.start + c.size);
    || (cs >= bs && cs < be)
    || (ce > bs && ce < be)
    || (bs >= cs && bs < ce)
    || (be > cs && be < ce)
  }

  /** The four tests find exactly a common address, or an empty region whose place the other one covers. */
  lemma CollidesExactly(b: Region, c: Region)
    ensures Collides(b, c) <==>
      || (exists a :: Holds(b, a) && Holds(c, a))
      || (c.size == 0 && Holds(b, c.start))
      || (b.size == 0 && Holds(c, b.start))
  {
    if Collides(b, c) && b.size > 0 && c.size > 0 {
      var a := if b.start < c.start then c.start else b.start;
      assert Holds(b, a) && Holds(c, a);
    }
  }

  /** For nonempty regions the four tests are interval intersection. */
  lemma CollidesIsIntersection(b: Region, c: Region)
    requires b.size > 0 && c.size > 0
    ensures Collides(b, c) <==> exists a :: Holds(b, a) && Holds(c, a)
  {
    CollidesExactly(b, c);
  }

  /** Two page-aligned regions that do not collide have no page in common. */
  lemma PagesApart(b: Region, c: Region, x: nat, y: nat)
    requires b.start % PAGE == 0 && c.start % PAGE == 0 && !Collides(b, c)
    requires Holds(b, x) && Holds(c, y)
    ensures x / PAGE != y / PAGE
  {
  }

  /** Whatever page-aligned place the greedy search skips collides with the region it skips over. */
  lemma SkipCollides(r: Region, s: nat, size: nat, kind: Kind, a: nat)
    requires Collides(r, Region(s, size, kind)) && s % PAGE == 0
    requires a % PAGE == 0 && s <= a < RoundUp(r.start + r.size)
    ensures Collides(r, Region(a, size, kind))
  {
  }

  /** The search moves on, except where an empty region sits at the place it tries. */
  lemma SkipAdvances(r: Region, s: nat, size: nat, kind: Kind)
    requires Collides(r, Region(s, size, kind)) && s % PAGE == 0
    ensures RoundUp(r.start + r.size) > s <==> !(r.size == 0 && r.start == s)
  {
  }

  /** No two regions collide, and all start at a page. */
  ghost predicate Apart(m: seq<Region>) {
    && (forall i :: 0 <= i < |m| ==> m[i].start % PAGE == 0)
    && (forall i, j :: 0 <= i < |m| && 0 <= j < |m| && i != j ==> !Collides(m[i], m[j]))
  }

  /** No region but the one at `self` collides with `c`. */
  ghost predicate Free(m: seq<Region>, c: Region, self: int) {
    forall i :: 0 <= i < |m| && i != self ==> !Collides(m[i], c)
  }

  lemma ApartAdd(m: seq<Region>, c: Region)
    requires Apart(m) && Free(m, c, -1) && c.start % PAGE == 0
    ensures Apart(m + [c])
  {
  }

  lemma ApartSet(m: seq<Region>, k: nat, c: Region)
    requires Apart(m) && k < |m| && Free(m, c, k) && c.start % PAGE == 0
    ensures Apart(m[k := c])
  {
  }

  lemma ApartRemove(m: seq<Region>, k: nat)
    requires Apart(m) && k < |m|
    ensures Apart(m[..k] + m[k + 1..])
  {
  }

  /** No page belongs to two regions. */
  lemma PagesUnique(m: seq<Region>)
    requires Apart(m)
    ensures forall i, j, x: nat, y: nat ::
      0 <= i < j < |m| && Holds(m[i], x) && Holds(m[j], y) ==> x / PAGE != y / PAGE
  {
    forall i, j, x: nat, y: nat | 0 <= i < j < |m| && Holds(m[i], x) && Holds(m[j], y)
      ensures x / PAGE != y / PAGE
    {
      PagesApart(m[i], m[j], x, y);
    }
  }

  /** Every page-aligned place from `low` up to `high` is taken. */
  ghost predicate NoneBelow(m: seq<Region>, low: nat, high: nat, size: nat) {
    forall a: nat :: low <= a < high && a % PAGE == 0 ==> !Free(m, Region(a, size, Anon), -1)
  }

  lemma NoneBelowShrinks(m: seq<Region>, low: nat, high: nat, high': nat, size: nat)
    requires high' <= low || (high' <= high && NoneBelow(m, low, high, size))
    ensures NoneBelow(m, low, high', size)
  {
  }

  lemma NoneBelowSkip(m: seq<Region>, low: nat, s: nat, size: nat, k: nat)
    requires NoneBelow(m, low, s, size) && s % PAGE == 0 && k < |m| && Collides(m[k], Region(s, size, Anon))
    ensures NoneBelow(m, low, RoundUp(m[k].start + m[k].size), size)
  {
    forall a: nat | s <= a < RoundUp(m[k].start + m[k].size) && a % PAGE == 0
      ensures !Free(m, Region(a, size, Anon), -1)
    {
      SkipCollides(m[k], s, size, Anon, a);
    }
  }

  /** The region that find_collide returns for a range. */
  ghost predicate First(m: seq<Region>, c: Region, k: int) {
    0 <= k < |m| && Collides(m[k], c) && forall i :: 0 <= i < k ==> !Collides(m[i], c)
  }

  /** The search gets to `a`, finds an empty region there, and tries `a` again. */
  ghost predicate SpinsAt(m: seq<Region>, low: nat, top: nat, size: nat, a: nat, k: int) {
    && low <= a < top && a % PAGE == 0 && NoneBelow(m, low, a, size)
    && First(m, Region(a, size, Anon), k) && m[k].size == 0 && m[k].start == a
  }

  ghost predicate Spins(m: seq<Region>, low: nat, top: nat, size: nat) {
    exists a: nat, k :: SpinsAt(m, low, top, size, a, k)
  }

  /** The search cannot spin at a place that it skips. */
  lemma SkipsNoSpin(m: seq<Region>, low: nat, top: nat, size: nat, s: nat, k: int, a: nat, j: int)
    requires Apart(m) && First(m, Region(s, size, Anon), k) && s % PAGE == 0
    requires s <= a < RoundUp(m[k].start + m[k].size)
    ensures !SpinsAt(m, low, top, size, a, j)
  {
    if a % PAGE == 0 {
      SkipCollides(m[k], s, size, Anon, a);
    }
  }

  ghost predicate NoSpinBelow(m: seq<Region>, low: nat, top: nat, size: nat, high: nat) {
    forall a: nat, k :: a < high ==> !SpinsAt(m, low, top, size, a, k)
  }

  lemma NoSpinSkip(m: seq<Region>, low: nat, top: nat, size: nat, s: nat, k: int)
    requires Apart(m) && First(m, Region(s, size, Anon), k) && s % PAGE == 0 && NoSpinBelow(m, low, top, size, s)
    ensures NoSpinBelow(m, low, top, size, RoundUp(m[k].start + m[k].size))
  {
    hide Apart, SpinsAt, RoundUp;
    forall a: nat, j | a < RoundUp(m[k].start + m[k].size)
      ensures !SpinsAt(m, low, top, size, a, j)
    {
      if s <= a {
        SkipsNoSpin(m, low, top, size, s, k, a, j);
      }
    }
  }

  /** Behind a place that is free, or behind the top, there is nothing to spin on. */
  lemma NoSpinAtAll(m: seq<Region>, low: nat, top: nat, size: nat, high: nat)
    requires NoSpinBelow(m, low, top, size, high)
    requires high >= top || (low <= high && high % PAGE == 0 && Free(m, Region(high, size, Anon), -1))
    ensures !Spins(m, low, top, size)
  {
  }

  lemma NoSpinStart(m: seq<Region>, low: nat, top: nat, size: nat)
    ensures NoSpinBelow(m, low, top, size, low)
  {
  }

  lemma SpinHere(m: seq<Region>, low: nat, top: nat, size: nat, a: nat, k: int)
    requires low <= a < top && a % PAGE == 0 && NoneBelow(m, low, a, size) && First(m, Region(a, size, Anon), k)
    requires m[k].size == 0 && m[k].start == a
    ensures Spins(m, low, top, size)
  {
    assert SpinsAt(m, low, top, size, a, k);
  }

  /** A map without empty regions never makes the search spin. */
  lemma SolidNeverSpins(m: seq<Region>, low: nat, top: nat, size: nat)
    requires forall i :: 0 <= i < |m| ==> m[i].size > 0
    ensures !Spins(m, low, top, size)
  {
  }

  lemma FreeKind(m: seq<Region>, start: nat, size: nat, kind: Kind)
    ensures Free(m, Region(start, size, kind), -1) == Free(m, Region(start, size, Anon), -1)
  {
  }

  /** The region that is mapped for a file: its start moved down to the page, and offset and sizes with it. */
  function FileRegion(start: nat, size: nat, offset: int, fileSize: nat, fileLength: nat): Region
    requires offset >= start % PAGE
  {
    var inPage := start % PAGE;
    Region(start - inPage, size + inPage,
           File(offset - inPage, (if fileSize == 0 then fileLength else fileSize) + inPage))
  }

  /** Where in the file a page fault at `a` reads. */
  function FileOffset(r: Region, a: nat): nat
    requires r.kind.File? && r.start <= a
  {
    r.kind.offset + (a - r.start)
  }

  /** A page fault at `a` reads from the file; behind the part that is mapped it finds zeros. */
  predicate Backed(r: Region, a: nat)
    requires r.kind.File? && r.start <= a
  {
    FileOffset(r, a) < r.kind.offset + r.kind.fileSize
  }

  /**
   Moving the start down to the page leaves every requested address on its byte of the file. Exactly the first
   `fileSize` of them are backed by the file or, if that is 0, as many as the file is long.
   */
  lemma FileOffsetKept(start: nat, size: nat, offset: int, fileSize: nat, fileLength: nat, a: nat)
    requires offset >= start % PAGE && start <= a < start + size
    ensures var r := FileRegion(start, size, offset, fileSize, fileLength);
      && r.start % PAGE == 0 && Holds(r, a) && FileOffset(r, a) == offset + (a - start)
      && (fileSize > 0 ==> (Backed(r, a) <==> a - start < fileSize))
      && (fileSize == 0 ==> (Backed(r, a) <==> a - start < fileLength))
  {
  }

  /** How a page fault ends: fatally, with a page of this content, or with a frame of the shared segment. */
  datatype Fault = Fatal | Filled(page: seq<byte>) | Shared(frame: nat)

  /** The page at `base` starts inside the file, but some byte of it that the mapping backs lies behind its end. */
  ghost predicate CutOff(r: Region, base: nat, fileLength: nat)
    requires r.kind.File? && r.start <= base
  {
    FileOffset(r, base) < fileLength &&
    exists x :: base <= x < base + PAGE && Backed(r, x) && FileOffset(r, x) >= fileLength
  }

  /** The pages of a file mapping that cannot be loaded, in terms of what was asked for. */
  lemma TouchCutOff(start: nat, size: nat, offset: int, fileSize: nat, fileLength: nat, a: nat)
    requires offset >= start % PAGE && start <= a < start + size
    ensures var r := FileRegion(start, size, offset, fileSize, fileLength);
      var n := if fileSize == 0 then fileLength else fileSize;
      var first := offset + (RoundDown(a) - start);
      && r.start <= RoundDown(a)
      && (CutOff(r, RoundDown(a), fileLength) <==> first < fileLength < first + PAGE && fileLength < offset + n)
  {
    var r := FileRegion(start, size, offset, fileSize, fileLength);
    var n := if fileSize == 0 then fileLength else fileSize;
    var base := RoundDown(a);
    var x := start + (fileLength - offset);
    if offset + (base - start) < fileLength < offset + (base - start) + PAGE && fileLength < offset + n {
      assert base <= x < base + PAGE && Backed(r, x) && FileOffset(r, x) >= fileLength;
    }
  }

  lemma HeldOnce(m: seq<Region>, i: int, j: int, a: nat)
    requires Apart(m) && 0 <= i < |m| && 0 <= j < |m| && Holds(m[i], a) && Holds(m[j], a)
    ensures i == j
  {
    if i != j {
      CollidesExactly(m[i], m[j]);
    }
  }

  /** What the mapping shows at an address: the byte of the file, or 0 where there is none. */
  function Shown(r: Region, a: nat, file: seq<byte>): byte
    requires r.start <= a
  {
    if r.kind.File? && Backed(r, a) && FileOffset(r, a) < |file| then file[FileOffset(r, a)] else 0
  }

  datatype Op =
    | AnonOp(start: nat, size: nat, alloc: bool)
    | FileOp(start: nat, size: nat, offset: int, fileSize: nat, fileLength: nat, alloc: bool, device: bool, driver: nat)
    | MmapOp(addr: nat, size: nat, fixed: bool, offset: int, fileLength: nat, alloc: bool, device: bool, driver: nat)
    | ShmOp(addr: nat, size: nat, alloc: bool)
    | ResizeOp(addr: nat, size: nat)
    | DetachOp(addr: nat, size: nat)

  class AddressMap {
    var regions: seq<Region>
    const heapMax: nat
    const stackTop: nat
    /** The kernel process has no regions to look up. */
    const kernel: bool

    ghost predicate Valid()
      reads this
    {
      heapMax > 0 && heapMax % PAGE == 0 && Apart(regions)
    }

    constructor (heapMax: nat, stackTop: nat, kernel: bool)
      requires heapMax > 0 && heapMax % PAGE == 0
      ensures Valid() && regions == []
      ensures this.heapMax == heapMax && this.stackTop == stackTop && this.kernel == kernel
    {
      this.heapMax, this.stackTop, this.kernel := heapMax, stackTop, kernel;
      regions := [];
    }

    ghost predicate Found(a: nat)
      reads this
    {
      !kernel && exists i :: 0 <= i < |regions| && Holds(regions[i], a)
    }

    /** procvmm_get_memory_region: the first region with this address, or -1. */
    method Lookup(a: nat) returns (k: int)
      ensures k >= 0 <==> Found(a)
      ensures k >= 0 ==> k < |regions| && Holds(regions[k], a) && forall i :: 0 <= i < k ==> !Holds(regions[i], a)
    {
      k := -1;
      if kernel {
        return;
      }
      var i := 0;
      while i < |regions|
        invariant 0 <= i <= |regions|
        invariant forall j :: 0 <= j < i ==> !Holds(regions[j], a)
      {
        if Holds(regions[i], a) {
          return i;
        }
        i := i + 1;
      }
    }

    /** find_collide: the first region other than the one at `self` that collides with `c`, or -1. */
    method FindCollide(c: Region, self: int) returns (k: int)
      ensures k < 0 <==> Free(regions, c, self)
      ensures k >= 0 ==> k < |regions| && k != self && Collides(regions[k], c)
      ensures k >= 0 ==> forall i :: 0 <= i < k && i != self ==> !Collides(regions[i], c)
    {
      k := -1;
      var i := 0;
      while i < |regions|
        invariant 0 <= i <= |regions|
        invariant forall j :: 0 <= j < i && j != self ==> !Collides(regions[j], c)
      {
        if i != self && Collides(regions[i], c) {
          return i;
        }
        i := i + 1;
      }
    }

    /**
     find_address: the least free page-aligned place from heap_max on, or 0 if there
     is none below stack_top. `spins` stands for a search that does not end.
     */
    method FindAddress(size: nat) returns (a: nat, spins: bool)
      requires Valid()
      ensures spins <==> Spins(regions, heapMax, stackTop, size)
      ensures !spins && a != 0 ==> a >= heapMax && a % PAGE == 0 && Free(regions, Region(a, size, Anon), -1)
      ensures !spins && a != 0 ==> a == heapMax || a < stackTop
      ensures !spins && a != 0 ==> NoneBelow(regions, heapMax, a, size)
      ensures !spins && a == 0 ==> NoneBelow(regions, heapMax, stackTop, size)
    {
      hide Collides, Free, NoneBelow, Apart, RoundUp, Spins, SpinsAt, NoSpinBelow;
      a := heapMax;
      NoneBelowShrinks(regions, heapMax, a, a, size);
      NoSpinStart(regions, heapMax, stackTop, size);
      var k := FindCollide(Region(a, size, Anon), -1);
      while k >= 0
        invariant a >= heapMax && a % PAGE == 0 && NoneBelow(regions, heapMax, a, size)
        invariant a == heapMax || a < stackTop
        invariant NoSpinBelow(regions, heapMax, stackTop, size, a)
        invariant k < 0 <==> Free(regions, Region(a, size, Anon), -1)
        invariant k >= 0 ==> First(regions, Region(a, size, Anon), k)
        decreases stackTop - a
      {
        NoneBelowSkip(regions, heapMax, a, size, k);
        NoSpinSkip(regions, heapMax, stackTop, size, a, k);
        SkipAdvances(regions[k], a, size, Anon);
        var next := RoundUp(regions[k].start + regions[k].size);
        if next >= stackTop {
          NoneBelowShrinks(regions, heapMax, next, stackTop, size);
          NoSpinAtAll(regions, heapMax, stackTop, size, next);
          return 0, false;
        }
        if next <= a {
          SpinHere(regions, heapMax, stackTop, size, a, k);
          return a, true;
        }
        a := next;
        k := FindCollide(Region(a, size, Anon), -1);
      }
      NoSpinAtAll(regions, heapMax, stackTop, size, a);
      spins := false;
    }

    /** mmap_add. */
    method Add(region: Region) returns (st: nat)
      requires Valid()
      modifies `regions
      ensures Valid() <==> (st == 0 ==> region.start % PAGE == 0)
      ensures st == (if Free(old(regions), region, -1) then 0 else EINVAL)
      ensures regions == if st == 0 then old(regions) + [region] else old(regions)
    {
      var k := FindCollide(region, -1);
      if k >= 0 {
        return EINVAL;
      }
      if region.start % PAGE == 0 {
        ApartAdd(regions, region);
      }
      regions := regions + [region];
      assert regions[|regions| - 1] == region;
      st := 0;
    }

    /** procvmm_resize_map: the region at `k` gets its new size exactly if it then meets no other. */
    method Resize(a: nat, newSize: nat) returns (st: nat, ghost k: int)
      requires Valid()
      modifies `regions
      ensures Valid() && (st == 1 <==> !old(Found(a)))
      ensures st != 0 ==> regions == old(regions)
      ensures st != 1 ==> 0 <= k < |old(regions)| && Holds(old(regions)[k], a)
      ensures st != 1 ==> var resized := old(regions)[k].(size := newSize);
        && st == (if Free(old(regions), resized, k) then 0 else EINVAL)
        && (st == 0 ==> regions == old(regions)[k := resized])
    {
      var found := Lookup(a);
      k := found;
      if found < 0 {
        return 1, k;
      }
      ghost var before := regions;
      var oldSize := regions[found].size;
      regions := regions[found := regions[found].(size := newSize)];
      var c := FindCollide(regions[found], found);
      assert forall i :: 0 <= i < |before| && i != k ==> before[i] == regions[i];
      if c >= 0 {
        assert Collides(before[c], regions[k]);
        regions := regions[found := regions[found].(size := oldSize)];
        assert regions == before;
        return EINVAL, k;
      }
      ApartSet(before, k, regions[k]);
      st := 0;
    }

    /** procvmm_mmap_anon. */
    method MapAnon(start: nat, size: nat, alloc: bool) returns (st: nat)
      requires Valid()
      modifies `regions
      ensures var region := Region(RoundDown(start), size + start % PAGE, Anon);
        && Valid()
        && (st == 0 <==> !old(Found(RoundDown(start))) && alloc && Free(old(regions), region, -1))
        && regions == if st == 0 then old(regions) + [region] else old(regions)
    {
      var inPage := start % PAGE;
      var base := start - inPage;
      var k := Lookup(base);
      if k >= 0 {
        return EINVAL;
      }
      if !alloc {
        return ENOMEM;
      }
      st := Add(Region(base, size + inPage, Anon));
    }

    /**
     int_mmap_file. `device` says that a character device is mapped through a
     descriptor, `driver` is what its driver answers. A file that would have to start
     before its beginning is refused, after a null region has been given to the heap.
     */
    method MapFile(start: nat, size: nat, offset: int, fileSize: nat, fileLength: nat, alloc: bool, device: bool,
                   driver: nat)
      returns (st: nat, freesNull: bool)
      requires Valid()
      modifies `regions
      ensures Valid() && (st != 0 ==> regions == old(regions))
      ensures freesNull <==> !old(Found(start)) && offset < start % PAGE
      ensures st == 0 <==>
        !old(Found(start)) && offset >= start % PAGE && alloc && (device ==> driver == 0)
        && Free(old(regions), FileRegion(start, size, offset, fileSize, fileLength), -1)
      ensures st == 0 ==> regions == old(regions) + [FileRegion(start, size, offset, fileSize, fileLength)]
    {
      freesNull := false;
      var k := Lookup(start);
      if k >= 0 {
        return EINVAL, false;
      }
      var inPage := start % PAGE;
      if offset < inPage {
        return EINVAL, true;
      }
      if !alloc {
        return ENOMEM, false;
      }
      var region := FileRegion(start, size, offset, fileSize, fileLength);
      if device {
        k := FindCollide(region, -1);
        if k >= 0 {
          return EINVAL, false;
        }
        if driver != 0 {
          return driver, false;
        }
      }
      st := Add(region);
    }

    /**
     procvmm_handle_fault outside of device mappings. `frame` says that there is a free frame, `file` is the
     content of the file that the region at the address maps. A read that ends short is fatal.
     */
    method PageIn(a: nat, file: seq<byte>, frame: bool) returns (o: Fault, k: int)
      requires Valid()
      ensures k >= 0 <==> Found(a)
      ensures k >= 0 ==> k < |regions| && Holds(regions[k], a) && regions[k].start <= RoundDown(a)
      ensures o == Fatal <==>
        k < 0 || (!regions[k].kind.Shm? && (!frame || (regions[k].kind.File? &&
                                                       CutOff(regions[k], RoundDown(a), |file|))))
      ensures o.Filled? ==> k >= 0 && !regions[k].kind.Shm? && |o.page| == PAGE
      ensures o.Filled? ==>
        forall i :: 0 <= i < PAGE ==> o.page[i] == Shown(regions[k], RoundDown(a) + i, file)
      ensures o.Filled? && regions[k].kind.Anon? ==> o.page == Zeros(PAGE)
      ensures o.Shared? ==> k >= 0 && regions[k].kind.Shm? && regions[k].start + o.frame * PAGE == RoundDown(a)
    {
      k := Lookup(a);
      if k < 0 {
        return Fatal, k;
      }
      var base := RoundDown(a);
      var r := regions[k];
      var inRegion := base - r.start;
      if r.kind.Shm? {
        return Shared(inRegion / PAGE), k;
      }
      if !frame {
        return Fatal, k;
      }
      var page := Zeros(PAGE);
      if r.kind.File? {
        var fileOff := r.kind.offset + inRegion;
        if inRegion < r.kind.fileSize && fileOff < |file| {
          var readSize := PAGE;
          if inRegion + readSize > r.kind.fileSize {
            readSize := r.kind.fileSize - inRegion;
          }
          var count := if fileOff + readSize > |file| then |file| - fileOff else readSize;
          page := file[fileOff..fileOff + count] + page[count..];
          if count != readSize {
            assert Backed(r, base + count);
            return Fatal, k;
          }
        }
      }
      o := Filled(page);
    }

    /**
     What a task sees of a file that it maps: at every requested address the byte that belongs there, and zeros
     behind the part it asked for or behind the file. A page that runs over the end of the file cannot be loaded.
     */
    method Touch(start: nat, size: nat, offset: int, fileSize: nat, file: seq<byte>, a: nat) returns (st: nat, o: Fault)
      requires Valid() && !kernel && start <= a < start + size
      modifies `regions
      ensures st == 0 ==>
        var n := if fileSize == 0 then |file| else fileSize;
        var first := offset + (RoundDown(a) - start);
        var at := offset + (a - start);
        && (o == Fatal <==> first < |file| < first + PAGE && |file| < offset + n)
        && (o != Fatal ==> o.Filled? && |o.page| == PAGE && at >= 0)
        && (o != Fatal ==> o.page[a % PAGE] == if a - start < n && at < |file| then file[at] else 0)
    {
      o := Fatal;
      var freesNull;
      ghost var before := regions;
      st, freesNull := MapFile(start, size, offset, fileSize, |file|, true, false, 0);
      if st == 0 {
        FileOffsetKept(start, size, offset, fileSize, |file|, a);
        var k;
        ghost var r := FileRegion(start, size, offset, fileSize, |file|);
        assert regions[|before|] == r;
        o, k := PageIn(a, file, true);
        HeldOnce(regions, k, |before|, a);
        TouchCutOff(start, size, offset, fileSize, |file|, a);
      }
    }

    /**
     _sys_mmap of a file stream: at the address given, or at one that is searched for.
     A search that finds nothing goes on with address 0.
     */
    method Mmap(addr: nat, len: nat, fixed: bool, offset: int, fileLength: nat, alloc: bool, device: bool, driver: nat)
      returns (st: nat, a: nat, spins: bool)
      requires Valid()
      modifies `regions
      ensures Valid() && (st != 0 || spins ==> regions == old(regions))
      ensures spins <==> !fixed && Spins(old(regions), heapMax, stackTop, len)
      ensures fixed ==> a == addr
      ensures !spins && !fixed && a == 0 ==> NoneBelow(old(regions), heapMax, stackTop, len)
      ensures !spins && !fixed && a != 0 ==>
        && a >= heapMax && a % PAGE == 0 && (a == heapMax || a < stackTop)
        && NoneBelow(old(regions), heapMax, a, len) && Free(old(regions), Region(a, len, Anon), -1)
      ensures !spins ==> (st == 0 <==>
        !old(Found(a)) && offset >= a % PAGE && alloc && (device ==> driver == 0)
        && Free(old(regions), FileRegion(a, len, offset, len, fileLength), -1))
      ensures !spins && st == 0 ==> regions == old(regions) + [FileRegion(a, len, offset, len, fileLength)]
      ensures !spins && !fixed && a != 0 && offset >= 0 && alloc && (device ==> driver == 0) ==> st == 0
    {
      a, spins := addr, false;
      if !fixed {
        a, spins := FindAddress(len);
        if spins {
          return 0, a, true;
        }
        if a != 0 && offset >= 0 {
          FreeKind(regions, a, len, FileRegion(a, len, offset, len, fileLength).kind);
        }
      }
      var freesNull;
      st, freesNull := MapFile(a, len, offset, len, fileLength, alloc, device, driver);
    }

    /** procvmm_mmap_shm at a page. */
    method MapShm(start: nat, size: nat, alloc: bool) returns (st: nat)
      requires Valid()
      modifies `regions
      ensures var region := Region(start, size, Shm);
        && (Valid() <==> (st == 0 ==> start % PAGE == 0))
        && (st == 0 <==> !old(Found(start)) && alloc && Free(old(regions), region, -1))
        && regions == if st == 0 then old(regions) + [region] else old(regions)
    {
      var k := Lookup(start);
      if k >= 0 {
        return EINVAL;
      }
      if !alloc {
        return ENOMEM;
      }
      st := Add(Region(start, size, Shm));
    }

    /** procvmm_attach_shm: address 0 asks for a search, and is what a failed search goes on with. */
    method AttachShm(addr: nat, size: nat, alloc: bool) returns (st: nat, a: nat, spins: bool)
      requires Valid()
      modifies `regions
      ensures Valid() && (spins ==> regions == old(regions))
      ensures spins <==> addr == 0 && Spins(old(regions), heapMax, stackTop, size)
      ensures !spins ==>
        && a % PAGE == 0
        && (st == 0 <==> !old(Found(a)) && alloc && Free(old(regions), Region(a, size, Shm), -1))
        && regions == if st == 0 then old(regions) + [Region(a, size, Shm)] else old(regions)
      ensures addr != 0 ==> a == RoundDown(addr)
      ensures !spins && addr == 0 && a != 0 ==>
        a >= heapMax && NoneBelow(old(regions), heapMax, a, size) && (alloc ==> st == 0)
      ensures !spins && addr == 0 && a == 0 ==> NoneBelow(old(regions), heapMax, stackTop, size)
    {
      a, spins := addr, false;
      if a == 0 {
        a, spins := FindAddress(size);
        if spins {
          return 0, a, true;
        }
        FreeKind(regions, a, size, Shm);
      }
      a := RoundDown(a);
      st := MapShm(a, size, alloc);
    }

    /** procvmm_unmmap, on the list: the second unlinking finds a node without neighbours. */
    method Unmap(k: nat)
      requires Valid() && k < |regions|
      modifies `regions
      ensures Valid() && regions == old(regions)[..k] + old(regions)[k + 1..]
    {
      ApartRemove(regions, k);
      regions := regions[..k] + regions[k + 1..];
    }

    /** procvmm_detach_shm. */
    method Detach(a: nat) returns (st: int, ghost k: int)
      requires Valid()
      modifies `regions
      ensures Valid() && (st == 0 <==> old(Found(a)))
      ensures st != 0 ==> regions == old(regions)
      ensures st == 0 ==> 0 <= k < |old(regions)| && Holds(old(regions)[k], a)
      ensures st == 0 ==> regions == old(regions)[..k] + old(regions)[k + 1..]
    {
      var found := Lookup(a);
      k := found;
      if found < 0 {
        return -1, k;
      }
      Unmap(found);
      st := 0;
    }

    /** The search of an operation that asks for one does not end. */
    ghost predicate Hangs(op: Op)
      reads this
    {
      && ((op.MmapOp? && !op.fixed) || (op.ShmOp? && op.addr == 0))
      && Spins(regions, heapMax, stackTop, op.size)
    }

    method Step(op: Op) returns (hung: bool)
      requires Valid()
      modifies `regions
      ensures Valid() && (hung <==> old(Hangs(op))) && (hung ==> regions == old(regions))
    {
      hung := false;
      match op
      case AnonOp(start, size, alloc) =>
        var st := MapAnon(start, size, alloc);
      case FileOp(start, size, offset, fileSize, fileLength, alloc, device, driver) =>
        var st, freesNull := MapFile(start, size, offset, fileSize, fileLength, alloc, device, driver);
      case MmapOp(addr, size, fixed, offset, fileLength, alloc, device, driver) =>
        var st, a, spins := Mmap(addr, size, fixed, offset, fileLength, alloc, device, driver);
        hung := spins;
      case ShmOp(addr, size, alloc) =>
        var st, a, spins := AttachShm(addr, size, alloc);
        hung := spins;
      case ResizeOp(a, size) =>
        var st, k := Resize(a, size);
      case DetachOp(a, _) =>
        var st, k := Detach(a);
    }

    /**
     Over every run, empty regions and all, no page belongs to two regions; a run stops only at a
     search that spins.
     */
    method Run(ops: seq<Op>) returns (done: nat)
      requires Valid()
      modifies `regions
      ensures Valid() && done <= |ops| && (done < |ops| ==> Hangs(ops[done]))
      ensures forall i, j, x: nat, y: nat ::
        0 <= i < j < |regions| && Holds(regions[i], x) && Holds(regions[j], y) ==> x / PAGE != y / PAGE
    {
      done := 0;
      PagesUnique(regions);
      while done < |ops|
        invariant Valid() && done <= |ops|
      {
        var hung := Step(ops[done]);
        if hung {
          PagesUnique(regions);
          return;
        }
        done := done + 1;
      }
      PagesUnique(regions);
    }
  }

  /** With no hole left the search fails, and the mapping that asked for it ends up on page 0. */
  method MapsAtZero(heapMax: nat, stackTop: nat, len: nat, offset: nat, fileLength: nat)
    returns (st: nat, a: nat, spins: bool)
    requires 0 < heapMax < stackTop && heapMax % PAGE == 0 && 0 < len <= heapMax
    ensures st == 0 && a == 0 && !spins
  {
    var m := new AddressMap(heapMax, stackTop, false);
    var first := m.MapAnon(heapMax, stackTop - heapMax, true);
    SolidNeverSpins(m.regions, heapMax, stackTop, len);
    assert forall x: nat :: heapMax <= x < stackTop ==> Collides(m.regions[0], Region(x, len, Anon));
    st, a, spins := m.Mmap(0, len, false, offset, fileLength, true, false, 0);
  }

  /** An empty mapping at heap_max makes every later search spin. */
  method SpinsOnEmpty(heapMax: nat, stackTop: nat, len: nat) returns (spins: bool)
    requires 0 < heapMax < stackTop && heapMax % PAGE == 0 && 0 < len
    ensures spins
  {
    var m := new AddressMap(heapMax, stackTop, false);
    var st := m.MapAnon(heapMax, 0, true);
    NoneBelowShrinks(m.regions, heapMax, heapMax, heapMax, len);
    SpinHere(m.regions, heapMax, stackTop, len, heapMax, 0);
    var a;
    st, a, spins := m.AttachShm(0, len, true);
  }
}
