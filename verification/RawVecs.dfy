/** `RawVec`: the buffer behind `Vec`, with its capacity arithmetic over machine words. */
module RawVecs {
  import opened Options
  import opened Products

  /** The width of `usize`. */
  datatype Platform = Bits16 | Bits32 | Bits64 {
    function IsizeMax(): nat {
      match this
      case Bits16 => 0x7FFF
      case Bits32 => 0x7FFF_FFFF
      case Bits64 => 0x7FFF_FFFF_FFFF_FFFF
    }

    function UsizeMax(): nat { 2 * IsizeMax() + 1 }
  }

  datatype Layout = Layout(size: nat, align: nat)

  lemma FreshAddress(s: set<nat>) returns (p: nat)
    ensures p !in s
  {
    p := 0;
    var below: set<nat> := {};
    while p in s
      invariant below <= s && |below| == p && forall q :: q in below <==> 0 <= q < p
      decreases |s| - p
    {
      below := below + {p};
      SubsetSize(below, s);
      p := p + 1;
    }
  }

  lemma SubsetSize(a: set<nat>, b: set<nat>)
    requires a <= b
    ensures |a| <= |b|
  {
    assert b == a + (b - a);
  }

  datatype Request =
    | AllocRequest(layout: Layout)
    | ReallocRequest(ptr: nat, layout: Layout, newSize: nat)
    | GrowRequest(ptr: nat, layout: Layout, newSize: nat)
    | DeallocRequest(ptr: nat, layout: Layout)

  /** A request that was made of the allocator, and whether it was granted. */
  datatype Event = Event(request: Request, granted: bool)

  /** The allocator, as far as its clients can tell: which blocks are live, and with which layout. It
      may refuse any request. On 64-bit platforms it is known to refuse more than `isize::MAX` bytes.
      The preconditions are the safety rules of the `Alloc` trait. */
  class Heap {
    const platform: Platform
    var live: map<nat, Layout>
    /** All requests that were ever made. */
    ghost var log: seq<Event>

    /** The last request was refused. */
    ghost predicate Refused()
      reads this
    {
      log != [] && !log[|log| - 1].granted
    }

    predicate Accepts(size: nat) {
      platform == Bits64 ==> size <= platform.IsizeMax()
    }

    method Alloc(layout: Layout) returns (r: Option<nat>)
      requires 0 < layout.size <= platform.UsizeMax()
      modifies this
      ensures r == None ==> live == old(live)
      ensures r.Some? ==> r.value !in old(live) && live == old(live)[r.value := layout] && Accepts(layout.size)
      ensures log == old(log) + [Event(AllocRequest(layout), r.Some?)]
    {
      var willing: bool := *;
      log := log + [Event(AllocRequest(layout), willing && Accepts(layout.size))];
      if willing && Accepts(layout.size) {
        ghost var q := FreshAddress(live.Keys);
        var p: nat :| p !in live;
        live := live[p := layout];
        return Some(p);
      }
      return None;
    }

    method Realloc(ptr: nat, layout: Layout, newSize: nat) returns (r: Option<nat>)
      requires ptr in live && live[ptr] == layout && 0 < newSize <= platform.UsizeMax()
      modifies this
      ensures r == None ==> live == old(live)
      ensures r.Some? ==>
                && (r.value == ptr || r.value !in old(live))
                && live == (old(live) - {ptr})[r.value := Layout(newSize, layout.align)]
                && Accepts(newSize)
      ensures log == old(log) + [Event(ReallocRequest(ptr, layout, newSize), r.Some?)]
    {
      var willing: bool := *;
      log := log + [Event(ReallocRequest(ptr, layout, newSize), willing && Accepts(newSize))];
      if willing && Accepts(newSize) {
        ghost var q := FreshAddress(live.Keys);
        var p: nat :| p == ptr || p !in live;
        live := (live - {ptr})[p := Layout(newSize, layout.align)];
        return Some(p);
      }
      return None;
    }

    method GrowInPlace(ptr: nat, layout: Layout, newSize: nat) returns (ok: bool)
      requires ptr in live && live[ptr] == layout && layout.size <= newSize <= platform.UsizeMax()
      modifies this
      ensures live == if ok then old(live)[ptr := Layout(newSize, layout.align)] else old(live)
      ensures ok ==> Accepts(newSize)
      ensures log == old(log) + [Event(GrowRequest(ptr, layout, newSize), ok)]
    {
      ok := *;
      ok := ok && Accepts(newSize);
      log := log + [Event(GrowRequest(ptr, layout, newSize), ok)];
      if ok {
        live := live[ptr := Layout(newSize, layout.align)];
      }
    }

    method Dealloc(ptr: nat, layout: Layout)
      requires ptr in live && live[ptr] == layout
      modifies this
      ensures live == old(live) - {ptr}
      ensures log == old(log) + [Event(DeallocRequest(ptr, layout), true)]
    {
      live := live - {ptr};
      log := log + [Event(DeallocRequest(ptr, layout), true)];
    }
  }

  /** How a call ends: it returns, it panics with "capacity overflow" or a failed assertion, or the
      process is aborted because memory is exhausted. */
  datatype Exit<+R> = Returned(value: R) | Panicked | Aborted

  datatype Reserved = Ok | CapacityOverflow | AllocError

  datatype Fallibility = Fallible | Infallible

  datatype Strategy = Exact | Amortized

  /** A boxed slice, `Box<[T]>`. */
  datatype BoxedSlice = BoxedSlice(ptr: nat, len: nat)

  /** What a pointer with room for `n` elements owns: a block of exactly that size, or nothing. */
  ghost predicate OwnsBlock(live: map<nat, Layout>, elemSize: nat, align: nat, ptr: nat, n: nat) {
    elemSize > 0 && n > 0 ==> ptr in live && live[ptr] == Layout(elemSize * n, align)
  }

  /** The blocks that are not owned that way. */
  ghost function OtherBlocks(live: map<nat, Layout>, elemSize: nat, ptr: nat, n: nat): map<nat, Layout> {
    if elemSize > 0 && n > 0 then live - {ptr} else live
  }

  const DANGLING: nat := 0

  lemma AlignAtMost(size: nat, align: nat)
    requires align > 0 && size % align == 0
    ensures size > 0 ==> align <= size
  {
  }

  /** The requests of a capacity that end in a panic: the size does not fit `usize`, or not `isize` on
      the smaller platforms, or leaves no room to round it up to the alignment. */
  predicate RequestPanics(platform: Platform, elemSize: nat, align: nat, capacity: nat) {
    || elemSize * capacity > platform.UsizeMax()
    || (platform != Bits64 && elemSize * capacity > platform.IsizeMax())
    || elemSize * capacity + (align - 1) > platform.UsizeMax()
  }

  lemma WrapsOnce(x: int, word: nat)
    requires x < 0 <= x + word
    ensures x % word == x + word
  {
  }

  class RawVec {
    const heap: Heap
    const elemSize: nat
    const align: nat
    var ptr: nat
    var cap: nat

    ghost predicate Valid()
      reads this, heap
    {
      && align > 0 && elemSize % align == 0 && elemSize <= heap.platform.IsizeMax()
      && cap <= heap.platform.UsizeMax()
      && elemSize * cap <= heap.platform.IsizeMax()
      && OwnsBlock(heap.live, elemSize, align, ptr, cap)
    }

    /** Everything on the heap that is not this buffer. */
    ghost function Others(): map<nat, Layout>
      reads this, heap
    {
      OtherBlocks(heap.live, elemSize, ptr, cap)
    }

    /** `RawVec::new_in` */
    constructor (heap: Heap, elemSize: nat, align: nat)
      requires align > 0 && elemSize % align == 0 && elemSize <= heap.platform.IsizeMax()
      ensures Valid() && Others() == heap.live
      ensures this.heap == heap && this.elemSize == elemSize && this.align == align
      ensures Capacity() == if elemSize == 0 then heap.platform.UsizeMax() else 0
    {
      this.heap, this.elemSize, this.align := heap, elemSize, align;
      ptr := DANGLING;
      cap := if elemSize == 0 then heap.platform.UsizeMax() else 0;
    }

    /** The request for room for `n` elements: to move the block for `cap` elements that is owned, with
        just the layout it has, or for a first block. */
    ghost function RequestFrom(ptr: nat, cap: nat, n: nat): Request {
      if cap == 0 then AllocRequest(Layout(elemSize * n, align))
      else ReallocRequest(ptr, Layout(elemSize * cap, align), elemSize * n)
    }

    function Capacity(): nat
      reads this
    {
      if elemSize == 0 then heap.platform.UsizeMax() else cap
    }

    /** `alloc_guard` */
    predicate GuardPasses(size: nat) {
      heap.platform == Bits64 || size <= heap.platform.IsizeMax()
    }

    /** `Layout::array::<T>` */
    function ArrayLayout(n: nat): Option<Layout> {
      if elemSize * n > heap.platform.UsizeMax() then None else Some(Layout(elemSize * n, align))
    }

    /** `current_layout`. The unchecked product does not wrap. */
    method CurrentLayout() returns (r: Option<Layout>)
      requires Valid()
      ensures r == None <==> cap == 0
      ensures r.Some? ==> r.value == Layout(elemSize * cap, align)
    {
      if cap == 0 {
        return None;
      }
      assert elemSize * cap <= heap.platform.UsizeMax();
      return Some(Layout(elemSize * cap, align));
    }

    /** Asks the allocator to move the buffer to a block for `newCap` elements, or for a first block,
        and takes the result over. */
    method Resize(cur: Option<Layout>, newCap: nat, newSize: nat) returns (ok: bool)
      requires Valid() && elemSize > 0 && 0 < newCap <= heap.platform.UsizeMax()
      requires 0 < newSize == elemSize * newCap <= heap.platform.UsizeMax() && GuardPasses(newSize)
      requires cur == if cap == 0 then None else Some(Layout(elemSize * cap, align))
      modifies this, heap
      ensures Valid() && Others() == old(Others())
      ensures ok ==> cap == newCap
      ensures !ok ==> cap == old(cap) && ptr == old(ptr) && heap.live == old(heap.live)
      ensures heap.log == old(heap.log) + [Event(RequestFrom(old(ptr), old(cap), newCap), ok)]
    {
      var p;
      if cur.Some? {
        p := heap.Realloc(ptr, cur.value, newSize);
      } else {
        p := heap.Alloc(Layout(newSize, align));
      }
      if p == None {
        return false;
      }
      ptr, cap := p.value, newCap;
      return true;
    }

    /** Twice the capacity, and twice the size, do not wrap. */
    lemma DoubleFits()
      requires Valid() && elemSize > 0 && cap > 0
      ensures 2 * cap <= heap.platform.UsizeMax()
      ensures 0 < 2 * cap * elemSize == elemSize * (2 * cap) <= heap.platform.UsizeMax()
      ensures elemSize * cap <= elemSize * (2 * cap)
    {
      ProductMonotone(elemSize, 1, cap);
    }

    /** The first capacity needs no guard: its size is within `isize::MAX` on every platform. */
    lemma FirstFits(newCap: nat)
      requires Valid() && elemSize > 0
      requires newCap == if elemSize > heap.platform.UsizeMax() / 8 then 1 else 4
      ensures 0 < elemSize * newCap <= heap.platform.IsizeMax()
    {
    }

    /** `double`: makes room for the first few elements, or for twice as many. */
    method Double() returns (r: Exit<()>)
      requires Valid()
      modifies this, heap
      ensures Valid() && Others() == old(Others())
      ensures r == Panicked <==>
                elemSize == 0 || (heap.platform != Bits64 && 2 * old(cap) * elemSize > heap.platform.IsizeMax())
      ensures r.Returned? ==>
                cap == if old(cap) > 0 then 2 * old(cap)
                       else if elemSize > heap.platform.UsizeMax() / 8 then 1 else 4
      ensures !r.Returned? ==> cap == old(cap) && ptr == old(ptr) && heap.live == old(heap.live)
      ensures var n := if old(cap) > 0 then 2 * old(cap) else if elemSize > heap.platform.UsizeMax() / 8 then 1 else 4;
              heap.log == if r == Panicked then old(heap.log)
                          else old(heap.log) + [Event(RequestFrom(old(ptr), old(cap), n), r.Returned?)]
    {
      if elemSize == 0 {
        return Panicked;
      }
      var cur := CurrentLayout();
      var newCap, newSize;
      if cur.Some? {
        DoubleFits();
        newCap := 2 * cap;
        newSize := newCap * elemSize;
        if !GuardPasses(newSize) {
          return Panicked;
        }
      } else {
        newCap := if elemSize > heap.platform.UsizeMax() / 8 then 1 else 4;
        FirstFits(newCap);
        newSize := elemSize * newCap;
      }
      var ok := Resize(cur, newCap, newSize);
      return if ok then Returned(()) else Aborted;
    }

    /** `double_in_place` */
    method DoubleInPlace() returns (r: Exit<bool>)
      requires Valid()
      modifies this, heap
      ensures Valid() && Others() == old(Others()) && ptr == old(ptr)
      ensures r == Panicked <==>
                old(cap) > 0 &&
                (elemSize == 0 || (heap.platform != Bits64 && 2 * old(cap) * elemSize > heap.platform.IsizeMax()))
      ensures r == Returned(true) ==> elemSize > 0 && cap == 2 * old(cap) > 0
      ensures r != Returned(true) ==> cap == old(cap) && heap.live == old(heap.live)
      ensures r != Aborted
      ensures heap.log ==
              if r == Panicked || old(cap) == 0 then old(heap.log)
              else old(heap.log) + [Event(GrowRequest(ptr, Layout(elemSize * old(cap), align),
                                                      elemSize * (2 * old(cap))), r.value)]
    {
      var oldLayout := CurrentLayout();
      if oldLayout == None {
        return Returned(false);
      }
      if elemSize == 0 {
        return Panicked;
      }
      DoubleFits();
      var newCap := 2 * cap;
      var newSize := newCap * elemSize;
      if !GuardPasses(newSize) {
        return Panicked;
      }
      var ok := heap.GrowInPlace(ptr, oldLayout.value, newSize);
      if ok {
        cap := newCap;
      }
      return Returned(ok);
    }

    /** `capacity().wrapping_sub(used)` */
    function Room(used: nat): nat
      requires used <= heap.platform.UsizeMax()
      reads this
    {
      if used <= Capacity() then Capacity() - used else Capacity() + heap.platform.UsizeMax() + 1 - used
    }

    /** It is the difference, modulo the size of a word. */
    lemma RoomWraps(used: nat)
      requires Valid() && used <= heap.platform.UsizeMax()
      ensures Room(used) == (Capacity() - used) % (heap.platform.UsizeMax() + 1)
    {
      var word := heap.platform.UsizeMax() + 1;
      if used > Capacity() {
        WrapsOnce(Capacity() - used, word);
      }
    }

    /** When there is too little room, either the request does not fit a word, or `used` was honest
        and the elements have a size. */
    lemma TooLittleRoom(used: nat, extra: nat)
      requires Valid() && used <= heap.platform.UsizeMax() && extra <= heap.platform.UsizeMax()
      requires Room(used) < extra && used + extra <= heap.platform.UsizeMax()
      ensures elemSize > 0 && used <= cap < used + extra && cap + cap <= heap.platform.UsizeMax()
    {
      ProductMonotone(elemSize, cap, cap);
    }

    /** `amortized_new_size`. Doubling the capacity does not wrap, because the checked sum fails first
        where it would. */
    method AmortizedNewSize(used: nat, extra: nat) returns (r: Option<nat>)
      requires Valid() && used <= heap.platform.UsizeMax() && extra <= heap.platform.UsizeMax()
      requires Room(used) < extra
      ensures r == None <==> used + extra > heap.platform.UsizeMax()
      ensures r.Some? ==> used + extra <= r.value && 2 * cap <= r.value <= heap.platform.UsizeMax()
      ensures r.Some? ==> r.value == used + extra || r.value == 2 * cap
    {
      if used + extra > heap.platform.UsizeMax() {
        return None;
      }
      TooLittleRoom(used, extra);
      var doubleCap := cap * 2;
      assert doubleCap <= heap.platform.UsizeMax();
      return Some(if doubleCap >= used + extra then doubleCap else used + extra);
    }

    /** A reservation for `n` elements that needs more than a word can count, or than the platform can
        address. */
    predicate Overflows(n: nat) {
      || n > heap.platform.UsizeMax()
      || elemSize * n > heap.platform.UsizeMax()
      || (heap.platform != Bits64 && elemSize * n > heap.platform.IsizeMax())
    }

    /** `reserve_internal` */
    method ReserveInternal(used: nat, extra: nat, fallibility: Fallibility, strategy: Strategy)
      returns (r: Exit<Reserved>)
      requires Valid() && used <= heap.platform.UsizeMax() && extra <= heap.platform.UsizeMax()
      modifies this, heap
      ensures Valid() && Others() == old(Others())
      ensures r == Returned(Ok) && used <= old(Capacity()) ==> Capacity() >= used + extra
      ensures old(Room(used)) >= extra ==> r == Returned(Ok) && cap == old(cap)
      ensures r == Returned(Ok) && old(Room(used)) < extra && strategy == Exact ==> cap == used + extra
      ensures r == Returned(Ok) && old(Room(used)) < extra && strategy == Amortized ==>
                cap == if 2 * old(cap) >= used + extra then 2 * old(cap) else used + extra
      ensures var n := if strategy == Amortized && 2 * old(cap) > used + extra then 2 * old(cap) else used + extra;
              && (r == Returned(CapacityOverflow) <==> old(Room(used)) < extra && Overflows(n))
              && heap.log == if old(Room(used)) >= extra || Overflows(n) then old(heap.log)
                             else old(heap.log) + [Event(RequestFrom(old(ptr), old(cap), n), r == Returned(Ok))]
      ensures r != Returned(Ok) ==> cap == old(cap) && ptr == old(ptr) && heap.live == old(heap.live)
      ensures elemSize == 0 || used > old(cap) || used + extra <= old(Capacity()) ==>
                cap == old(cap) && ptr == old(ptr) && heap.live == old(heap.live) && heap.log == old(heap.log)
      ensures elemSize == 0 ==> r == Returned(if used + extra <= heap.platform.UsizeMax() then Ok else CapacityOverflow)
      ensures r == Returned(AllocError) ==> fallibility == Fallible
      ensures r == Aborted ==> fallibility == Infallible
      ensures r != Panicked
    {
      if Room(used) >= extra {
        return Returned(Ok);
      }
      var newCap;
      if strategy == Exact {
        if used + extra > heap.platform.UsizeMax() {
          return Returned(CapacityOverflow);
        }
        newCap := used + extra;
      } else {
        var n := AmortizedNewSize(used, extra);
        if n == None {
          return Returned(CapacityOverflow);
        }
        newCap := n.value;
      }
      TooLittleRoom(used, extra);
      var newLayout := ArrayLayout(newCap);
      if newLayout == None || !GuardPasses(newLayout.value.size) {
        return Returned(CapacityOverflow);
      }
      ProductMonotone(elemSize, 1, newCap);
      var cur := CurrentLayout();
      var ok := Resize(cur, newCap, newLayout.value.size);
      if ok {
        return Returned(Ok);
      }
      return if fallibility == Infallible then Aborted else Returned(AllocError);
    }

    /** `reserve` and `reserve_exact`: the arm for an allocation error is unreachable. */
    method Reserve(used: nat, extra: nat, strategy: Strategy) returns (r: Exit<()>)
      requires Valid() && used <= heap.platform.UsizeMax() && extra <= heap.platform.UsizeMax()
      modifies this, heap
      ensures Valid() && Others() == old(Others())
      ensures r.Returned? && used <= old(Capacity()) ==> Capacity() >= used + extra
      ensures old(Room(used)) >= extra ==> r == Returned(()) && cap == old(cap) && heap.log == old(heap.log)
      ensures r.Returned? && old(Room(used)) < extra && elemSize > 0 ==>
                cap == if strategy == Amortized && 2 * old(cap) > used + extra then 2 * old(cap) else used + extra
      ensures !r.Returned? ==> cap == old(cap) && ptr == old(ptr) && heap.live == old(heap.live)
      ensures var n := if strategy == Amortized && 2 * old(cap) > used + extra then 2 * old(cap) else used + extra;
              && (r == Panicked <==> old(Room(used)) < extra && Overflows(n))
              && heap.log == if old(Room(used)) >= extra || Overflows(n) then old(heap.log)
                             else old(heap.log) + [Event(RequestFrom(old(ptr), old(cap), n), r.Returned?)]
    {
      var res := ReserveInternal(used, extra, Infallible, strategy);
      match res
      case Returned(CapacityOverflow) => return Panicked;
      case Returned(AllocError) => assert false;
      case Returned(Ok) => return Returned(());
      case Aborted => return Aborted;
    }

    /** `reserve_in_place` */
    method ReserveInPlace(used: nat, extra: nat) returns (r: Exit<bool>)
      requires Valid() && used <= heap.platform.UsizeMax() && extra <= heap.platform.UsizeMax()
      modifies this, heap
      ensures Valid() && Others() == old(Others()) && ptr == old(ptr)
      ensures r == Returned(true) ==>
                cap > old(cap) && cap == if 2 * old(cap) > used + extra then 2 * old(cap) else used + extra
      ensures r != Returned(true) ==> cap == old(cap) && heap.live == old(heap.live)
      ensures r != Aborted && (old(cap) == 0 || old(Room(used)) >= extra ==> r == Returned(false))
      ensures var n := if 2 * old(cap) > used + extra then 2 * old(cap) else used + extra;
              && (r == Panicked <==> old(cap) > 0 && old(Room(used)) < extra && Overflows(n))
              && heap.log ==
                 if old(cap) == 0 || old(Room(used)) >= extra || Overflows(n) then old(heap.log)
                 else old(heap.log)
                      + [Event(GrowRequest(ptr, Layout(elemSize * old(cap), align), elemSize * n), r == Returned(true))]
    {
      var oldLayout := CurrentLayout();
      if oldLayout == None {
        return Returned(false);
      }
      if Room(used) >= extra {
        return Returned(false);
      }
      var n := AmortizedNewSize(used, extra);
      if n == None {
        return Panicked;
      }
      TooLittleRoom(used, extra);
      var newLayout := ArrayLayout(n.value);
      if newLayout == None || !GuardPasses(newLayout.value.size) {
        return Panicked;
      }
      ProductMonotone(elemSize, cap, n.value);
      var ok := heap.GrowInPlace(ptr, oldLayout.value, newLayout.value.size);
      if ok {
        cap := n.value;
      }
      return Returned(ok);
    }

    /** `dealloc_buffer`, and with it `drop`. The vector is not to be used afterwards. */
    method DeallocBuffer()
      requires Valid()
      modifies heap
      ensures heap.live == old(Others())
      ensures heap.log == if elemSize == 0 || cap == 0 then old(heap.log)
                          else old(heap.log) + [Event(DeallocRequest(ptr, Layout(elemSize * cap, align)), true)]
    {
      if elemSize != 0 {
        var layout := CurrentLayout();
        if layout.Some? {
          heap.Dealloc(ptr, layout.value);
        }
      }
    }

    /** `shrink_to_fit` */
    method ShrinkToFit(amount: nat) returns (r: Exit<()>)
      requires Valid() && amount <= heap.platform.UsizeMax()
      modifies this, heap
      ensures Valid() && Others() == old(Others())
      ensures r == Panicked <==> elemSize > 0 && amount > old(cap)
      ensures r.Returned? ==> cap == amount
      ensures !r.Returned? ==> cap == old(cap) && ptr == old(ptr) && heap.live == old(heap.live)
      ensures r == Panicked || elemSize == 0 || amount == old(cap) ==> heap.log == old(heap.log)
      ensures elemSize == 0 || amount == old(cap) > 0 ==> ptr == old(ptr)
      ensures elemSize > 0 && amount == 0 < old(cap) ==>
                heap.log == old(heap.log) + [Event(DeallocRequest(old(ptr), Layout(elemSize * old(cap), align)), true)]
      ensures elemSize > 0 && 0 < amount < old(cap) ==>
                heap.log == old(heap.log) + [Event(RequestFrom(old(ptr), old(cap), amount), r.Returned?)]
      ensures r == Aborted ==> heap.log != old(heap.log) && heap.Refused()
    {
      if elemSize == 0 {
        cap := amount;
        return Returned(());
      }
      if cap < amount {
        return Panicked;
      }
      if amount == 0 {
        DeallocBuffer();
        ptr, cap := DANGLING, 0;
      } else if cap != amount {
        ProductMonotone(elemSize, amount, cap);
        ProductMonotone(elemSize, amount, amount);
        var oldSize := elemSize * cap;
        var newSize := elemSize * amount;
        var p := heap.Realloc(ptr, Layout(oldSize, align), newSize);
        if p == None {
          return Aborted;
        }
        ptr, cap := p.value, amount;
      }
      return Returned(());
    }

    /** `from_box`: takes over what the box owns. */
    constructor FromBox(heap: Heap, elemSize: nat, align: nat, slice: BoxedSlice)
      requires align > 0 && elemSize % align == 0 && elemSize <= heap.platform.IsizeMax()
      requires slice.len <= heap.platform.UsizeMax() && elemSize * slice.len <= heap.platform.IsizeMax()
      requires OwnsBlock(heap.live, elemSize, align, slice.ptr, slice.len)
      ensures Valid() && Others() == OtherBlocks(heap.live, elemSize, slice.ptr, slice.len)
      ensures this.heap == heap && this.elemSize == elemSize && this.align == align
      ensures ptr == slice.ptr && cap == slice.len
    {
      this.heap, this.elemSize, this.align := heap, elemSize, align;
      ptr, cap := slice.ptr, slice.len;
    }

    /** `into_box`: gives away what the vector owns, with the real `cap` and not `capacity()`. */
    method IntoBox() returns (slice: BoxedSlice)
      requires Valid()
      ensures slice == BoxedSlice(ptr, cap)
      ensures OwnsBlock(heap.live, elemSize, align, slice.ptr, slice.len)
      ensures Others() == OtherBlocks(heap.live, elemSize, slice.ptr, slice.len)
    {
      slice := BoxedSlice(ptr, cap);
    }

    /** `allocate_in`, behind `with_capacity` */
    static method WithCapacity(heap: Heap, elemSize: nat, align: nat, capacity: nat)
      returns (r: Exit<RawVec>)
      requires align > 0 && elemSize % align == 0 && elemSize <= heap.platform.IsizeMax()
      requires capacity <= heap.platform.UsizeMax() && align <= heap.platform.UsizeMax()
      modifies heap
      ensures r.Returned? ==>
                var v := r.value;
                && fresh(v) && v.Valid() && v.heap == heap && v.elemSize == elemSize && v.align == align
                && v.cap == capacity && v.Others() == old(heap.live)
      ensures !r.Returned? ==> heap.live == old(heap.live)
      ensures RequestPanics(heap.platform, elemSize, align, capacity) == (r == Panicked)
      ensures r == Panicked <==>
                || elemSize * capacity > heap.platform.UsizeMax()
                || (heap.platform != Bits64 && elemSize * capacity > heap.platform.IsizeMax())
                || elemSize * capacity + (align - 1) > heap.platform.UsizeMax()
      ensures elemSize * capacity <= heap.platform.IsizeMax() ==> r != Panicked
      ensures elemSize * capacity > heap.platform.IsizeMax() ==> !r.Returned?
      ensures elemSize * capacity == 0 ==> r.Returned?
      ensures heap.log ==
              if r == Panicked || elemSize * capacity == 0 then old(heap.log)
              else old(heap.log) + [Event(AllocRequest(Layout(elemSize * capacity, align)), r.Returned?)]
      ensures r == Aborted ==> heap.Refused()
    {
      ProductMonotone(elemSize, capacity, capacity);
      AlignAtMost(elemSize, align);
      var allocSize := elemSize * capacity;
      if allocSize > heap.platform.UsizeMax() {
        return Panicked;
      }
      if heap.platform != Bits64 && allocSize > heap.platform.IsizeMax() {
        return Panicked;
      }
      var ptr := DANGLING;
      if allocSize > 0 {
        if allocSize > heap.platform.UsizeMax() - (align - 1) {
          return Panicked;
        }
        var p := heap.Alloc(Layout(allocSize, align));
        if p == None {
          return Aborted;
        }
        ptr := p.value;
      }
      var v := new RawVec.FromBox(heap, elemSize, align, BoxedSlice(ptr, capacity));
      return Returned(v);
    }
  }

  /** `Drop` for a boxed slice. */
  method DropBox(heap: Heap, elemSize: nat, align: nat, slice: BoxedSlice)
    requires OwnsBlock(heap.live, elemSize, align, slice.ptr, slice.len)
    modifies heap
    ensures heap.live == OtherBlocks(old(heap.live), elemSize, slice.ptr, slice.len)
  {
    if elemSize > 0 && slice.len > 0 {
      heap.Dealloc(slice.ptr, Layout(elemSize * slice.len, align));
    }
  }

  // ---- Whole lives ----

  datatype Op =
    | OpDouble
    | OpDoubleInPlace
    | OpReserve(used: nat, extra: nat, strategy: Strategy)
    | OpTryReserve(used: nat, extra: nat, strategy: Strategy)
    | OpReserveInPlace(used: nat, extra: nat)
    | OpShrinkToFit(amount: nat)
    | OpThroughBox

  /** The arguments are machine words. */
  predicate InRange(op: Op, max: nat) {
    match op
    case OpReserve(used, extra, _) => used <= max && extra <= max
    case OpTryReserve(used, extra, _) => used <= max && extra <= max
    case OpReserveInPlace(used, extra) => used <= max && extra <= max
    case OpShrinkToFit(amount) => amount <= max
    case _ => true
  }

  /** Applies one operation. `w` is the vector afterwards: a new one if it went through a box. */
  method Apply(v: RawVec, op: Op) returns (r: Exit<()>, w: RawVec)
    requires v.Valid() && InRange(op, v.heap.platform.UsizeMax())
    modifies v, v.heap
    ensures w == v || fresh(w)
    ensures w.Valid() && w.heap == v.heap && w.elemSize == v.elemSize && w.align == v.align
    ensures w.Others() == old(v.Others())
    ensures old(v.heap.log) <= v.heap.log
    ensures r == Aborted ==> v.heap.log != old(v.heap.log) && v.heap.Refused()
    ensures op == OpDouble && r.Returned? && old(v.cap) > 0 ==> w.cap == 2 * old(v.cap)
    ensures op.OpReserve? && r.Returned? && op.used <= old(v.Capacity()) ==> w.Capacity() >= op.used + op.extra
    ensures op.OpTryReserve? || op == OpThroughBox ==> r == Returned(())
    ensures op.OpShrinkToFit? && r.Returned? ==> w.cap == op.amount
    ensures op == OpThroughBox ==> w.ptr == old(v.ptr) && w.cap == old(v.cap) && v.heap.log == old(v.heap.log)
  {
    w := v;
    match op
    case OpDouble =>
      r := v.Double();
    case OpDoubleInPlace =>
      var e := v.DoubleInPlace();
      r := if e.Returned? then Returned(()) else Panicked;
    case OpReserve(used, extra, strategy) =>
      r := v.Reserve(used, extra, strategy);
    case OpTryReserve(used, extra, strategy) =>
      var e := v.ReserveInternal(used, extra, Fallible, strategy);
      r := Returned(());
    case OpReserveInPlace(used, extra) =>
      var e := v.ReserveInPlace(used, extra);
      r := if e.Returned? then Returned(()) else Panicked;
    case OpShrinkToFit(amount) =>
      r := v.ShrinkToFit(amount);
    case OpThroughBox =>
      w := ThroughBox(v);
      r := Returned(());
  }

  /** `from_box` of `into_box`. */
  method ThroughBox(v: RawVec) returns (w: RawVec)
    requires v.Valid()
    ensures fresh(w) && w.Valid() && w.heap == v.heap && w.elemSize == v.elemSize && w.align == v.align
    ensures w.Others() == v.Others() && w.ptr == v.ptr && w.cap == v.cap
  {
    var slice := v.IntoBox();
    w := new RawVec.FromBox(v.heap, v.elemSize, v.align, slice);
  }

  /** Any vector, taken through any operations until one panics, and then dropped, as itself or as a
      box. The process is aborted only by a refusal of the allocator; otherwise the heap ends as it
      began: every block was freed, once, with the layout it had. */
  method Life(heap: Heap, elemSize: nat, align: nat, capacity: nat, ops: seq<Op>, asBox: bool)
    returns (r: Exit<()>)
    requires align > 0 && elemSize % align == 0 && elemSize <= heap.platform.IsizeMax()
    requires capacity <= heap.platform.UsizeMax() && align <= heap.platform.UsizeMax()
    requires forall i :: 0 <= i < |ops| ==> InRange(ops[i], heap.platform.UsizeMax())
    modifies heap
    ensures r != Aborted ==> heap.live == old(heap.live)
    ensures r == Aborted ==> heap.log != old(heap.log) && heap.Refused()
  {
    var made := RawVec.WithCapacity(heap, elemSize, align, capacity);
    if !made.Returned? {
      return if made == Panicked then Panicked else Aborted;
    }
    var v := made.value;
    r := Returned(());
    for i := 0 to |ops|
      invariant fresh(v) && v.Valid() && v.heap == heap && v.elemSize == elemSize && v.align == align
      invariant v.Others() == old(heap.live) && r.Returned? && old(heap.log) <= heap.log
    {
      r, v := Apply(v, ops[i]);
      if !r.Returned? {
        break;
      }
    }
    if r != Aborted {
      if asBox && r.Returned? {
        var slice := v.IntoBox();
        DropBox(heap, elemSize, align, slice);
      } else {
        v.DeallocBuffer();
      }
    }
  }
}
