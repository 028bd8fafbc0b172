/** `[T]::repeat`, which doubles a buffer and then copies the remaining part of it. */
module Repeat {
  import opened Products
  import opened RawVecs

  /** `n` copies of `s`, one after the other. */
  ghost function Copies<T>(s: seq<T>, n: nat): seq<T> {
    if n == 0 then [] else Copies(s, n - 1) + s
  }

  lemma {:induction false} CopiesLength<T>(s: seq<T>, n: nat)
    ensures |Copies(s, n)| == |s| * n
  {
    if n > 0 {
      CopiesLength(s, n - 1);
      assert |s| * n == |s| * (n - 1) + |s|;
    }
  }

  /** Element by element: the copies repeat with the period `|s|`. */
  lemma {:induction false} CopiesAt<T>(s: seq<T>, n: nat, i: nat)
    requires i < |s| * n
    ensures i < |Copies(s, n)| && Copies(s, n)[i] == s[i % |s|]
  {
    CopiesLength(s, n);
    CopiesLength(s, n - 1);
    Distribute(|s|, n - 1, 1);
    if i < |s| * (n - 1) {
      CopiesAt(s, n - 1, i);
    } else {
      RemainderIs(i, |s|, n - 1);
    }
  }

  lemma RemainderIs(i: nat, k: nat, q: nat)
    requires k * q <= i < k * q + k
    ensures i % k == i - k * q
  {
    var d := i / k - q;
    assert i == k * (i / k) + i % k;
    if d != 0 {
      if d > 0 { ProductMonotone(k, q + 1, i / k); } else { ProductMonotone(k, i / k + 1, q); }
      Distribute(k, q, 1);
      Distribute(k, i / k, 1);
    }
  }

  lemma {:induction false} CopiesAdd<T>(s: seq<T>, a: nat, b: nat)
    ensures Copies(s, a + b) == Copies(s, a) + Copies(s, b)
  {
    if b > 0 {
      CopiesAdd(s, a, b - 1);
      assert Copies(s, a + b) == Copies(s, a) + (Copies(s, b - 1) + s);
    }
  }

  /** The number represented by the leftmost 1 bit of `n`. */
  ghost function TopBit(n: nat): (p: nat)
    requires n > 0
    ensures 0 < p <= n < 2 * p
  {
    if n == 1 then 1 else 2 * TopBit(n / 2)
  }

  /** `ptr::copy_nonoverlapping` of the first `count` elements of a vector behind its last. */
  method CopyBehind<T>(buf: array<T>, len: nat, count: nat)
    requires count <= len && len + count <= buf.Length
    modifies buf
    ensures buf[..len] == old(buf[..len]) && buf[len..len + count] == old(buf[..count])
  {
    forall i | len <= i < len + count {
      buf[i] := buf[i - len];
    }
  }

  /** By how much the buffer still has to grow when `m` is the part of `n` not yet shifted out. */
  ghost function Growth(m: nat): (g: nat)
    ensures g > 0
  {
    if m == 0 then 1 else 2 * TopBit(m)
  }

  /** With `c` copies made and `m > 0` left to shift out, there is room to double. */
  lemma DoublingFits(len: nat, c: nat, m: nat, n: nat)
    requires n > 0 && m > 0 && c * Growth(m) == TopBit(n)
    ensures (c + c) * Growth(m / 2) == TopBit(n)
    ensures len * c + len * c == len * (c + c) <= len * n
  {
    assert Growth(m) == 2 * Growth(m / 2);
    DoubleFactor(c, Growth(m / 2));
    DoubleFactor(len, c);
    ProductMonotone(len, c + c, n);
  }

  lemma DoubleFactor(a: nat, b: nat)
    ensures a * (2 * b) == 2 * a * b == a * b + a * b
    ensures b > 0 ==> 2 * a <= a * (2 * b)
  {
    if b > 0 { ProductMonotone(2 * a, 1, b); }
  }

  /** One doubling: `buf.extend(buf)`. */
  method DoubleOnce<T>(buf: array<T>, len: nat, ghost s: seq<T>, ghost c: nat)
    requires len + len <= buf.Length && buf[..len] == Copies(s, c)
    modifies buf
    ensures buf[..len + len] == Copies(s, c + c)
  {
    CopyBehind(buf, len, len);
    CopiesAdd(s, c, c);
    assert buf[..len + len] == buf[..len] + buf[len..len + len];
  }

  /** The doubling loop. It stops at the largest power of two that `n` holds. */
  method Double<T>(buf: array<T>, s: seq<T>, n: nat) returns (len: nat)
    requires n > 0 && |s| * n <= buf.Length && |s| <= buf.Length && buf[..|s|] == s
    modifies buf
    ensures len == |s| * TopBit(n) && len <= |s| * n && buf[..len] == Copies(s, TopBit(n))
  {
    len := |s|;
    var m: nat := n / 2;
    ghost var c: nat := 1;
    assert Copies(s, 1) == Copies(s, 0) + s == s;
    while m > 0
      invariant c * Growth(m) == TopBit(n)
      invariant len == |s| * c && len <= buf.Length && buf[..len] == Copies(s, c)
      decreases m
    {
      DoublingFits(|s|, c, m, n);
      DoubleOnce(buf, len, s, c);
      len, c, m := len + len, c + c, m / 2;
    }
    ProductMonotone(|s|, c, n);
  }

  /** Whether the length that `repeat` gives its vector is `len * n`. */
  ghost predicate LengthIsRight(len: nat, n: nat, elemSize: nat, usizeMax: nat) {
    elemSize > 0 || n == 0 || len == 0 || n == TopBit(n) || len * n == usizeMax
  }

  /** Whether `repeat` panics: the length does not fit `usize`, or `with_capacity` refuses it. */
  predicate RepeatPanics(platform: Platform, elemSize: nat, align: nat, len: nat, n: nat) {
    n > 0 && (len * n > platform.UsizeMax() || RequestPanics(platform, elemSize, align, len * n))
  }

  /** `repeat`. What it returns is the vector `r.value`, whose elements are `buf[..newLen]`. */
  method Repeat<T(0)>(heap: Heap, s: seq<T>, n: nat, elemSize: nat, align: nat)
    returns (r: Exit<RawVec>, buf: array<T>, newLen: nat)
    requires align > 0 && elemSize % align == 0 && elemSize <= heap.platform.IsizeMax()
    requires |s| <= heap.platform.UsizeMax() && n <= heap.platform.UsizeMax() && align <= heap.platform.UsizeMax()
    modifies heap
    ensures r == Panicked <==> RepeatPanics(heap.platform, elemSize, align, |s|, n)
    ensures !r.Returned? ==> heap.live == old(heap.live)
    ensures r == Aborted ==> heap.log != old(heap.log) && heap.Refused()
    ensures heap.log ==
            if n == 0 || r == Panicked || elemSize * (|s| * n) == 0 then old(heap.log)
            else old(heap.log) + [Event(AllocRequest(Layout(elemSize * (|s| * n), align)), r.Returned?)]
    ensures r.Returned? ==>
              && fresh(r.value) && r.value.Valid() && r.value.heap == heap && r.value.Others() == old(heap.live)
              && r.value.elemSize == elemSize && r.value.align == align && buf.Length == r.value.Capacity()
    ensures r.Returned? ==> newLen <= buf.Length && |s| * n <= buf.Length && buf[..|s| * n] == Copies(s, n)
    ensures r.Returned? ==> (newLen == |s| * n <==> LengthIsRight(|s|, n, elemSize, heap.platform.UsizeMax()))
    ensures r.Returned? && newLen != |s| * n ==> newLen == heap.platform.UsizeMax()
  {
    newLen := 0;
    if n == 0 {
      var empty := new RawVec(heap, elemSize, align);
      buf := new T[empty.Capacity()];
      return Returned(empty), buf, 0;
    }
    buf := new T[0];
    var total := |s| * n;
    if total > heap.platform.UsizeMax() {
      return Panicked, buf, 0;
    }
    r := RawVec.WithCapacity(heap, elemSize, align, total);
    if r.Returned? {
      buf, newLen := Fill(s, n, r.value.Capacity());
    }
  }

  /** The part of `repeat` after the allocation. */
  method Fill<T(0)>(s: seq<T>, n: nat, capacity: nat) returns (buf: array<T>, newLen: nat)
    requires n > 0 && |s| * n <= capacity
    ensures fresh(buf) && buf.Length == capacity && buf[..|s| * n] == Copies(s, n)
    ensures newLen == if |s| == 0 || n == TopBit(n) then |s| * n else capacity
  {
    ProductMonotone(|s|, 1, n);
    buf := new T[capacity];
    forall i | 0 <= i < |s| {
      buf[i] := s[i];
    }
    assert buf[..|s|] == s;
    newLen := Double(buf, s, n);
    var remLen := |s| * n - newLen;
    Remainder(s, n);
    if remLen > 0 {
      CopyRest(buf, newLen, remLen, s, n);
      newLen := capacity;
    }
  }

  /** Copies what the doubling loop has left out. */
  method CopyRest<T>(buf: array<T>, len: nat, remLen: nat, ghost s: seq<T>, ghost n: nat)
    requires n > 0 && remLen <= len && len + remLen <= buf.Length
    requires buf[..len] == Copies(s, TopBit(n)) && Copies(s, n) == Copies(s, TopBit(n)) + Copies(s, TopBit(n))[..remLen]
    modifies buf
    ensures buf[..len + remLen] == Copies(s, n)
  {
    ghost var built := buf[..len];
    assert built[..remLen] == buf[..remLen];
    CopyBehind(buf, len, remLen);
    assert buf[..len + remLen] == buf[..len] + buf[len..len + remLen];
  }

  /** The length of the copies that the doubling loop leaves out. */
  lemma RemainderLength(len: nat, n: nat, c: nat)
    requires 0 < c <= n < 2 * c
    ensures len * n - len * c == len * (n - c) && len * (n - c) <= len * c
    ensures len * (n - c) == 0 <==> len == 0 || n == c
  {
    Distribute(len, c, n - c);
    ProductMonotone(len, n - c, c);
    if len > 0 && n > c { ProductMonotone(len, 1, n - c); }
  }

  /** Fewer copies are a prefix of more. */
  lemma CopiesPrefix<T>(s: seq<T>, a: nat, b: nat)
    requires a <= b
    ensures |s| * a <= |Copies(s, b)| && Copies(s, b)[..|s| * a] == Copies(s, a)
  {
    CopiesAdd(s, a, b - a);
    CopiesLength(s, a);
  }

  lemma CopiesFromHalf<T>(s: seq<T>, n: nat, c: nat, rem: nat)
    requires c <= n <= 2 * c && rem == |s| * (n - c)
    ensures rem <= |Copies(s, c)| == |s| * c && Copies(s, n) == Copies(s, c) + Copies(s, c)[..rem]
  {
    CopiesLength(s, c);
    CopiesPrefix(s, n - c, c);
    CopiesAdd(s, c, n - c);
  }

  /** What the doubling loop leaves to copy is a proper part of what it has built. */
  lemma Remainder<T>(s: seq<T>, n: nat)
    requires n > 0
    ensures var c := TopBit(n);
            var rem := |s| * n - |s| * c;
            && 0 <= rem <= |s| * c == |Copies(s, c)|
            && (rem == 0 <==> |s| == 0 || n == c)
            && Copies(s, n) == Copies(s, c) + Copies(s, c)[..rem]
  {
    var c := TopBit(n);
    RemainderLength(|s|, n, c);
    CopiesFromHalf(s, n, c, |s| * n - |s| * c);
  }

  /** Three copies of one zero-sized element come out with the length `usize::MAX`. */
  lemma ZeroSizedElementsGoWrong(usizeMax: nat)
    requires usizeMax > 3
    ensures !LengthIsRight(1, 3, 0, usizeMax)
  {
    assert TopBit(3) == 2 * TopBit(1);
  }
}
