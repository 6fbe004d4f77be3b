/** The allocator of lib/malloc.c: it bumps a pointer through the heap, keeps the size of each block in
    the four bytes in front of it, can grow the newest block in place and takes it back when it is freed.

    Addresses are indices into `heap`; 0 is the null pointer.
 */
module Malloc {
  import opened Bits
  import opened Common

  const HEADER := 4 // sizeof(int), also sizeof(void *)
  const EINVAL := 22
  const ENOMEM := 12

  // ---------- Layout ----------

  /** The blocks in use: address and size. */
  type Blocks = map<nat, nat>

  // Block a and its header do not share a byte with block b and its header.
  predicate Apart(live: Blocks, a: nat, b: nat)
    requires a in live && b in live
  {
    a + live[a] + HEADER <= b || b + live[b] + HEADER <= a
  }

  /** All blocks with their headers lie in [bottom, limit) and are pairwise disjoint. */
  ghost predicate Laid(live: Blocks, bottom: nat, limit: nat) {
    && (forall a | a in live :: bottom + HEADER <= a && a + live[a] <= limit)
    && (forall a, b | a in live && b in live && a != b :: Apart(live, a, b))
  }

  // `last` is above all other blocks.
  ghost predicate Newest(live: Blocks, last: nat) {
    last in live ==> forall a | a in live && a != last :: a + live[a] + HEADER <= last
  }

  lemma AddAbove(live: Blocks, bottom: nat, limit: nat, p: nat, size: word, newLimit: nat)
    requires Laid(live, bottom, limit) && bottom <= limit
    requires limit + HEADER <= p && p + size <= newLimit
    ensures p !in live
    ensures Laid(live[p := size], bottom, newLimit) && Newest(live[p := size], p)
  {
  }

  lemma RemoveOne(live: Blocks, bottom: nat, limit: nat, p: nat)
    requires Laid(live, bottom, limit)
    ensures Laid(live - {p}, bottom, limit)
  {
    forall a, b | a in live - {p} && b in live - {p} && a != b ensures Apart(live - {p}, a, b) {
      assert Apart(live, a, b);
    }
  }

  lemma ResizeNewest(live: Blocks, bottom: nat, limit: nat, p: nat, size: word, newLimit: nat)
    requires Laid(live, bottom, limit) && p in live && Newest(live, p) && p + size <= newLimit
    ensures Laid(live[p := size], bottom, newLimit) && Newest(live[p := size], p)
    ensures Laid(live - {p}, bottom, p - HEADER)
  {
  }

  // ---------- Arithmetic ----------

  ghost predicate IsMultiple(x: nat, a: nat) {
    exists k: nat :: x == k * a
  }

  lemma MultipleOfFactor(x: nat, a: nat, b: nat)
    requires IsMultiple(x, a) && b > 0 && a % b == 0
    ensures IsMultiple(x, b)
  {
    var k: nat :| x == k * a;
    var m := a / b;
    assert x == k * (m * b) == (k * m) * b;
  }

  lemma NoMultipleBetween(x: nat, y: nat, a: nat)
    requires IsMultiple(x, a) && IsMultiple(y, a) && y < x + a
    ensures y <= x
  {
    var k: nat :| x == k * a;
    var m: nat :| y == m * a;
    if m > k {
      Multiples(k, m, a);
      assert false;
    }
  }

  // `(x + (a - 1)) & ~(a - 1)` for a power of two: the next multiple of a.
  function AlignUp(x: nat, a: nat): (r: nat)
    requires a > 0
    ensures x <= r < x + a && IsMultiple(r, a)
  {
    var k := (x + a - 1) / a;
    assert (x + a - 1) == k * a + (x + a - 1) % a;
    k * a
  }

  // A 32-bit number as it lies in memory, most significant byte first.
  function Word(b0: byte, b1: byte, b2: byte, b3: byte): word {
    ((b0 * 0x100 + b1) * 0x100 + b2) * 0x100 + b3
  }

  // ---------- Memory ----------

  // The number kept in front of address a.
  function HeaderAt(h: seq<byte>, a: nat): word
    requires HEADER <= a <= |h|
  {
    Word(h[a - 4], h[a - 3], h[a - 2], h[a - 1])
  }

  ghost predicate Headers(live: Blocks, h: seq<byte>) {
    forall a | a in live :: HEADER <= a && a + live[a] <= |h| && HeaderAt(h, a) == live[a]
  }

  // Nothing but the addresses lo .. hi-1 has changed.
  ghost predicate ChangedIn(h0: seq<byte>, h1: seq<byte>, lo: int, hi: int) {
    |h0| == |h1| && forall i | 0 <= i < |h0| && !(lo <= i < hi) :: h1[i] == h0[i]
  }

  ghost predicate SameBlock(h0: seq<byte>, h1: seq<byte>, a: nat, n: nat) {
    a + n <= |h0| == |h1| && h0[a..a + n] == h1[a..a + n]
  }

  /** The contents of all blocks but `except` are what they were. */
  ghost predicate Kept(live: Blocks, h0: seq<byte>, h1: seq<byte>, except: nat) {
    forall a | a in live && a != except :: SameBlock(h0, h1, a, live[a])
  }

  /** A change that stays inside block p and its header, or outside all blocks, spares the others. */
  lemma OthersKept(live: Blocks, h0: seq<byte>, h1: seq<byte>, lo: int, hi: int, p: nat)
    requires ChangedIn(h0, h1, lo, hi) && Headers(live, h0)
    requires forall a | a in live && a != p :: a + live[a] <= lo || hi + HEADER <= a
    ensures Kept(live, h0, h1, p)
    ensures Headers(live - {p}, h1)
    ensures (p in live ==> hi <= p) ==> Kept(live, h0, h1, 0)
  {
  }

  /** Writing into block p spares the others and every header. */
  lemma WriteInside(live: Blocks, bottom: nat, limit: nat, h0: seq<byte>, h1: seq<byte>, p: nat, n: nat)
    requires Laid(live, bottom, limit) && Headers(live, h0) && p in live && n <= live[p]
    requires ChangedIn(h0, h1, p, p + n)
    ensures Kept(live, h0, h1, p) && Headers(live, h1)
  {
    assert forall a | a in live && a != p :: Apart(live, a, p);
    OthersKept(live, h0, h1, p, p + n, p);
    assert HeaderAt(h1, p) == HeaderAt(h0, p);
  }

  /** Writing the header of the newest block spares the contents of all blocks. */
  lemma WriteHeader(live: Blocks, bottom: nat, limit: nat, h0: seq<byte>, h1: seq<byte>, p: nat, size: word)
    requires Laid(live, bottom, limit) && Headers(live, h0) && Newest(live, p) && p >= HEADER && p + size <= |h0|
    requires p !in live ==> limit + HEADER <= p
    requires ChangedIn(h0, h1, p - HEADER, p) && HeaderAt(h1, p) == size
    ensures Kept(live, h0, h1, 0) && Headers(live[p := size], h1)
  {
    hide HeaderAt;
    assert forall a | a in live && a != p :: a + live[a] + HEADER <= p;
    OthersKept(live, h0, h1, p - HEADER, p, p);
  }

  lemma KeptSlice(live: Blocks, h0: seq<byte>, h1: seq<byte>, e: nat, a: nat, n: nat)
    requires Kept(live, h0, h1, e) && a in live && a != e && n <= live[a]
    ensures a + n <= |h0| == |h1| && h1[a..a + n] == h0[a..a + n]
  {
    assert SameBlock(h0, h1, a, live[a]);
    assert h0[a..a + n] == h0[a..a + live[a]][..n];
    assert h1[a..a + n] == h1[a..a + live[a]][..n];
  }

  lemma FewerHeaders(live: Blocks, h: seq<byte>, p: nat)
    requires Headers(live, h)
    ensures Headers(live - {p}, h)
  {
  }

  lemma WeakerKept(live: Blocks, h0: seq<byte>, h1: seq<byte>, e: nat)
    requires Kept(live, h0, h1, 0) && 0 !in live
    ensures Kept(live, h0, h1, e)
  {
  }

  lemma KeptTrans(live0: Blocks, live1: Blocks, h0: seq<byte>, h1: seq<byte>, h2: seq<byte>, e0: nat, e1: nat, e: nat)
    requires Kept(live0, h0, h1, e0) && Kept(live1, h1, h2, e1)
    requires forall a | a in live0 && a != e :: a != e0 && a in live1 && live1[a] == live0[a] && a != e1
    ensures Kept(live0, h0, h2, e)
  {
  }

  class Allocator {
    const heap: array<byte>
    var mallocPtr: nat
    var mallocTop: nat
    var lastAlloc: nat
    ghost var bottom: nat
    ghost var live: Blocks

    ghost predicate Valid()
      reads this, heap
    {
      && (mallocPtr == 0 ==> live == map[])
      && (mallocPtr != 0 ==> 0 < bottom <= mallocPtr && mallocTop <= heap.Length)
      && Laid(live, bottom, mallocPtr)
      && Newest(live, lastAlloc)
      && (forall a | a in live :: a + live[a] <= mallocTop)
      && Headers(live, heap[..])
    }

    constructor (heap: array<byte>)
      ensures Valid() && this.heap == heap && mallocPtr == 0 && lastAlloc == 0
    {
      this.heap := heap;
      mallocPtr, mallocTop, lastAlloc, bottom, live := 0, 0, 0, 0, map[];
    }

    method MallocInit(start: nat, size: nat)
      requires 0 < start && start + size <= heap.Length
      modifies this
      ensures Valid() && live == map[] && mallocPtr == bottom == start && mallocTop == start + size
    {
      mallocPtr, mallocTop := start, start + size;
      bottom, live := start, map[];
    }

    method MallocDispose()
      modifies this
      ensures Valid() && live == map[] && mallocPtr == lastAlloc == 0 && mallocTop == old(mallocTop)
    {
      mallocPtr, lastAlloc := 0, 0;
      live := map[];
    }

    // Stores the size of the block at `a` in front of it.
    method SetHeader(a: nat, size: word)
      requires HEADER <= a <= heap.Length
      modifies heap
      ensures HeaderAt(heap[..], a) == size
      ensures ChangedIn(old(heap[..]), heap[..], a - HEADER, a)
    {
      heap[a - 1] := size % 0x100;
      heap[a - 2] := size / 0x100 % 0x100;
      heap[a - 3] := size / 0x1_0000 % 0x100;
      heap[a - 4] := size / 0x100_0000;
      WordOf(size);
    }

    lemma WordOf(size: word)
      ensures Word(size / 0x100_0000, size / 0x1_0000 % 0x100, size / 0x100 % 0x100, size % 0x100) == size
    {
      var a := size / 0x100;
      var b := a / 0x100;
      assert size / 0x1_0000 == b;
      assert size / 0x100_0000 == b / 0x100;
      assert b == b / 0x100 * 0x100 + b % 0x100;
      assert a == b * 0x100 + a % 0x100;
    }

    /** Makes block p of `size` bytes, above everything in use, the newest block. */
    method Place(p: nat, size: word)
      requires Valid() && mallocPtr != 0
      requires mallocPtr + HEADER <= p && p + size <= mallocTop
      modifies this, heap
      ensures Valid() && mallocPtr != 0 && mallocTop == old(mallocTop) && bottom == old(bottom)
      ensures p !in old(live) && live == old(live)[p := size] && lastAlloc == p
      ensures mallocPtr == AlignUp(p + size, 4)
      ensures Kept(old(live), old(heap[..]), heap[..], 0)
    {
      hide HeaderAt, Headers, Kept, ChangedIn;
      var newPtr := AlignUp(p + size, 4);
      AddAbove(live, bottom, mallocPtr, p, size, newPtr);
      SetHeader(p, size);
      WriteHeader(live, bottom, old(mallocPtr), old(heap[..]), heap[..], p, size);
      mallocPtr := newPtr;
      lastAlloc := p;
      live := live[p := size];
    }

    method Malloc(size: word) returns (p: nat)
      requires Valid()
      modifies this, heap
      ensures Valid() && mallocTop == old(mallocTop)
      ensures p == 0 <==> old(mallocPtr) == 0 || old(mallocPtr) + size + HEADER > mallocTop
      ensures p == 0 ==> unchanged(this) && unchanged(heap)
      ensures p != 0 ==>
                && p !in old(live) && live == old(live)[p := size] && lastAlloc == p
                && p == old(mallocPtr) + HEADER && mallocPtr == AlignUp(p + size, 4)
      ensures Kept(old(live), old(heap[..]), heap[..], 0)
    {
      if mallocPtr == 0 {
        return 0;
      }
      if mallocPtr + size + HEADER > mallocTop {
        return 0;
      }
      p := mallocPtr + HEADER;
      Place(p, size);
    }

    /** The block returned is aligned as asked for, and to the size of a pointer, and as low as can be; the gap in
        front of it is lost. */
    method PosixMemalign(align: nat, size: word) returns (err: int, p: nat)
      requires Valid()
      modifies this, heap
      ensures Valid() && mallocTop == old(mallocTop)
      ensures err == EINVAL <==> old(mallocPtr) == 0 || (align > HEADER && !IsPowerOfTwo(align))
      ensures err == 0 || err == EINVAL || err == ENOMEM
      ensures p == 0 ==> unchanged(this) && unchanged(heap)
      ensures err == 0 && size == 0 ==> p == 0
      ensures err != 0 ==> p == 0
      ensures err == 0 && size > 0 ==>
                && p !in old(live) && live == old(live)[p := size] && lastAlloc == p
                && mallocPtr == AlignUp(p + size, 4)
                && (IsPowerOfTwo(align) ==> IsMultiple(p, align)) && IsMultiple(p, HEADER)
                && old(mallocPtr) + HEADER <= p < old(mallocPtr) + HEADER + Max(align, HEADER)
                && forall q: nat | Fits(q, align, old(mallocPtr)) :: p <= q
      ensures err == ENOMEM <==>
                && err != EINVAL && size > 0
                && forall q: nat | Fits(q, align, old(mallocPtr)) :: q + size > mallocTop
      ensures Kept(old(live), old(heap[..]), heap[..], 0)
    {
      if mallocPtr == 0 {
        return EINVAL, 0;
      }
      var alignment := Max(align, HEADER);
      PowersFromFour(alignment);
      if alignment % HEADER != 0 || !IsPowerOfTwo(alignment) {
        return EINVAL, 0;
      }
      if size == 0 {
        return 0, 0;
      }
      p := AlignUp(mallocPtr + HEADER, alignment);
      LeastFit(mallocPtr, align, p);
      var allocSize := size + (p - (mallocPtr + HEADER));
      if mallocPtr + allocSize + HEADER > mallocTop {
        return ENOMEM, 0;
      }
      Place(p, size);
      return 0, p;
    }

    // An address for a block behind everything in use, aligned as asked for and to the size of a pointer.
    ghost predicate Fits(q: nat, align: nat, after: nat) {
      q >= after + HEADER && IsMultiple(q, HEADER) && (IsPowerOfTwo(align) ==> IsMultiple(q, align))
    }

    lemma LeastFit(after: nat, align: nat, p: nat)
      requires IsPowerOfTwo(Max(align, HEADER)) && p == AlignUp(after + HEADER, Max(align, HEADER))
      ensures Fits(p, align, after) && forall q: nat | Fits(q, align, after) :: p <= q
    {
      hide AlignUp, IsMultiple, IsPowerOfTwo;
      var a := Max(align, HEADER);
      SmallPowers(align);
      PowersFromFour(a);
      MultipleOfFactor(p, a, HEADER);
      if IsPowerOfTwo(align) && align < HEADER {
        MultipleOfFactor(HEADER, HEADER, align);
        MultipleOfFactor(p, HEADER, align);
      }
      forall q: nat | Fits(q, align, after) ensures p <= q {
        NoMultipleBetween(q, p, a);
      }
    }

    lemma SmallPowers(n: nat)
      ensures IsPowerOfTwo(n) && n < HEADER ==> n == 1 || n == 2
      ensures HEADER % 1 == 0 && HEADER % 2 == 0 && IsMultiple(HEADER, HEADER)
    {
      assert HEADER == 1 * HEADER;
    }

    lemma PowersFromFour(n: nat)
      requires n >= 4
      ensures IsPowerOfTwo(n) ==> n % 4 == 0
      ensures IsPowerOfTwo(4)
    {
      Powers(2);
      if IsPowerOfTwo(n) {
        var half := n / 2;
        assert n == 2 * half && IsPowerOfTwo(half);
        Powers(half);
      }
    }

    lemma Powers(n: nat)
      requires n >= 2
      ensures IsPowerOfTwo(n) ==> n % 2 == 0 && n == 2 * (n / 2)
      ensures IsPowerOfTwo(2) && IsPowerOfTwo(4)
    {
    }

    /** The newest block grows or shrinks where it is; an older one is moved to a new, larger one. */
    method Realloc(ptr: nat, size: word) returns (p: nat)
      requires Valid()
      requires ptr in live || (ptr == 0 && lastAlloc != 0)
      requires ptr in live && ptr != lastAlloc ==> live[ptr] <= size
      modifies this, heap
      ensures Valid() && mallocTop == old(mallocTop)
      ensures p == 0 <==>
                || old(mallocPtr) == 0
                || (if ptr == old(lastAlloc) then ptr + size > mallocTop
                    else old(mallocPtr) + size + HEADER > mallocTop)
      ensures p == 0 ==> unchanged(this) && unchanged(heap)
      ensures p != 0 ==> p in live && live[p] == size && lastAlloc == p
      ensures p != 0 && ptr != 0 ==>
                && live == (old(live) - {ptr})[p := size] && (p == ptr || p !in old(live))
                && heap[p..p + Min(old(live)[ptr], size)] == old(heap[ptr..ptr + Min(live[ptr], size)])
      ensures p != 0 && ptr == 0 ==> p !in old(live) && live == old(live)[p := size]
      ensures p != 0 ==> (ptr == old(lastAlloc) <==> p == ptr)
      ensures p != 0 && p == ptr ==> mallocPtr == ptr + size
      ensures Kept(old(live), old(heap[..]), heap[..], ptr)
    {
      hide Headers, Kept, Laid, AlignUp, Newest, HeaderAt;
      NothingChanged(ptr);
      if mallocPtr == 0 {
        return 0;
      }
      if ptr == lastAlloc {
        if ptr + size > mallocTop {
          return 0;
        }
        Resize(ptr, size);
        KeptSlice(old(live), old(heap[..]), heap[..], 0, ptr, Min(old(live)[ptr], size));
        WeakerKept(old(live), old(heap[..]), heap[..], ptr);
        return ptr;
      }
      p := Relocate(ptr, size);
    }

    // malloc and memcpy for a block that is not the newest, or for none at all.
    method Relocate(ptr: nat, size: word) returns (p: nat)
      requires Valid() && mallocPtr != 0 && 0 !in live
      requires ptr != 0 ==> ptr in live && ptr != lastAlloc && live[ptr] <= size && ptr + live[ptr] <= heap.Length
      modifies this, heap
      ensures Valid() && mallocTop == old(mallocTop)
      ensures p == 0 <==> old(mallocPtr) + size + HEADER > mallocTop
      ensures p == 0 ==> unchanged(this) && unchanged(heap)
      ensures p != 0 ==> lastAlloc == p
      ensures p != 0 ==>
                && p !in old(live)
                && live == (if ptr == 0 then old(live) else old(live) - {ptr})[p := size]
      ensures p != 0 && ptr != 0 ==>
                && p + old(live)[ptr] <= heap.Length
                && heap[p..p + old(live)[ptr]] == old(heap[ptr..ptr + live[ptr]])
      ensures Kept(old(live), old(heap[..]), heap[..], ptr)
    {
      hide Headers, Kept, Laid, AlignUp, Newest, HeaderAt;
      p := Malloc(size);
      if p != 0 && ptr != 0 {
        ghost var between := heap[..];
        KeptSlice(old(live), old(heap[..]), between, 0, ptr, live[ptr]);
        Move(ptr, p);
        KeptTrans(old(live), old(live)[p := size], old(heap[..]), between, heap[..], 0, p, ptr);
      } else {
        WeakerKept(old(live), old(heap[..]), heap[..], ptr);
      }
    }

    lemma NothingChanged(e: nat)
      requires Valid()
      ensures Kept(live, heap[..], heap[..], e)
      ensures e in live ==> e + live[e] <= heap.Length && mallocPtr != 0
      ensures 0 !in live
    {
    }

    // The newest block grows or shrinks in place.
    method Resize(ptr: nat, size: word)
      requires Valid() && ptr in live && ptr == lastAlloc && ptr + size <= mallocTop
      modifies `mallocPtr, `live, heap
      ensures Valid() && live == old(live)[ptr := size] && mallocPtr == ptr + size
      ensures Kept(old(live), old(heap[..]), heap[..], 0)
    {
      hide HeaderAt, Headers, Kept, ChangedIn;
      ResizeNewest(live, bottom, mallocPtr, ptr, size, ptr + size);
      SetHeader(ptr, size);
      WriteHeader(live, bottom, mallocPtr, old(heap[..]), heap[..], ptr, size);
      mallocPtr := ptr + size;
      live := live[ptr := size];
    }

    // The contents of a block go to a new one that is at least as large; the old one is out of use.
    method Move(ptr: nat, p: nat)
      requires Valid() && ptr in live && p in live && p != ptr && live[ptr] <= live[p] && p == lastAlloc
      modifies `live, heap
      ensures Valid() && live == old(live) - {ptr}
      ensures p + old(live)[ptr] <= heap.Length && ptr + old(live)[ptr] <= heap.Length
      ensures heap[p..p + old(live)[ptr]] == old(heap[ptr..ptr + live[ptr]])
      ensures Kept(old(live), old(heap[..]), heap[..], p)
    {
      hide Headers, HeaderAt, Kept, ChangedIn, Apart;
      HeaderIsSize(ptr);
      HeaderIsSize(p);
      BlocksApart(ptr, p);
      var n := HeaderAt(heap[..], ptr);
      MemCpy(p, ptr, n);
      WriteInside(live, bottom, mallocPtr, old(heap[..]), heap[..], p, n);
      RemoveOne(live, bottom, mallocPtr, ptr);
      FewerHeaders(live, heap[..], ptr);
      live := live - {ptr};
    }

    lemma HeaderIsSize(a: nat)
      requires Valid() && a in live
      ensures HEADER <= a && a + live[a] <= heap.Length && HeaderAt(heap[..], a) == live[a]
    {
    }

    lemma BlocksApart(a: nat, b: nat)
      requires Valid() && a in live && b in live && a != b
      ensures a + live[a] <= b || b + live[b] <= a
    {
    }

    method MemCpy(to: nat, from: nat, n: nat)
      requires to + n <= heap.Length && from + n <= heap.Length
      requires from + n <= to || to + n <= from
      modifies heap
      ensures heap[to..to + n] == old(heap[from..from + n])
      ensures ChangedIn(old(heap[..]), heap[..], to, to + n)
    {
      var i := 0;
      while i < n
        invariant 0 <= i <= n
        invariant heap[to..to + i] == old(heap[from..from + i])
        invariant forall j | 0 <= j < heap.Length && !(to <= j < to + i) :: heap[j] == old(heap[j])
      {
        heap[to + i] := heap[from + i];
        i := i + 1;
      }
    }

    /** Only the newest block is taken back; the space of an older one is lost. */
    method Free(ptr: nat)
      requires Valid() && ptr in live
      modifies this
      ensures Valid() && live == old(live) - {ptr} && mallocTop == old(mallocTop) && lastAlloc == old(lastAlloc)
      ensures mallocPtr == if ptr == old(lastAlloc) then ptr - HEADER else old(mallocPtr)
    {
      if mallocPtr == 0 {
        return;
      }
      if ptr == lastAlloc {
        ResizeNewest(live, bottom, mallocPtr, ptr, 0, ptr);
        mallocPtr := lastAlloc - HEADER;
      } else {
        RemoveOne(live, bottom, mallocPtr, ptr);
      }
      live := live - {ptr};
    }
  }
}
