/** Resumable bootstrap of extent mappings (cmd/namrbd-gateway/main.go). */
module Bootstrap {
  import opened Words
  import G = Geometry

  /** service.DefaultAllocationChunkSize */
  const DEFAULT_CHUNK: U64 := 65536

  datatype Volume = Volume(sizeBytes: U64, chunkBytes: U32, blockSize: U32)

  datatype Mapping = Mapping(extentID: U64, offset: U64, length: U64, chunkID: U64)

  function ExtentLength(v: Volume): (l: U64)
    ensures l <= v.sizeBytes && (v.sizeBytes > 0 ==> l > 0)
  {
    var l := if v.chunkBytes != 0 then v.chunkBytes else if v.blockSize != 0 then v.blockSize else DEFAULT_CHUNK;
    Min(l, v.sizeBytes)
  }

  // ------------------------------------------------------------- what the loop should leave behind

  /** How many extents the volume needs. */
  function Count(v: Volume): nat {
    if v.sizeBytes == 0 then 0 else (v.sizeBytes - 1) / ExtentLength(v) + 1
  }

  /** The end of the last full-length extent stays a 64-bit number. */
  predicate NoWrap(v: Volume) {
    Count(v) * ExtentLength(v) < TWO64
  }

  /** The n-th extent, counting from 1. */
  function Expected(v: Volume, id: U64): Mapping
    requires 1 <= id <= Count(v)
  {
    ExpectedFits(v, id);
    var offset := (id - 1) * ExtentLength(v);
    Mapping(id, offset, Min(ExtentLength(v), v.sizeBytes - offset), id)
  }

  /** The counted extents but the last end inside the volume, the last one at or after its end. */
  lemma CountCovers(v: Volume)
    requires v.sizeBytes > 0
    ensures (Count(v) - 1) * ExtentLength(v) < v.sizeBytes <= Count(v) * ExtentLength(v) && Count(v) >= 1
  {
    var q, l := (v.sizeBytes - 1) / ExtentLength(v), ExtentLength(v);
    assert v.sizeBytes - 1 == q * l + (v.sizeBytes - 1) % l;
    assert (q + 1) * l == q * l + l;
  }

  lemma ExpectedFits(v: Volume, id: U64)
    requires 1 <= id <= Count(v)
    ensures 0 <= (id - 1) * ExtentLength(v) < v.sizeBytes
  {
    CountCovers(v);
    MulMono(id - 1, Count(v) - 1, ExtentLength(v));
    MulMono(0, id - 1, ExtentLength(v));
  }

  /** Nothing in the store but extents of this volume as they should be. */
  predicate Consistent(store: map<U64, Mapping>, v: Volume) {
    forall id :: id in store ==> 1 <= id <= Count(v) && store[id] == Expected(v, id)
  }

  /** All of them. */
  predicate Complete(store: map<U64, Mapping>, v: Volume) {
    Consistent(store, v) && forall id: U64 :: 1 <= id <= Count(v) ==> id in store
  }

  /** A complete store tiles [0, size): consecutive ids, no gap, no overlap, only the last extent short. */
  lemma CompleteTiles(store: map<U64, Mapping>, v: Volume, id: U64)
    requires Complete(store, v) && 1 <= id <= Count(v)
    ensures id in store && store[id].extentID == store[id].chunkID == id && store[id].length > 0
    ensures id == 1 ==> store[id].offset == 0
    ensures id < Count(v) ==>
      id + 1 in store && store[id + 1].offset == store[id].offset + store[id].length && store[id].length == ExtentLength(v)
    ensures id == Count(v) ==> store[id].offset + store[id].length == v.sizeBytes && store[id].length <= ExtentLength(v)
  {
    hide Count, ExtentLength;
    var l := ExtentLength(v);
    ExpectedFits(v, id);
    CountCovers(v);
    assert id * l == (id - 1) * l + l;
    if id < Count(v) {
      MulMono(id, Count(v) - 1, l);
      assert Expected(v, id + 1).offset == id * l;
      assert id + 1 in store;
    }
  }

  /** Every byte of the volume belongs to exactly one extent. */
  lemma OneExtentPerByte(store: map<U64, Mapping>, v: Volume, x: U64) returns (home: U64)
    requires Complete(store, v) && x < v.sizeBytes
    ensures home in store && Holds(store[home], x)
    ensures forall id :: id in store && Holds(store[id], x) ==> id == home
  {
    hide Count, ExtentLength, Expected;
    home := Home(v, x);
    forall id | id in store && Holds(store[id], x)
      ensures id == home
    {
      OnlyHome(v, x, id, home);
    }
  }

  lemma Home(v: Volume, x: U64) returns (id: U64)
    requires x < v.sizeBytes
    ensures 1 <= id <= Count(v) && Holds(Expected(v, id), x)
  {
    hide Count, ExtentLength;
    CountCovers(v);
    var l := ExtentLength(v);
    var q := x / l;
    assert x == q * l + x % l;
    QuotientIn(x, l, q, Count(v));
    MulMono(1, l, q);
    id := q + 1;
  }

  lemma OnlyHome(v: Volume, x: U64, a: U64, b: U64)
    requires 1 <= a <= Count(v) && 1 <= b <= Count(v) && Holds(Expected(v, a), x) && Holds(Expected(v, b), x)
    ensures a == b
  {
    hide Count, ExtentLength;
    var l := ExtentLength(v);
    if a < b {
      MulMono(a, b - 1, l);
    } else if b < a {
      MulMono(b, a - 1, l);
    }
  }

  predicate Holds(m: Mapping, x: int) {
    m.offset <= x < m.offset + m.length
  }

  lemma QuotientIn(x: nat, l: nat, q: int, n: nat)
    requires l > 0 && q * l <= x < q * l + l && x < n * l
    ensures 0 <= q < n
  {
    if q < 0 {
      MulMono(q + 1, 0, l);
    } else if q >= n {
      MulMono(n, q, l);
    }
  }

  // ------------------------------------------------------------- the loop

  /** Where the loop variable stands after `i` rounds, in 64-bit arithmetic. */
  lemma Where(v: Volume, i: nat, offset: U64)
    requires i <= Count(v) && offset == Wrap(i * ExtentLength(v))
    ensures i < Count(v) ==> offset == i * ExtentLength(v) < v.sizeBytes && Wrap(offset + ExtentLength(v)) == Wrap((i + 1) * ExtentLength(v))
    ensures i == Count(v) ==> (offset < v.sizeBytes <==> !NoWrap(v))
  {
    hide Count, ExtentLength;
    var l, n := ExtentLength(v), Count(v);
    if v.sizeBytes > 0 {
      CountCovers(v);
      MulMono(0, i, l);
      assert n * l == (n - 1) * l + l && (i + 1) * l == i * l + l;
      if i < n {
        MulMono(i, n - 1, l);
      } else if !NoWrap(v) {
        DivModUnique(n * l, TWO64, 1, n * l - TWO64);
      }
    } else {
      NothingToDo(v);
    }
  }

  lemma NothingToDo(v: Volume)
    requires v.sizeBytes == 0
    ensures Count(v) == 0 && NoWrap(v)
  {
  }

  lemma CountBound(v: Volume)
    ensures Count(v) <= v.sizeBytes && (!NoWrap(v) ==> Count(v) + 1 < TWO64)
  {
    hide Count, ExtentLength;
    if v.sizeBytes == 0 {
      NothingToDo(v);
    } else {
      CountCovers(v);
      var l, n := ExtentLength(v), Count(v);
      MulMono(1, l, n - 1);
      if !NoWrap(v) {
        assert l > 1;
        MulMono(2, l, n - 1);
      }
    }
  }

  lemma ExpectedAt(v: Volume, id: U64, offset: U64)
    requires 1 <= id <= Count(v) && offset == (id - 1) * ExtentLength(v) < v.sizeBytes
    ensures Expected(v, id) == Mapping(id, offset, Min(ExtentLength(v), v.sizeBytes - offset), id)
  {
    hide Count, ExtentLength;
  }

  lemma ConsistentAdd(store: map<U64, Mapping>, v: Volume, id: U64)
    requires Consistent(store, v) && 1 <= id <= Count(v)
    ensures Consistent(store[id := Expected(v, id)], v)
  {
    hide Count, Expected;
  }

  /** The loop stops after `k` rounds if it has not stopped before. */
  predicate Lands(v: Volume, k: nat) {
    Wrap(k * ExtentLength(v)) >= v.sizeBytes
  }

  /** Without wrap-around it stops at the volume's own count. */
  lemma CountLands(v: Volume)
    requires NoWrap(v)
    ensures Lands(v, Count(v))
  {
    hide Count, ExtentLength;
    Where(v, Count(v), Wrap(Count(v) * ExtentLength(v)));
  }

  /** Every place the loop variable visits is a multiple of what divides both the extent length and 2^64. */
  lemma VisitsMultiples(l: nat, k: nat, d: nat)
    requires d > 0 && l % d == 0 && TWO64 % d == 0
    ensures Wrap(k * l) + d <= TWO64
  {
    var x, m := k * l, TWO64;
    assert l == (l / d) * d && x == (k * (l / d)) * d;
    MultipleOf(k * (l / d), d);
    var q, r := x / m, x % m;
    assert r == x - q * m;
    assert q * m == (q * (m / d)) * d;
    MultipleOf(q * (m / d), d);
    AddMultiples(x, q * m, d);
    MultipleGap(r, m, d);
  }

  /** When the extent length divides 2^64, a loop that misses its end never stops. */
  lemma NeverLands(v: Volume, k: nat)
    requires !NoWrap(v) && ExtentLength(v) > 0 && TWO64 % ExtentLength(v) == 0
    ensures !Lands(v, k)
  {
    hide Count, ExtentLength, Wrap;
    var l := ExtentLength(v);
    MultipleOf(1, l);
    VisitsMultiples(l, k, l);
    CountCovers(v);
    assert Count(v) * l == (Count(v) - 1) * l + l;
  }

  /** Exactly when the loop can stop at all: some multiple of the extent length falls between the size and 2^64. */
  lemma LandsIff(v: Volume)
    requires v.sizeBytes > 0
    ensures (exists k: nat :: Lands(v, k)) <==> v.sizeBytes <= TWO64 - G.Gcd(ExtentLength(v), TWO64)
  {
    hide ExtentLength, Wrap, G.Gcd;
    var l := ExtentLength(v);
    var x, y := CommonDivisor(l, TWO64);
    var d := G.Gcd(l, TWO64);
    if v.sizeBytes <= TWO64 - d {
      var k := LastPlace(l, d, x, y);
      assert Lands(v, k);
    } else {
      forall k: nat
        ensures !Lands(v, k)
      {
        VisitsMultiples(l, k, d);
      }
    }
  }

  lemma CommonDivisor(l: nat, m: nat) returns (x: int, y: int)
    requires l > 0 && m > 0
    ensures var d := G.Gcd(l, m); 0 < d <= m && l % d == 0 && m % d == 0 && l * x + m * y == d
  {
    hide G.Gcd;
    var p, q;
    x, y, p, q := G.Bezout(l, m);
    Divides(l, G.Gcd(l, m), p);
    Divides(m, G.Gcd(l, m), q);
  }

  lemma Divides(a: nat, d: nat, p: nat)
    requires a > 0 && d > 0 && a == d * p
    ensures a % d == 0 && d <= a
  {
    DivModUnique(a, d, p, 0);
    if p > 0 {
      MulMono(1, p, d);
    }
  }

  /** The greatest visited place is reached. */
  lemma LastPlace(l: nat, d: nat, x: int, y: int) returns (k: nat)
    requires l * x + TWO64 * y == d && 0 < d <= TWO64
    ensures Wrap(k * l) == TWO64 - d
  {
    var m, t := TWO64, if x < 0 then -x else x;
    MulMono(1, m, t);
    k := t * m - x;
    assert k * l == t * m * l - x * l == (t * l + y) * m - d == (t * l + y - 1) * m + (m - d);
    DivModUnique(k * l, m, t * l + y - 1, m - d);
  }

  /** How far a run gets: it dies at a store call, and a dying Put may or may not have been carried out. */
  datatype Life = Life(calls: nat, lastPutLands: bool)

  ghost predicate Keeps(before: map<U64, Mapping>, after: map<U64, Mapping>) {
    forall id :: id in before ==> id in after && after[id] == before[id]
  }

  /** The ids the loop has dealt with after `i` rounds, up to one past the volume's extents. */
  ghost predicate DealtWith(store: map<U64, Mapping>, v: Volume, i: nat) {
    forall id: U64 :: 1 <= id <= i && id <= Count(v) + 1 ==> id in store
  }

  /** What holds before each round: `before` is the store the run began with. */
  ghost predicate Inv(v: Volume, before: map<U64, Mapping>, store: map<U64, Mapping>, i: nat, offset: U64, extentID: U64, chunkID: U64) {
    && offset == Wrap(i * ExtentLength(v)) && (forall j :: 0 <= j < i ==> !Lands(v, j))
    && (NoWrap(v) ==> i <= Count(v))
    && (i <= Count(v) ==> extentID == chunkID == Wrap(i + 1))
    && Keeps(before, store) && DealtWith(store, v, i)
    && (NoWrap(v) && Consistent(before, v) ==> Consistent(store, v))
  }

  lemma InvStarts(v: Volume, before: map<U64, Mapping>)
    ensures Inv(v, before, before, 0, 0, 1, 1)
  {
    hide Count, Consistent, NoWrap;
    assert 0 * ExtentLength(v) == 0;
  }

  /** The store after the Put of a round, when there is one. */
  function Put(v: Volume, store: map<U64, Mapping>, offset: U64, extentID: U64, chunkID: U64): map<U64, Mapping>
    requires offset < v.sizeBytes
  {
    if extentID in store then store
    else store[extentID := Mapping(extentID, offset, Min(ExtentLength(v), v.sizeBytes - offset), chunkID)]
  }

  lemma InvSteps(v: Volume, before: map<U64, Mapping>, store: map<U64, Mapping>, i: nat, offset: U64, extentID: U64, chunkID: U64)
    requires Inv(v, before, store, i, offset, extentID, chunkID) && offset < v.sizeBytes
    ensures
      var after := Put(v, store, offset, extentID, chunkID);
      && Inv(v, before, after, i + 1, Wrap(offset + ExtentLength(v)), Wrap(extentID + 1), Wrap(chunkID + 1))
      && Keeps(before, after) && (NoWrap(v) && Consistent(before, v) ==> Consistent(after, v))
    ensures forall k :: Lands(v, k) ==> i < k
    ensures NoWrap(v) ==> i < Count(v)
  {
    hide Count, Consistent, NoWrap, ExtentLength, Expected, Wrap;
    CountBound(v);
    NextPlace(i, ExtentLength(v));
    if i <= Count(v) {
      Where(v, i, offset);
      WrapSmall(i + 1);
    }
    if i < Count(v) {
      ExpectedAt(v, extentID, offset);
      if Consistent(store, v) {
        ConsistentAdd(store, v, extentID);
      }
    }
  }

  lemma NextPlace(i: nat, l: nat)
    ensures Wrap(Wrap(i * l) + l) == Wrap((i + 1) * l)
  {
    ModShift(i * l, l, TWO64);
    assert (i + 1) * l == i * l + l;
  }

  lemma WrapSmall(n: int)
    ensures 0 <= n < TWO64 ==> Wrap(n) == n && Wrap(Wrap(n) + 1) == Wrap(n + 1)
  {
  }

  lemma InvEnds(v: Volume, before: map<U64, Mapping>, store: map<U64, Mapping>, i: nat, offset: U64, extentID: U64, chunkID: U64)
    requires Inv(v, before, store, i, offset, extentID, chunkID) && offset >= v.sizeBytes
    ensures NoWrap(v) && Consistent(before, v) ==> Complete(store, v)
    ensures !NoWrap(v) ==> Count(v) + 1 < TWO64 && Count(v) + 1 in store
    ensures Lands(v, i)
  {
    hide Count, Consistent, NoWrap, ExtentLength, Expected, Wrap;
    CountBound(v);
    if i <= Count(v) {
      Where(v, i, offset);
    }
    if NoWrap(v) && Consistent(before, v) {
      AllDealtWith(store, v);
    }
  }

  class ExtentStore {
    var mappings: map<U64, Mapping>

    constructor ()
      ensures mappings == map[]
    {
      mappings := map[];
    }

    /**
     One run, interrupted or not: nothing already stored is changed, and what is
     added is what belongs there.  A run that gets through leaves the store
     complete exactly when the end of the last extent fits 64 bits; otherwise
     it has gone past the volume's extents.  A run that is not interrupted gets
     through exactly when the loop variable ever lands outside the volume, which
     it never does when it misses the end and the extent length divides 2^64.
     */
    method BootstrapExtents(v: Volume, life: Life) returns (through: bool)
      modifies this
      ensures Keeps(old(mappings), mappings)
      ensures NoWrap(v) && Consistent(old(mappings), v) ==> Consistent(mappings, v)
      ensures NoWrap(v) && Consistent(old(mappings), v) && through ==> Complete(mappings, v)
      ensures NoWrap(v) && life.calls >= 2 * Count(v) ==> through
      ensures through ==> exists k :: Lands(v, k)
      ensures forall k: nat :: Lands(v, k) && life.calls >= 2 * k ==> through
      ensures !NoWrap(v) && ExtentLength(v) > 0 && TWO64 % ExtentLength(v) == 0 ==> !through
      ensures !NoWrap(v) && through ==> Count(v) + 1 < TWO64 && Count(v) + 1 in mappings
    {
      hide Count, NoWrap, Consistent, Complete, Wrap, ExtentLength, Keeps, Inv, Lands;
      var length := ExtentLength(v);
      var offset: U64, extentID: U64, chunkID: U64 := 0, 1, 1;
      var left: nat := life.calls;
      ghost var i, before := 0, mappings;
      InvStarts(v, before);
      InvKeeps(v, before, mappings, 0, 0, 1, 1);
      if NoWrap(v) {
        CountLands(v);
      }
      while offset < v.sizeBytes
        invariant Inv(v, before, mappings, i, offset, extentID, chunkID)
        invariant Keeps(before, mappings) && (NoWrap(v) && Consistent(before, v) ==> Consistent(mappings, v))
        invariant left >= life.calls - 2 * i
        decreases left
      {
        var l := Min(length, v.sizeBytes - offset);
        InvSteps(v, before, mappings, i, offset, extentID, chunkID);
        if left == 0 {
          return false;
        }
        left := left - 1;
        if extentID !in mappings {
          var m := Mapping(extentID, offset, l, chunkID);
          if left == 0 {
            if life.lastPutLands {
              mappings := mappings[extentID := m];
            }
            return false;
          }
          left := left - 1;
          mappings := mappings[extentID := m];
        }
        extentID, chunkID := Wrap(extentID + 1), Wrap(chunkID + 1);
        offset := Wrap(offset + length);
        i := i + 1;
      }
      InvEnds(v, before, mappings, i, offset, extentID, chunkID);
      if !NoWrap(v) && length > 0 && TWO64 % length == 0 {
        NeverLands(v, i);
      }
      through := true;
    }

    /** Any number of interrupted runs, then one that gets through; further runs change nothing. */
    method Recover(v: Volume, interrupted: seq<Life>, last: Life, again: seq<Life>)
      requires NoWrap(v) && Consistent(mappings, v) && last.calls >= 2 * Count(v)
      modifies this
      ensures Complete(mappings, v)
    {
      hide Count, Expected, NoWrap, ExtentLength;
      for i := 0 to |interrupted|
        invariant Consistent(mappings, v)
      {
        var _ := BootstrapExtents(v, interrupted[i]);
      }
      var through := BootstrapExtents(v, last);
      ghost var done := mappings;
      for i := 0 to |again|
        invariant mappings == done
      {
        var _ := BootstrapExtents(v, again[i]);
        CompleteStays(done, mappings, v);
      }
    }
  }

  lemma InvKeeps(v: Volume, before: map<U64, Mapping>, store: map<U64, Mapping>, i: nat, offset: U64, extentID: U64, chunkID: U64)
    requires Inv(v, before, store, i, offset, extentID, chunkID)
    ensures Keeps(before, store) && (NoWrap(v) && Consistent(before, v) ==> Consistent(store, v))
  {
  }

  lemma AllDealtWith(store: map<U64, Mapping>, v: Volume)
    requires Consistent(store, v) && DealtWith(store, v, Count(v))
    ensures Complete(store, v)
  {
    hide Count, Expected;
  }

  /** There is only one complete store. */
  lemma CompleteStays(done: map<U64, Mapping>, after: map<U64, Mapping>, v: Volume)
    requires Complete(done, v) && Keeps(done, after) && Consistent(after, v)
    ensures after == done
  {
    hide Count, Expected;
  }

  /** A volume of 2^64 - 1 bytes in chunks of 64 KiB: the loop never stops, however long it runs. */
  lemma WrapExample(k: nat)
    ensures var v := Volume(TWO64 - 1, 65536, 0); !NoWrap(v) && !Lands(v, k)
  {
    var v := Volume(TWO64 - 1, 65536, 0);
    assert ExtentLength(v) == 65536;
    NeverLands(v, k);
  }

  /** The same volume in chunks of 7 bytes: the loop misses the end and stops rounds later, past the volume's extents. */
  lemma OvershootExample()
    ensures var v := Volume(TWO64 - 1, 7, 0); !NoWrap(v) && exists k: nat :: Lands(v, k)
  {
    var v := Volume(TWO64 - 1, 7, 0);
    assert ExtentLength(v) == 7;
    LandsIff(v);
    assert TWO64 % 7 == 2;
    assert G.Gcd(7, TWO64) == G.Gcd(TWO64, 7) == G.Gcd(7, 2) == G.Gcd(2, 1) == G.Gcd(1, 0) == 1;
  }
}
