/** Where the bytes of a 64-bit address live: addresses near zero on a stack page, all others on
    the global page (src/arch/arch.cpp). */
module Places {
  import opened Bits

  const STACK_SIZE: nat := 32768
  const HALF: nat := STACK_SIZE / 2

  /** A byte of one of the two data pages. */
  datatype Place = Place(onStack: bool, offset: nat)

  /** The signed address lies in [-16384, 16384). */
  predicate InWindow(a: nat) { a < HALF || a >= TWO64 - HALF }

  /** The page of an address and its offset there. */
  function Translate(a: nat): (p: Place)
    ensures p.offset < TWO64
  {
    if InWindow(a) then Place(true, Mod64(HALF + a)) else Place(false, Mod64(a))
  }

  /** The place of byte `i` of an access that was translated at its first byte. */
  function AccessByte(a: nat, i: nat): Place {
    Place(Translate(a).onStack, Mod64(Translate(a).offset + i))
  }

  function Advance(a: nat, i: nat): nat { Mod64(a + i) }

  /** An access of `n` bytes at `a` runs over an end of the window. */
  predicate Crosses(a: nat, n: nat) {
    if a < HALF then a + n > HALF else a < TWO64 - HALF && a + n > TWO64 - HALF
  }

  /** As a signed number, an address of at least -16384 and less than 16384 lies on the stack page,
      16384 bytes further on; every other address lies on the global page, as it is. */
  lemma WindowMeans(a: nat)
    requires a < TWO64
    ensures var x := if a < 0x8000_0000_0000_0000 then a as int else a - 0x1_0000_0000_0000_0000;
      Translate(a) == if -16384 <= x < 16384 then Place(true, x + 16384) else Place(false, a)
  {
  }

  /** Different addresses have different places. */
  lemma TranslateInjective(a: nat, b: nat)
    requires a < TWO64 && b < TWO64 && Translate(a) == Translate(b)
    ensures a == b
  {
    hide Mod64;
  }

  lemma FlatByte(a: nat, i: nat)
    requires a < TWO64 && i < HALF
    ensures AccessByte(a, i) == Translate(Advance(a, i)) <==> InWindow(Advance(a, i)) == InWindow(a)
  {
    hide Mod64;
  }

  /** Accesses behave as on one flat 64-bit memory exactly when they do not cross an end of
      the stack window. */
  lemma FlatUnlessCrossing(a: nat, n: nat)
    requires a < TWO64 && n <= HALF
    ensures (forall i: nat :: i < n ==> AccessByte(a, i) == Translate(Advance(a, i))) <==> !Crosses(a, n)
  {
    hide Mod64;
    forall i: nat | i < n
      ensures AccessByte(a, i) == Translate(Advance(a, i)) <==> InWindow(Advance(a, i)) == InWindow(a)
    {
      FlatByte(a, i);
    }
    if Crosses(a, n) {
      var i := if a < HALF then HALF - a else TWO64 - HALF - a;
      assert Advance(a, i) == a + i;
      assert AccessByte(a, i) != Translate(Advance(a, i));
    } else {
      forall i: nat | i < n ensures InWindow(Advance(a, i)) == InWindow(a) {
        assert Advance(a, i) == if a + i < TWO64 then a + i else a + i - TWO64;
      }
    }
  }

  // ------------------------------------------------------------- stores

  /** The byte of a 64-bit range that an address is, if it is in the range. */
  function Index(base: nat, a: nat): nat
    requires base < TWO64 && a < TWO64
  {
    if a >= base then a - base else a + TWO64 - base
  }

  /** What storing the `n` low bytes of `v` at `base` leaves at address `a`. */
  ghost function Stored(base: nat, n: nat, v: nat, a: nat, before: nat): nat {
    if base < TWO64 && a < TWO64 && Index(base, a) < n then ByteOf(v, Index(base, a)) else before
  }

  /** What storing `n` bytes of `v` at a place leaves at the place `p`. */
  ghost function StoredAt(place: Place, n: nat, v: nat, p: Place, before: nat): nat {
    if p.onStack == place.onStack then Stored(place.offset, n, v, p.offset, before) else before
  }

  predicate InAccess(place: Place, n: nat, p: Place) {
    p.onStack == place.onStack && place.offset < TWO64 && p.offset < TWO64 && Index(place.offset, p.offset) < n
  }

  /** What a store that only happens if `hit` leaves at the place `p`. */
  ghost function Guarded(hit: bool, place: Place, n: nat, v: nat, p: Place, before: nat): nat {
    if hit then StoredAt(place, n, v, p, before) else before
  }

  /** Storing a choice between the new word and the word already there is a guarded store. */
  lemma GuardedStore(hit: bool, place: Place, n: nat, v: nat, w: nat, p: Place, before: nat)
    requires InAccess(place, n, p) ==> ByteOf(w, Index(place.offset, p.offset)) == before
    ensures StoredAt(place, n, if hit then v else w, p, before) == Guarded(hit, place, n, v, p, before)
  {
  }

  // ------------------------------------------------------------- flatness

  /** Byte `i` of an access is at flat distance `i`. */
  lemma IndexAdvance(a: nat, b: nat, i: nat)
    requires a < TWO64 && b < TWO64 && i < TWO64
    ensures Index(a, b) == i <==> b == Advance(a, i)
    ensures Index(a, b) < TWO64
  {
    hide Mod64;
  }

  /** A store that does not cross leaves on the pages what it leaves in a flat memory. */
  lemma FlatStore(a: nat, n: nat, v: nat, b: nat, before: nat)
    requires a < TWO64 && b < TWO64 && n <= HALF && !Crosses(a, n)
    ensures StoredAt(Translate(a), n, v, Translate(b), before) == Stored(a, n, v, b, before)
  {
    hide Mod64, ByteOf, Translate;
    FlatUnlessCrossing(a, n);
    var place, p := Translate(a), Translate(b);
    var k := Index(a, b);
    IndexAdvance(a, b, k);
    if k < n {
      assert AccessByte(a, k) == Translate(Advance(a, k)) == p;
      IndexAdvance(place.offset, p.offset, k);
    } else if p.onStack == place.onStack && Index(place.offset, p.offset) < n {
      var i := Index(place.offset, p.offset);
      IndexAdvance(place.offset, p.offset, i);
      assert AccessByte(a, i) == Translate(Advance(a, i));
      TranslateInjective(Advance(a, i), b);
      IndexAdvance(a, b, i);
    }
  }

  /** A store behaves as on a flat memory, whatever it stores and whatever was there, exactly
      when it does not cross an end of the stack window. */
  lemma FlatStoreExactly(a: nat, n: nat)
    requires a < TWO64 && n <= HALF
    ensures StoresFlat(a, n) <==> !Crosses(a, n)
  {
    if Crosses(a, n) {
      var i := if a < HALF then HALF - a else TWO64 - HALF - a;
      CrossingByte(a, n, i);
      assert StoredAt(Translate(a), n, 0, Translate(a + i), 1) != Stored(a, n, 0, a + i, 1);
    } else {
      forall v: nat, b: nat, before: nat | b < TWO64
        ensures StoredAt(Translate(a), n, v, Translate(b), before) == Stored(a, n, v, b, before)
      {
        FlatStore(a, n, v, b, before);
      }
    }
  }

  ghost predicate StoresFlat(a: nat, n: nat) {
    forall v: nat, b: nat, before: nat | b < TWO64 ::
      StoredAt(Translate(a), n, v, Translate(b), before) == Stored(a, n, v, b, before)
  }

  /** The first byte past the end is on the other page, so the store leaves it alone. */
  lemma CrossingByte(a: nat, n: nat, i: nat)
    requires a < TWO64 && n <= HALF && Crosses(a, n) && i == if a < HALF then HALF - a else TWO64 - HALF - a
    ensures i < n && a + i < TWO64 && Translate(a + i).onStack != Translate(a).onStack
    ensures StoredAt(Translate(a), n, 0, Translate(a + i), 1) == 1 && Stored(a, n, 0, a + i, 1) == 0
  {
    assert ByteOf(0, i) == 0 by { QuotientUnique(0, Pow2(8 * i), 0, 0); }
  }

  // ------------------------------------------------------------- flat memories

  /** One byte for every 64-bit address. */
  type FlatMemory = imap<nat, nat>

  ghost predicate IsFlat(m: FlatMemory) {
    forall b: nat :: b in m <==> b < TWO64
  }

  ghost function FlatWrite(m: FlatMemory, a: nat, n: nat, v: nat): FlatMemory
    requires IsFlat(m)
  {
    imap b: nat | b in m :: Stored(a, n, v, b, m[b])
  }

  ghost function FlatBytes(m: FlatMemory, a: nat, n: nat): (bytes: seq<nat>)
    requires IsFlat(m)
  {
    seq<nat>(n, i requires 0 <= i < n => m[Advance(a, i)])
  }

  ghost function FlatRead(m: FlatMemory, a: nat, n: nat): nat
    requires IsFlat(m)
  {
    LittleEndian(FlatBytes(m, a, n))
  }
}
