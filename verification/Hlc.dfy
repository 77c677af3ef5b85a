/** The hybrid logical clock: timestamps, the packed word, and the two clock rules
    (hlc.rs). Unlike the textbook clock, the logical part is never reset. */
module HybridClock {

  const MAX32: nat := 0xFFFF_FFFF
  const MAX64: nat := 0xFFFF_FFFF_FFFF_FFFF
  const SHIFT: nat := 0x1_0000_0000

  type u32 = x: int | 0 <= x <= 0xFFFF_FFFF
  type u64 = x: int | 0 <= x <= 0xFFFF_FFFF_FFFF_FFFF

  datatype Hlc = Hlc(wall: u64, logical: u32)

  /** The total order: wall time first, then the logical counter. */
  predicate Less(a: Hlc, b: Hlc) {
    a.wall < b.wall || (a.wall == b.wall && a.logical < b.logical)
  }

  lemma LessIsStrictTotalOrder(a: Hlc, b: Hlc, c: Hlc)
    ensures !Less(a, a)
    ensures a != b ==> Less(a, b) != Less(b, a)
    ensures Less(a, b) && Less(b, c) ==> Less(a, c)
  {
  }

  // ---- the packed word ----

  function Pack(h: Hlc): nat {
    h.wall * SHIFT + h.logical
  }

  function Unpack(word: nat): Hlc
    requires word <= MAX64 * SHIFT + MAX32
  {
    Hlc(word / SHIFT, word % SHIFT)
  }

  ghost predicate Word(w: nat) { w <= MAX64 * SHIFT + MAX32 }

  /** Packing loses nothing and the word's numeric order is the timestamp order. */
  lemma PackingIsOrder(a: Hlc, b: Hlc)
    ensures Word(Pack(a)) && Unpack(Pack(a)) == a
    ensures Pack(a) < Pack(b) <==> Less(a, b)
  {
  }

  // ---- the clock rules ----

  function Max(a: u64, b: u64): u64 { if a < b then b else a }

  function SaturatingNext(a: u64): u64 { if a == MAX64 then a else a + 1 }

  /** The local rule: the wall follows the physical clock and never goes back; a full logical
      counter bumps the wall instead of wrapping. */
  function NowRule(cur: Hlc, physical: u64): Hlc {
    var wall := Max(cur.wall, physical);
    var logical := (cur.logical + 1) % SHIFT;
    if logical < cur.logical then Hlc(SaturatingNext(wall), 0) else Hlc(wall, logical)
  }

  function NextLogical(cur: Hlc, received: Hlc): nat {
    if received.wall > cur.wall then received.logical + 1
    else (if cur.logical < received.logical then received.logical else cur.logical) + 1
  }

  /** The receive rule. */
  function UpdateRule(cur: Hlc, received: Hlc, physical: u64): Hlc {
    var wall := Max(Max(cur.wall, received.wall), physical);
    var logical := NextLogical(cur, received);
    if logical > MAX32 then Hlc(SaturatingNext(wall), 0) else Hlc(wall, logical)
  }

  /** A local event is strictly later, except at the very last timestamp. */
  lemma NowAdvances(cur: Hlc, physical: u64)
    ensures Less(cur, NowRule(cur, physical)) <==> !(cur.wall == MAX64 && cur.logical == MAX32)
    ensures physical <= NowRule(cur, physical).wall
  {
  }

  ghost predicate UpdateSaturates(cur: Hlc, received: Hlc) {
    NextLogical(cur, received) > MAX32 && Max(cur.wall, received.wall) == MAX64
  }

  /** A receive is strictly later than both the clock and what was received, except when the
      logical counter overflows with no wall time left to bump. */
  lemma UpdateAdvances(cur: Hlc, received: Hlc, physical: u64)
    ensures Less(cur, UpdateRule(cur, received, physical)) && Less(received, UpdateRule(cur, received, physical))
       <==> !UpdateSaturates(cur, received)
    ensures physical <= UpdateRule(cur, received, physical).wall
  {
  }

  /** A timestamp a local event may be given: not behind the clock's wall or the physical clock, and
      with a larger counter, or past both walls when the counter is full. */
  ghost predicate NowAdmits(cur: Hlc, physical: u64, h: Hlc) {
    if cur.logical < MAX32 then h.wall >= cur.wall && h.wall >= physical && h.logical > cur.logical
    else h.wall > cur.wall && h.wall > physical
  }

  /** A local event gets the least admissible timestamp; if there is none, the last wall time. */
  lemma NowIsLeast(cur: Hlc, physical: u64, h: Hlc)
    ensures NowAdmits(cur, physical, h) ==> NowAdmits(cur, physical, NowRule(cur, physical)) && !Less(h, NowRule(cur, physical))
    ensures cur.logical == MAX32 && (cur.wall == MAX64 || physical == MAX64) ==> NowRule(cur, physical) == Hlc(MAX64, 0)
    ensures cur.logical < MAX32 ==> NowAdmits(cur, physical, NowRule(cur, physical))
  {
  }

  /** The counters a receive must exceed: the message's, and the clock's unless the message's wall is
      ahead of it. */
  predicate CountersLeft(cur: Hlc, received: Hlc) {
    received.logical < MAX32 && (received.wall > cur.wall || cur.logical < MAX32)
  }

  ghost predicate UpdateAdmits(cur: Hlc, received: Hlc, physical: u64, h: Hlc) {
    if CountersLeft(cur, received)
    then
      && h.wall >= cur.wall && h.wall >= received.wall && h.wall >= physical
      && h.logical > received.logical && (received.wall <= cur.wall ==> h.logical > cur.logical)
    else h.wall > cur.wall && h.wall > received.wall && h.wall > physical
  }

  /** A receive gets the least admissible timestamp; if there is none, the last wall time. */
  lemma UpdateIsLeast(cur: Hlc, received: Hlc, physical: u64, h: Hlc)
    ensures UpdateAdmits(cur, received, physical, h) ==>
      UpdateAdmits(cur, received, physical, UpdateRule(cur, received, physical)) && !Less(h, UpdateRule(cur, received, physical))
    ensures !CountersLeft(cur, received) && (cur.wall == MAX64 || received.wall == MAX64 || physical == MAX64) ==>
      UpdateRule(cur, received, physical) == Hlc(MAX64, 0)
    ensures CountersLeft(cur, received) ==> UpdateAdmits(cur, received, physical, UpdateRule(cur, received, physical))
  {
  }

  // ---- the clock object ----

  ghost predicate Words(ws: seq<nat>) { forall i | 0 <= i < |ws| :: Word(ws[i]) }

  /** The word a call finds once others have stored theirs. */
  function Latest(word: nat, others: seq<nat>): (w: nat)
    requires Word(word) && Words(others)
    ensures Word(w)
  {
    if others == [] then word else others[|others| - 1]
  }

  class HlcClock {
    var state: nat

    ghost predicate Valid()
      reads this
    {
      Word(state)
    }

    /** The timestamp held by the packed state. */
    function Current(): Hlc
      reads this
      requires Valid()
    {
      Unpack(state)
    }

    constructor (physical: u64)
      ensures Valid() && Current() == Hlc(physical, 0)
    {
      state := physical * SHIFT;
      new;
      PackingIsOrder(Hlc(physical, 0), Hlc(physical, 0));
    }

    /** A weak compare-exchange: it may fail although the word matches. */
    method CompareExchangeWeak(expected: nat, next: nat, spurious: bool) returns (ok: bool)
      requires Valid() && Word(next)
      modifies this
      ensures Valid() && ok == (old(state) == expected && !spurious)
      ensures state == if ok then next else old(state)
    {
      ok := state == expected && !spurious;
      if ok {
        state := next;
      }
    }

    /** Retries until the exchange succeeds. Each failed exchange meets a word that another thread has
        stored since the load, or fails for no reason when that word is the same. The result follows
        the last word stored, and is the clock's new value. */
    method Now(physical: u64, others: seq<nat>) returns (h: Hlc)
      requires Valid() && Words(others)
      modifies this
      ensures Valid() && h == Current() == NowRule(Unpack(Latest(old(state), others)), physical)
    {
      var i := 0;
      while true
        invariant i <= |others| && Valid() && state == Latest(old(state), others[..i])
        decreases |others| - i
      {
        var cur := state;
        h := NowRule(Unpack(cur), physical);
        PackingIsOrder(h, h);
        var disturbed := i < |others|;
        if disturbed {
          state, i := others[i], i + 1;
        }
        var ok := CompareExchangeWeak(cur, Pack(h), disturbed);
        if ok {
          assert others[..i] == others;
          return;
        }
      }
    }

    method Update(received: Hlc, physical: u64, others: seq<nat>) returns (h: Hlc)
      requires Valid() && Words(others)
      modifies this
      ensures Valid() && h == Current() == UpdateRule(Unpack(Latest(old(state), others)), received, physical)
    {
      var i := 0;
      while true
        invariant i <= |others| && Valid() && state == Latest(old(state), others[..i])
        decreases |others| - i
      {
        var cur := state;
        h := UpdateRule(Unpack(cur), received, physical);
        PackingIsOrder(h, h);
        var disturbed := i < |others|;
        if disturbed {
          state, i := others[i], i + 1;
        }
        var ok := CompareExchangeWeak(cur, Pack(h), disturbed);
        if ok {
          assert others[..i] == others;
          return;
        }
      }
    }
  }
}
