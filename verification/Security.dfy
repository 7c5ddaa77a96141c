/**
  The sliding replay window (src/mesh/security.rs): a highest counter and a
  64-bit mask of the counters just below it, against the plain set of accepted
  counters.
 */
module Security {
  import opened Basics

  type Counter = n: nat | n <= 0xffff_ffff

  datatype SecurityError = Replay(counter: Counter) | TooOld(counter: Counter)

  datatype Window = Window(highest: Counter, seen: bv64, initialized: bool)

  const FRESH: Window := Window(0, 0, false)

  // ------------------------------------------------------------------ the mask

  /** A bit position of the 64-bit mask. */
  function Position(i: nat): (p: bv6)
    requires i < 64
    ensures p as nat == i
  {
    if i == 0 then 0
    else
      NextPosition(Position(i - 1));
      Position(i - 1) + 1
  }

  lemma NextPosition(p: bv6)
    requires p as nat < 63
    ensures (p + 1) as nat == p as nat + 1
  {}

  predicate BitAt(mask: bv64, p: bv6) { (mask >> p) & 1 == 1 }

  predicate Bit(mask: bv64, i: nat)
    requires i < 64
  {
    BitAt(mask, Position(i))
  }

  function DoubleOf(mask: bv64): bv64 { mask << 1 }

  /** Left shift by `n` places, one place at a time. */
  function ShiftLeft(mask: bv64, n: nat): bv64 {
    if n == 0 then mask else DoubleOf(ShiftLeft(mask, n - 1))
  }

  function WithFirst(mask: bv64): bv64 { mask | 1 }

  function WithBit(mask: bv64, p: bv6): bv64 { mask | (1 << p) }

  predicate HasBit(mask: bv64, p: bv6) { mask & (1 << p) != 0 }

  /** The mask of a window that has seen only its highest counter. */
  function OnlyFirst(): bv64 { 1 }

  lemma DoubleAt(mask: bv64, p: bv6)
    ensures BitAt(DoubleOf(mask), p) == (p > 0 && BitAt(mask, p - 1))
  {}

  lemma Previous(p: bv6)
    ensures p > 0 ==> (p - 1) as nat == p as nat - 1
    ensures p > 0 <==> p as nat > 0
  {}

  lemma SamePosition(p: bv6, q: bv6)
    requires p as nat == q as nat
    ensures p == q
  {}

  lemma ShiftOne(mask: bv64, i: nat)
    requires i < 64
    ensures Bit(DoubleOf(mask), i) == (i > 0 && Bit(mask, i - 1))
  {
    hide BitAt, DoubleOf, Position;
    var p := Position(i);
    DoubleAt(mask, p);
    Previous(p);
    if i > 0 {
      SamePosition(p - 1, Position(i - 1));
    }
  }

  lemma {:induction false} ShiftBits(mask: bv64, n: nat, i: nat)
    requires i < 64
    ensures Bit(ShiftLeft(mask, n), i) == (i >= n && Bit(mask, i - n))
  {
    hide Bit, DoubleOf;
    if n > 0 {
      ShiftOne(ShiftLeft(mask, n - 1), i);
      if i > 0 {
        ShiftBits(mask, n - 1, i - 1);
      }
    }
  }

  lemma FirstAt(mask: bv64, p: bv6)
    ensures BitAt(WithFirst(mask), p) == (p as nat == 0 || BitAt(mask, p))
    ensures BitAt(OnlyFirst(), p) == (p as nat == 0)
  {}

  lemma FirstBit(mask: bv64, i: nat)
    requires i < 64
    ensures Bit(WithFirst(mask), i) == (i == 0 || Bit(mask, i))
    ensures Bit(OnlyFirst(), i) == (i == 0)
  {
    hide BitAt, WithFirst, OnlyFirst, Position;
    FirstAt(mask, Position(i));
  }

  lemma BitSetAt(mask: bv64, q: bv6, p: bv6)
    ensures BitAt(WithBit(mask, q), p) == (BitAt(mask, p) || p == q)
    ensures HasBit(mask, q) == BitAt(mask, q)
  {}

  lemma BitSet(mask: bv64, j: nat, i: nat)
    requires i < 64 && j < 64
    ensures Bit(WithBit(mask, Position(j)), i) == (Bit(mask, i) || i == j)
    ensures HasBit(mask, Position(j)) == Bit(mask, j)
  {
    hide BitAt, WithBit, HasBit, Position;
    BitSetAt(mask, Position(j), Position(i));
  }

  // ---------------------------------------------------------------- the window

  function Accept(w: Window, c: Counter): (Option<SecurityError>, Window) {
    if !w.initialized then (None, Window(c, OnlyFirst(), true))
    else if c > w.highest then
      var shift := c - w.highest;
      (None, w.(highest := c, seen := if shift >= 64 then OnlyFirst() else WithFirst(ShiftLeft(w.seen, shift))))
    else
      var age := w.highest - c;
      if age >= 64 then (Some(TooOld(c)), w)
      else if HasBit(w.seen, Position(age)) then (Some(Replay(c)), w)
      else (None, w.(seen := WithBit(w.seen, Position(age))))
  }

  /** The window stands for the set of counters it has accepted. */
  ghost predicate Represents(w: Window, accepted: set<Counter>) {
    if !w.initialized then accepted == {}
    else
      && w.highest in accepted
      && (forall c :: c in accepted ==> c <= w.highest)
      && (forall i :: 0 <= i < 64 && i <= w.highest ==> (Bit(w.seen, i) <==> w.highest - i in accepted))
  }

  /** Whether a counter is admissible, judged from the set of accepted counters alone. */
  ghost predicate Admissible(accepted: set<Counter>, c: Counter) {
    && c !in accepted
    && forall a :: a in accepted ==> a < c + 64
  }

  /**
    The window refines the set: it accepts exactly the counters that were never
    accepted and lie less than 64 below every accepted one, and then stands for
    the enlarged set; otherwise it does not change, and says which of the two
    reasons applied.
   */
  lemma AcceptRefines(w: Window, accepted: set<Counter>, c: Counter)
    requires Represents(w, accepted)
    ensures var (error, after) := Accept(w, c);
      && (error.None? <==> Admissible(accepted, c))
      && (error.None? ==> Represents(after, accepted + {c}))
      && (error.Some? ==> after == w)
      && (error == Some(TooOld(c)) <==> exists a :: a in accepted && a >= c + 64)
  {
    hide Bit, ShiftLeft, Position, OnlyFirst, WithFirst, WithBit, HasBit;
    var (error, after) := Accept(w, c);
    if !w.initialized {
      forall i | 0 <= i < 64 ensures Bit(OnlyFirst(), i) == (i == 0) { FirstBit(w.seen, i); }
    } else if c > w.highest {
      forall i | 0 <= i < 64 && i <= c ensures Bit(after.seen, i) <==> c - i in accepted + {c} {
        SlideBit(w, accepted, c, i);
      }
    } else if w.highest - c < 64 {
      var age := w.highest - c;
      BitSet(w.seen, age, age);
      if error.None? {
        forall i | 0 <= i < 64 && i <= w.highest ensures Bit(after.seen, i) <==> w.highest - i in accepted + {c} {
          BitSet(w.seen, age, i);
        }
      }
    }
  }

  lemma SlideBit(w: Window, accepted: set<Counter>, c: Counter, i: nat)
    requires Represents(w, accepted) && w.initialized && c > w.highest && i < 64 && i <= c
    ensures Bit(Accept(w, c).1.seen, i) <==> c - i in accepted + {c}
  {
    hide Bit, ShiftLeft, Position, OnlyFirst, WithFirst, WithBit, HasBit;
    var shift := c - w.highest;
    FirstBit(ShiftLeft(w.seen, shift), i);
    ShiftBits(w.seen, shift, i);
    if shift <= i {
      assert c - i == w.highest - (i - shift);
    }
  }

  // --------------------------------------------------------------- whole runs

  /** The counters accepted while presenting `counters` one after the other. */
  function AcceptAll(w: Window, counters: seq<Counter>): (Window, set<Counter>) {
    if counters == [] then (w, {})
    else
      var n := |counters| - 1;
      var (before, accepted) := AcceptAll(w, counters[..n]);
      var (error, after) := Accept(before, counters[n]);
      (after, if error.None? then accepted + {counters[n]} else accepted)
  }

  /** Over every run from a fresh window the window stands for what it accepted. */
  lemma {:induction false} RunRefines(counters: seq<Counter>)
    ensures var (w, accepted) := AcceptAll(FRESH, counters); Represents(w, accepted)
  {
    hide Accept, Represents;
    if counters == [] {
      FreshRepresents();
    } else {
      var n := |counters| - 1;
      RunRefines(counters[..n]);
      var (before, accepted) := AcceptAll(FRESH, counters[..n]);
      AcceptRefines(before, accepted, counters[n]);
    }
  }

  lemma FreshRepresents()
    ensures Represents(FRESH, {})
  {}

  /** No counter is accepted twice: an accepted counter is refused ever after. */
  lemma NeverTwice(counters: seq<Counter>, c: Counter)
    requires c in AcceptAll(FRESH, counters).1
    ensures Accept(AcceptAll(FRESH, counters).0, c).0.Some?
  {
    hide Accept, Represents, AcceptAll;
    RunRefines(counters);
    var (w, accepted) := AcceptAll(FRESH, counters);
    AcceptRefines(w, accepted, c);
  }

  class ReplayWindow {
    var highest: Counter
    var seen: bv64
    var initialized: bool

    constructor ()
      ensures Value() == FRESH
    {
      highest, seen, initialized := 0, 0, false;
    }

    function Value(): Window
      reads this
    {
      Window(highest, seen, initialized)
    }

    method AcceptCounter(counter: Counter) returns (error: Option<SecurityError>)
      modifies this
      ensures (error, Value()) == Accept(old(Value()), counter)
    {
      hide ShiftLeft, Position, OnlyFirst, WithFirst, WithBit, HasBit;
      if !initialized {
        highest := counter;
        seen := OnlyFirst();
        initialized := true;
        return None;
      }
      if counter > highest {
        var shift := counter - highest;
        seen := if shift >= 64 then OnlyFirst() else WithFirst(ShiftLeft(seen, shift));
        highest := counter;
        return None;
      }
      var age := highest - counter;
      if age >= 64 {
        return Some(TooOld(counter));
      }
      if HasBit(seen, Position(age)) {
        return Some(Replay(counter));
      }
      seen := WithBit(seen, Position(age));
      error := None;
    }

    /** The largest counter accepted so far, if there is one. */
    method Highest(ghost accepted: set<Counter>) returns (h: Option<Counter>)
      requires Represents(Value(), accepted)
      ensures h.None? <==> accepted == {}
      ensures h.Some? ==> h.value in accepted && forall a :: a in accepted ==> a <= h.value
    {
      h := if initialized then Some(highest) else None;
    }
  }
}
