/** The xorshift generator of the load test, on 64-bit words. */
module XorShift {

  const SEED_MASK: bv64 := 0x9e37_79b9_7f4a_7c15

  // The three xor-shifts of a step, and what undoes each of them.

  function Left13(x: bv64): bv64 { x ^ (x << 13) }

  function Right7(x: bv64): bv64 { x ^ (x >> 7) }

  function Left17(x: bv64): bv64 { x ^ (x << 17) }

  function UndoLeft13(x: bv64): bv64 {
    var a := x ^ (x << 13);
    var b := a ^ (a << 26);
    b ^ (b << 52)
  }

  function UndoRight7(x: bv64): bv64 {
    var a := x ^ (x >> 7);
    var b := a ^ (a >> 14);
    var c := b ^ (b >> 28);
    c ^ (c >> 56)
  }

  function UndoLeft17(x: bv64): bv64 {
    var a := x ^ (x << 17);
    a ^ (a << 34)
  }

  function Step(s: bv64): bv64 {
    Left17(Right7(Left13(s)))
  }

  /** The state before: the three xor-shifts undone, last one first. */
  function Unstep(s: bv64): bv64 {
    UndoLeft13(UndoRight7(UndoLeft17(s)))
  }

  // Each function on words written out in full. Stated this way the solver sees plain
  // terms; the lemmas after them only combine these equations.

  lemma Left13Words(x: bv64)
    ensures Left13(x) == x ^ (x << 13)
    ensures UndoLeft13(x ^ (x << 13)) == x
  {
  }

  lemma UndoLeft13Words(x: bv64)
    ensures (
      var a := x ^ (x << 13);
      var b := a ^ (a << 26);
      UndoLeft13(x) == b ^ (b << 52) && Left13(b ^ (b << 52)) == x)
  {
  }

  lemma Left13Undone(x: bv64)
    ensures UndoLeft13(Left13(x)) == x && Left13(UndoLeft13(x)) == x
  {
    hide Left13, UndoLeft13;
    Left13Words(x);
    UndoLeft13Words(x);
  }

  lemma Right7Words(x: bv64)
    ensures Right7(x) == x ^ (x >> 7)
    ensures UndoRight7(x ^ (x >> 7)) == x
  {
  }

  lemma UndoRight7Words(x: bv64)
    ensures (
      var a := x ^ (x >> 7);
      var b := a ^ (a >> 14);
      var c := b ^ (b >> 28);
      UndoRight7(x) == c ^ (c >> 56) && Right7(c ^ (c >> 56)) == x)
  {
  }

  lemma Right7Undone(x: bv64)
    ensures UndoRight7(Right7(x)) == x && Right7(UndoRight7(x)) == x
  {
    hide Right7, UndoRight7;
    Right7Words(x);
    UndoRight7Words(x);
  }

  lemma Left17Words(x: bv64)
    ensures Left17(x) == x ^ (x << 17)
    ensures UndoLeft17(x ^ (x << 17)) == x
  {
  }

  lemma UndoLeft17Words(x: bv64)
    ensures (
      var a := x ^ (x << 17);
      UndoLeft17(x) == a ^ (a << 34) && Left17(a ^ (a << 34)) == x)
  {
  }

  lemma Left17Undone(x: bv64)
    ensures UndoLeft17(Left17(x)) == x && Left17(UndoLeft17(x)) == x
  {
    hide Left17, UndoLeft17;
    Left17Words(x);
    UndoLeft17Words(x);
  }

  /** A step written out. */
  lemma StepWords(s: bv64, a: bv64, b: bv64)
    requires a == s ^ (s << 13) && b == a ^ (a >> 7)
    ensures Step(s) == b ^ (b << 17)
  {
    hide Left13, Right7, Left17;
    Left13Is(s);
    Right7Is(a);
    Left17Is(b);
  }

  lemma Left13Is(x: bv64)
    ensures Left13(x) == x ^ (x << 13)
  {
  }

  lemma Right7Is(x: bv64)
    ensures Right7(x) == x ^ (x >> 7)
  {
  }

  lemma Left17Is(x: bv64)
    ensures Left17(x) == x ^ (x << 17)
  {
  }

  /** A step is a bijection on 64-bit states. */
  lemma StepInvertible(s: bv64)
    ensures Unstep(Step(s)) == s && Step(Unstep(s)) == s
  {
    hide Left13, Left17, Right7, UndoLeft13, UndoLeft17, UndoRight7;
    Left13Undone(s);
    Right7Undone(Left13(s));
    Left17Undone(Right7(Left13(s)));
    Left17Undone(s);
    Right7Undone(UndoLeft17(s));
    Left13Undone(UndoRight7(UndoLeft17(s)));
  }

  /** Zero is the only state that steps to zero, so no other state degenerates. */
  lemma ZeroOnlyFromZero(s: bv64)
    ensures Step(s) == 0 <==> s == 0
  {
    hide Step, Unstep;
    ZeroStaysZero();
    StepInvertible(s);
    StepInvertible(0);
  }

  lemma ZeroStaysZero()
    ensures Step(0) == 0
  {
  }

  function Seeded(seed: bv64): bv64 {
    seed ^ SEED_MASK
  }

  function After(steps: nat, s: bv64): bv64 {
    if steps == 0 then s else Step(After(steps - 1, s))
  }

  lemma {:induction false} AfterInjective(steps: nat, s: bv64, t: bv64)
    requires After(steps, s) == After(steps, t)
    ensures s == t
  {
    hide Step, Unstep;
    if steps > 0 {
      StepInvertible(After(steps - 1, s));
      StepInvertible(After(steps - 1, t));
      AfterInjective(steps - 1, s, t);
    }
  }

  lemma {:induction false} AfterZero(steps: nat, s: bv64)
    ensures After(steps, s) == 0 <==> s == 0
  {
    hide Step;
    if steps > 0 {
      ZeroOnlyFromZero(After(steps - 1, s));
      AfterZero(steps - 1, s);
    }
  }

  /** Generators with different seeds are in different states after equally many steps, and
      a generator is stuck at zero exactly when its seed is the mask. */
  lemma SeedsStayApart(steps: nat, seed: bv64, other: bv64)
    ensures After(steps, Seeded(seed)) == After(steps, Seeded(other)) <==> seed == other
    ensures After(steps, Seeded(seed)) == 0 <==> seed == SEED_MASK
  {
    if After(steps, Seeded(seed)) == After(steps, Seeded(other)) {
      AfterInjective(steps, Seeded(seed), Seeded(other));
    }
    AfterZero(steps, Seeded(seed));
    SameSeed(seed, other);
    SameSeed(seed, SEED_MASK);
  }

  lemma SameSeed(seed: bv64, other: bv64)
    ensures Seeded(seed) == Seeded(other) <==> seed == other
    ensures Seeded(SEED_MASK) == 0
  {
  }

  class XorShift64 {
    var state: bv64

    constructor (seed: bv64)
      ensures state == Seeded(seed) == seed ^ 0x9e37_79b9_7f4a_7c15
    {
      state := seed ^ SEED_MASK;
    }

    method NextU64() returns (x: bv64)
      modifies this
      ensures x == state == Step(old(state)) && Unstep(state) == old(state)
    {
      hide Left13, Right7, Left17, Unstep;
      StepInvertible(state);
      x := state;
      Left13Words(x);
      x := x ^ (x << 13);
      Right7Words(x);
      x := x ^ (x >> 7);
      Left17Words(x);
      x := x ^ (x << 17);
      state := x;
    }
  }
}
