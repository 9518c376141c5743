/** The scorer's 32-bit generator. */
module XorShift {

  /** One draw on 32-bit words, in its three stages. */
  function Next(x: bv32): bv32 {
    Stage5(Stage17(Stage13(x)))
  }

  function Stage13(x: bv32): bv32 { x ^ (x << 13) }

  function Stage17(x: bv32): bv32 { x ^ (x >> 17) }

  function Stage5(x: bv32): bv32 { x ^ (x << 5) }

  function Undo13(y: bv32): bv32 { y ^ (y << 13) ^ (y << 26) }

  function Undo17(y: bv32): bv32 { y ^ (y >> 17) }

  function Undo5(y: bv32): bv32 {
    y ^ (y << 5) ^ (y << 10) ^ (y << 15) ^ (y << 20) ^ (y << 25) ^ (y << 30)
  }

  function Previous(y: bv32): bv32 {
    Undo13(Undo17(Undo5(y)))
  }

  // Each inverse is checked first with one of the two functions written out.

  lemma Undo13Cancels(x: bv32)
    ensures Undo13(x ^ (x << 13)) == x && Stage13(x ^ (x << 13) ^ (x << 26)) == x
  {
  }

  lemma Invert13(x: bv32)
    ensures Undo13(Stage13(x)) == x && Stage13(Undo13(x)) == x
  {
    Undo13Cancels(x);
  }

  lemma Undo17Cancels(x: bv32)
    ensures Undo17(x ^ (x >> 17)) == x && Stage17(x ^ (x >> 17)) == x
  {
  }

  lemma Invert17(x: bv32)
    ensures Undo17(Stage17(x)) == x && Stage17(Undo17(x)) == x
  {
    Undo17Cancels(x);
  }

  lemma Undo5Cancels(x: bv32)
    ensures Undo5(x ^ (x << 5)) == x
    ensures Stage5(x ^ (x << 5) ^ (x << 10) ^ (x << 15) ^ (x << 20) ^ (x << 25) ^ (x << 30)) == x
  {
  }

  lemma Invert5(x: bv32)
    ensures Undo5(Stage5(x)) == x && Stage5(Undo5(x)) == x
  {
    Undo5Cancels(x);
  }

  /** A draw is a bijection on 32-bit words. */
  lemma NextIsBijective(x: bv32)
    ensures Previous(Next(x)) == x && Next(Previous(x)) == x
  {
    Invert13(x);
    Invert17(Stage13(x));
    Invert5(Stage17(Stage13(x)));
    Invert5(x);
    Invert17(Undo5(x));
    Invert13(Undo17(Undo5(x)));
  }

  /** The state after `k` draws. */
  function Draw(seed: bv32, k: nat): bv32 {
    if k == 0 then seed else Next(Draw(seed, k - 1))
  }

  /** No number of draws takes two seeds to the same state; in particular only the zero seed ever
      reaches zero, and it never leaves it. */
  lemma {:induction false} DrawsAreInjective(seed: bv32, seed': bv32, k: nat)
    ensures Draw(seed, k) == Draw(seed', k) <==> seed == seed'
    ensures Draw(seed, k) == 0 <==> seed == 0
  {
    if k > 0 {
      DrawsAreInjective(seed, seed', k - 1);
      NextIsBijective(Draw(seed, k - 1));
      NextIsBijective(Draw(seed', k - 1));
      ZeroIsFixed();
    }
  }

  lemma ZeroIsFixed()
    ensures Next(0) == 0 && Previous(0) == 0
  {
  }

  /** The first draws from seed 1. */
  lemma FirstDraws()
    ensures Draw(1, 1) == 270369 && Draw(1, 2) == 67634689 && Draw(1, 3) == 2647435461
    ensures Draw(1, 4) == 307599695 && Draw(1, 5) == 2398689233 && Draw(1, 6) == 745495504
  {
    assert Next(1) == 270369 && Next(270369) == 67634689 && Next(67634689) == 2647435461;
    assert Next(2647435461) == 307599695 && Next(307599695) == 2398689233 && Next(2398689233) == 745495504;
  }

  // ---- The code as written, on wider integers with a mask ------------------------------------------

  function Widen(x: bv32): bv64 {
    x as bv64
  }

  function MaskedStage13(x: bv64): bv64 { x ^ ((x << 13) & 0xFFFF_FFFF) }

  function MaskedStage17(x: bv64): bv64 { x ^ (x >> 17) }

  function MaskedStage5(x: bv64): bv64 { x ^ ((x << 5) & 0xFFFF_FFFF) }

  function Mask(x: bv64): bv64 { x & 0xFFFF_FFFF }

  lemma Masked13(x: bv32)
    ensures MaskedStage13(x as bv64) == Widen(x ^ (x << 13))
  {
  }

  lemma Masked17(x: bv32)
    ensures MaskedStage17(x as bv64) == Widen(x ^ (x >> 17))
  {
  }

  lemma Masked5(x: bv32)
    ensures MaskedStage5(x as bv64) == Widen(x ^ (x << 5))
  {
  }

  lemma MaskKeepsWords(x: bv32)
    ensures Mask(x as bv64) == Widen(x)
  {
  }

  /** On 32-bit values, each masked stage is the stage on words, and the final mask changes nothing. */
  lemma MaskedAgrees(x: bv32)
    ensures MaskedStage13(Widen(x)) == Widen(Stage13(x))
    ensures MaskedStage17(Widen(x)) == Widen(Stage17(x))
    ensures MaskedStage5(Widen(x)) == Widen(Stage5(x))
    ensures Mask(Widen(x)) == Widen(x)
  {
    Masked13(x);
    Masked17(x);
    Masked5(x);
    MaskKeepsWords(x);
  }

  /** `xorshift32`: shifts on integers that do not wrap, masked back to 32 bits. For an argument of at
      most 32 bits no intermediate value needs more than 45. */
  method MaskedXorShift(start: bv32) returns (r: bv64)
    ensures r == Widen(Next(start))
  {
    var x := Widen(start);
    MaskedAgrees(start);
    x := MaskedStage13(x);
    MaskedAgrees(Stage13(start));
    x := MaskedStage17(x);
    MaskedAgrees(Stage17(Stage13(start)));
    x := MaskedStage5(x);
    MaskedAgrees(Next(start));
    r := Mask(x);
  }
}
