/**
 * The random number source behind `GetRandom(a, b)`. The source draws from a
 * static Mersenne-Twister generator through a uniform integer distribution;
 * neither is modelled. Here the generator is an object that is passed in, and
 * its state is a tape of raw draws: each call consumes one and reduces it into
 * [a, b], so every sequence of in-range results is produced by some tape.
 * Callers rely only on `a <= r <= b`, so what they prove holds for every
 * sequence of choices the generator could make.
 */
module Random {

  class RandomSource {
    /** The raw draws still to come. */
    var tape: seq<nat>

    constructor (tape: seq<nat>)
      ensures this.tape == tape
    {
      this.tape := tape;
    }

    /** A value between a and b inclusive; the source requires a <= b (the distribution is undefined otherwise). */
    method GetRandom(a: int, b: int) returns (r: int)
      requires a <= b
      modifies this
      ensures a <= r <= b
      ensures old(tape) != [] ==> r == a + old(tape)[0] % (b - a + 1) && tape == old(tape)[1..]
      ensures old(tape) == [] ==> r == a && tape == []
    {
      if tape == [] {
        r := a;
      } else {
        r := a + tape[0] % (b - a + 1);
        tape := tape[1..];
      }
    }
  }
}
