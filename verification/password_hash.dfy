/** The demo password hash of the authentication module: a 31-multiplier
    rolling hash over the characters, wrapped to a signed 32-bit
    integer after every step, and verification by re-hashing. */
module PasswordHash {

  const TwoPow31: int := 0x8000_0000
  const TwoPow32: int := 0x1_0000_0000

  predicate IsInt32(x: int) {
    -TwoPow31 <= x < TwoPow31
  }

  /** ECMAScript ToInt32: the representative of `x` modulo 2^32 in the signed range. */
  function ToInt32(x: int): (r: int)
    ensures IsInt32(r)
    ensures (x - r) % TwoPow32 == 0
    ensures IsInt32(x) ==> r == x
  {
    var m := x % TwoPow32;
    if m >= TwoPow31 then m - TwoPow32 else m
  }

  /** Numbers that agree modulo 2^32 wrap to the same int32. */
  lemma ToInt32Congruent(a: int, b: int)
    requires (a - b) % TwoPow32 == 0
    ensures ToInt32(a) == ToInt32(b)
  {
    var q := (a - b) / TwoPow32;
    assert a == b + TwoPow32 * q;
    assert a % TwoPow32 == b % TwoPow32;
  }

  /** One step of the hash in closed form: `h * 31 + code`, wrapped. */
  function Step(h: int, c: char): int {
    ToInt32(h * 31 + c as int)
  }

  /** The hash of a password: the left fold of `Step` from 0. */
  function Hash(p: string): (h: int)
    ensures IsInt32(h)
    decreases |p|
  {
    if |p| == 0 then 0 else Step(Hash(p[..|p| - 1]), p[|p| - 1])
  }

  /** One iteration of the loop as the code writes it:
      `hash = ((hash << 5) - hash) + char` and then `hash = hash & hash`.
      `<<` wraps its result to int32, the subtraction and addition are exact
      on doubles of this size, and `x & x` is ToInt32(x). */
  function LoopStep(h: int, c: char): int {
    ToInt32(ToInt32(h * 32) - h + c as int)
  }

  /** The shift-and-subtract loop body computes the `* 31` rolling step. */
  lemma LoopStepIsStep(h: int, c: char)
    ensures LoopStep(h, c) == Step(h, c)
  {
    var s := ToInt32(h * 32);
    assert (h * 32 - s) % TwoPow32 == 0;
    var q := (h * 32 - s) / TwoPow32;
    assert (s - h + c as int) - (h * 31 + c as int) == -TwoPow32 * q;
    ToInt32Congruent(s - h + c as int, h * 31 + c as int);
  }

  /** `hashPassword`: the loop over the characters, as written. */
  method HashPassword(p: string) returns (h: int)
    ensures h == Hash(p)
    ensures IsInt32(h)
    ensures Verify(p, h)
  {
    h := 0;
    var i := 0;
    while i < |p|
      invariant 0 <= i <= |p|
      invariant h == Hash(p[..i])
    {
      LoopStepIsStep(h, p[i]);
      assert p[..i + 1][..i] == p[..i];
      h := LoopStep(h, p[i]);
      i := i + 1;
    }
    assert p[..|p|] == p;
  }

  /** `verifyPassword`: re-hash the candidate and compare with what is stored. */
  function Verify(candidate: string, stored: int): (ok: bool)
    ensures ok ==> IsInt32(stored)
    ensures stored == Hash(candidate) ==> ok
  {
    Hash(candidate) == stored
  }

  /** Hashing one more character is one more step of the fold. */
  lemma {:induction false} HashAppend(p: string, c: char)
    ensures Hash(p + [c]) == Step(Hash(p), c)
  {
    assert (p + [c])[..|p|] == p;
  }

  /** The hash is not injective: "Aa" and "BB" collide, so verification
      accepts a password that was never registered. */
  lemma HashCollision()
    ensures "Aa" != "BB"
    ensures Hash("Aa") == Hash("BB") == 2112
    ensures Verify("Aa", Hash("BB"))
  {
    HashAppend("", 'A');
    HashAppend("A", 'a');
    HashAppend("", 'B');
    HashAppend("B", 'B');
    assert "" + ['A'] == "A" && "A" + ['a'] == "Aa";
    assert "" + ['B'] == "B" && "B" + ['B'] == "BB";
  }
}
