/**
 * The example button: three built-in programs, loaded into the editor in
 * turn by a counter that advances modulo the number of examples.
 */
module Examples {

  /** The built-in example programs, in rotation order. */
  const Programs: seq<string> := [
    "braincell name = \"VIBE\"\n"
    + "skibidi spill \"Welcome to \" + name + \"! 💙\"\n"
    + "\n"
    + "braincell vibes = 100\n"
    + "sus check vibes > 50\n"
    + "    spill \"The vibes are immaculate! ✨\"\n"
    + "plot twist\n"
    + "    spill \"Need more vibes...\"\n"
    + "end sus",
    "braincell count = 0\n"
    + "vibe until count >= 3\n"
    + "    spill \"Vibing... \" + str(count)\n"
    + "    sum count 1\n"
    + "end vibe\n"
    + "spill \"Loop complete! 🎵\"",
    "braincell is_cool = yeah\n"
    + "braincell is_boring = nah\n"
    + "\n"
    + "sus check is_cool\n"
    + "    skibidi spill \"This language is fire! 🔥\"\n"
    + "end sus"
  ]

  /** The counter after one load: the next example, wrapping to the first. */
  function Next(c: nat): (n: nat)
    requires c < |Programs|
    ensures n < |Programs|
    ensures c + 1 < |Programs| ==> n == c + 1
    ensures c + 1 == |Programs| ==> n == 0
  {
    (c + 1) % |Programs|
  }

  /** The counter after `k` loads starting from `c`. */
  function After(c: nat, k: nat): (n: nat)
    requires c < |Programs|
    ensures n < |Programs|
  {
    if k == 0 then c else Next(After(c, k - 1))
  }

  /** `k` loads move the counter `k` places round the rotation. */
  lemma {:induction false} AfterLoads(c: nat, k: nat)
    requires c < |Programs|
    ensures After(c, k) == (c + k) % |Programs|
  {
    if k > 0 {
      AfterLoads(c, k - 1);
    }
  }

  /** A full round of loads brings the counter back where it was. */
  lemma FullRound(c: nat)
    requires c < |Programs|
    ensures After(c, |Programs|) == c
  {
    AfterLoads(c, |Programs|);
  }

  /** From a fresh page, load number `k` (counting from 0) shows example
      `k mod 3`. */
  lemma LoadedInTurn(k: nat)
    ensures Programs[After(0, k)] == Programs[k % |Programs|]
  {
    AfterLoads(0, k);
  }

  /** The example counter (`currentExample`) behind the example button. */
  class Rotation {
    var current: nat

    ghost predicate Valid()
      reads this
    {
      current < |Programs|
    }

    /** A fresh page starts at the first example. */
    constructor ()
      ensures Valid() && current == 0
    {
      current := 0;
    }

    /** One click: the example at the counter is put into the editor, and the
        counter moves on to the next one. */
    method Load() returns (text: string)
      requires Valid()
      modifies this
      ensures Valid()
      ensures text == Programs[old(current)]
      ensures current == Next(old(current))
    {
      text := Programs[current];
      current := (current + 1) % |Programs|;
    }
  }
}
