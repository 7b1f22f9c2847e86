/**
  Geometry of the outward spiral walked by the spiral loop manager.

  Positions are offsets from the start cell. The walk is made of rounds
  k = 1, 2, 3, ...: round k moves k steps along the row axis and then k steps
  along the column axis, all by +1 when k is odd and by -1 when k is even.
  Every step therefore has a key (round, step-in-round), and the start cell has
  key (0, 0). `StepOffset` maps a key to the position it reaches and `KeyOf`
  maps a position back to its key; the two are inverse to each other, which is
  what makes the walk visit every offset exactly once.
*/
module SpiralGeometry {

  /** A position relative to the start cell. */
  datatype Offset = Offset(dr: int, dc: int)

  /** Round number (0 only for the start cell) and index of the step inside the round. */
  datatype Key = Key(round: nat, step: nat)

  const Origin := Offset(0, 0)

  /** Strict lexicographic order on keys: the order in which the walk reaches them. */
  predicate Before(a: Key, b: Key) {
    a.round < b.round || (a.round == b.round && a.step < b.step)
  }

  /** Keys of real steps: round k >= 1 has exactly 2k steps. */
  predicate IsStep(k: Key) {
    k.round >= 1 && k.step < 2 * k.round
  }

  /** Direction of every move of a round: +1 on odd rounds, -1 on even ones. */
  function Variation(round: nat): int {
    if round % 2 == 1 then 1 else -1
  }

  /** Where round `round` begins. */
  function RoundStart(round: nat): Offset
    requires round >= 1
  {
    if round % 2 == 1 then Offset(-(round / 2), -(round / 2))
    else Offset(round / 2, round / 2)
  }

  /** Where the step with key k lands. */
  function StepOffset(k: Key): Offset
    requires IsStep(k)
  {
    var m := k.round / 2;
    if k.round % 2 == 1 then
      if k.step < k.round then Offset(k.step + 1 - m, -m)
      else Offset(m + 1, k.step - k.round + 1 - m)
    else
      if k.step < k.round then Offset(m - 1 - k.step, m)
      else Offset(-m, m - 1 + k.round - k.step)
  }

  /** Position after the first `steps` moves of round `round`. */
  function PositionAfter(round: nat, steps: nat): Offset
    requires round >= 1 && steps <= 2 * round
  {
    if steps == 0 then RoundStart(round) else StepOffset(Key(round, steps - 1))
  }

  /** The key of the step that reaches o (the four arms of the ring o lies on). */
  function KeyOf(o: Offset): Key {
    if o == Origin then Key(0, 0)
    else if o.dc <= 0 && o.dc + 1 <= o.dr <= 1 - o.dc then
      Key(1 - 2 * o.dc, o.dr - o.dc - 1)
    else if o.dr >= 1 && 2 - o.dr <= o.dc <= o.dr then
      Key(2 * o.dr - 1, 3 * o.dr - 3 + o.dc)
    else if o.dc >= 1 && -o.dc <= o.dr <= o.dc - 1 then
      Key(2 * o.dc, o.dc - 1 - o.dr)
    else
      Key(-2 * o.dr, -3 * o.dr - 1 - o.dc)
  }

  function Abs(x: int): nat {
    if x < 0 then -x else x
  }

  /** Each move of round k changes one coordinate by Variation(k): rows first, then columns. */
  lemma StepMoves(round: nat, steps: nat)
    requires round >= 1 && steps < 2 * round
    ensures var before := PositionAfter(round, steps);
            var after := PositionAfter(round, steps + 1);
            if steps < round then after == Offset(before.dr + Variation(round), before.dc)
            else after == Offset(before.dr, before.dc + Variation(round))
  {
  }

  /** A round ends where the next one begins. */
  lemma RoundsChain(round: nat)
    requires round >= 1
    ensures PositionAfter(round, 2 * round) == RoundStart(round + 1)
  {
  }

  /** KeyOf undoes StepOffset. */
  lemma KeyOfStep(k: Key)
    requires IsStep(k)
    ensures KeyOf(StepOffset(k)) == k
  {
  }

  /** StepOffset undoes KeyOf: every offset but the origin is reached by exactly one step. */
  lemma StepOfKey(o: Offset)
    requires o != Origin
    ensures IsStep(KeyOf(o)) && StepOffset(KeyOf(o)) == o
  {
    var k := KeyOf(o);
    if o.dc <= 0 && o.dc + 1 <= o.dr <= 1 - o.dc {
      assert k.round == 1 - 2 * o.dc;
      assert k.round % 2 == 1 && k.round / 2 == -o.dc;
    } else if o.dr >= 1 && 2 - o.dr <= o.dc <= o.dr {
      assert k.round == 2 * o.dr - 1;
      assert k.round % 2 == 1 && k.round / 2 == o.dr - 1;
    } else if o.dc >= 1 && -o.dc <= o.dr <= o.dc - 1 {
      assert k.round == 2 * o.dc;
      assert k.round % 2 == 0 && k.round / 2 == o.dc;
    } else {
      assert k.round == -2 * o.dr;
      assert k.round % 2 == 0 && k.round / 2 == -o.dr;
    }
  }

  /** Every key KeyOf produces is the start key or the key of a real step. */
  lemma KeyOfShape(o: Offset)
    ensures KeyOf(o) == Key(0, 0) <==> o == Origin
    ensures o != Origin ==> IsStep(KeyOf(o))
  {
    if o != Origin {
      StepOfKey(o);
    }
  }

  /** An offset at Manhattan distance d is reached no later than round 2d + 1. */
  lemma KeyRoundBound(o: Offset)
    ensures KeyOf(o).round <= 2 * (Abs(o.dr) + Abs(o.dc)) + 1
  {
  }
}
