/**
 * The ECM parameter schedule of ecm/ecm_params.c: round index to the stage
 * one bound B1, the stage two bound B2, the number of curves L and the
 * expected number of decimal digits of the factor found in that round.
 */
module EcmParams {
  /** (B1, B2, L) as written through the three out-pointers, and the returned digit estimate. */
  datatype RoundParams = RoundParams(b1: nat, b2: nat, curves: nat, digits: nat)

  /** The row used for every round outside 1..10, including round <= 0. */
  const Fallback := RoundParams(280000, 10000000, 1024, 30)

  /** ecm_params(round, &B1, &B2, &L). */
  function Params(round: int): (r: RoundParams)
    ensures (round < 1 || round > 10) ==> r == Fallback
    ensures round == 1 ==> r == RoundParams(53, 2650, 4, 6)
    ensures 0 < r.b1 < r.b2 && r.curves >= 4 && 6 <= r.digits <= 30
  {
    if round == 1 then RoundParams(53, 2650, 4, 6)
    else if round == 2 then RoundParams(156, 7176, 8, 8)
    else if round == 3 then RoundParams(405, 19440, 14, 10)
    else if round == 4 then RoundParams(962, 42328, 25, 12)
    else if round == 5 then RoundParams(4777, 215010, 62, 16)
    else if round == 6 then RoundParams(9004, 405180, 106, 18)
    else if round == 7 then RoundParams(18436, 792791, 161, 20)
    else if round == 8 then RoundParams(34155, 1400000, 259, 8)
    else if round == 9 then RoundParams(66596, 2660000, 376, 24)
    else if round == 10 then RoundParams(133297, 5330000, 512, 26)
    else Fallback
  }

  /** Position of a round in the schedule: 1..10 are themselves, every other round is the fallback, 11. */
  function Rank(round: int): (k: int)
    ensures 1 <= k <= 11
    ensures k == 11 <==> round < 1 || round > 10
    ensures 1 <= round <= 10 ==> k == round
  {
    if 1 <= round <= 10 then round else 11
  }

  /** One step of the schedule: B1, B2 and L all grow from rank k to rank k + 1. */
  lemma ParamsStepIncrease(i: int, j: int)
    requires Rank(j) == Rank(i) + 1
    ensures Params(i).b1 < Params(j).b1 && Params(i).b2 < Params(j).b2 && Params(i).curves < Params(j).curves
  {
    if Rank(j) == 11 {
      assert Params(j) == Fallback;
    }
  }

  /** B1, B2 and L strictly increase along the schedule, from round 1 through round 10 to the fallback. */
  lemma {:induction false} ParamsIncrease(i: int, j: int)
    requires Rank(i) < Rank(j)
    ensures Params(i).b1 < Params(j).b1 && Params(i).b2 < Params(j).b2 && Params(i).curves < Params(j).curves
    decreases Rank(j) - Rank(i)
  {
    var m := Rank(j) - 1;
    ParamsStepIncrease(m, j);
    if Rank(i) < m {
      ParamsIncrease(i, m);
    }
  }

  /** The digit estimate dips at round 8: it returns 8, below rounds 7 and 9. */
  lemma DigitsDipAtRoundEight()
    ensures Params(8).digits == 8
    ensures Params(7).digits > Params(8).digits && Params(8).digits < Params(9).digits
    ensures exists i, j :: Rank(i) < Rank(j) && Params(i).digits > Params(j).digits
  {
    assert Rank(7) < Rank(8) && Params(7).digits > Params(8).digits;
  }
}
