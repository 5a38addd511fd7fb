/** FMath::RandRange(lo, hi) as an oracle: the generator's random draws are read from a
    choice sequence, so a property proved for every choice sequence holds for every
    sequence of draws the engine could make. */
module Oracle {

  /** The raw values the engine's random stream produces, one per draw. */
  type Draws = seq<int>

  /** One draw of RandRange(lo, hi): an integer of the inclusive range [lo, hi], or lo
      when the range is empty. Each call consumes one value of the choice sequence; an
      exhausted sequence reads as 0. */
  function RandRange(lo: int, hi: int, draws: Draws): (r: (int, Draws))
    ensures lo <= hi ==> lo <= r.0 <= hi
    ensures hi < lo ==> r.0 == lo
    ensures |draws| > 0 ==> r.1 == draws[1..]
    ensures |draws| == 0 ==> r.1 == draws
  {
    var raw := if |draws| == 0 then 0 else draws[0];
    var rest := if |draws| == 0 then draws else draws[1..];
    if lo <= hi then (lo + raw % (hi - lo + 1), rest) else (lo, rest)
  }

  /** Every value of the range can be drawn: the oracle constrains the draw to [lo, hi]
      and to nothing else. */
  lemma RandRangeOnto(lo: int, hi: int, v: int, rest: Draws)
    requires lo <= v <= hi
    ensures RandRange(lo, hi, [v - lo] + rest) == (v, rest)
  {
    var s := [v - lo] + rest;
    assert s[1..] == rest;
  }
}
