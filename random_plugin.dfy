/**
 * `RandomPlugin.generate_random_number`: an integer drawn from an inclusive
 * range, as Python's `random.randint(min_val, max_val)` draws it. The draw
 * itself is a non-deterministic choice; which value comes out, and with what
 * probability, is not modelled.
 */
module RandomPlugin {
  import opened Wrappers

  /** `random.randint` raises `ValueError` for an inverted range. */
  datatype RandomError = EmptyRange(minVal: int, maxVal: int)

  /** The values `random.randint(minVal, maxVal)` chooses among, in
      increasing order: `randrange(minVal, maxVal + 1)`. */
  function Outcomes(minVal: int, maxVal: int): (vs: seq<int>)
    ensures |vs| == if minVal <= maxVal then maxVal - minVal + 1 else 0
  {
    if minVal <= maxVal then seq(maxVal - minVal + 1, i => minVal + i) else []
  }

  /** The possible results are exactly the integers from `minVal` to
      `maxVal`, both included. */
  lemma OutcomesAreRange(minVal: int, maxVal: int, v: int)
    ensures v in Outcomes(minVal, maxVal) <==> minVal <= v <= maxVal
  {
    if minVal <= v <= maxVal {
      assert Outcomes(minVal, maxVal)[v - minVal] == v;
    }
  }

  /** A value within the range, both ends included; an inverted range is an
      error and yields no value. */
  method GenerateRandomNumber(minVal: int, maxVal: int) returns (r: Result<int, RandomError>)
    ensures r.Success? <==> minVal <= maxVal
    ensures r.Success? ==> minVal <= r.value <= maxVal && r.value in Outcomes(minVal, maxVal)
    ensures r.Failure? ==> r.error == EmptyRange(minVal, maxVal)
  {
    if minVal > maxVal {
      return Failure(EmptyRange(minVal, maxVal));
    }
    OutcomesAreRange(minVal, maxVal, minVal);
    var v :| v in Outcomes(minVal, maxVal);
    OutcomesAreRange(minVal, maxVal, v);
    r := Success(v);
  }
}
