/** Small facts about sequences of counts shared by the analyzers. */
module Sequences {

  datatype Option<T> = None | Some(value: T)

  datatype Result<T, E> = Success(value: T) | Failure(error: E)

  function Sum(s: seq<nat>): nat {
    if s == [] then 0 else s[0] + Sum(s[1..])
  }

  lemma {:induction false} SumAppend(a: seq<nat>, b: seq<nat>)
    ensures Sum(a + b) == Sum(a) + Sum(b)
    decreases |a|
  {
    if a == [] {
      assert a + b == b;
    } else {
      assert (a + b)[1..] == a[1..] + b;
      SumAppend(a[1..], b);
    }
  }

  /**
   * Python's `max(xs, key=k)`: the position of the first element whose key
   * is maximal, in iteration order.
   */
  function FirstMaxIndex(keys: seq<nat>): (i: nat)
    requires |keys| > 0
    ensures i < |keys|
    ensures forall j :: 0 <= j < |keys| ==> keys[j] <= keys[i]
    ensures forall j :: 0 <= j < i ==> keys[j] < keys[i]
    decreases |keys|
  {
    if |keys| == 1 then 0
    else
      var j := FirstMaxIndex(keys[..|keys| - 1]);
      if keys[|keys| - 1] > keys[j] then |keys| - 1 else j
  }

  /** Python's true division a / b of two counts, b non-zero. */
  function Ratio(a: nat, b: nat): (r: real)
    requires b > 0
    ensures r * b as real == a as real
    ensures 0.0 <= r && (a <= b ==> r <= 1.0) && (a > 0 ==> r > 0.0)
  {
    a as real / b as real
  }

  function Min(a: nat, b: nat): nat {
    if a < b then a else b
  }
}
