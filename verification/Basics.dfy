/** Small shared vocabulary: optional values, extrema of reals and the length of
    the run of `true` that ends a sequence of flags. */
module Basics {
  datatype Option<+T> = None | Some(value: T)
  {
    function GetOr(default: T): T {
      match this
      case Some(v) => v
      case None => default
    }
  }

  function Min(a: real, b: real): real {
    if a <= b then a else b
  }

  function Max(a: real, b: real): real {
    if a >= b then a else b
  }

  /** All but the last. */
  function Front<T>(s: seq<T>): seq<T>
    requires s != []
  {
    s[..|s| - 1]
  }

  function Lesser(a: int, b: int): int {
    if a <= b then a else b
  }

  function Greater(a: int, b: int): int {
    if a >= b then a else b
  }

  function Abs(a: real): real {
    if a < 0.0 then -a else a
  }

  lemma ScaleMono(k: real, a: real, b: real)
    requires k >= 0.0 && a <= b
    ensures k * a <= k * b
  {
    assert k * (b - a) >= 0.0;
  }

  lemma ScaleStrict(k: real, a: real, b: real)
    requires k > 0.0 && a < b
    ensures k * a < k * b
  {
    assert k * (b - a) > 0.0;
  }

  lemma CancelScale(k: real, a: real, b: real)
    requires k > 0.0 && k * a <= k * b
    ensures a <= b
  {
    if a > b { ScaleStrict(k, b, a); }
  }

  lemma FloorBounds(x: real)
    ensures x.Floor as real <= x < x.Floor as real + 1.0
  {
  }

  /** How many flags at the end of `flags` are true without interruption. */
  function RunLength(flags: seq<bool>): (n: nat)
    ensures n <= |flags|
  {
    if flags == [] || !flags[|flags| - 1] then 0 else 1 + RunLength(flags[..|flags| - 1])
  }

  /** RunLength is exactly the longest all-true suffix. */
  lemma {:induction false} RunLengthIsLongestSuffix(flags: seq<bool>, m: nat)
    requires m <= |flags|
    ensures m <= RunLength(flags) <==> forall i :: |flags| - m <= i < |flags| ==> flags[i]
  {
    if flags == [] || m == 0 {
    } else {
      var front := flags[..|flags| - 1];
      RunLengthIsLongestSuffix(front, m - 1);
      if flags[|flags| - 1] {
        if forall i :: |front| - (m - 1) <= i < |front| ==> front[i] {
          forall i | |flags| - m <= i < |flags| ensures flags[i] {
            if i < |front| { assert front[i]; }
          }
        } else {
          var i :| |front| - (m - 1) <= i < |front| && !front[i];
          assert !flags[i];
        }
      }
    }
  }
}
