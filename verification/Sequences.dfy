// Small notions used by several modules.
module Sequences {

  function Max(a: int, b: int): int {
    if a < b then b else a
  }

  ghost predicate Distinct<T>(s: seq<T>) {
    forall i, j | 0 <= i < j < |s| :: s[i] != s[j]
  }

  // The last place in `s` that holds what place `i` holds.
  function LastOf<T(==)>(s: seq<T>, i: nat): (last: nat)
    requires i < |s|
    ensures i <= last < |s| && s[last] == s[i]
    ensures forall j | last < j < |s| :: s[j] != s[i]
  {
    var n := |s| - 1;
    if s[n] == s[i] then n else LastOf(s[..n], i)
  }

  // Strictly increasing times.
  predicate Increasing(times: seq<real>) {
    forall i, j | 0 <= i < j < |times| :: times[i] < times[j]
  }
}
