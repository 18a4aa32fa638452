/** Numbers, sequences and sets: what the other modules share. */
module Basics {
  function Min(a: int, b: int): int { if a < b then a else b }

  function Max(a: int, b: int): int { if a < b then b else a }

  function Last<T>(s: seq<T>): T
    requires s != []
  {
    s[|s| - 1]
  }

  function Init<T>(s: seq<T>): (r: seq<T>)
    requires s != []
    ensures |r| == |s| - 1
  {
    s[..|s| - 1]
  }

  /** The element at the given depth moves to the end. */
  function Rotated<T>(s: seq<T>, depth: nat): (r: seq<T>)
    requires depth < |s|
    ensures |r| == |s|
  {
    var k := |s| - 1 - depth;
    s[..k] + s[k + 1..] + [s[k]]
  }

  lemma {:induction false} SubsetCardinality(a: set<string>, b: set<string>)
    requires a <= b
    ensures |a| <= |b| && (a != b ==> |a| < |b|)
  {
    if a != {} {
      var x :| x in a;
      SubsetCardinality(a - {x}, b - {x});
    }
  }
}
