/**
 * `Array.prototype.sort` with the timestamp comparators the storage layer
 * passes: `(a, b) => a.timestamp - b.timestamp` (oldest first) and
 * `(a, b) => b.timestamp - a.timestamp` (newest first). The sort is stable,
 * as the language requires since ES2019.
 */
module Sorting {
  import opened Js

  datatype Order = Oldest | Newest

  /** The timestamp a comparator subtracts; records without a numeric one rank as 0. */
  function Stamp(v: Json): int {
    match Field(v, "timestamp")
    case Some(JNum(n)) => n
    case _ => 0
  }

  function Rank(o: Order, v: Json): int {
    if o == Oldest then Stamp(v) else -Stamp(v)
  }

  predicate Sorted(o: Order, s: seq<Json>) {
    forall i, j :: 0 <= i < j < |s| ==> Rank(o, s[i]) <= Rank(o, s[j])
  }

  /** Puts `x` after every element of `s` that does not rank above it. */
  function Insert(o: Order, x: Json, s: seq<Json>): (r: seq<Json>)
    requires Sorted(o, s)
    ensures Sorted(o, r)
    ensures multiset(r) == multiset(s) + multiset{x}
  {
    if s == [] then [x]
    else if Rank(o, x) < Rank(o, s[0]) then
      [x] + s
    else
      var rest := Insert(o, x, s[1..]);
      assert s == [s[0]] + s[1..];
      HeadRanksFirst(o, x, s, rest);
      [s[0]] + rest
  }

  /** Whatever the tail of `s` becomes once `x` is inserted, `s[0]` still ranks first. */
  lemma HeadRanksFirst(o: Order, x: Json, s: seq<Json>, rest: seq<Json>)
    requires Sorted(o, s) && s != [] && Rank(o, s[0]) <= Rank(o, x)
    requires multiset(rest) == multiset(s[1..]) + multiset{x}
    ensures forall i :: 0 <= i < |rest| ==> Rank(o, s[0]) <= Rank(o, rest[i])
  {
    forall i | 0 <= i < |rest| ensures Rank(o, s[0]) <= Rank(o, rest[i]) {
      assert rest[i] in multiset(rest);
      if rest[i] != x {
        assert rest[i] in multiset(s[1..]);
        var j :| 0 <= j < |s[1..]| && s[1..][j] == rest[i];
        assert s[j + 1] == rest[i];
      }
    }
  }

  /** Insertion sort; equal ranks keep their input order. */
  function Sort(o: Order, s: seq<Json>): (r: seq<Json>)
    ensures Sorted(o, r)
    ensures multiset(r) == multiset(s)
  {
    if s == [] then []
    else
      assert s == s[..|s| - 1] + [s[|s| - 1]];
      Insert(o, s[|s| - 1], Sort(o, s[..|s| - 1]))
  }
}
