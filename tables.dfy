/** Shared vocabulary of the store: optional results, constraint failures, and the
    sequence operations every table is built from (rows are kept in rowid order). */
module Tables {

  datatype Option<+T> = None | Some(value: T)

  /** The SQLite constraint that made a statement fail; a failed statement changes nothing. */
  datatype Violation = UniqueConstraint | ForeignKeyConstraint

  /** Whether a write statement committed. */
  datatype Outcome = Ok | Failed(violation: Violation)

  /** The value Room writes into an `autoGenerate` key it should fill in itself. */
  const Unassigned: int := 0

  /** The key a row is stored under: an unassigned key is replaced by the next free one. */
  function AssignedId(requested: int, next: int): int
  {
    if requested == Unassigned then next else requested
  }

  /** The AUTOINCREMENT counter after a row with key `id` was stored. */
  function AdvancedNext(next: int, id: int): (n: int)
    ensures n >= next && n > id
  {
    if id < next then next else id + 1
  }

  /** Every earlier element stands in `related` to every later one. */
  ghost predicate Pairwise<T>(s: seq<T>, related: (T, T) -> bool)
  {
    forall i, j :: 0 <= i < j < |s| ==> related(s[i], s[j])
  }

  /** The rows of `s` that satisfy `keep`, in their order: a WHERE clause or a DELETE's complement. */
  function Filter<T(==,!new)>(s: seq<T>, keep: T -> bool): (r: seq<T>)
    ensures |r| <= |s|
    ensures forall x :: x in r <==> x in s && keep(x)
  {
    if s == [] then []
    else
      assert s == [s[0]] + s[1..];
      if keep(s[0]) then [s[0]] + Filter(s[1..], keep) else Filter(s[1..], keep)
  }

  /** Filtering keeps each kept row as often as it occurs and drops every other row. */
  lemma {:induction false} FilterCounts<T(!new)>(s: seq<T>, keep: T -> bool)
    ensures forall x :: multiset(Filter(s, keep))[x] == if keep(x) then multiset(s)[x] else 0
  {
    if s != [] {
      assert s == [s[0]] + s[1..];
      FilterCounts(s[1..], keep);
    }
  }

  /** Filtering keeps every order or distinctness property that holds between pairs of rows. */
  lemma {:induction false} FilterPairwise<T(!new)>(s: seq<T>, keep: T -> bool, related: (T, T) -> bool)
    ensures Pairwise(s, related) ==> Pairwise(Filter(s, keep), related)
  {
    if s != [] && Pairwise(s, related) {
      TailPairwise(s, related);
      FilterPairwise(s[1..], keep, related);
      if keep(s[0]) {
        PrependPairwise(s[0], Filter(s[1..], keep), related);
      }
    }
  }

  /** A filter that keeps every row is the identity. */
  lemma {:induction false} FilterKeepsAll<T(!new)>(s: seq<T>, keep: T -> bool)
    requires forall x :: x in s ==> keep(x)
    ensures Filter(s, keep) == s
  {
    if s != [] {
      assert s == [s[0]] + s[1..];
      FilterKeepsAll(s[1..], keep);
    }
  }

  /** At most one row fails `keep`: then filtering removes at most one row. */
  lemma {:induction false} FilterDropsAtMostOne<T(!new)>(s: seq<T>, keep: T -> bool)
    requires forall i, j :: 0 <= i < j < |s| ==> keep(s[i]) || keep(s[j])
    ensures |Filter(s, keep)| >= |s| - 1
  {
    if s != [] {
      var tail := s[1..];
      if keep(s[0]) {
        forall i, j | 0 <= i < j < |tail| ensures keep(tail[i]) || keep(tail[j]) {
          assert tail[i] == s[i + 1] && tail[j] == s[j + 1];
        }
        FilterDropsAtMostOne(tail, keep);
      } else {
        forall y | y in tail ensures keep(y) {
          var k :| 0 <= k < |tail| && tail[k] == y;
          assert keep(s[0]) || keep(s[k + 1]);
        }
        var rest := Filter(tail, keep);
        FilterCounts(tail, keep);
        assert multiset(rest) == multiset(tail);
        assert |rest| == |multiset(rest)| == |multiset(tail)| == |tail|;
      }
    }
  }

  /** The first row satisfying `wanted`, as a query with LIMIT 1 returns it. */
  function FindFirst<T(==,!new)>(s: seq<T>, wanted: T -> bool): (r: Option<T>)
    ensures r.None? <==> forall x :: x in s ==> !wanted(x)
    ensures r.Some? ==> r.value in s && wanted(r.value)
  {
    if s == [] then None
    else if wanted(s[0]) then Some(s[0])
    else
      assert s == [s[0]] + s[1..];
      FindFirst(s[1..], wanted)
  }

  /** `s` with `x` placed before the first row whose key exceeds `x`'s: where a row lands in rowid order. */
  function InsertByKey<T(==,!new)>(s: seq<T>, x: T, key: T -> int): (r: seq<T>)
    ensures |r| == |s| + 1
    ensures forall y :: y in r <==> y == x || y in s
    ensures (forall y :: y in s ==> key(y) < key(x)) ==> r == s + [x]
  {
    if s == [] || key(x) < key(s[0]) then [x] + s
    else
      assert s == [s[0]] + s[1..];
      [s[0]] + InsertByKey(s[1..], x, key)
  }

  /** Dropping the first row keeps the pairwise relation. */
  lemma TailPairwise<T>(s: seq<T>, related: (T, T) -> bool)
    requires s != [] && Pairwise(s, related)
    ensures Pairwise(s[1..], related)
    ensures forall y :: y in s[1..] ==> related(s[0], y)
  {
    var tail := s[1..];
    forall i, j | 0 <= i < j < |tail| ensures related(tail[i], tail[j]) {
      assert tail[i] == s[i + 1] && tail[j] == s[j + 1];
    }
    forall y | y in tail ensures related(s[0], y) {
      var k :| 0 <= k < |tail| && tail[k] == y;
      assert s[k + 1] == y;
    }
  }

  /** A row related to every row of a pairwise-related table can go in front of it. */
  lemma PrependPairwise<T>(x: T, s: seq<T>, related: (T, T) -> bool)
    requires Pairwise(s, related)
    requires forall y :: y in s ==> related(x, y)
    ensures Pairwise([x] + s, related)
  {
    var r := [x] + s;
    forall i, j | 0 <= i < j < |r| ensures related(r[i], r[j]) {
      assert r[j] == s[j - 1] && r[j] in s;
      if i > 0 {
        assert r[i] == s[i - 1];
      }
    }
  }

  /** Placing a row by key keeps the table's pairwise order, provided the row relates to every
      other row on the side its key puts it. */
  lemma {:induction false} InsertByKeyPairwise<T(!new)>(s: seq<T>, x: T, key: T -> int, related: (T, T) -> bool)
    requires Pairwise(s, related)
    requires forall a, b :: related(a, b) ==> key(a) < key(b)
    requires forall y :: y in s ==> (key(y) < key(x) && related(y, x)) || (key(x) < key(y) && related(x, y))
    ensures Pairwise(InsertByKey(s, x, key), related)
  {
    if s == [] {
      PrependPairwise(x, s, related);
    } else {
      TailPairwise(s, related);
      if key(x) < key(s[0]) {
        forall y | y in s ensures related(x, y) {
          if y != s[0] {
            assert related(s[0], y);
          }
        }
        PrependPairwise(x, s, related);
      } else {
        InsertByKeyPairwise(s[1..], x, key, related);
        var rest := InsertByKey(s[1..], x, key);
        assert related(s[0], x);
        PrependPairwise(s[0], rest, related);
      }
    }
  }
}
