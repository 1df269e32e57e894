// Keeping one row per key out of a stream of dated arrivals. The latest-metric upsert replaces
// a row only by strictly better evidence; the container upsert also replaces it on a tie.
module MergeOrder {
  import opened Wrappers

  datatype Rank = Rank(at: int, quality: int)

  // Later time first, then higher quality.
  predicate Less(a: Rank, b: Rank) {
    a.at < b.at || (a.at == b.at && a.quality < b.quality)
  }

  function Merge<T>(rank: T -> Rank, strict: bool, existing: Option<T>, incoming: T): T {
    match existing
    case None => incoming
    case Some(row) =>
      if Less(rank(row), rank(incoming)) || (!strict && rank(row) == rank(incoming)) then incoming
      else row
  }

  function MergeAll<T>(rank: T -> Rank, strict: bool, existing: Option<T>, arrivals: seq<T>): Option<T> {
    if arrivals == [] then existing else
    Some(Merge(rank, strict, MergeAll(rank, strict, existing, arrivals[..|arrivals| - 1]), arrivals[|arrivals| - 1]))
  }

  // Arrival i carries the lexicographic maximum of all arrivals.
  predicate Best<T>(rank: T -> Rank, arrivals: seq<T>, i: nat) {
    i < |arrivals| && forall j :: 0 <= j < |arrivals| ==> !Less(rank(arrivals[i]), rank(arrivals[j]))
  }

  // The row that remains is the first best arrival under the strict rule, the last otherwise.
  predicate Wins<T>(rank: T -> Rank, strict: bool, arrivals: seq<T>, i: nat) {
    && Best(rank, arrivals, i)
    && forall j :: 0 <= j < |arrivals| && Best(rank, arrivals, j) ==> if strict then i <= j else j <= i
  }

  lemma {:induction false} RemainingRow<T>(rank: T -> Rank, strict: bool, arrivals: seq<T>) returns (i: nat)
    requires arrivals != []
    ensures Wins(rank, strict, arrivals, i)
    ensures MergeAll(rank, strict, None, arrivals) == Some(arrivals[i])
  {
    var n := |arrivals| - 1;
    var before := arrivals[..n];
    if before == [] {
      i := 0;
    } else {
      var k := RemainingRow(rank, strict, before);
      assert MergeAll(rank, strict, None, before) == Some(arrivals[k]);
      assert forall j :: 0 <= j < n ==> before[j] == arrivals[j];
      var replaced := Less(rank(arrivals[k]), rank(arrivals[n]))
                   || (!strict && rank(arrivals[k]) == rank(arrivals[n]));
      i := if replaced then n else k;
      assert Best(rank, arrivals, i);
      forall j | 0 <= j < |arrivals| && Best(rank, arrivals, j)
        ensures if strict then i <= j else j <= i
      {
        if j < n { assert !Less(rank(arrivals[j]), rank(arrivals[k])); assert Best(rank, before, j); }
      }
    }
  }

  // A row already present behaves like a first arrival.
  lemma {:induction false} ExistingIsFirstArrival<T>(rank: T -> Rank, strict: bool, row: T, arrivals: seq<T>)
    ensures MergeAll(rank, strict, Some(row), arrivals) == MergeAll(rank, strict, None, [row] + arrivals)
  {
    var n := |arrivals|;
    if n > 0 {
      ExistingIsFirstArrival(rank, strict, row, arrivals[..n - 1]);
      assert ([row] + arrivals)[..n] == [row] + arrivals[..n - 1];
    } else {
      assert ([row] + arrivals)[..0] == [];
    }
  }

  lemma {:induction false} MergeAllSplits<T>(rank: T -> Rank, strict: bool, existing: Option<T>, a: seq<T>, b: seq<T>)
    ensures MergeAll(rank, strict, existing, a + b)
         == MergeAll(rank, strict, MergeAll(rank, strict, existing, a), b)
  {
    if b == [] {
      assert a + b == a;
    } else {
      MergeAllSplits(rank, strict, existing, a, b[..|b| - 1]);
      assert (a + b)[..|a + b| - 1] == a + b[..|b| - 1];
    }
  }

  // Only the best arrivals matter to the outcome, so only they have to agree.
  predicate TiesAgree<T(==)>(rank: T -> Rank, arrivals: seq<T>) {
    forall i, j | 0 <= i < |arrivals| && 0 <= j < |arrivals| ::
      Best(rank, arrivals, i) && Best(rank, arrivals, j) ==> arrivals[i] == arrivals[j]
  }

  ghost predicate OrderIndependent<T(!new)>(rank: T -> Rank, strict: bool, arrivals: seq<T>) {
    forall other: seq<T> :: multiset(other) == multiset(arrivals) ==>
      MergeAll(rank, strict, None, other) == MergeAll(rank, strict, None, arrivals)
  }

  lemma SameElements<T>(a: seq<T>, b: seq<T>, i: nat) returns (j: nat)
    requires multiset(a) == multiset(b) && i < |a|
    ensures j < |b| && b[j] == a[i]
  {
    assert a[i] in multiset(a);
    assert a[i] in b;
    j :| j < |b| && b[j] == a[i];
  }

  lemma BestInAnyOrder<T>(rank: T -> Rank, a: seq<T>, b: seq<T>, i: nat, j: nat)
    requires multiset(a) == multiset(b) && Best(rank, a, i) && j < |b| && b[j] == a[i]
    ensures Best(rank, b, j)
  {
    forall k | 0 <= k < |b| ensures !Less(rank(b[j]), rank(b[k])) {
      var m := SameElements(b, a, k);
    }
  }

  // The maximum itself never depends on the order.
  lemma MaximumIsOrderIndependent<T>(rank: T -> Rank, strict: bool, a: seq<T>, b: seq<T>)
    requires multiset(a) == multiset(b) && a != []
    ensures b != []
    ensures rank(MergeAll(rank, strict, None, a).value) == rank(MergeAll(rank, strict, None, b).value)
  {
    var i := RemainingRow(rank, strict, a);
    var k := SameElements(a, b, i);
    BestInAnyOrder(rank, a, b, i, k);
    var j := RemainingRow(rank, strict, b);
  }

  // Brings arrival i to the front or to the back.
  function MoveTo<T>(arrivals: seq<T>, i: nat, front: bool): seq<T>
    requires i < |arrivals|
  {
    var rest := arrivals[..i] + arrivals[i + 1..];
    if front then [arrivals[i]] + rest else rest + [arrivals[i]]
  }

  lemma MoveToPermutes<T>(arrivals: seq<T>, i: nat, front: bool)
    requires i < |arrivals|
    ensures multiset(MoveTo(arrivals, i, front)) == multiset(arrivals)
  {
    assert arrivals == arrivals[..i] + [arrivals[i]] + arrivals[i + 1..];
  }

  lemma MovedWins<T>(rank: T -> Rank, strict: bool, arrivals: seq<T>, i: nat)
    requires Best(rank, arrivals, i)
    ensures multiset(MoveTo(arrivals, i, strict)) == multiset(arrivals)
    ensures MergeAll(rank, strict, None, MoveTo(arrivals, i, strict)) == Some(arrivals[i])
  {
    var moved := MoveTo(arrivals, i, strict);
    MoveToPermutes(arrivals, i, strict);
    var place := if strict then 0 else |moved| - 1;
    BestInAnyOrder(rank, arrivals, moved, i, place);
    var k := RemainingRow(rank, strict, moved);
    assert k == place;
  }

  // The whole row is independent of the order exactly when the best arrivals are equal.
  lemma OrderIndependentExactlyWhenTiesAgree<T(!new)>(rank: T -> Rank, strict: bool, arrivals: seq<T>)
    requires arrivals != []
    ensures OrderIndependent(rank, strict, arrivals) <==> TiesAgree(rank, arrivals)
  {
    if TiesAgree(rank, arrivals) {
      var i := RemainingRow(rank, strict, arrivals);
      forall other: seq<T> | multiset(other) == multiset(arrivals)
        ensures MergeAll(rank, strict, None, other) == MergeAll(rank, strict, None, arrivals)
      {
        assert |multiset(other)| == |other|;
        var j := RemainingRow(rank, strict, other);
        var k := SameElements(other, arrivals, j);
        BestInAnyOrder(rank, other, arrivals, j, k);
      }
    }
    if OrderIndependent(rank, strict, arrivals) {
      forall i, j | 0 <= i < |arrivals| && 0 <= j < |arrivals|
        && Best(rank, arrivals, i) && Best(rank, arrivals, j)
        ensures arrivals[i] == arrivals[j]
      {
        MovedWins(rank, strict, arrivals, i);
        MovedWins(rank, strict, arrivals, j);
      }
    }
  }
}
