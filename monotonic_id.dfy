/**
 * Version stamps and ballots: a pair (requestId, serverId) ordered
 * lexicographically, with a distinguished Empty identifier that sorts below
 * every real one.
 */
module MonotonicIds {

  datatype MonotonicId = Empty | Id(requestId: int, serverId: int) {

    /** True only of the Empty sentinel. */
    predicate IsEmpty() {
      Empty?
    }

    /**
     * Three-way comparison: negative when this sorts before other, zero when
     * they are the same identifier, positive when this sorts after other.
     */
    function CompareTo(other: MonotonicId): (c: int)
      ensures -1 <= c <= 1
      ensures c == 0 <==> this == other
    {
      match (this, other)
      case (Empty, Empty) => 0
      case (Empty, Id(_, _)) => -1
      case (Id(_, _), Empty) => 1
      case (Id(r1, s1), Id(r2, s2)) =>
        if r1 < r2 then -1
        else if r1 > r2 then 1
        else if s1 < s2 then -1
        else if s1 > s2 then 1
        else 0
    }

    /** Strictly later than other in the order of CompareTo. */
    predicate IsAfter(other: MonotonicId) {
      CompareTo(other) > 0
    }
  }

  /** The Empty identifier is after nothing, and every real identifier is after Empty. */
  lemma EmptyIsBottom(a: MonotonicId)
    ensures !Empty.IsAfter(a)
    ensures a.Id? ==> a.IsAfter(Empty)
  {
  }

  /** CompareTo is antisymmetric and IsAfter is a strict total order: irreflexive, asymmetric, transitive and connected. */
  lemma IsAfterIsStrictTotalOrder(a: MonotonicId, b: MonotonicId, c: MonotonicId)
    ensures a.CompareTo(b) == -b.CompareTo(a)
    ensures !a.IsAfter(a)
    ensures a.IsAfter(b) ==> !b.IsAfter(a)
    ensures a.IsAfter(b) && b.IsAfter(c) ==> a.IsAfter(c)
    ensures a != b ==> a.IsAfter(b) || b.IsAfter(a)
  {
  }
}
