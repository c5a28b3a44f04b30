/** Lists without duplicates, and sizes of sets. */
module Collections {
  ghost predicate NoDup<A>(s: seq<A>) {
    forall i, j | 0 <= i < j < |s| :: s[i] != s[j]
  }

  /** A list without the first place of `x`. */
  function Without<A(==)>(s: seq<A>, x: A): (r: seq<A>) {
    if s == [] then [] else if s[0] == x then s[1..] else [s[0]] + Without(s[1..], x)
  }

  lemma {:induction false} WithoutMember<A>(s: seq<A>, x: A)
    requires NoDup(s)
    ensures NoDup(Without(s, x)) && forall y :: y in Without(s, x) <==> y in s && y != x
  {
    if s == [] {
    } else {
      var rest := s[1..];
      assert forall y :: y in s <==> y == s[0] || y in rest;
      assert forall i | 0 <= i < |rest| :: rest[i] == s[i + 1];
      assert s[0] !in rest;
      WithoutMember(rest, x);
    }
  }

  lemma {:induction false} SubsetSize<A>(a: set<A>, b: set<A>)
    requires a <= b
    ensures |a| <= |b|
  {
    if a == {} {
    } else {
      var x :| x in a;
      SubsetSize(a - {x}, b - {x});
    }
  }
}
