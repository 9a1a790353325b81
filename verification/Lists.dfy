/** Lists without repetition: an entry is added at the end and removed wherever it is. */
module Lists {

  predicate Distinct(s: seq<nat>) {
    s == [] || (s[0] !in s[1..] && Distinct(s[1..]))
  }

  function Remove(s: seq<nat>, p: nat): seq<nat> {
    if s == [] then [] else if s[0] == p then s[1..] else [s[0]] + Remove(s[1..], p)
  }

  lemma {:induction false} RemoveMembers(s: seq<nat>, p: nat)
    requires Distinct(s)
    ensures Distinct(Remove(s, p)) && (forall q :: q in Remove(s, p) <==> q in s && q != p)
  {
    if s != [] {
      RemoveMembers(s[1..], p);
      if s[0] != p {
        assert Remove(s, p)[1..] == Remove(s[1..], p);
      }
      assert forall q :: q in s <==> q == s[0] || q in s[1..];
    }
  }

  lemma {:induction false} AppendDistinct(s: seq<nat>, p: nat)
    requires Distinct(s) && p !in s
    ensures Distinct(s + [p])
  {
    if s != [] {
      AppendDistinct(s[1..], p);
      assert (s + [p])[1..] == s[1..] + [p];
    }
  }
}
