/**
 The membership set behind `useSet`: a replaceable set of ids with
 `has`, `add`, `delete` and `asArray`.
 */
module MembershipSet {

  /** No value occurs twice in `s`. */
  predicate NoDuplicates(s: seq<int>) {
    forall i, j :: 0 <= i < j < |s| ==> s[i] != s[j]
  }

  lemma NonEmptyHasMember(s: set<int>)
    requires s != {}
    ensures exists y :: y in s
  {
    if forall y :: y !in s {
      assert false;
    }
  }

  class IdSet {
    var members: set<int>

    /** `new Set(initialMembers)`: duplicates collapse, an empty input gives an empty set. */
    constructor (initialMembers: seq<int>)
      ensures members == set m | m in initialMembers
    {
      members := set m | m in initialMembers;
    }

    function Has(m: int): (r: bool)
      reads this
      ensures r <==> m in members
    {
      m in members
    }

    /** Adding a present member keeps the set; a new member grows it by one. */
    method Add(m: int)
      modifies this
      ensures members == old(members) + {m}
      ensures m in old(members) ==> members == old(members)
      ensures m !in old(members) ==> |members| == |old(members)| + 1
    {
      if m in members {
        return;
      }
      members := members + {m};
    }

    /** Deleting an absent member keeps the set; a present one shrinks it by one. */
    method Delete(m: int)
      modifies this
      ensures members == old(members) - {m}
      ensures m !in old(members) ==> members == old(members)
      ensures m in old(members) ==> |members| == |old(members)| - 1
    {
      if m !in members {
        return;
      }
      members := members - {m};
    }

    /** `Array.from(set)`: every member exactly once, in some order. */
    method AsArray() returns (r: seq<int>)
      ensures NoDuplicates(r)
      ensures forall m :: m in r <==> m in members
      ensures |r| == |members|
    {
      r := [];
      var rest := members;
      while rest != {}
        invariant rest <= members
        invariant NoDuplicates(r)
        invariant forall m :: m in r <==> m in members - rest
        invariant |r| + |rest| == |members|
        decreases |rest|
      {
        NonEmptyHasMember(rest);
        var x :| x in rest;
        assert x !in r;
        r := r + [x];
        rest := rest - {x};
      }
    }
  }
}
