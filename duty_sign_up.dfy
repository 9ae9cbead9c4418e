/**
 The assignment engine of the sign-up screen (`useDuties` and the two click
 handlers): the catalog sorted by start, its partition into assigned and
 unassigned duties by the set of assigned ids, the warnings of the unassigned
 duties, and the guarded assign / unconditional unassign.
 */
module DutySignUp {
  import opened Duties
  import opened MembershipSet

  // ---------------------------------------------------------------------
  // Ids

  /** The ids of the duties in `s`. */
  function Ids(s: seq<Duty>): set<int> {
    set d | d in s :: d.id
  }

  lemma IdsCons(s: seq<Duty>)
    requires s != []
    ensures Ids(s) == {s[0].id} + Ids(s[1..])
    ensures forall e | e in s[1..] :: e in s
  {
    assert s == [s[0]] + s[1..];
  }

  /** No duty in `s` carries the id `id`. */
  predicate IdFree(id: int, s: seq<Duty>) {
    forall d | d in s :: d.id != id
  }

  /** Every duty in `s` has an id of its own. */
  predicate DistinctIds(s: seq<Duty>)
    decreases |s|
  {
    s == [] || (IdFree(s[0].id, s[1..]) && DistinctIds(s[1..]))
  }

  // ---------------------------------------------------------------------
  // `sortBy(duties, duty => duty.start)`, a stable sort

  predicate SortedByStart(s: seq<Duty>) {
    forall i, j :: 0 <= i < j < |s| ==> s[i].start <= s[j].start
  }

  /** Puts `x` before the first duty of `s` that starts no earlier than it. */
  function Insert(x: Duty, s: seq<Duty>): seq<Duty>
    decreases |s|
  {
    if s == [] || x.start <= s[0].start then [x] + s
    else [s[0]] + Insert(x, s[1..])
  }

  /** The catalog in chronological order (insertion sort, stable like lodash `sortBy`). */
  function SortByStart(s: seq<Duty>): seq<Duty>
    decreases |s|
  {
    if s == [] then [] else Insert(s[0], SortByStart(s[1..]))
  }

  /** Every duty of `r` is a duty of `s` when `r` is a permutation of `s` plus `extra`. */
  lemma MembersOfPermutation(r: seq<Duty>, s: seq<Duty>, extra: multiset<Duty>)
    requires multiset(r) == multiset(s) + extra
    ensures forall e | e in r :: e in s || e in extra
  {
    forall e | e in r ensures e in s || e in extra {
      assert e in multiset(r);
    }
  }

  lemma {:induction false} InsertPermutes(x: Duty, s: seq<Duty>)
    ensures multiset(Insert(x, s)) == multiset(s) + multiset{x}
    decreases |s|
  {
    if !(s == [] || x.start <= s[0].start) {
      var y, t := s[0], s[1..];
      assert s == [y] + t;
      InsertPermutes(x, t);
      assert multiset([y] + Insert(x, t)) == multiset{y} + multiset(Insert(x, t));
    }
  }

  /** A duty that starts no later than every duty of a sorted list can go in front of it. */
  lemma ConsSorted(x: Duty, s: seq<Duty>)
    requires SortedByStart(s)
    requires forall e | e in s :: x.start <= e.start
    ensures SortedByStart([x] + s)
  {
    var r := [x] + s;
    forall i, j | 0 <= i < j < |r| ensures r[i].start <= r[j].start {
      assert r[j] == s[j - 1] && r[j] in s;
      if i > 0 {
        assert r[i] == s[i - 1];
      }
    }
  }

  /** In a sorted list every duty starts no earlier than the first. */
  lemma HeadStartsFirst(s: seq<Duty>)
    requires SortedByStart(s) && s != []
    ensures forall e | e in s :: s[0].start <= e.start
  {
    forall e | e in s ensures s[0].start <= e.start {
      var k :| 0 <= k < |s| && s[k] == e;
    }
  }

  lemma {:induction false} InsertSorted(x: Duty, s: seq<Duty>)
    requires SortedByStart(s)
    ensures SortedByStart(Insert(x, s))
    decreases |s|
  {
    if s == [] || x.start <= s[0].start {
      if s != [] {
        HeadStartsFirst(s);
      }
      ConsSorted(x, s);
    } else {
      var y, t := s[0], s[1..];
      assert SortedByStart(t);
      HeadStartsFirst(s);
      InsertSorted(x, t);
      InsertPermutes(x, t);
      MembersOfPermutation(Insert(x, t), t, multiset{x});
      assert forall e | e in t :: e in s;
      ConsSorted(y, Insert(x, t));
    }
  }

  /** The sorted view is ascending by start. */
  lemma {:induction false} SortByStartSorted(s: seq<Duty>)
    ensures SortedByStart(SortByStart(s))
    decreases |s|
  {
    if s != [] {
      SortByStartSorted(s[1..]);
      InsertSorted(s[0], SortByStart(s[1..]));
    }
  }

  /** The sorted view is a permutation of the catalog. */
  lemma {:induction false} SortByStartPermutes(s: seq<Duty>)
    ensures multiset(SortByStart(s)) == multiset(s)
    decreases |s|
  {
    if s != [] {
      SortByStartPermutes(s[1..]);
      InsertPermutes(s[0], SortByStart(s[1..]));
      assert s == [s[0]] + s[1..];
    }
  }

  lemma {:induction false} InsertKeepsDistinctIds(x: Duty, s: seq<Duty>)
    requires DistinctIds(s) && IdFree(x.id, s)
    ensures DistinctIds(Insert(x, s))
    decreases |s|
  {
    if s == [] || x.start <= s[0].start {
      assert ([x] + s)[1..] == s;
    } else {
      var r := Insert(x, s);
      assert s[0] in s;
      assert forall e | e in s[1..] :: e in s;
      InsertKeepsDistinctIds(x, s[1..]);
      assert r[0] == s[0] && r[1..] == Insert(x, s[1..]);
      InsertPermutes(x, s[1..]);
      MembersOfPermutation(r[1..], s[1..], multiset{x});
    }
  }

  /** Sorting keeps the ids distinct. */
  lemma {:induction false} SortByStartKeepsDistinctIds(s: seq<Duty>)
    requires DistinctIds(s)
    ensures DistinctIds(SortByStart(s))
    decreases |s|
  {
    if s != [] {
      var rest := SortByStart(s[1..]);
      SortByStartKeepsDistinctIds(s[1..]);
      SortByStartPermutes(s[1..]);
      MembersOfPermutation(rest, s[1..], multiset{});
      InsertKeepsDistinctIds(s[0], rest);
    }
  }

  /** The duties of `s` that start at `t`, in the order of `s`. */
  function WithStart(s: seq<Duty>, t: int): seq<Duty>
    decreases |s|
  {
    if s == [] then []
    else if s[0].start == t then [s[0]] + WithStart(s[1..], t)
    else WithStart(s[1..], t)
  }

  lemma {:induction false} InsertWithStart(x: Duty, s: seq<Duty>, t: int)
    ensures WithStart(Insert(x, s), t) == (if x.start == t then [x] else []) + WithStart(s, t)
    decreases |s|
  {
    if s == [] || x.start <= s[0].start {
      var r := [x] + s;
      assert r[1..] == s;
    } else {
      var r := Insert(x, s);
      assert r[0] == s[0] && r[1..] == Insert(x, s[1..]);
      InsertWithStart(x, s[1..], t);
    }
  }

  /** The sort is stable: duties with equal starts keep their input order. */
  lemma {:induction false} SortByStartStable(s: seq<Duty>, t: int)
    ensures WithStart(SortByStart(s), t) == WithStart(s, t)
    decreases |s|
  {
    if s != [] {
      SortByStartStable(s[1..], t);
      InsertWithStart(s[0], SortByStart(s[1..]), t);
    }
  }

  // ---------------------------------------------------------------------
  // `partition(sortedDuties, duty => assignedIds.has(duty.id))`

  /** `a` is `b` with some elements left out, the rest kept in order. */
  predicate IsSubsequence(a: seq<Duty>, b: seq<Duty>)
    decreases |b|
  {
    a == [] || (b != [] && ((a[0] == b[0] && IsSubsequence(a[1..], b[1..])) || IsSubsequence(a, b[1..])))
  }

  /** Splits `s` into the duties whose id is in `ids` and the others. */
  function Partition(s: seq<Duty>, ids: set<int>): (seq<Duty>, seq<Duty>)
    decreases |s|
  {
    if s == [] then ([], [])
    else
      var rest := Partition(s[1..], ids);
      if s[0].id in ids then ([s[0]] + rest.0, rest.1) else (rest.0, [s[0]] + rest.1)
  }

  /** The assigned side holds only selected ids, the unassigned side only the others. */
  lemma {:induction false} PartitionSelects(s: seq<Duty>, ids: set<int>)
    ensures forall d | d in Partition(s, ids).0 :: d.id in ids
    ensures forall d | d in Partition(s, ids).1 :: d.id !in ids
    decreases |s|
  {
    if s != [] {
      PartitionSelects(s[1..], ids);
    }
  }

  /** Together the two sides are a permutation of `s`. */
  lemma {:induction false} PartitionPermutes(s: seq<Duty>, ids: set<int>)
    ensures multiset(Partition(s, ids).0) + multiset(Partition(s, ids).1) == multiset(s)
    decreases |s|
  {
    if s != [] {
      var x, t := s[0], s[1..];
      var rest := Partition(t, ids);
      PartitionPermutes(t, ids);
      assert s == [x] + t;
      assert multiset(s) == multiset{x} + multiset(t);
      if x.id in ids {
        assert Partition(s, ids) == ([x] + rest.0, rest.1);
        assert multiset([x] + rest.0) == multiset{x} + multiset(rest.0);
      } else {
        assert Partition(s, ids) == (rest.0, [x] + rest.1);
        assert multiset([x] + rest.1) == multiset{x} + multiset(rest.1);
      }
    }
  }

  /** Each side keeps the order of `s`. */
  lemma {:induction false} PartitionKeepsOrder(s: seq<Duty>, ids: set<int>)
    ensures IsSubsequence(Partition(s, ids).0, s) && IsSubsequence(Partition(s, ids).1, s)
    decreases |s|
  {
    if s != [] {
      var rest := Partition(s[1..], ids);
      PartitionKeepsOrder(s[1..], ids);
      if s[0].id in ids {
        assert ([s[0]] + rest.0)[1..] == rest.0;
      } else {
        assert ([s[0]] + rest.1)[1..] == rest.1;
      }
    }
  }

  /** The two sides select by id, together are a permutation of `s`, and each keeps the order of `s`. */
  lemma PartitionSpec(s: seq<Duty>, ids: set<int>)
    ensures forall d | d in Partition(s, ids).0 :: d.id in ids
    ensures forall d | d in Partition(s, ids).1 :: d.id !in ids
    ensures multiset(Partition(s, ids).0) + multiset(Partition(s, ids).1) == multiset(s)
    ensures IsSubsequence(Partition(s, ids).0, s) && IsSubsequence(Partition(s, ids).1, s)
  {
    PartitionSelects(s, ids);
    PartitionPermutes(s, ids);
    PartitionKeepsOrder(s, ids);
  }

  /** Both sides hold only duties of `s`. */
  lemma PartitionMembers(s: seq<Duty>, ids: set<int>)
    ensures forall e | e in Partition(s, ids).0 :: e in s
    ensures forall e | e in Partition(s, ids).1 :: e in s
  {
    var r := Partition(s, ids);
    PartitionPermutes(s, ids);
    forall e | e in r.0 || e in r.1 ensures e in s {
      assert e in multiset(r.0) + multiset(r.1);
    }
  }

  /** Every duty of `s` lands on the side its id selects. */
  lemma PartitionSides(s: seq<Duty>, ids: set<int>)
    ensures forall d | d in s :: (d in Partition(s, ids).0 <==> d.id in ids)
    ensures forall d | d in s :: (d in Partition(s, ids).1 <==> d.id !in ids)
  {
    var r := Partition(s, ids);
    PartitionSelects(s, ids);
    PartitionPermutes(s, ids);
    forall d | d in s ensures d in r.0 || d in r.1 {
      assert d in multiset(s);
    }
  }

  /** Both sides of the partition keep the ids distinct. */
  lemma {:induction false} PartitionKeepsDistinctIds(s: seq<Duty>, ids: set<int>)
    requires DistinctIds(s)
    ensures DistinctIds(Partition(s, ids).0) && DistinctIds(Partition(s, ids).1)
    decreases |s|
  {
    if s != [] {
      var rest := Partition(s[1..], ids);
      PartitionKeepsDistinctIds(s[1..], ids);
      PartitionMembers(s[1..], ids);
      if s[0].id in ids {
        assert ([s[0]] + rest.0)[1..] == rest.0;
      } else {
        assert ([s[0]] + rest.1)[1..] == rest.1;
      }
    }
  }

  /** With no catalog id in the set, nothing is assigned and everything is unassigned. */
  lemma {:induction false} PartitionNothingAssigned(s: seq<Duty>, ids: set<int>)
    requires forall d | d in s :: d.id !in ids
    ensures Partition(s, ids) == ([], s)
    decreases |s|
  {
    if s != [] {
      assert s[0] in s;
      assert forall d | d in s[1..] :: d in s;
      PartitionNothingAssigned(s[1..], ids);
      assert s == [s[0]] + s[1..];
    }
  }

  /** An id that no duty of `s` carries does not change the partition. */
  lemma {:induction false} PartitionIgnoresFreeId(s: seq<Duty>, ids: set<int>, x: int)
    requires IdFree(x, s)
    ensures Partition(s, ids + {x}) == Partition(s, ids)
    decreases |s|
  {
    if s != [] {
      assert s[0] in s;
      assert forall d | d in s[1..] :: d in s;
      PartitionIgnoresFreeId(s[1..], ids, x);
    }
  }

  /** Adding `d.id` moves `d` from the unassigned side to the assigned one and changes nothing else. */
  ghost predicate MovesOne(s: seq<Duty>, ids: set<int>, d: Duty) {
    && multiset(Partition(s, ids + {d.id}).0) == multiset(Partition(s, ids).0) + multiset{d}
    && multiset(Partition(s, ids + {d.id}).1) + multiset{d} == multiset(Partition(s, ids).1)
  }

  /** The step of `PartitionAddId` where `d` heads the list. */
  lemma MovesOneAtHead(s: seq<Duty>, ids: set<int>, d: Duty)
    requires s != [] && s[0] == d && d.id !in ids
    requires Partition(s[1..], ids + {d.id}) == Partition(s[1..], ids)
    ensures MovesOne(s, ids, d)
  {
    var rest := Partition(s[1..], ids);
    assert Partition(s, ids) == (rest.0, [d] + rest.1);
    assert Partition(s, ids + {d.id}) == ([d] + rest.0, rest.1);
  }

  /** The step of `PartitionAddId` where another duty heads the list. */
  lemma MovesOneBehindHead(s: seq<Duty>, ids: set<int>, d: Duty)
    requires s != [] && s[0].id != d.id
    requires MovesOne(s[1..], ids, d)
    ensures MovesOne(s, ids, d)
  {
    var x := s[0];
    var before, after := Partition(s[1..], ids), Partition(s[1..], ids + {d.id});
    if x.id in ids {
      assert Partition(s, ids) == ([x] + before.0, before.1);
      assert Partition(s, ids + {d.id}) == ([x] + after.0, after.1);
    } else {
      assert Partition(s, ids) == (before.0, [x] + before.1);
      assert Partition(s, ids + {d.id}) == (after.0, [x] + after.1);
    }
  }

  /** The multiset bookkeeping behind `AssignMovesExactlyOne`, by induction on `s`. */
  lemma {:induction false} PartitionAddId(s: seq<Duty>, ids: set<int>, d: Duty)
    requires DistinctIds(s) && d in s && d.id !in ids
    ensures MovesOne(s, ids, d)
    decreases |s|
  {
    assert IdFree(s[0].id, s[1..]) && DistinctIds(s[1..]);
    if s[0] == d {
      PartitionIgnoresFreeId(s[1..], ids, d.id);
      MovesOneAtHead(s, ids, d);
    } else {
      assert d in s[1..];
      PartitionAddId(s[1..], ids, d);
      MovesOneBehindHead(s, ids, d);
    }
  }

  /** Adding the id of one unassigned duty moves exactly that duty to the assigned side. */
  lemma AssignMovesExactlyOne(s: seq<Duty>, ids: set<int>, d: Duty)
    requires DistinctIds(s) && d in s && d.id !in ids
    ensures d in Partition(s, ids).1 && d in Partition(s, ids + {d.id}).0
    ensures d !in Partition(s, ids).0 && d !in Partition(s, ids + {d.id}).1
    ensures multiset(Partition(s, ids + {d.id}).0) == multiset(Partition(s, ids).0) + multiset{d}
    ensures multiset(Partition(s, ids + {d.id}).1) + multiset{d} == multiset(Partition(s, ids).1)
    ensures |Partition(s, ids + {d.id}).0| == |Partition(s, ids).0| + 1
    ensures |Partition(s, ids + {d.id}).1| == |Partition(s, ids).1| - 1
  {
    PartitionAddId(s, ids, d);
    PartitionSides(s, ids);
    PartitionSides(s, ids + {d.id});
    var before, after := Partition(s, ids), Partition(s, ids + {d.id});
    assert |multiset(after.0)| == |multiset(before.0)| + 1;
    assert |multiset(after.1)| + 1 == |multiset(before.1)|;
  }

  /** Removing the id of one assigned duty moves exactly that duty back to the unassigned side. */
  lemma UnassignMovesExactlyOne(s: seq<Duty>, ids: set<int>, d: Duty)
    requires DistinctIds(s) && d in s && d.id in ids
    ensures d in Partition(s, ids).0 && d in Partition(s, ids - {d.id}).1
    ensures d !in Partition(s, ids - {d.id}).0
    ensures multiset(Partition(s, ids - {d.id}).0) + multiset{d} == multiset(Partition(s, ids).0)
    ensures multiset(Partition(s, ids - {d.id}).1) == multiset(Partition(s, ids).1) + multiset{d}
    ensures |Partition(s, ids - {d.id}).0| == |Partition(s, ids).0| - 1
    ensures |Partition(s, ids - {d.id}).1| == |Partition(s, ids).1| + 1
  {
    AssignMovesExactlyOne(s, ids - {d.id}, d);
    assert (ids - {d.id}) + {d.id} == ids;
  }

  // ---------------------------------------------------------------------
  // `new Map(unassignedDuties.map(duty => [duty.id, findWarning(...)]))`

  /** The warning of every unassigned duty, keyed by id; a later entry with the same id wins. */
  function WarningsMap(unassigned: seq<Duty>, assignedDuties: seq<Duty>): (m: map<int, Option<Warning>>)
    ensures m.Keys == Ids(unassigned)
    ensures forall k | k in m :: exists d | d in unassigned :: d.id == k && m[k] == FirstWarning(d, assignedDuties)
    decreases |unassigned|
  {
    if unassigned == [] then map[]
    else
      var d := unassigned[0];
      IdsCons(unassigned);
      map[d.id := FirstWarning(d, assignedDuties)] + WarningsMap(unassigned[1..], assignedDuties)
  }

  /** With distinct ids, each unassigned duty's entry is its own warning. */
  lemma {:induction false} WarningsMapAt(unassigned: seq<Duty>, assignedDuties: seq<Duty>, d: Duty)
    requires DistinctIds(unassigned) && d in unassigned
    ensures d.id in WarningsMap(unassigned, assignedDuties)
    ensures WarningsMap(unassigned, assignedDuties)[d.id] == FirstWarning(d, assignedDuties)
    decreases |unassigned|
  {
    if unassigned[0] != d {
      assert d in unassigned[1..];
      WarningsMapAt(unassigned[1..], assignedDuties, d);
    } else {
      assert d.id !in Ids(unassigned[1..]);
    }
  }

  /** Assigned duties never have an entry in the warnings map, so their cards show none. */
  lemma AssignedHaveNoWarning(s: seq<Duty>, ids: set<int>, d: Duty)
    requires d in Partition(s, ids).0
    ensures d.id !in WarningsMap(Partition(s, ids).1, Partition(s, ids).0)
  {
    PartitionSelects(s, ids);
  }

  // ---------------------------------------------------------------------
  // The state returned by `useDuties` and the click handlers of `DutySignUp`

  const AlertPrefix: string := "You can't sign up for this duty. "

  class Assignments {
    /** `sortedDuties`: the catalog by start; it never changes. */
    const sorted: seq<Duty>
    /** `assignedIds`: the ids the user has signed up for. */
    const assignedIds: IdSet

    /** The sorted catalog: ascending by start, distinct ids, well-formed intervals. */
    ghost predicate Valid() {
      && SortedByStart(sorted)
      && DistinctIds(sorted)
      && forall d | d in sorted :: ValidDuty(d)
    }

    /** Every assigned id is the id of a catalog duty. */
    ghost predicate IdsFromCatalog()
      reads assignedIds
    {
      assignedIds.members <= Ids(sorted)
    }

    /** `useDuties(duties)` on first render: nothing assigned yet. */
    constructor (duties: seq<Duty>)
      requires DistinctIds(duties)
      requires forall d | d in duties :: ValidDuty(d)
      ensures Valid() && IdsFromCatalog() && fresh(assignedIds)
      ensures sorted == SortByStart(duties)
      ensures assignedIds.members == {}
      ensures Assigned() == [] && Unassigned() == sorted
    {
      sorted := SortByStart(duties);
      assignedIds := new IdSet([]);
      new;
      SortByStartSorted(duties);
      SortByStartKeepsDistinctIds(duties);
      SortByStartPermutes(duties);
      MembersOfPermutation(sorted, duties, multiset{});
      PartitionNothingAssigned(sorted, assignedIds.members);
    }

    function Assigned(): seq<Duty>
      reads assignedIds
    {
      Partition(sorted, assignedIds.members).0
    }

    function Unassigned(): seq<Duty>
      reads assignedIds
    {
      Partition(sorted, assignedIds.members).1
    }

    function Warnings(): map<int, Option<Warning>>
      reads assignedIds
    {
      WarningsMap(Unassigned(), Assigned())
    }

    /** `duties.warnings.get(id) ?? null` */
    function WarningOf(id: int): Option<Warning>
      reads assignedIds
    {
      if id in Warnings() then Warnings()[id] else None
    }

    /** `assign(id)`: no check of its own, that is the caller's business. */
    method Assign(id: int)
      modifies assignedIds
      ensures assignedIds.members == old(assignedIds.members) + {id}
    {
      assignedIds.Add(id);
    }

    /** `unassign(id)`: always succeeds, a no-op for an id not assigned. */
    method Unassign(id: int)
      modifies assignedIds
      ensures assignedIds.members == old(assignedIds.members) - {id}
    {
      assignedIds.Delete(id);
    }

    /** Clicking an unassigned card: alerts when the duty has a warning, assigns it otherwise. */
    method ClickUnassigned(d: Duty) returns (alert: Option<string>)
      requires Valid() && d in Unassigned()
      modifies assignedIds
      ensures alert.Some? <==> old(FirstWarning(d, Assigned())).Some?
      ensures alert.Some? ==> alert.value == AlertPrefix + WarningText(old(FirstWarning(d, Assigned())).value)
      ensures alert.Some? ==> assignedIds.members == old(assignedIds.members)
      ensures alert.None? ==> assignedIds.members == old(assignedIds.members) + {d.id}
      ensures alert.None? ==> d in Assigned() && d !in Unassigned()
      ensures alert.None? ==> multiset(Assigned()) == old(multiset(Assigned())) + multiset{d}
      ensures alert.None? ==> multiset(Unassigned()) + multiset{d} == old(multiset(Unassigned()))
      ensures alert.None? ==> |Assigned()| == old(|Assigned()|) + 1 && |Unassigned()| == old(|Unassigned()|) - 1
      ensures assignedIds.members - old(assignedIds.members) <= Ids(sorted)
      ensures old(IdsFromCatalog()) ==> IdsFromCatalog()
    {
      ghost var ids := assignedIds.members;
      PartitionKeepsDistinctIds(sorted, ids);
      PartitionMembers(sorted, ids);
      PartitionSelects(sorted, ids);
      WarningsMapAt(Unassigned(), Assigned(), d);
      assert d in sorted && d.id !in ids;
      var warning := WarningOf(d.id);
      assert warning == FirstWarning(d, Assigned());
      if warning.Some? {
        alert := Some(AlertPrefix + WarningText(warning.value));
      } else {
        AssignMovesExactlyOne(sorted, ids, d);
        Assign(d.id);
        assert assignedIds.members == ids + {d.id};
        alert := None;
      }
    }

    /** Clicking an assigned card always unassigns the duty. */
    method ClickAssigned(d: Duty)
      requires Valid() && d in Assigned()
      modifies assignedIds
      ensures assignedIds.members == old(assignedIds.members) - {d.id}
      ensures d in Unassigned() && d !in Assigned()
      ensures multiset(Assigned()) + multiset{d} == old(multiset(Assigned()))
      ensures multiset(Unassigned()) == old(multiset(Unassigned())) + multiset{d}
      ensures |Assigned()| == old(|Assigned()|) - 1 && |Unassigned()| == old(|Unassigned()|) + 1
      ensures old(IdsFromCatalog()) ==> IdsFromCatalog()
    {
      PartitionMembers(sorted, assignedIds.members);
      PartitionSelects(sorted, assignedIds.members);
      UnassignMovesExactlyOne(sorted, assignedIds.members, d);
      Unassign(d.id);
    }
  }

  /** Signing up for a free duty and then clicking it again restores every view. */
  method AssignThenUnassign(e: Assignments, d: Duty)
    requires e.Valid() && d in e.Unassigned() && FirstWarning(d, e.Assigned()).None?
    modifies e.assignedIds
    ensures e.assignedIds.members == old(e.assignedIds.members)
    ensures e.Assigned() == old(e.Assigned()) && e.Unassigned() == old(e.Unassigned())
    ensures e.Warnings() == old(e.Warnings())
  {
    PartitionSelects(e.sorted, e.assignedIds.members);
    var alert := e.ClickUnassigned(d);
    e.ClickAssigned(d);
  }
}
