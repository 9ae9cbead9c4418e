/**
 Duties, warnings and the conflict classifier (`findWarning`, `warningText`).
 Timestamps are integers counting milliseconds; an interval overlaps another
 only when they share more than an endpoint.
 */
module Duties {

  /** `Warning | null` of the source; also the alert a click may or may not raise. */
  datatype Option<T> = None | Some(value: T)

  /** One work shift, with its timestamps already parsed. */
  datatype Duty = Duty(id: int, depot: string, name: string, start: int, end: int)

  /** Why an unassigned duty cannot be taken, naming the assigned duty that blocks it. */
  datatype Warning =
    | Conflict(name: string)
    | NoRestAfter(name: string)
    | NoRestBefore(name: string)

  datatype Interval = Interval(start: int, end: int)

  const HourMs: int := 3600000
  const HalfHourMs: int := HourMs / 2
  /** The rest every duty needs on either side: 8 hours. */
  const RestMargin: int := 8 * HourMs

  /** A duty whose interval is well formed: it starts no later than it ends. */
  predicate ValidDuty(d: Duty) {
    d.start <= d.end
  }

  function Span(d: Duty): Interval {
    Interval(d.start, d.end)
  }

  /** The candidate's interval widened by the rest margin on each side. */
  function Expanded(d: Duty): Interval {
    Interval(d.start - RestMargin, d.end + RestMargin)
  }

  /** `areIntervalsOverlapping` with its default, exclusive test. */
  predicate Overlaps(a: Interval, b: Interval) {
    a.start < b.end && b.start < a.end
  }

  /** The assigned duty `a` comes within the rest margin of the candidate `d`. */
  predicate Relevant(a: Duty, d: Duty) {
    Overlaps(Span(a), Expanded(d))
  }

  /** The warning a relevant assigned duty `a` gives the candidate `d`. */
  function Classify(d: Duty, a: Duty): Warning {
    if Overlaps(Span(a), Span(d)) then Conflict(a.name)
    else if d.end < a.start then NoRestAfter(a.name)
    else NoRestBefore(a.name)
  }

  /** Reference definition of `findWarning`: the first relevant assigned duty decides. */
  function FirstWarning(d: Duty, assignedDuties: seq<Duty>): Option<Warning>
    decreases |assignedDuties|
  {
    if assignedDuties == [] then None
    else if Relevant(assignedDuties[0], d) then Some(Classify(d, assignedDuties[0]))
    else FirstWarning(d, assignedDuties[1..])
  }

  /** `k` is the position of the first assigned duty relevant to `d`. */
  predicate IsFirstRelevant(d: Duty, assignedDuties: seq<Duty>, k: int) {
    && 0 <= k < |assignedDuties|
    && Relevant(assignedDuties[k], d)
    && forall j :: 0 <= j < k ==> !Relevant(assignedDuties[j], d)
  }

  /** `findWarning`: walks the assigned duties in order and stops at the first relevant one. */
  method FindWarning(duty: Duty, assignedDuties: seq<Duty>) returns (w: Option<Warning>)
    requires ValidDuty(duty)
    requires forall a | a in assignedDuties :: ValidDuty(a)
    ensures w.None? <==> forall j :: 0 <= j < |assignedDuties| ==> !Relevant(assignedDuties[j], duty)
    ensures w.Some? ==> exists k :: IsFirstRelevant(duty, assignedDuties, k) && w.value == Classify(duty, assignedDuties[k])
    ensures w == FirstWarning(duty, assignedDuties)
  {
    var expanded := Expanded(duty);
    var i := 0;
    while i < |assignedDuties|
      invariant 0 <= i <= |assignedDuties|
      invariant forall j :: 0 <= j < i ==> !Relevant(assignedDuties[j], duty)
    {
      var assignedDuty := assignedDuties[i];
      if !Overlaps(Span(assignedDuty), expanded) {
        i := i + 1;
        continue;
      }
      assert IsFirstRelevant(duty, assignedDuties, i);
      FirstWarningAtFirstRelevant(duty, assignedDuties, i);
      if Overlaps(Span(assignedDuty), Span(duty)) {
        return Some(Conflict(assignedDuty.name));
      } else if duty.end < assignedDuty.start {
        return Some(NoRestAfter(assignedDuty.name));
      } else {
        return Some(NoRestBefore(assignedDuty.name));
      }
    }
    FirstWarningNoneIff(duty, assignedDuties);
    return None;
  }

  /** No warning exactly when no assigned duty comes within the widened interval. */
  lemma {:induction false} FirstWarningNoneIff(d: Duty, assignedDuties: seq<Duty>)
    ensures FirstWarning(d, assignedDuties).None? <==>
            forall j :: 0 <= j < |assignedDuties| ==> !Relevant(assignedDuties[j], d)
    decreases |assignedDuties|
  {
    if assignedDuties != [] {
      FirstWarningNoneIff(d, assignedDuties[1..]);
      assert forall j :: 1 <= j < |assignedDuties| ==> assignedDuties[j] == assignedDuties[1..][j - 1];
    }
  }

  /** The first relevant assigned duty, and only it, determines the warning. */
  lemma {:induction false} FirstWarningAtFirstRelevant(d: Duty, assignedDuties: seq<Duty>, k: int)
    requires IsFirstRelevant(d, assignedDuties, k)
    ensures FirstWarning(d, assignedDuties) == Some(Classify(d, assignedDuties[k]))
    decreases k
  {
    if k > 0 {
      assert !Relevant(assignedDuties[0], d);
      assert forall j :: 0 <= j < k - 1 ==> assignedDuties[1..][j] == assignedDuties[j + 1];
      FirstWarningAtFirstRelevant(d, assignedDuties[1..], k - 1);
    }
  }

  /** A warning always comes from a first relevant assigned duty. */
  lemma {:induction false} FirstWarningHasSource(d: Duty, assignedDuties: seq<Duty>)
    requires FirstWarning(d, assignedDuties).Some?
    ensures exists k :: IsFirstRelevant(d, assignedDuties, k) &&
                        FirstWarning(d, assignedDuties).value == Classify(d, assignedDuties[k])
    decreases |assignedDuties|
  {
    if !Relevant(assignedDuties[0], d) {
      FirstWarningHasSource(d, assignedDuties[1..]);
      var k :| IsFirstRelevant(d, assignedDuties[1..], k) &&
               FirstWarning(d, assignedDuties[1..]).value == Classify(d, assignedDuties[1..][k]);
      assert IsFirstRelevant(d, assignedDuties, k + 1);
    } else {
      assert IsFirstRelevant(d, assignedDuties, 0);
    }
  }

  /** Assigned duties after the deciding one never change the warning. */
  lemma {:induction false} FirstWarningIgnoresLater(d: Duty, assignedDuties: seq<Duty>, later: seq<Duty>)
    requires FirstWarning(d, assignedDuties).Some?
    ensures FirstWarning(d, assignedDuties + later) == FirstWarning(d, assignedDuties)
    decreases |assignedDuties|
  {
    assert (assignedDuties + later)[0] == assignedDuties[0];
    if !Relevant(assignedDuties[0], d) {
      assert (assignedDuties + later)[1..] == assignedDuties[1..] + later;
      FirstWarningIgnoresLater(d, assignedDuties[1..], later);
    }
  }

  /** Assigned duties outside the rest margin can be skipped without changing the warning. */
  lemma {:induction false} FirstWarningSkipsIrrelevant(d: Duty, skipped: seq<Duty>, assignedDuties: seq<Duty>)
    requires forall a | a in skipped :: !Relevant(a, d)
    ensures FirstWarning(d, skipped + assignedDuties) == FirstWarning(d, assignedDuties)
    decreases |skipped|
  {
    if skipped != [] {
      assert skipped[0] in skipped && (skipped + assignedDuties)[0] == skipped[0];
      assert forall a | a in skipped[1..] :: a in skipped;
      assert (skipped + assignedDuties)[1..] == skipped[1..] + assignedDuties;
      FirstWarningSkipsIrrelevant(d, skipped[1..], assignedDuties);
    } else {
      assert skipped + assignedDuties == assignedDuties;
    }
  }

  /** The name in a warning is the name of a relevant assigned duty. */
  lemma WarningNamesAssignedDuty(d: Duty, assignedDuties: seq<Duty>)
    requires FirstWarning(d, assignedDuties).Some?
    ensures exists a | a in assignedDuties :: Relevant(a, d) && a.name == FirstWarning(d, assignedDuties).value.name
  {
    FirstWarningHasSource(d, assignedDuties);
    var k :| IsFirstRelevant(d, assignedDuties, k) &&
             FirstWarning(d, assignedDuties).value == Classify(d, assignedDuties[k]);
    assert assignedDuties[k] in assignedDuties;
  }

  /** The rest rule: no warning exactly when every assigned duty keeps 8 hours away. */
  lemma NoWarningIffRested(d: Duty, assignedDuties: seq<Duty>)
    ensures FirstWarning(d, assignedDuties).None? <==>
            forall a | a in assignedDuties :: a.end <= d.start - RestMargin || d.end + RestMargin <= a.start
  {
    FirstWarningNoneIff(d, assignedDuties);
    assert forall a | a in assignedDuties :: exists j :: 0 <= j < |assignedDuties| && assignedDuties[j] == a;
  }

  /** What each classification means for the two intervals, given a relevant duty. */
  lemma ClassifyMeaning(d: Duty, a: Duty)
    requires Relevant(a, d)
    ensures Classify(d, a).name == a.name
    ensures Classify(d, a).Conflict? <==> Overlaps(Span(a), Span(d))
    ensures Classify(d, a).NoRestAfter? ==> d.end < a.start < d.end + RestMargin
    ensures Classify(d, a).NoRestBefore? ==>
              !Overlaps(Span(a), Span(d)) &&
              (a.start == d.end || (a.end <= d.start && d.start < a.end + RestMargin))
  {
  }

  /** A candidate starting half an hour into the assigned duty conflicts with it. */
  lemma SameTimeIsConflict(assignedDuty: Duty, candidate: Duty)
    requires ValidDuty(assignedDuty) && ValidDuty(candidate)
    requires candidate.start == assignedDuty.start + HalfHourMs
    requires assignedDuty.end - assignedDuty.start > HalfHourMs
    ensures FirstWarning(candidate, [assignedDuty]) == Some(Conflict(assignedDuty.name))
  {
  }

  /** A candidate ending half an hour before the assigned duty starts gets "until". */
  lemma JustBeforeIsNoRestAfter(assignedDuty: Duty, candidate: Duty)
    requires ValidDuty(assignedDuty) && ValidDuty(candidate)
    requires candidate.end == assignedDuty.start - HalfHourMs
    ensures FirstWarning(candidate, [assignedDuty]) == Some(NoRestAfter(assignedDuty.name))
  {
  }

  /** A candidate starting half an hour after the assigned duty ends gets "since". */
  lemma JustAfterIsNoRestBefore(assignedDuty: Duty, candidate: Duty)
    requires ValidDuty(assignedDuty) && ValidDuty(candidate)
    requires candidate.start == assignedDuty.end + HalfHourMs
    ensures FirstWarning(candidate, [assignedDuty]) == Some(NoRestBefore(assignedDuty.name))
  {
  }

  /** An assigned duty starting exactly when the candidate ends is classified "since". */
  lemma TouchingStartIsNoRestBefore(assignedDuty: Duty, candidate: Duty)
    requires ValidDuty(assignedDuty) && ValidDuty(candidate)
    requires assignedDuty.start == candidate.end
    ensures FirstWarning(candidate, [assignedDuty]) == Some(NoRestBefore(assignedDuty.name))
  {
  }

  /** Starting 8 hours or more after the assigned duty ends (8.1h, 50h) gives no warning. */
  lemma LongAfterHasNoWarning(assignedDuty: Duty, candidate: Duty)
    requires candidate.start >= assignedDuty.end + RestMargin
    ensures FirstWarning(candidate, [assignedDuty]) == None
  {
  }

  /** A 09:00-13:00 assigned duty and a 13:15-17:00 candidate on the same day: "since". */
  lemma FollowingDutyIsNoRestBefore(a: Duty, b: Duty)
    requires a.start == 9 * HourMs && a.end == 13 * HourMs
    requires b.start == 13 * HourMs + HourMs / 4 && b.end == 17 * HourMs
    ensures FirstWarning(b, [a]) == Some(NoRestBefore(a.name))
  {
  }

  const ConflictPrefix: string := "You have another duty at this time ("
  const UntilPrefix: string := "Less than 8 hours until "
  const SincePrefix: string := "Less than 8 hours since "

  /** `name` appears in `text` starting at position `i`. */
  predicate NameAt(text: string, name: string, i: int) {
    0 <= i <= |text| - |name| && text[i..i + |name|] == name
  }

  /** `warningText`: the user-facing sentence for each kind of warning. */
  function WarningText(w: Warning): (r: string)
    ensures exists i :: NameAt(r, w.name, i)
  {
    match w
    case Conflict(name) =>
      var r := ConflictPrefix + name + ")";
      assert NameAt(r, name, |ConflictPrefix|);
      r
    case NoRestAfter(name) =>
      var r := UntilPrefix + name;
      assert NameAt(r, name, |UntilPrefix|);
      r
    case NoRestBefore(name) =>
      var r := SincePrefix + name;
      assert NameAt(r, name, |SincePrefix|);
      r
  }

  /** The text determines the warning: different warnings never read the same. */
  lemma WarningTextInjective(w1: Warning, w2: Warning)
    requires WarningText(w1) == WarningText(w2)
    ensures w1 == w2
  {
    var t1, t2 := WarningText(w1), WarningText(w2);
    match w1
    case Conflict(n1) =>
      assert t1[0] == 'Y';
      assert |n1| == |w2.name|;
      assert n1 == t1[|ConflictPrefix|..|ConflictPrefix| + |n1|];
      assert w2.name == t2[|ConflictPrefix|..|ConflictPrefix| + |n1|];
    case NoRestAfter(n1) =>
      assert t1[0] == 'L' && t1[18] == 'u';
      assert n1 == t1[|UntilPrefix|..];
      assert w2.name == t2[|UntilPrefix|..];
    case NoRestBefore(n1) =>
      assert t1[0] == 'L' && t1[18] == 's';
      assert n1 == t1[|SincePrefix|..];
      assert w2.name == t2[|SincePrefix|..];
  }
}
