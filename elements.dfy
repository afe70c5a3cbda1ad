/**
 * The element list of a collaboration page
 * (`CollaborationDetailView.get_all_elements`, dynamo/collaborations/views.py):
 * tasks and milestones chained together, then sorted by position with a
 * stable sort in descending order.
 */
module Elements {
  import opened Entities

  function TaskElements(tasks: seq<Task>): seq<Element> {
    seq(|tasks|, i requires 0 <= i < |tasks| => TaskElement(tasks[i]))
  }

  function MilestoneElements(milestones: seq<Milestone>): seq<Element> {
    seq(|milestones|, i requires 0 <= i < |milestones| => MilestoneElement(milestones[i]))
  }

  /** `chain(tasks, milestones)`: every task, then every milestone. */
  function Chain(tasks: seq<Task>, milestones: seq<Milestone>): seq<Element> {
    TaskElements(tasks) + MilestoneElements(milestones)
  }

  /** Positions never increase along the sequence. */
  predicate NonIncreasing(s: seq<Element>) {
    forall i, j :: 0 <= i < j < |s| ==> s[i].Position() >= s[j].Position()
  }

  /** Every element of `s` has a position of at most `b`. */
  predicate AtMost(s: seq<Element>, b: int) {
    forall i :: 0 <= i < |s| ==> s[i].Position() <= b
  }

  lemma PrependSorted(x: Element, s: seq<Element>)
    requires NonIncreasing(s) && AtMost(s, x.Position())
    ensures NonIncreasing([x] + s)
  {
    var r := [x] + s;
    forall i, j | 0 <= i < j < |r| ensures r[i].Position() >= r[j].Position() {
      assert r[j] == s[j - 1];
      if i > 0 {
        assert r[i] == s[i - 1];
      }
    }
  }

  /** The elements at position `p`, in their order in `s`. */
  function AtPosition(s: seq<Element>, p: int): seq<Element> {
    if s == [] then []
    else (if s[0].Position() == p then [s[0]] else []) + AtPosition(s[1..], p)
  }

  lemma {:induction false} AtPositionMembers(s: seq<Element>, p: int, x: Element)
    ensures x in AtPosition(s, p) <==> x in s && x.Position() == p
  {
    if s != [] {
      AtPositionMembers(s[1..], p, x);
      assert x in s <==> x == s[0] || x in s[1..];
    }
  }

  /**
   * One step of the stable sort: `e`, which came before everything in `s`,
   * goes in front of the first element whose position is not greater than its own.
   */
  function Insert(e: Element, s: seq<Element>): (r: seq<Element>)
    ensures multiset(r) == multiset{e} + multiset(s)
  {
    if s == [] || e.Position() >= s[0].Position() then [e] + s
    else
      assert s == [s[0]] + s[1..];
      [s[0]] + Insert(e, s[1..])
  }

  lemma {:induction false} InsertAtMost(e: Element, s: seq<Element>, b: int)
    requires AtMost(s, b) && e.Position() <= b
    ensures AtMost(Insert(e, s), b)
  {
    if s == [] || e.Position() >= s[0].Position() {
      var r := [e] + s;
      forall i | 0 <= i < |r| ensures r[i].Position() <= b {
        if i > 0 { assert r[i] == s[i - 1]; }
      }
    } else {
      assert AtMost(s[1..], b) by {
        forall i | 0 <= i < |s| - 1 ensures s[1..][i].Position() <= b {
          assert s[1..][i] == s[i + 1];
        }
      }
      InsertAtMost(e, s[1..], b);
      var r := [s[0]] + Insert(e, s[1..]);
      forall i | 0 <= i < |r| ensures r[i].Position() <= b {
        if i > 0 { assert r[i] == Insert(e, s[1..])[i - 1]; }
      }
    }
  }

  /** Inserting into a sequence sorted from the highest position down keeps it sorted. */
  lemma {:induction false} InsertSorted(e: Element, s: seq<Element>)
    requires NonIncreasing(s)
    ensures NonIncreasing(Insert(e, s))
  {
    if s == [] || e.Position() >= s[0].Position() {
      assert AtMost(s, e.Position()) by {
        forall i | 0 <= i < |s| ensures s[i].Position() <= e.Position() {
          if i > 0 { assert s[0].Position() >= s[i].Position(); }
        }
      }
      PrependSorted(e, s);
    } else {
      var t := s[1..];
      assert NonIncreasing(t) by {
        forall i, j | 0 <= i < j < |t| ensures t[i].Position() >= t[j].Position() {
          assert t[i] == s[i + 1] && t[j] == s[j + 1];
        }
      }
      assert AtMost(t, s[0].Position()) by {
        forall i | 0 <= i < |t| ensures t[i].Position() <= s[0].Position() {
          assert t[i] == s[i + 1];
        }
      }
      InsertSorted(e, t);
      InsertAtMost(e, t, s[0].Position());
      PrependSorted(s[0], Insert(e, t));
    }
  }

  /** `sorted(..., key=position, reverse=True)`: Python's sort is stable also when reversed. */
  function SortByPositionDesc(s: seq<Element>): (r: seq<Element>)
    ensures |r| == |s|
    ensures multiset(r) == multiset(s)
  {
    if s == [] then []
    else
      assert s == [s[0]] + s[1..];
      var r := Insert(s[0], SortByPositionDesc(s[1..]));
      assert |r| == |multiset(r)| == |multiset(s)| == |s|;
      r
  }

  lemma {:induction false} SortSorted(s: seq<Element>)
    ensures NonIncreasing(SortByPositionDesc(s))
  {
    if s != [] {
      SortSorted(s[1..]);
      InsertSorted(s[0], SortByPositionDesc(s[1..]));
    }
  }

  /** The elements at position `p` of a sequence with head `x`. */
  lemma AtPositionCons(x: Element, t: seq<Element>, p: int)
    ensures AtPosition([x] + t, p) == (if x.Position() == p then [x] else []) + AtPosition(t, p)
  {
  }

  /** Inserting `e` puts it in front of every element that has its position. */
  lemma {:induction false} InsertAtPosition(e: Element, s: seq<Element>, p: int)
    ensures AtPosition(Insert(e, s), p) == (if e.Position() == p then [e] else []) + AtPosition(s, p)
  {
    if s == [] || e.Position() >= s[0].Position() {
      assert Insert(e, s) == [e] + s;
      AtPositionCons(e, s, p);
    } else {
      var t := Insert(e, s[1..]);
      assert Insert(e, s) == [s[0]] + t;
      InsertAtPosition(e, s[1..], p);
      AtPositionCons(s[0], t, p);
      assert s == [s[0]] + s[1..];
      AtPositionCons(s[0], s[1..], p);
      if s[0].Position() == p {
        assert AtPosition(Insert(e, s), p) == [s[0]] + AtPosition(s[1..], p);
      } else {
        assert AtPosition(Insert(e, s), p) == AtPosition(t, p);
      }
    }
  }

  /** The sort is stable: the elements at any one position keep their input order. */
  lemma {:induction false} SortStable(s: seq<Element>, p: int)
    ensures AtPosition(SortByPositionDesc(s), p) == AtPosition(s, p)
  {
    if s != [] {
      SortStable(s[1..], p);
      InsertAtPosition(s[0], SortByPositionDesc(s[1..]), p);
    }
  }

  lemma {:induction false} AtPositionAppend(s: seq<Element>, t: seq<Element>, p: int)
    ensures AtPosition(s + t, p) == AtPosition(s, p) + AtPosition(t, p)
  {
    if s != [] {
      assert (s + t)[1..] == s[1..] + t;
      AtPositionAppend(s[1..], t, p);
    } else {
      assert s + t == t;
    }
  }

  /**
   * `get_all_elements`, as written: every task and every milestone in the
   * store, whatever collaboration they belong to, sorted by position from the
   * highest down. Nothing is mutated: it is a function of the two tables.
   */
  function AllElements(tasks: seq<Task>, milestones: seq<Milestone>): (r: seq<Element>)
    ensures |r| == |tasks| + |milestones|
    ensures multiset(r) == multiset(Chain(tasks, milestones))
    ensures NonIncreasing(r)
  {
    SortSorted(Chain(tasks, milestones));
    SortByPositionDesc(Chain(tasks, milestones))
  }

  /** On equal positions, the tasks come first, then the milestones, each in table order. */
  lemma AllElementsStable(tasks: seq<Task>, milestones: seq<Milestone>, p: int)
    ensures AtPosition(AllElements(tasks, milestones), p) ==
            AtPosition(TaskElements(tasks), p) + AtPosition(MilestoneElements(milestones), p)
  {
    SortStable(Chain(tasks, milestones), p);
    AtPositionAppend(TaskElements(tasks), MilestoneElements(milestones), p);
  }

  /** Some milestone comes before some task of the same position `p`. */
  predicate MilestoneBeforeTask(s: seq<Element>, p: int) {
    exists i, j :: 0 <= i < j < |s| && s[i].MilestoneElement? && s[j].TaskElement? &&
                   s[i].Position() == p && s[j].Position() == p
  }

  /** Filtering by position keeps a milestone-before-task inversion. */
  lemma {:induction false} InversionSurvivesFilter(s: seq<Element>, p: int, i: nat, j: nat)
    requires i < j < |s| && s[i].MilestoneElement? && s[j].TaskElement?
    requires s[i].Position() == p && s[j].Position() == p
    ensures MilestoneBeforeTask(AtPosition(s, p), p)
  {
    var rest := AtPosition(s[1..], p);
    var head := if s[0].Position() == p then [s[0]] else [];
    assert AtPosition(s, p) == head + rest;
    if i == 0 {
      assert s[1..][j - 1] == s[j];
      AtPositionMembers(s[1..], p, s[j]);
      var b :| 0 <= b < |rest| && rest[b] == s[j];
      assert (head + rest)[0] == s[i] && (head + rest)[b + 1] == s[j];
    } else {
      assert s[1..][i - 1] == s[i] && s[1..][j - 1] == s[j];
      InversionSurvivesFilter(s[1..], p, i - 1, j - 1);
      var a, b :| 0 <= a < b < |rest| && rest[a].MilestoneElement? && rest[b].TaskElement? &&
                  rest[a].Position() == p && rest[b].Position() == p;
      assert (head + rest)[a + |head|] == rest[a] && (head + rest)[b + |head|] == rest[b];
    }
  }

  /** A run of tasks followed by a run of milestones has no milestone before a task. */
  lemma NoInversionInRuns(ts: seq<Element>, ms: seq<Element>, p: int)
    requires forall x :: x in ts ==> x.TaskElement?
    requires forall x :: x in ms ==> x.MilestoneElement?
    ensures !MilestoneBeforeTask(ts + ms, p)
  {
    var f := ts + ms;
    forall k | 0 <= k < |ts| ensures f[k].TaskElement? {
      assert f[k] == ts[k] && ts[k] in ts;
    }
    forall k | |ts| <= k < |f| ensures f[k].MilestoneElement? {
      assert f[k] == ms[k - |ts|] && ms[k - |ts|] in ms;
    }
  }

  /**
   * Ties between a task and a milestone are broken in favour of the task:
   * no milestone is listed before a task of the same position.
   */
  lemma TasksBeforeMilestonesOnTies(tasks: seq<Task>, milestones: seq<Milestone>, p: int)
    ensures !MilestoneBeforeTask(AllElements(tasks, milestones), p)
  {
    var r := AllElements(tasks, milestones);
    var ts := AtPosition(TaskElements(tasks), p);
    var ms := AtPosition(MilestoneElements(milestones), p);
    AllElementsStable(tasks, milestones, p);
    forall x | x in ts ensures x.TaskElement? {
      AtPositionMembers(TaskElements(tasks), p, x);
    }
    forall x | x in ms ensures x.MilestoneElement? {
      AtPositionMembers(MilestoneElements(milestones), p, x);
    }
    NoInversionInRuns(ts, ms, p);
    if MilestoneBeforeTask(r, p) {
      var i, j :| 0 <= i < j < |r| && r[i].MilestoneElement? && r[j].TaskElement? &&
                  r[i].Position() == p && r[j].Position() == p;
      InversionSurvivesFilter(r, p, i, j);
    }
  }

  // ---------------------------------------------------------------------------
  // Restricting the list to one collaboration
  // ---------------------------------------------------------------------------

  /** The detail page of collaboration `c` lists every task of the store, including those of other collaborations. */
  lemma AllElementsListsOtherCollaborations(c: CollaborationId, tasks: seq<Task>, milestones: seq<Milestone>, t: Task)
    requires t in tasks && t.collaboration != c
    ensures TaskElement(t) in AllElements(tasks, milestones) && TaskElement(t).Owner() != c
  {
    var i :| 0 <= i < |tasks| && tasks[i] == t;
    assert Chain(tasks, milestones)[i] == TaskElement(t);
    assert TaskElement(t) in multiset(Chain(tasks, milestones));
  }

  function TasksOf(c: CollaborationId, tasks: seq<Task>): (r: seq<Task>)
    ensures forall t :: t in r <==> t in tasks && t.collaboration == c
  {
    if tasks == [] then []
    else
      assert forall t :: t in tasks <==> t == tasks[0] || t in tasks[1..];
      (if tasks[0].collaboration == c then [tasks[0]] else []) + TasksOf(c, tasks[1..])
  }

  function MilestonesOf(c: CollaborationId, milestones: seq<Milestone>): (r: seq<Milestone>)
    ensures forall m :: m in r <==> m in milestones && m.collaboration == c
  {
    if milestones == [] then []
    else
      assert forall m :: m in milestones <==> m == milestones[0] || m in milestones[1..];
      (if milestones[0].collaboration == c then [milestones[0]] else []) + MilestonesOf(c, milestones[1..])
  }

  /** An element is in the chain exactly when its task or milestone is in its table. */
  lemma ChainMembers(tasks: seq<Task>, milestones: seq<Milestone>, e: Element)
    ensures e in Chain(tasks, milestones) <==>
            match e
            case TaskElement(t) => t in tasks
            case MilestoneElement(m) => m in milestones
  {
    var ch := Chain(tasks, milestones);
    match e
    case TaskElement(t) =>
      if t in tasks {
        var i :| 0 <= i < |tasks| && tasks[i] == t;
        assert ch[i] == e;
      }
      if e in ch {
        var i :| 0 <= i < |ch| && ch[i] == e;
        assert i < |tasks| && tasks[i] == t;
      }
    case MilestoneElement(m) =>
      if m in milestones {
        var i :| 0 <= i < |milestones| && milestones[i] == m;
        assert ch[|tasks| + i] == e;
      }
      if e in ch {
        var i :| 0 <= i < |ch| && ch[i] == e;
        assert i >= |tasks| && milestones[i - |tasks|] == m;
      }
  }

  /**
   * The element list of collaboration `c`: its own tasks and milestones, with
   * the same ordering as `AllElements`.
   */
  function CollaborationElements(c: CollaborationId, tasks: seq<Task>, milestones: seq<Milestone>): (r: seq<Element>)
    ensures NonIncreasing(r)
    ensures multiset(r) == multiset(Chain(TasksOf(c, tasks), MilestonesOf(c, milestones)))
  {
    AllElements(TasksOf(c, tasks), MilestonesOf(c, milestones))
  }

  /**
   * Collaboration `c`'s list holds exactly the tasks and milestones of `c`:
   * nothing of another collaboration, nothing of `c` missing.
   */
  lemma CollaborationElementsMembers(c: CollaborationId, tasks: seq<Task>, milestones: seq<Milestone>, e: Element)
    ensures e in CollaborationElements(c, tasks, milestones) <==>
            e.Owner() == c &&
            match e
            case TaskElement(t) => t in tasks
            case MilestoneElement(m) => m in milestones
  {
    var r := CollaborationElements(c, tasks, milestones);
    assert e in r <==> e in multiset(r);
    ChainMembers(TasksOf(c, tasks), MilestonesOf(c, milestones), e);
  }
}
