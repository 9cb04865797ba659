/** The count projections of the topics view and the stats view: done and
    total per topic group, per difficulty and overall, and the rounded
    percentage shown on the topic bars. Everything is recomputed from the
    problem list and the done set. */
module Stats {
  import opened Problems
  import opened Seqs
  import opened Dataset
  import opened Progress

  /** A `done/total` pair. */
  datatype Tally = Tally(done: nat, total: nat)

  /** `Math.round(done / total * 100)`, or 0 for an empty topic: the
      nearest whole percentage, halves rounded up. */
  function Percent(done: nat, total: nat): (r: nat)
    requires done <= total
    ensures r <= 100
    ensures total == 0 || done == 0 ==> r == 0
    ensures 0 < total == done ==> r == 100
    ensures total > 0 ==> 2 * total * r <= 200 * done + total < 2 * total * (r + 1)
  {
    if total == 0 then 0
    else
      var r := (200 * done + total) / (2 * total);
      PercentBounds(done, total, r);
      r
  }

  lemma {:induction false} PercentBounds(done: nat, total: nat, r: int)
    requires done <= total && total > 0
    requires r == (200 * done + total) / (2 * total)
    ensures 0 <= r <= 100
    ensures done == 0 ==> r == 0
    ensures done == total ==> r == 100
    ensures 2 * total * r <= 200 * done + total < 2 * total * (r + 1)
  {
    var m := 2 * total;
    var x := 200 * done + total;
    DivBounds(x, m);
    assert m * r <= x < m * (r + 1);
    assert x < m * 101;
    MulCancel(m, r, 101);
    assert 0 <= x;
    MulCancel(m, -1, r + 1);
    if done == 0 {
      assert x < m * 1;
      MulCancel(m, r, 1);
    }
    if done == total {
      assert m * 100 <= x;
      MulCancel(m, 99, r);
    }
  }

  lemma DivBounds(x: int, m: int)
    requires m > 0
    ensures m * (x / m) <= x < m * (x / m + 1)
  {}

  /** For a positive factor, `m * a < m * b` only when `a < b`. */
  lemma {:induction false} MulCancel(m: int, a: int, b: int)
    requires m > 0 && m * a < m * b
    ensures a < b
  {
    if a >= b {
      MulMono(m, b, a);
    }
  }

  lemma MulMono(m: int, a: int, b: int)
    requires m > 0 && a <= b
    ensures m * a <= m * b
  {}

  /** `items.filter(p => doneSet.has(p.id)).length` over `items.length`. */
  function TallyOf(ps: seq<Problem>, done: set<string>): (t: Tally)
    ensures t.done <= t.total == |ps|
  {
    Tally(|Filter(ps, IsDoneIn(done))|, |ps|)
  }

  /** One accordion of the topics view: topic, `doneCount/total` and the
      bar percentage. */
  datatype TopicRow = TopicRow(topic: string, tally: Tally, percent: nat)

  function GroupRow(g: Group, done: set<string>): (r: TopicRow)
    ensures r.topic == g.topic && r.tally.total == |g.items|
    ensures r.tally.done <= r.tally.total && r.percent <= 100
    ensures r.tally.done == r.tally.total > 0 ==> r.percent == 100
    ensures r.tally.done == 0 ==> r.percent == 0
  {
    var t := TallyOf(g.items, done);
    TopicRow(g.topic, t, Percent(t.done, t.total))
  }

  /** A full bar does not mean a finished topic: 199 of 200 rounds to
      100%, while 1 of 200 still shows 1%. */
  lemma FullBarBeforeDone()
    ensures Percent(199, 200) == 100
    ensures Percent(1, 200) == 1
  {}

  /** `renderTopics`: one row per group of `groupBy`, in group order. */
  function TopicsView(ps: seq<Problem>, done: set<string>): (rows: seq<TopicRow>)
    ensures |rows| == |GroupBy(ps)|
  {
    var gs := GroupBy(ps);
    seq(|gs|, i requires 0 <= i < |gs| => GroupRow(gs[i], done))
  }

  function SumTallies(ts: seq<Tally>): Tally
    decreases |ts|
  {
    if |ts| == 0 then Tally(0, 0)
    else
      var s := SumTallies(ts[..|ts| - 1]);
      Tally(s.done + ts[|ts| - 1].done, s.total + ts[|ts| - 1].total)
  }

  function GroupTallies(gs: seq<Group>, done: set<string>): seq<Tally> {
    seq(|gs|, i requires 0 <= i < |gs| => TallyOf(gs[i].items, done))
  }

  lemma {:induction false} SumTalliesUpdate(ts: seq<Tally>, i: nat, t: Tally)
    requires i < |ts|
    ensures SumTallies(ts[i := t]).done == SumTallies(ts).done - ts[i].done + t.done
    ensures SumTallies(ts[i := t]).total == SumTallies(ts).total - ts[i].total + t.total
    decreases |ts|
  {
    var n := |ts| - 1;
    if i < n {
      assert ts[i := t][..n] == ts[..n][i := t];
      SumTalliesUpdate(ts[..n], i, t);
    } else {
      assert ts[i := t][..n] == ts[..n];
    }
  }

  /** Adding a problem to the groups adds one to the total of the tallies,
      and one to the done count exactly when the problem is done. */
  lemma AddToGroupsTallies(gs: seq<Group>, p: Problem, done: set<string>)
    ensures SumTallies(GroupTallies(AddToGroups(gs, p), done)).total == SumTallies(GroupTallies(gs, done)).total + 1
    ensures SumTallies(GroupTallies(AddToGroups(gs, p), done)).done
            == SumTallies(GroupTallies(gs, done)).done + (if p.id in done then 1 else 0)
  {
    var k := FindGroup(gs, p.topic);
    var ts := GroupTallies(gs, done);
    var single := TallyOf([p], done);
    FilterCons([p], IsDoneIn(done));
    assert [p][1..] == [];
    if k < 0 {
      var r := GroupTallies(AddToGroups(gs, p), done);
      assert r == ts + [single];
      assert r[..|r| - 1] == ts;
    } else {
      var g := Group(p.topic, gs[k].items + [p]);
      FilterAppend(gs[k].items, [p], IsDoneIn(done));
      assert GroupTallies(AddToGroups(gs, p), done) == ts[k := TallyOf(g.items, done)];
      SumTalliesUpdate(ts, k, TallyOf(g.items, done));
    }
  }

  /** The topic accordions add up to the overall count: every problem is
      in exactly one accordion. */
  lemma {:induction false} TopicsViewAddsUp(ps: seq<Problem>, done: set<string>)
    ensures SumTallies(GroupTallies(GroupBy(ps), done)) == TallyOf(ps, done)
    decreases |ps|
  {
    if |ps| > 0 {
      var front, p := ps[..|ps| - 1], ps[|ps| - 1];
      assert ps == front + [p];
      TopicsViewAddsUp(front, done);
      AddToGroupsTallies(GroupBy(front), p, done);
      FilterAppend(front, [p], IsDoneIn(done));
      assert [p][1..] == [];
    }
  }

  /** `renderStats`, overall line: done problems of the list over its size. */
  function Overall(ps: seq<Problem>, done: set<string>): (t: Tally)
    ensures t.done <= t.total == |ps|
  {
    TallyOf(ps, done)
  }

  /** The overall count is full exactly when every problem is done. */
  lemma {:induction false} OverallFullIffAllDone(ps: seq<Problem>, done: set<string>)
    ensures Overall(ps, done).done == |ps| <==> forall p :: p in ps ==> p.id in done
    decreases |ps|
  {
    if |ps| > 0 {
      OverallFullIffAllDone(ps[1..], done);
      assert forall p :: p in ps <==> p == ps[0] || p in ps[1..];
    }
  }

  /** `renderStats`, difficulty breakdown for Easy, Medium and Hard. */
  function DifficultyTallies(ps: seq<Problem>, done: set<string>): (ts: seq<Tally>)
    ensures |ts| == |Difficulties|
    ensures forall i :: 0 <= i < |ts| ==> ts[i].done <= ts[i].total
  {
    seq(|Difficulties|, i requires 0 <= i < |Difficulties| => BreakdownTally(ps, done, HasDifficulty(Difficulties[i]), DifficultyDoneIn(Difficulties[i], done)))
  }

  /** `renderStats`, topic breakdown, one line per entry of the topic list. */
  function TopicTallies(ps: seq<Problem>, topics: seq<string>, done: set<string>): (ts: seq<Tally>)
    ensures |ts| == |topics|
    ensures forall i :: 0 <= i < |ts| ==> ts[i].done <= ts[i].total
  {
    seq(|topics|, i requires 0 <= i < |topics| => BreakdownTally(ps, done, HasTopic(topics[i]), TopicDoneIn(topics[i], done)))
  }

  /** `total` counts the problems in the class, `dcount` those of them that
      are done; the second condition is the first one and "done". */
  function BreakdownTally(ps: seq<Problem>, done: set<string>, inClass: Problem -> bool, doneInClass: Problem -> bool): (t: Tally)
    requires forall p :: p in ps ==> doneInClass(p) == (inClass(p) && p.id in done)
    ensures t == TallyOf(Filter(ps, inClass), done)
  {
    FilterTwice(ps, inClass, IsDoneIn(done), doneInClass);
    Tally(|Filter(ps, doneInClass)|, |Filter(ps, inClass)|)
  }

  /** The stats view and the topics view agree on every topic that has
      problems. */
  lemma TopicStatsMatchTopicsView(ps: seq<Problem>, done: set<string>, i: nat)
    requires i < |GroupBy(ps)|
    ensures TopicTallies(ps, [GroupBy(ps)[i].topic], done)[0] == TopicsView(ps, done)[i].tally
  {
    GroupByCorrect(ps);
  }

  /** With every difficulty one of Easy, Medium and Hard, the difficulty
      breakdown adds up to the overall count. */
  lemma DifficultiesAddUp(ps: seq<Problem>, done: set<string>)
    requires forall p :: p in ps ==> IsKnown(p.difficulty)
    ensures SumTallies(DifficultyTallies(ps, done)) == Overall(ps, done)
  {
    var ts := DifficultyTallies(ps, done);
    forall i | 0 <= i < 3
      ensures ts[i] == Tally(|Filter(ps, DifficultyDoneIn(Difficulties[i], done))|,
                             |Filter(ps, HasDifficulty(Difficulties[i]))|)
    {}
    assert ts[..2][..1] == [ts[0]] && [ts[0]][..0] == [];
    var one := SumTallies([ts[0]]);
    assert one == Tally(SumTallies([]).done + ts[0].done, SumTallies([]).total + ts[0].total);
    assert one == ts[0];
    var two := SumTallies(ts[..2]);
    assert two == Tally(ts[0].done + ts[1].done, ts[0].total + ts[1].total);
    assert SumTallies(ts) == Tally(two.done + ts[2].done, two.total + ts[2].total);
    DifficultyCountsAddUp(ps, done);
  }

  lemma {:induction false} DifficultyCountsAddUp(ps: seq<Problem>, done: set<string>)
    requires forall p :: p in ps ==> IsKnown(p.difficulty)
    ensures |Filter(ps, HasDifficulty("Easy"))| + |Filter(ps, HasDifficulty("Medium"))|
            + |Filter(ps, HasDifficulty("Hard"))| == |ps|
    ensures |Filter(ps, DifficultyDoneIn("Easy", done))| + |Filter(ps, DifficultyDoneIn("Medium", done))|
            + |Filter(ps, DifficultyDoneIn("Hard", done))| == |Filter(ps, IsDoneIn(done))|
    decreases |ps|
  {
    if |ps| > 0 {
      DifficultyCountsAddUp(ps[1..], done);
      FilterCons(ps, HasDifficulty("Easy"));
      FilterCons(ps, HasDifficulty("Medium"));
      FilterCons(ps, HasDifficulty("Hard"));
      FilterCons(ps, DifficultyDoneIn("Easy", done));
      FilterCons(ps, DifficultyDoneIn("Medium", done));
      FilterCons(ps, DifficultyDoneIn("Hard", done));
      FilterCons(ps, IsDoneIn(done));
    }
  }

  /** Checking an undone catalogue problem raises the overall done count
      by one, and unchecking a done one lowers it by one. */
  lemma {:induction false} ToggleMovesOverall(ps: seq<Problem>, s: State, p: Problem, checked: bool)
    requires UniqueIds(ps) && p in ps
    ensures Overall(ps, Toggle(s, p, checked).done).done
            == Overall(ps, s.done).done + (|Toggle(s, p, checked).done| - |s.done|)
  {
    var already := p.id in s.done;
    if checked && !already {
      DoneCountAdd(ps, s.done, p);
    } else if !checked && already {
      var rest := s.done - {p.id};
      assert rest + {p.id} == s.done;
      DoneCountAdd(ps, rest, p);
    }
  }

  lemma {:induction false} DoneCountAdd(ps: seq<Problem>, done: set<string>, p: Problem)
    requires UniqueIds(ps) && p in ps && p.id !in done
    ensures |Filter(ps, IsDoneIn(done + {p.id}))| == |Filter(ps, IsDoneIn(done))| + 1
    decreases |ps|
  {
    FilterCons(ps, IsDoneIn(done + {p.id}));
    FilterCons(ps, IsDoneIn(done));
    if ps[0] == p {
      NotInTail(ps);
      FilterAgree(ps[1..], IsDoneIn(done + {p.id}), IsDoneIn(done));
    } else {
      NotHead(ps, p);
      DoneCountAdd(ps[1..], done, p);
    }
  }

  lemma {:induction false} NotInTail(ps: seq<Problem>)
    requires UniqueIds(ps) && |ps| > 0
    ensures UniqueIds(ps[1..])
    ensures forall q :: q in ps[1..] ==> q.id != ps[0].id
  {
    forall q | q in ps[1..] ensures q.id != ps[0].id {
      var j :| 0 <= j < |ps| - 1 && ps[1..][j] == q;
      assert ps[j + 1] == q;
    }
  }

  lemma {:induction false} NotHead(ps: seq<Problem>, p: Problem)
    requires UniqueIds(ps) && p in ps && |ps| > 0 && ps[0] != p
    ensures UniqueIds(ps[1..]) && p in ps[1..] && ps[0].id != p.id
  {
    var k :| 0 <= k < |ps| && ps[k] == p;
    assert k != 0;
    assert ps[1..][k - 1] == p;
  }

  /** One Easy problem in one topic: checking it gives ten points and a full
      accordion, unchecking it gives the empty state back. */
  lemma SingleProblemScenario()
    ensures
      var p := Problem("two-sum", "Two Sum", "", "Easy", "Arrays");
      var on := Toggle(Cleared(), p, true);
      var off := Toggle(on, p, false);
      && on == State({"two-sum"}, 10)
      && TopicsView([p], on.done) == [TopicRow("Arrays", Tally(1, 1), 100)]
      && off == Cleared()
  {
    var p := Problem("two-sum", "Two Sum", "", "Easy", "Arrays");
    assert GroupBy([p]) == [Group("Arrays", [p])] by {
      assert [p][..0] == [];
    }
    FilterCons([p], IsDoneIn({"two-sum"}));
    assert [p][1..] == [];
  }
}
