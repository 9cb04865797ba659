/** The progress store: the set of done problem ids and the point counter.
    The counter is updated incrementally on every toggle and never
    recomputed, so "points equal the value of the done problems" is an
    invariant the transitions have to keep, not a definition. */
module Progress {
  import opened Problems

  datatype State = State(done: set<string>, points: int)

  /** One checkbox change: the problem of the row and the new checked state. */
  datatype Click = Click(problem: Problem, checked: bool)

  /** The state the reset handler leaves behind. */
  function Cleared(): State {
    State({}, 0)
  }

  /** `toggleDone`: marking an undone problem adds its id and its points,
      unmarking a done one removes both, and asking for the state the
      problem is already in changes nothing. The points move by the
      problem's value times the change in the number of done ids. */
  function Toggle(s: State, p: Problem, checked: bool): (r: State)
    ensures r.done == if checked then s.done + {p.id} else s.done - {p.id}
    ensures r.points == s.points + PointValue(p.difficulty) * (|r.done| - |s.done|)
    ensures (p.id in s.done) == checked ==> r == s
  {
    var already := p.id in s.done;
    if checked && !already then
      State(s.done + {p.id}, s.points + PointValue(p.difficulty))
    else if !checked && already then
      State(s.done - {p.id}, s.points - PointValue(p.difficulty))
    else
      s
  }

  /** A run of checkbox changes, applied in order. Only ids of clicked
      problems enter or leave the done set. */
  function Run(s: State, clicks: seq<Click>): (r: State)
    ensures forall id :: id in r.done && id !in s.done ==> Clicked(clicks, id)
    ensures forall id :: id in s.done && id !in r.done ==> Clicked(clicks, id)
    decreases |clicks|
  {
    if |clicks| == 0 then s
    else
      var next := Toggle(s, clicks[0].problem, clicks[0].checked);
      var r := Run(next, clicks[1..]);
      assert forall id :: Clicked(clicks[1..], id) ==> Clicked(clicks, id) by {
        forall id | Clicked(clicks[1..], id) ensures Clicked(clicks, id) {
          var i :| 0 <= i < |clicks| - 1 && clicks[1..][i].problem.id == id;
          assert clicks[i + 1].problem.id == id;
        }
      }
      assert Clicked(clicks, clicks[0].problem.id);
      r
  }

  /** Some click of the run is on a problem with this id. */
  ghost predicate Clicked(clicks: seq<Click>, id: string) {
    exists i :: 0 <= i < |clicks| && clicks[i].problem.id == id
  }

  /** Recomputation of the points from the done set: the value of every
      problem of the catalogue whose id is done. */
  function DonePoints(ps: seq<Problem>, done: set<string>): (r: nat)
    ensures r <= 30 * |ps|
    ensures (forall i :: 0 <= i < |ps| ==> ps[i].id !in done) ==> r == 0
    decreases |ps|
  {
    if |ps| == 0 then 0
    else (if ps[0].id in done then PointValue(ps[0].difficulty) else 0) + DonePoints(ps[1..], done)
  }

  /** The counter agrees with the recomputation, and only catalogue ids are
      marked done. */
  ghost predicate Consistent(ps: seq<Problem>, s: State) {
    s.done <= Ids(ps) && s.points == DonePoints(ps, s.done)
  }

  /** Checking twice is checking once: the second call finds the problem
      done and changes nothing, so no points are counted twice. */
  lemma ToggleIdempotent(s: State, p: Problem, checked: bool)
    ensures Toggle(Toggle(s, p, checked), p, checked) == Toggle(s, p, checked)
  {}

  /** Checking an undone problem and unchecking it again restores the
      done set and the points exactly. */
  lemma CheckThenUncheck(s: State, p: Problem)
    requires p.id !in s.done
    ensures Toggle(Toggle(s, p, true), p, false) == s
  {
    assert s.done + {p.id} - {p.id} == s.done;
  }

  /** Unchecking a done problem and checking it again restores the state. */
  lemma UncheckThenCheck(s: State, p: Problem)
    requires p.id in s.done
    ensures Toggle(Toggle(s, p, false), p, true) == s
  {
    assert s.done - {p.id} + {p.id} == s.done;
  }

  /** The recomputation only looks at the ids of the catalogue. */
  lemma {:induction false} DonePointsAgree(ps: seq<Problem>, a: set<string>, b: set<string>)
    requires forall i :: 0 <= i < |ps| ==> (ps[i].id in a <==> ps[i].id in b)
    ensures DonePoints(ps, a) == DonePoints(ps, b)
    decreases |ps|
  {
    if |ps| > 0 {
      DonePointsAgree(ps[1..], a, b);
    }
  }

  /** Marking one catalogue problem done adds exactly its value to the
      recomputation, provided ids are unique. */
  lemma {:induction false} DonePointsAdd(ps: seq<Problem>, done: set<string>, p: Problem)
    requires UniqueIds(ps)
    requires p in ps && p.id !in done
    ensures DonePoints(ps, done + {p.id}) == DonePoints(ps, done) + PointValue(p.difficulty)
    decreases |ps|
  {
    var k :| 0 <= k < |ps| && ps[k] == p;
    var tail := ps[1..];
    if k == 0 {
      DonePointsAgree(tail, done + {p.id}, done);
    } else {
      assert ps[0].id != p.id;
      assert p == tail[k - 1];
      DonePointsAdd(tail, done, p);
    }
  }

  /** Every checkbox change on a catalogue with unique ids keeps the
      counter equal to the recomputation. */
  lemma ToggleKeepsConsistent(ps: seq<Problem>, s: State, p: Problem, checked: bool)
    requires UniqueIds(ps) && p in ps
    requires Consistent(ps, s)
    ensures Consistent(ps, Toggle(s, p, checked))
  {
    var already := p.id in s.done;
    if checked && !already {
      DonePointsAdd(ps, s.done, p);
    } else if !checked && already {
      var rest := s.done - {p.id};
      assert rest + {p.id} == s.done;
      DonePointsAdd(ps, rest, p);
    }
  }

  /** The recomputation of the cleared state is zero. */
  lemma ClearedConsistent(ps: seq<Problem>)
    ensures Consistent(ps, Cleared())
  {}

  /** Any run of checkbox changes on catalogue problems keeps the counter
      consistent, and in particular any run starting from a reset. */
  lemma {:induction false} RunKeepsConsistent(ps: seq<Problem>, s: State, clicks: seq<Click>)
    requires UniqueIds(ps)
    requires forall i :: 0 <= i < |clicks| ==> clicks[i].problem in ps
    requires Consistent(ps, s)
    ensures Consistent(ps, Run(s, clicks))
    decreases |clicks|
  {
    if |clicks| > 0 {
      ToggleKeepsConsistent(ps, s, clicks[0].problem, clicks[0].checked);
      RunKeepsConsistent(ps, Toggle(s, clicks[0].problem, clicks[0].checked), clicks[1..]);
    }
  }

  lemma RunFromResetConsistent(ps: seq<Problem>, clicks: seq<Click>)
    requires UniqueIds(ps)
    requires forall i :: 0 <= i < |clicks| ==> clicks[i].problem in ps
    ensures Consistent(ps, Run(Cleared(), clicks))
  {
    ClearedConsistent(ps);
    RunKeepsConsistent(ps, Cleared(), clicks);
  }

  /** Without unique ids the counter drifts: two rows sharing an id but not
      a difficulty, checked through one and unchecked through the other,
      leave no id done and ten points. */
  lemma DuplicateIdsDrift()
    ensures
      var easy := Problem("x", "X", "", "Easy", "T");
      var medium := Problem("x", "X", "", "Medium", "T");
      var s := Toggle(Toggle(Cleared(), medium, true), easy, false);
      s.done == {} && s.points == 10 && !Consistent([easy, medium], s)
  {}

  /** A decoded JSON value, as far as the import needs to tell values apart. */
  datatype Value = Absent | Null | Flag(b: bool) | Number(n: int) | Text(s: string)
                 | List(items: seq<string>) | Record

  /** An imported document: `Malformed` when `JSON.parse` throws or the
      document is `null` (reading a field of it throws); anything else is read
      through its `done` and `points` fields. */
  datatype Document = Malformed | Fields(done: Value, points: Value)

  function Elements(xs: seq<string>): set<string> {
    set x | x in xs
  }

  /** `importProgress`: a malformed document changes nothing; otherwise
      the done set is replaced only by an array and the points only by a
      number, each independently of the other. */
  function Import(s: State, doc: Document): (r: State)
    ensures doc.Malformed? ==> r == s
    ensures doc.Fields? && doc.done.List? ==> r.done == Elements(doc.done.items)
    ensures doc.Fields? && !doc.done.List? ==> r.done == s.done
    ensures doc.Fields? && doc.points.Number? ==> r.points == doc.points.n
    ensures doc.Fields? && !doc.points.Number? ==> r.points == s.points
  {
    match doc
    case Malformed => s
    case Fields(d, pts) =>
      State(if d.List? then Elements(d.items) else s.done,
            if pts.Number? then pts.n else s.points)
  }

  /** The exported document `{done: [...], points}`. */
  datatype Snapshot = Snapshot(done: seq<string>, points: int)

  function AsDocument(snap: Snapshot): Document {
    Fields(List(snap.done), Number(snap.points))
  }

  ghost predicate NoDuplicates(xs: seq<string>) {
    forall i, j :: 0 <= i < j < |xs| ==> xs[i] != xs[j]
  }

  /** `exportProgress`: every done id once, in some order, and the points. */
  method Export(s: State) returns (snap: Snapshot)
    ensures Elements(snap.done) == s.done
    ensures NoDuplicates(snap.done) && |snap.done| == |s.done|
    ensures snap.points == s.points
  {
    var ids: seq<string> := [];
    var rest := s.done;
    while rest != {}
      invariant Elements(ids) + rest == s.done
      invariant Elements(ids) !! rest
      invariant NoDuplicates(ids)
      invariant |ids| + |rest| == |s.done|
      decreases |rest|
    {
      var id :| id in rest;
      ids := ids + [id];
      rest := rest - {id};
    }
    snap := Snapshot(ids, s.points);
  }

  /** Importing an export restores the exported state, whatever the state
      it is imported into. */
  lemma ExportImportRoundTrip(s: State, snap: Snapshot, t: State)
    requires Elements(snap.done) == s.done && snap.points == s.points
    ensures Import(t, AsDocument(snap)) == s
  {}

  /** A document with a done array and a non-numeric points field replaces
      the done set and keeps the points. */
  lemma ImportKeepsPointsOnText(s: State)
    ensures Import(s, Fields(List(["x"]), Text("bad"))) == State({"x"}, s.points)
  {
    assert Elements(["x"]) == {"x"};
  }

  /** Import applies no consistency check: a partial document can leave
      the counter disagreeing with the done set. */
  lemma ImportCanBreakConsistency()
    ensures
      var p := Problem("a", "A", "", "Hard", "T");
      var s := Import(Cleared(), Fields(List(["a"]), Absent));
      !Consistent([p], s)
  {
    var p := Problem("a", "A", "", "Hard", "T");
    assert Elements(["a"]) == {"a"};
    assert DonePoints([p], {"a"}) == 30;
  }
}
