/** The tracker's records: a dataset section as it arrives (`{topic, items}`),
    the flat problem the views work on, and the two per-difficulty tables
    (points and sort rank). Difficulties stay strings, as in the dataset:
    any value is accepted, only Easy, Medium and Hard carry points. */
module Problems {

  datatype Item = Item(id: string, title: string, link: string, difficulty: string)

  datatype Section = Section(topic: string, items: seq<Item>)

  datatype Problem = Problem(id: string, title: string, link: string, difficulty: string, topic: string)

  /** The difficulties the stats view breaks down by, in display order. */
  const Difficulties: seq<string> := ["Easy", "Medium", "Hard"]

  predicate IsKnown(d: string) {
    d == "Easy" || d == "Medium" || d == "Hard"
  }

  /** `POINTS_BY_DIFFICULTY[d] || 0`: the score a problem is worth. */
  function PointValue(d: string): (r: nat)
    ensures r > 0 <==> IsKnown(d)
    ensures r % 10 == 0 && r <= 30
  {
    if d == "Easy" then 10
    else if d == "Medium" then 20
    else if d == "Hard" then 30
    else 0
  }

  /** The `order` table of the difficulty sort. */
  function Rank(d: string): (r: int)
    requires IsKnown(d)
    ensures 1 <= r <= 3
  {
    if d == "Easy" then 1 else if d == "Medium" then 2 else 3
  }

  /** The points table and the sort-rank table order the difficulties the
      same way: each rank step is worth ten points. */
  lemma PointsFollowRank(d: string)
    requires IsKnown(d)
    ensures PointValue(d) == 10 * Rank(d)
  {}

  /** No two problems share an id. */
  ghost predicate UniqueIds(ps: seq<Problem>) {
    forall i, j :: 0 <= i < |ps| && 0 <= j < |ps| && ps[i].id == ps[j].id ==> i == j
  }

  function Ids(ps: seq<Problem>): set<string> {
    set p | p in ps :: p.id
  }

  /** Named filter conditions, so that the same condition is one value
      wherever it is used. */
  function HasTopic(t: string): Problem -> bool {
    (p: Problem) => p.topic == t
  }

  function HasDifficulty(d: string): Problem -> bool {
    (p: Problem) => p.difficulty == d
  }

  function IsDoneIn(done: set<string>): Problem -> bool {
    (p: Problem) => p.id in done
  }

  function IsTodoIn(done: set<string>): Problem -> bool {
    (p: Problem) => p.id !in done
  }

  /** `p.topic === t && doneSet.has(p.id)`. */
  function TopicDoneIn(t: string, done: set<string>): Problem -> bool {
    (p: Problem) => p.topic == t && p.id in done
  }

  /** `p.difficulty === d && doneSet.has(p.id)`. */
  function DifficultyDoneIn(d: string, done: set<string>): Problem -> bool {
    (p: Problem) => p.difficulty == d && p.id in done
  }
}
