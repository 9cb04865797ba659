/** The all-problems table: the filter controls applied one after the other,
    the sort control parsed into a key and a direction, the three
    comparators as written, and a stable sort over them. */
module Table {
  import opened Problems
  import opened Seqs
  import Strings

  /** The raw values of the search box, the topic, difficulty and status
      selects and the sort select; a missing control reads as "". */
  datatype Controls = Controls(search: string, topic: string, difficulty: string, status: string, sort: string)

  /** `value.trim().toLowerCase()`: a term with no white space at either
      end and no upper-case letter. */
  function SearchTerm(raw: string): (term: string)
    ensures |term| > 0 ==> !Strings.IsSpace(term[0]) && !Strings.IsSpace(term[|term| - 1])
    ensures forall i :: 0 <= i < |term| ==> !Strings.IsUpper(term[i])
  {
    var t := Strings.Trim(raw);
    assert |t| > 0 ==> !Strings.IsSpace(Strings.LowerChar(t[0])) && !Strings.IsSpace(Strings.LowerChar(t[|t| - 1])) by {
      if |t| > 0 {
        Strings.LowerCharSpace(t[0]);
        Strings.LowerCharSpace(t[|t| - 1]);
      }
    }
    Strings.Lower(t)
  }

  /** `p.title.toLowerCase().includes(term)`. */
  function TitleHas(term: string): Problem -> bool {
    (p: Problem) => Strings.Includes(Strings.Lower(p.title), term)
  }

  /** The rows of the table before sorting, filtered in the order the
      handler applies the controls; an empty control is skipped. */
  function ApplyFilters(ps: seq<Problem>, done: set<string>, c: Controls): (rows: seq<Problem>)
    ensures rows == Filter(ps, Matches(c, done))
  {
    var term := SearchTerm(c.search);
    var bySearch := if term != "" then Filter(ps, TitleHas(term)) else ps;
    var byTopic := if c.topic != "" then Filter(bySearch, HasTopic(c.topic)) else bySearch;
    var byDifficulty := if c.difficulty != "" then Filter(byTopic, HasDifficulty(c.difficulty)) else byTopic;
    var byDone := if c.status == "done" then Filter(byDifficulty, IsDoneIn(done)) else byDifficulty;
    var rows := if c.status == "todo" then Filter(byDone, IsTodoIn(done)) else byDone;
    FiltersCompose(ps, done, c);
    rows
  }

  /** The conjunction of every active control: what a row must satisfy to
      be shown. */
  function Matches(c: Controls, done: set<string>): Problem -> bool {
    (p: Problem) =>
      && (SearchTerm(c.search) == "" || TitleHas(SearchTerm(c.search))(p))
      && (c.topic == "" || p.topic == c.topic)
      && (c.difficulty == "" || p.difficulty == c.difficulty)
      && (c.status != "done" || p.id in done)
      && (c.status != "todo" || p.id !in done)
  }

  /** One more optional filter on top of a filter. */
  lemma {:induction false} Narrow(xs: seq<Problem>, f: Problem -> bool, active: bool, g: Problem -> bool, h: Problem -> bool)
    requires forall x :: x in xs ==> h(x) == (f(x) && (!active || g(x)))
    ensures (if active then Filter(Filter(xs, f), g) else Filter(xs, f)) == Filter(xs, h)
  {
    if active {
      FilterTwice(xs, f, g, h);
    } else {
      FilterAgree(xs, f, h);
    }
  }

  lemma FiltersCompose(ps: seq<Problem>, done: set<string>, c: Controls)
    ensures
      var term := SearchTerm(c.search);
      var bySearch := if term != "" then Filter(ps, TitleHas(term)) else ps;
      var byTopic := if c.topic != "" then Filter(bySearch, HasTopic(c.topic)) else bySearch;
      var byDifficulty := if c.difficulty != "" then Filter(byTopic, HasDifficulty(c.difficulty)) else byTopic;
      var byDone := if c.status == "done" then Filter(byDifficulty, IsDoneIn(done)) else byDifficulty;
      (if c.status == "todo" then Filter(byDone, IsTodoIn(done)) else byDone) == Filter(ps, Matches(c, done))
  {
    var term := SearchTerm(c.search);
    var m1 := (p: Problem) => term == "" || TitleHas(term)(p);
    var m2 := (p: Problem) => m1(p) && (c.topic == "" || p.topic == c.topic);
    var m3 := (p: Problem) => m2(p) && (c.difficulty == "" || p.difficulty == c.difficulty);
    var m4 := (p: Problem) => m3(p) && (c.status != "done" || p.id in done);
    var m5 := Matches(c, done);
    var all := (p: Problem) => true;
    FilterKeepsAll(ps, all);
    Narrow(ps, all, term != "", TitleHas(term), m1);
    Narrow(ps, m1, c.topic != "", HasTopic(c.topic), m2);
    Narrow(ps, m2, c.difficulty != "", HasDifficulty(c.difficulty), m3);
    Narrow(ps, m3, c.status == "done", IsDoneIn(done), m4);
    Narrow(ps, m4, c.status == "todo", IsTodoIn(done), m5);
  }

  /** With every control empty (a search of only white space counts as
      empty, and any status other than done or todo means all) the table
      shows every problem. */
  lemma {:induction false} EmptyControlsKeepAll(ps: seq<Problem>, done: set<string>, c: Controls)
    requires SearchTerm(c.search) == "" && c.topic == "" && c.difficulty == ""
    requires c.status != "done" && c.status != "todo"
    ensures ApplyFilters(ps, done, c) == ps
  {
    FilterKeepsAll(ps, Matches(c, done));
  }

  /** The search ignores the case of the query and white space around it. */
  lemma SearchIgnoresCase(raw: string)
    ensures SearchTerm(Strings.Lower(raw)) == SearchTerm(raw)
  {
    Strings.LowerTrim(raw);
    Strings.LowerTrim(Strings.Trim(raw));
  }

  datatype SortKey = ByTitle | ByTopic | ByDifficulty

  datatype Order = Order(key: SortKey, asc: bool)

  /** `(value || 'title-asc').split('-')`: the first piece picks the key
      (anything but difficulty or topic sorts by title), the second the
      direction. A second piece other than asc is descending. Without a
      second piece the direction is undefined: the topic and difficulty
      comparators then sort descending, while `by` falls back to its
      default and sorts titles ascending. */
  function ParseSort(value: string): Order {
    var parts := Strings.Split(if value == "" then "title-asc" else value, '-');
    var key := if parts[0] == "difficulty" then ByDifficulty
               else if parts[0] == "topic" then ByTopic
               else ByTitle;
    Order(key, if |parts| >= 2 then parts[1] == "asc" else key == ByTitle)
  }

  function KeyName(k: SortKey): string {
    match k
    case ByTitle => "title"
    case ByTopic => "topic"
    case ByDifficulty => "difficulty"
  }

  /** The value of the sort select for an order: `key-asc` or `key-desc`. */
  function SortValue(o: Order): string {
    KeyName(o.key) + "-" + (if o.asc then "asc" else "desc")
  }

  lemma {:induction false} SplitNoSeparator(s: string, sep: char)
    requires sep !in s
    ensures Strings.Split(s, sep) == [s]
    decreases |s|
  {
    if |s| > 0 {
      SplitNoSeparator(s[1..], sep);
      assert [s[0]] + s[1..] == s;
    }
  }

  lemma {:induction false} SplitPair(a: string, b: string, sep: char)
    requires sep !in a && sep !in b
    ensures Strings.Split(a + [sep] + b, sep) == [a, b]
    decreases |a|
  {
    if |a| == 0 {
      assert a + [sep] + b == [sep] + b;
      assert ([sep] + b)[1..] == b;
      SplitNoSeparator(b, sep);
    } else {
      var s := a + [sep] + b;
      assert s[0] == a[0] && s[1..] == a[1..] + [sep] + b;
      SplitPair(a[1..], b, sep);
      assert [a[0]] + a[1..] == a;
    }
  }

  /** Every order the select offers parses back to itself. */
  lemma ParseSortValue(o: Order)
    ensures ParseSort(SortValue(o)) == o
  {
    var name, dir := KeyName(o.key), if o.asc then "asc" else "desc";
    assert SortValue(o) == name + ['-'] + dir;
    SplitPair(name, dir, '-');
  }

  /** The default order is title ascending. */
  lemma DefaultSort()
    ensures ParseSort("") == Order(ByTitle, true)
  {
    ParseSortValue(Order(ByTitle, true));
    assert SortValue(Order(ByTitle, true)) == "title-asc";
  }

  /** A value without a direction sorts titles ascending (the default of
      `by`), and topics and difficulties descending (an undefined
      direction is not asc). */
  lemma NoDirection(value: string)
    requires value != "" && '-' !in value
    ensures ParseSort(value).key == if value == "difficulty" then ByDifficulty
                                    else if value == "topic" then ByTopic
                                    else ByTitle
    ensures ParseSort(value).asc <==> ParseSort(value).key == ByTitle
  {
    SplitNoSeparator(value, '-');
  }

  lemma NoDirectionExamples()
    ensures ParseSort("title") == Order(ByTitle, true)
    ensures ParseSort("topic") == Order(ByTopic, false)
    ensures ParseSort("difficulty") == Order(ByDifficulty, false)
  {
    NoDirection("title");
    NoDirection("topic");
    NoDirection("difficulty");
  }

  /** JavaScript's `x || y` on numbers: `y` when `x` is 0. */
  function Or(x: int, y: int): int {
    if x != 0 then x else y
  }

  function Sign(asc: bool): int {
    if asc then 1 else -1
  }

  /** The comparator the handler passes to `rows.sort`. The difficulty
      comparator subtracts ranks; an unknown difficulty has no rank, the
      difference is NaN and falls through to the title. */
  function Compare(o: Order, a: Problem, b: Problem): int {
    match o.key
    case ByDifficulty =>
      var primary := if IsKnown(a.difficulty) && IsKnown(b.difficulty)
                     then (Rank(a.difficulty) - Rank(b.difficulty)) * Sign(o.asc) else 0;
      Or(primary, Strings.Compare(a.title, b.title))
    case ByTopic =>
      Or(Strings.Compare(a.topic, b.topic) * Sign(o.asc), Strings.Compare(a.title, b.title))
    case ByTitle =>
      if Strings.LexLess(a.title, b.title) then (if o.asc then -1 else 1)
      else if Strings.LexLess(b.title, a.title) then (if o.asc then 1 else -1)
      else 0
  }

  /** `a` may be listed before `b`: the order the table promises, stated on
      the keys. The difficulty and topic orders compare the primary key in
      the chosen direction and break ties by title ascending. */
  predicate Before(o: Order, a: Problem, b: Problem) {
    match o.key
    case ByTitle =>
      if o.asc then !Strings.LexLess(b.title, a.title) else !Strings.LexLess(a.title, b.title)
    case ByTopic =>
      || (if o.asc then Strings.LexLess(a.topic, b.topic) else Strings.LexLess(b.topic, a.topic))
      || (a.topic == b.topic && !Strings.LexLess(b.title, a.title))
    case ByDifficulty =>
      if IsKnown(a.difficulty) && IsKnown(b.difficulty) then
        || (if o.asc then Rank(a.difficulty) < Rank(b.difficulty) else Rank(a.difficulty) > Rank(b.difficulty))
        || (Rank(a.difficulty) == Rank(b.difficulty) && !Strings.LexLess(b.title, a.title))
      else
        !Strings.LexLess(b.title, a.title)
  }

  /** The comparator agrees with the stated order: a non-positive result
      means `a` may come first, a negative one that `b` may not. */
  lemma CompareMeaning(o: Order, a: Problem, b: Problem)
    ensures Compare(o, a, b) <= 0 <==> Before(o, a, b)
    ensures Compare(o, a, b) < 0 <==> !Before(o, b, a)
  {
    Strings.LexIrreflexive(a.title);
    Strings.LexIrreflexive(a.topic);
    if a.title != b.title {
      Strings.LexTotal(a.title, b.title);
    }
    if Strings.LexLess(a.title, b.title) {
      Strings.LexAsymmetric(a.title, b.title);
    }
    if Strings.LexLess(b.title, a.title) {
      Strings.LexAsymmetric(b.title, a.title);
    }
    if a.topic != b.topic {
      Strings.LexTotal(a.topic, b.topic);
    }
    if Strings.LexLess(a.topic, b.topic) {
      Strings.LexAsymmetric(a.topic, b.topic);
    }
    if Strings.LexLess(b.topic, a.topic) {
      Strings.LexAsymmetric(b.topic, a.topic);
    }
  }

  /** Descending title order is the reverse comparison. */
  lemma TitleDescReverses(a: Problem, b: Problem)
    ensures Compare(Order(ByTitle, false), a, b) == -Compare(Order(ByTitle, true), a, b)
  {}

  /** For the topic and difficulty orders, descending negates only the
      primary key: when the primary keys tie both directions fall back to
      the same title comparison. */
  lemma DescNegatesPrimaryOnly(key: SortKey, a: Problem, b: Problem)
    requires key != ByTitle
    ensures
      var tie := if key == ByTopic then a.topic == b.topic
                 else !(IsKnown(a.difficulty) && IsKnown(b.difficulty)) || a.difficulty == b.difficulty;
      Compare(Order(key, false), a, b)
        == if tie then Compare(Order(key, true), a, b) else -Compare(Order(key, true), a, b)
  {
    if key == ByTopic {
      Strings.LexIrreflexive(a.topic);
    }
  }

  /** Which rows the difficulty order is a total preorder on: rows with a
      known difficulty. For the other keys, every row. */
  ghost predicate Comparable(o: Order, xs: seq<Problem>) {
    o.key == ByDifficulty ==> forall p :: p in xs ==> IsKnown(p.difficulty)
  }

  lemma BeforeTransitive(o: Order, a: Problem, b: Problem, c: Problem)
    requires o.key == ByDifficulty ==> IsKnown(a.difficulty) && IsKnown(b.difficulty) && IsKnown(c.difficulty)
    requires Before(o, a, b) && Before(o, b, c)
    ensures Before(o, a, c)
  {
    if !Strings.LexLess(b.title, a.title) && !Strings.LexLess(c.title, b.title) {
      LexLeTransitive(a.title, b.title, c.title);
    }
    if !Strings.LexLess(a.title, b.title) && !Strings.LexLess(b.title, c.title) {
      LexLeTransitive(c.title, b.title, a.title);
    }
    if o.key == ByTopic {
      if Strings.LexLess(a.topic, b.topic) && Strings.LexLess(b.topic, c.topic) {
        Strings.LexTransitive(a.topic, b.topic, c.topic);
      }
      if Strings.LexLess(b.topic, a.topic) && Strings.LexLess(c.topic, b.topic) {
        Strings.LexTransitive(c.topic, b.topic, a.topic);
      }
    }
  }

  /** "Not after" is transitive for the string order. */
  lemma {:induction false} LexLeTransitive(x: string, y: string, z: string)
    requires !Strings.LexLess(y, x) && !Strings.LexLess(z, y)
    ensures !Strings.LexLess(z, x)
  {
    if Strings.LexLess(z, x) {
      if x != y {
        Strings.LexTotal(x, y);
        if y != z {
          Strings.LexTotal(y, z);
          Strings.LexTransitive(x, y, z);
          Strings.LexAsymmetric(x, z);
        }
      }
    }
  }

  lemma BeforeTotal(o: Order, a: Problem, b: Problem)
    ensures Before(o, a, b) || Before(o, b, a)
  {
    CompareMeaning(o, a, b);
  }

  /** Insert `x` into `s` after every row it does not sort strictly before,
      so that rows the comparator ties keep their input order. */
  function Insert(o: Order, x: Problem, s: seq<Problem>): (r: seq<Problem>)
    ensures multiset(r) == multiset(s) + multiset{x}
    decreases |s|
  {
    if |s| == 0 then [x]
    else if Compare(o, x, s[0]) < 0 then [x] + s
    else
      assert s == [s[0]] + s[1..];
      [s[0]] + Insert(o, x, s[1..])
  }

  /** `rows.sort(compare)`: `Array.prototype.sort` is stable, and this is
      a stable insertion sort over the same comparator. */
  function Sort(o: Order, xs: seq<Problem>): (r: seq<Problem>)
    ensures multiset(r) == multiset(xs)
    decreases |xs|
  {
    if |xs| == 0 then []
    else
      assert xs == xs[..|xs| - 1] + [xs[|xs| - 1]];
      Insert(o, xs[|xs| - 1], Sort(o, xs[..|xs| - 1]))
  }

  ghost predicate SortedBy(o: Order, s: seq<Problem>) {
    forall i, j :: 0 <= i < j < |s| ==> Before(o, s[i], s[j])
  }

  lemma {:induction false} InsertSorted(o: Order, x: Problem, s: seq<Problem>)
    requires SortedBy(o, s) && Comparable(o, s + [x])
    ensures SortedBy(o, Insert(o, x, s))
    decreases |s|
  {
    if |s| > 0 {
      var r := Insert(o, x, s);
      CompareMeaning(o, x, s[0]);
      assert forall p :: p in s ==> p in s + [x];
      if Compare(o, x, s[0]) < 0 {
        forall j | 1 <= j < |r|
          ensures Before(o, r[0], r[j])
        {
          if j > 1 {
            BeforeTransitive(o, x, s[0], s[j - 1]);
          }
        }
      } else {
        BeforeTotal(o, x, s[0]);
        var tail := s[1..];
        assert forall p :: p in tail + [x] ==> p in s + [x];
        InsertSorted(o, x, tail);
        var rest := Insert(o, x, tail);
        assert r == [s[0]] + rest;
        forall j | 0 <= j < |rest|
          ensures Before(o, s[0], rest[j])
        {
          assert rest[j] in multiset(rest);
          assert rest[j] == x || rest[j] in tail;
          if rest[j] != x {
            var k :| 0 <= k < |tail| && tail[k] == rest[j];
            assert s[k + 1] == rest[j];
          }
        }
      }
    }
  }

  /** The sort leaves every row in order, on rows it can order. */
  lemma {:induction false} SortSorted(o: Order, xs: seq<Problem>)
    requires Comparable(o, xs)
    ensures SortedBy(o, Sort(o, xs))
    decreases |xs|
  {
    if |xs| > 0 {
      var front := xs[..|xs| - 1];
      assert forall p :: p in front ==> p in xs;
      SortSorted(o, front);
      var sorted := Sort(o, front);
      assert forall p :: p in sorted + [xs[|xs| - 1]] ==> p in xs by {
        forall p | p in sorted + [xs[|xs| - 1]] ensures p in xs {
          assert p in multiset(sorted) || p == xs[|xs| - 1];
        }
      }
      InsertSorted(o, xs[|xs| - 1], sorted);
    }
  }

  /** The body of the all-problems table. */
  function View(ps: seq<Problem>, done: set<string>, c: Controls): seq<Problem> {
    Sort(ParseSort(c.sort), ApplyFilters(ps, done, c))
  }

  /** The table shows exactly the problems satisfying every active control,
      each as often as in the problem list (so at most once when ids are
      unique), in the order the sort control names. */
  lemma ViewCorrect(ps: seq<Problem>, done: set<string>, c: Controls)
    ensures forall p :: p in View(ps, done, c) <==> p in ps && Matches(c, done)(p)
    ensures forall p :: multiset(View(ps, done, c))[p] == if Matches(c, done)(p) then multiset(ps)[p] else 0
    ensures Comparable(ParseSort(c.sort), ps) ==> SortedBy(ParseSort(c.sort), View(ps, done, c))
  {
    var rows := ApplyFilters(ps, done, c);
    FilterMultiset(ps, Matches(c, done));
    assert forall p :: p in View(ps, done, c) <==> p in multiset(rows);
    if Comparable(ParseSort(c.sort), ps) {
      SortSorted(ParseSort(c.sort), rows);
    }
  }

  /** A list without repeated ids holds every problem once. */
  lemma {:induction false} UniqueIdsOnce(ps: seq<Problem>)
    requires UniqueIds(ps)
    ensures forall p :: multiset(ps)[p] <= 1
    decreases |ps|
  {
    if |ps| > 0 {
      var tail := ps[1..];
      assert UniqueIds(tail) by {
        forall i, j | 0 <= i < |tail| && 0 <= j < |tail| && tail[i].id == tail[j].id
          ensures i == j
        {
          assert ps[i + 1].id == ps[j + 1].id;
        }
      }
      UniqueIdsOnce(tail);
      assert ps[0] !in tail by {
        forall k | 0 <= k < |tail| ensures tail[k] != ps[0] {
          assert tail[k] == ps[k + 1];
        }
      }
      assert ps == [ps[0]] + tail;
    }
  }
}
