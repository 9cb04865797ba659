/** Turning the topic-grouped dataset into the flat problem list and the
    topic list (`normalize`), and grouping the flat list back by topic for
    the topics view (`groupBy`). */
module Dataset {
  import opened Problems
  import opened Seqs

  datatype Dataset = Dataset(problems: seq<Problem>, topics: seq<string>)

  /** One item with its section's topic copied onto it. */
  function Tag(item: Item, topic: string): Problem {
    Problem(item.id, item.title, item.link, item.difficulty, topic)
  }

  function Untag(p: Problem): Item {
    Item(p.id, p.title, p.link, p.difficulty)
  }

  /** `section.items.map(...)`: one problem per item, in item order; taking
      the section's topic off each gives the items back. */
  function TagAll(items: seq<Item>, topic: string): (r: seq<Problem>)
    ensures |r| == |items|
    ensures forall j :: 0 <= j < |items| ==> Untag(r[j]) == items[j] && r[j].topic == topic
  {
    seq(|items|, j requires 0 <= j < |items| => Tag(items[j], topic))
  }

  /** Number of items over all sections. */
  function ItemCount(sections: seq<Section>): nat
    decreases |sections|
  {
    if |sections| == 0 then 0 else |sections[0].items| + ItemCount(sections[1..])
  }

  /** Where section `i`'s items start in the flat list. */
  function Offset(sections: seq<Section>, i: nat): nat
    requires i <= |sections|
  {
    ItemCount(sections[..i])
  }

  /** `data.flatMap(...)`: every problem is an item of some section,
      carrying that section's topic. */
  function Flatten(sections: seq<Section>): (r: seq<Problem>)
    ensures |r| == ItemCount(sections)
    ensures forall k :: 0 <= k < |r| ==>
              exists i :: 0 <= i < |sections| && r[k].topic == sections[i].topic && Untag(r[k]) in sections[i].items
    decreases |sections|
  {
    if |sections| == 0 then []
    else
      var head := TagAll(sections[0].items, sections[0].topic);
      var rest := Flatten(sections[1..]);
      assert forall k :: 0 <= k < |head| ==> Untag(head[k]) == sections[0].items[k];
      assert forall k :: 0 <= k < |rest| ==>
               exists i :: 0 <= i < |sections| && rest[k].topic == sections[i].topic && Untag(rest[k]) in sections[i].items by {
        forall k | 0 <= k < |rest|
          ensures exists i :: 0 <= i < |sections| && rest[k].topic == sections[i].topic && Untag(rest[k]) in sections[i].items
        {
          var i :| 0 <= i < |sections| - 1 && rest[k].topic == sections[1..][i].topic && Untag(rest[k]) in sections[1..][i].items;
          assert sections[1..][i] == sections[i + 1];
        }
      }
      head + rest
  }

  function Topics(sections: seq<Section>): (r: seq<string>)
    ensures |r| == |sections|
    ensures forall i :: 0 <= i < |sections| ==> r[i] == sections[i].topic
  {
    seq(|sections|, i requires 0 <= i < |sections| => sections[i].topic)
  }

  /** `normalize`: the two outputs agree, every problem's topic being on
      the topic list. */
  function Normalize(sections: seq<Section>): (r: Dataset)
    ensures |r.problems| == ItemCount(sections)
    ensures |r.topics| == |sections|
    ensures forall i :: 0 <= i < |sections| ==> r.topics[i] == sections[i].topic
    ensures forall p :: p in r.problems ==> p.topic in r.topics
  {
    var r := Dataset(Flatten(sections), Topics(sections));
    assert forall p :: p in r.problems ==> p.topic in r.topics by {
      forall p | p in r.problems
        ensures p.topic in r.topics
      {
        var k :| 0 <= k < |r.problems| && r.problems[k] == p;
        var i :| 0 <= i < |sections| && p.topic == sections[i].topic && Untag(p) in sections[i].items;
        assert r.topics[i] == p.topic;
      }
    }
    r
  }

  /** Flattening two runs of sections one after the other is flattening
      them together: section order is kept. */
  lemma {:induction false} FlattenAppend(a: seq<Section>, b: seq<Section>)
    ensures Flatten(a + b) == Flatten(a) + Flatten(b)
    decreases |a|
  {
    if |a| == 0 {
      assert a + b == b;
    } else {
      assert (a + b)[0] == a[0] && (a + b)[1..] == a[1..] + b;
      FlattenAppend(a[1..], b);
    }
  }

  lemma {:induction false} ItemCountAppend(a: seq<Section>, b: seq<Section>)
    ensures ItemCount(a + b) == ItemCount(a) + ItemCount(b)
    decreases |a|
  {
    if |a| == 0 {
      assert a + b == b;
    } else {
      assert (a + b)[1..] == a[1..] + b;
      ItemCountAppend(a[1..], b);
    }
  }

  /** Item `j` of section `i` sits at position `Offset(i) + j` of the flat
      list, tagged with the section's topic: item order inside a section
      and section order across the list are both kept. */
  lemma FlattenIndex(sections: seq<Section>, i: nat, j: nat)
    requires i < |sections| && j < |sections[i].items|
    ensures Offset(sections, i) + j < |Flatten(sections)|
    ensures Flatten(sections)[Offset(sections, i) + j] == Tag(sections[i].items[j], sections[i].topic)
  {
    var before, from := sections[..i], sections[i..];
    assert sections == before + from;
    FlattenAppend(before, from);
    ItemCountAppend(before, from);
    assert from[0] == sections[i];
    assert Flatten(from) == TagAll(sections[i].items, sections[i].topic) + Flatten(from[1..]);
  }

  /** The entry of `groupBy`'s result for one topic, in insertion order. */
  datatype Group = Group(topic: string, items: seq<Problem>)

  /** Index of the group for topic `t`, or -1. */
  function FindGroup(gs: seq<Group>, t: string): (r: int)
    ensures -1 <= r < |gs|
    ensures r >= 0 ==> gs[r].topic == t
    ensures r == -1 <==> forall i :: 0 <= i < |gs| ==> gs[i].topic != t
    decreases |gs|
  {
    if |gs| == 0 then -1
    else if gs[|gs| - 1].topic == t then |gs| - 1
    else FindGroup(gs[..|gs| - 1], t)
  }

  /** One step of the reduce: `(m[p.topic] ??= []).push(p)`. */
  function AddToGroups(gs: seq<Group>, p: Problem): seq<Group> {
    var i := FindGroup(gs, p.topic);
    if i < 0 then gs + [Group(p.topic, [p])]
    else gs[i := Group(p.topic, gs[i].items + [p])]
  }

  /** `groupBy(problems, 'topic')`, folding from the left. */
  function GroupBy(ps: seq<Problem>): (gs: seq<Group>)
    ensures |gs| <= |ps|
    decreases |ps|
  {
    if |ps| == 0 then [] else AddToGroups(GroupBy(ps[..|ps| - 1]), ps[|ps| - 1])
  }

  ghost predicate DistinctTopics(gs: seq<Group>) {
    forall i, j :: 0 <= i < j < |gs| ==> gs[i].topic != gs[j].topic
  }

  /** Position of the first problem of topic `t`, or `|ps|` when none. */
  function FirstIndex(ps: seq<Problem>, t: string): (r: nat)
    ensures r <= |ps|
    ensures r < |ps| ==> ps[r].topic == t
    ensures forall k :: 0 <= k < r ==> ps[k].topic != t
    decreases |ps|
  {
    if |ps| == 0 then 0
    else if ps[0].topic == t then 0
    else 1 + FirstIndex(ps[1..], t)
  }

  /** Every topic that occurs has a group. */
  ghost predicate CoversTopics(ps: seq<Problem>, gs: seq<Group>) {
    forall p :: p in ps ==> exists i :: 0 <= i < |gs| && gs[i].topic == p.topic
  }

  /** Each group holds exactly the problems of its topic, in list order. */
  ghost predicate ItemsByTopic(ps: seq<Problem>, gs: seq<Group>) {
    forall i :: 0 <= i < |gs| ==> gs[i].items == Filter(ps, HasTopic(gs[i].topic))
  }

  /** Every group's topic occurs, and the groups come in the order their
      topics first occur. */
  ghost predicate FirstOccurrenceOrder(ps: seq<Problem>, gs: seq<Group>) {
    && (forall i :: 0 <= i < |gs| ==> FirstIndex(ps, gs[i].topic) < |ps|)
    && (forall i, j :: 0 <= i < j < |gs| ==> FirstIndex(ps, gs[i].topic) < FirstIndex(ps, gs[j].topic))
  }

  /** What `groupBy` promises: one group per topic that occurs, no topic
      twice, each group holding exactly the problems of its topic in their
      original order, and the groups in the order their topics first
      occur. */
  ghost predicate GroupsOf(ps: seq<Problem>, gs: seq<Group>) {
    DistinctTopics(gs) && CoversTopics(ps, gs) && ItemsByTopic(ps, gs) && FirstOccurrenceOrder(ps, gs)
  }

  lemma {:induction false} GroupByCorrect(ps: seq<Problem>)
    ensures GroupsOf(ps, GroupBy(ps))
    decreases |ps|
  {
    if |ps| > 0 {
      var front, p := ps[..|ps| - 1], ps[|ps| - 1];
      assert ps == front + [p];
      GroupByCorrect(front);
      var gs := GroupBy(front);
      assert GroupBy(ps) == AddToGroups(gs, p);
      AddKeepsDistinct(gs, p);
      AddKeepsItems(front, gs, p);
      AddKeepsCover(front, gs, p);
      AddKeepsOrder(front, gs, p);
    }
  }

  /** Appending a problem moves no topic's first position, and a new topic
      first occurs at the end. */
  lemma {:induction false} FirstIndexAppend(ps: seq<Problem>, p: Problem, t: string)
    ensures FirstIndex(ps + [p], t) == if FirstIndex(ps, t) < |ps| || p.topic == t then FirstIndex(ps, t) else |ps| + 1
    decreases |ps|
  {
    if |ps| > 0 {
      assert (ps + [p])[0] == ps[0] && (ps + [p])[1..] == ps[1..] + [p];
      FirstIndexAppend(ps[1..], p, t);
    }
  }

  lemma {:induction false} FirstIndexAbsent(ps: seq<Problem>, t: string)
    requires forall q :: q in ps ==> q.topic != t
    ensures FirstIndex(ps, t) == |ps|
    decreases |ps|
  {
    if |ps| > 0 {
      FirstIndexAbsent(ps[1..], t);
    }
  }

  /** Adding a problem keeps every group's topic in place and, for a new
      topic, appends one group at the end. */
  lemma {:induction false} AddTopics(gs: seq<Group>, p: Problem)
    ensures var r := AddToGroups(gs, p);
      && |r| == (if FindGroup(gs, p.topic) < 0 then |gs| + 1 else |gs|)
      && (forall i :: 0 <= i < |gs| ==> r[i].topic == gs[i].topic)
      && (|r| > |gs| ==> r[|gs|].topic == p.topic)
  {}

  lemma AddFirstIndexOld(front: seq<Problem>, p: Problem, t: string)
    requires FirstIndex(front, t) < |front|
    ensures FirstIndex(front + [p], t) == FirstIndex(front, t)
  {
    FirstIndexAppend(front, p, t);
  }

  lemma AddFirstIndexNew(front: seq<Problem>, gs: seq<Group>, p: Problem)
    requires CoversTopics(front, gs)
    requires FindGroup(gs, p.topic) < 0
    ensures FirstIndex(front + [p], p.topic) == |front|
  {
    forall q | q in front ensures q.topic != p.topic {
      var j :| 0 <= j < |gs| && gs[j].topic == q.topic;
    }
    FirstIndexAbsent(front, p.topic);
    FirstIndexAppend(front, p, p.topic);
  }

  /** Where the topic of group `i` first occurs once `p` is appended: where
      it did before, or at the new end for a new topic. */
  lemma AddFirstIndex(front: seq<Problem>, gs: seq<Group>, p: Problem, i: int)
    requires CoversTopics(front, gs) && FirstOccurrenceOrder(front, gs)
    requires 0 <= i < |AddToGroups(gs, p)|
    ensures FirstIndex(front + [p], AddToGroups(gs, p)[i].topic)
            == if i < |gs| then FirstIndex(front, gs[i].topic) else |front|
  {
    AddTopics(gs, p);
    if i < |gs| {
      AddFirstIndexOld(front, p, gs[i].topic);
    } else {
      AddFirstIndexNew(front, gs, p);
    }
  }

  lemma AddKeepsOrder(front: seq<Problem>, gs: seq<Group>, p: Problem)
    requires CoversTopics(front, gs) && FirstOccurrenceOrder(front, gs)
    ensures FirstOccurrenceOrder(front + [p], AddToGroups(gs, p))
  {
    var ps, r := front + [p], AddToGroups(gs, p);
    forall i | 0 <= i < |r|
      ensures FirstIndex(ps, r[i].topic) < |ps|
    {
      AddFirstIndex(front, gs, p, i);
    }
    forall i, j | 0 <= i < j < |r|
      ensures FirstIndex(ps, r[i].topic) < FirstIndex(ps, r[j].topic)
    {
      AddFirstIndex(front, gs, p, i);
      AddFirstIndex(front, gs, p, j);
    }
  }

  lemma AddKeepsDistinct(gs: seq<Group>, p: Problem)
    requires DistinctTopics(gs)
    ensures DistinctTopics(AddToGroups(gs, p))
  {}

  lemma AddKeepsCover(front: seq<Problem>, gs: seq<Group>, p: Problem)
    requires CoversTopics(front, gs)
    ensures CoversTopics(front + [p], AddToGroups(gs, p))
  {
    var r := AddToGroups(gs, p);
    var k := FindGroup(gs, p.topic);
    forall q | q in front + [p]
      ensures exists i :: 0 <= i < |r| && r[i].topic == q.topic
    {
      if q in front {
        var i :| 0 <= i < |gs| && gs[i].topic == q.topic;
        assert r[i].topic == q.topic;
      } else if k < 0 {
        assert r[|gs|].topic == q.topic;
      } else {
        assert r[k].topic == q.topic;
      }
    }
  }

  lemma AddKeepsItems(front: seq<Problem>, gs: seq<Group>, p: Problem)
    requires DistinctTopics(gs) && CoversTopics(front, gs) && ItemsByTopic(front, gs)
    ensures ItemsByTopic(front + [p], AddToGroups(gs, p))
  {
    forall i | 0 <= i < |AddToGroups(gs, p)|
      ensures AddToGroups(gs, p)[i].items == Filter(front + [p], HasTopic(AddToGroups(gs, p)[i].topic))
    {
      AddKeepsItemAt(front, gs, p, i);
    }
  }

  lemma {:induction false} FilterSingle(p: Problem, t: string)
    ensures Filter([p], HasTopic(t)) == if p.topic == t then [p] else []
  {
    assert [p][1..] == [];
  }

  lemma AddKeepsItemAt(front: seq<Problem>, gs: seq<Group>, p: Problem, i: nat)
    requires DistinctTopics(gs) && CoversTopics(front, gs) && ItemsByTopic(front, gs)
    requires i < |AddToGroups(gs, p)|
    ensures AddToGroups(gs, p)[i].items == Filter(front + [p], HasTopic(AddToGroups(gs, p)[i].topic))
  {
    var r := AddToGroups(gs, p);
    var t := r[i].topic;
    var k := FindGroup(gs, p.topic);
    FilterAppend(front, [p], HasTopic(t));
    FilterSingle(p, t);
    if k < 0 && i == |gs| {
      assert t == p.topic;
      assert forall q :: q in front ==> !HasTopic(t)(q);
      FilterKeepsNone(front, HasTopic(t));
    } else if k < 0 {
      assert r[i] == gs[i] && t != p.topic;
    } else if i == k {
      assert t == p.topic && r[i].items == gs[k].items + [p];
    } else {
      assert r[i] == gs[i] && t != p.topic;
    }
  }
}
