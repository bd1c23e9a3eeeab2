/** The maintenance script (`mongodb_test.py`): find the names that occur in
    more than one document, keep the first document of each such name and
    delete the others, then delete eight fixed test names. */
module Cleanup {
  import opened Player
  import opened Seqs
  import opened Store

  /** One output document of the `$group` stage: the name (`_id`), how many
      documents carry it (`count`) and their ids in collection order (`ids`). */
  datatype Group = Group(name: string, count: int, ids: seq<DocId>)

  /** The names occurring in `docs`. */
  function NameSet(docs: seq<Document>): set<string> {
    set d | d in docs :: d.player.name
  }

  /** `{"$push": "$_id"}` for one name: the ids of the documents with that
      name, in collection order. */
  function IdsNamed(docs: seq<Document>, name: string): (r: seq<DocId>)
    ensures |r| <= |docs|
    ensures forall x :: x in r ==> x in IdSet(docs)
  {
    if docs == [] then []
    else (if docs[0].player.name == name then [docs[0].id] else []) + IdsNamed(docs[1..], name)
  }

  /** Every id of `IdsNamed` belongs to a document with that name, and back. */
  lemma {:induction false} IdsNamedMember(docs: seq<Document>, name: string, x: DocId)
    ensures x in IdsNamed(docs, name) <==>
      exists k :: 0 <= k < |docs| && docs[k].id == x && docs[k].player.name == name
  {
    if docs != [] {
      IdsNamedMember(docs[1..], name, x);
      if x in IdsNamed(docs[1..], name) {
        var k :| 0 <= k < |docs[1..]| && docs[1..][k].id == x && docs[1..][k].player.name == name;
        assert docs[k + 1] == docs[1..][k];
      }
      if exists k :: 0 <= k < |docs| && docs[k].id == x && docs[k].player.name == name {
        var k :| 0 <= k < |docs| && docs[k].id == x && docs[k].player.name == name;
        if k > 0 {
          assert docs[1..][k - 1] == docs[k];
        }
      }
    }
  }

  /** With unique ids, a listed id belongs to a document of that name only. */
  lemma IdsNamedOwner(docs: seq<Document>, name: string, k: int)
    requires DistinctIds(docs) && 0 <= k < |docs|
    requires docs[k].id in IdsNamed(docs, name)
    ensures docs[k].player.name == name
  {
    IdsNamedMember(docs, name, docs[k].id);
  }

  /** With unique ids, no id is listed twice for a name. */
  lemma {:induction false} IdsNamedDistinct(docs: seq<Document>, name: string)
    requires DistinctIds(docs)
    ensures forall i, j :: 0 <= i < j < |IdsNamed(docs, name)| ==> IdsNamed(docs, name)[i] != IdsNamed(docs, name)[j]
  {
    if docs != [] {
      var rest := docs[1..];
      IdsNamedDistinct(rest, name);
      IdsNamedMember(rest, name, docs[0].id);
    }
  }

  /** A document's id is among the LATER ids of its name (past the first)
      exactly when an earlier document has the same name. */
  lemma {:induction false} LaterIdIffEarlierName(docs: seq<Document>, i: int)
    requires DistinctIds(docs) && 0 <= i < |docs|
    ensures docs[i].id in IdsNamed(docs, docs[i].player.name)
    ensures var n := docs[i].player.name;
      docs[i].id in IdsNamed(docs, n)[1..] <==> n in NameSet(docs[..i])
  {
    IdsNamedMember(docs, docs[i].player.name, docs[i].id);
    var n := docs[i].player.name;
    var rest := docs[1..];
    if i == 0 {
      assert docs[..i] == [];
      assert IdsNamed(docs, n)[1..] == IdsNamed(rest, n);
      IdsNamedMember(rest, n, docs[0].id);
    } else {
      assert docs[i] == rest[i - 1];
      assert docs[..i] == [docs[0]] + rest[..i - 1];
      assert NameSet(docs[..i]) == {docs[0].player.name} + NameSet(rest[..i - 1]);
      if docs[0].player.name == n {
        assert IdsNamed(docs, n)[1..] == IdsNamed(rest, n);
        IdsNamedMember(rest, n, docs[i].id);
        assert docs[0] in docs[..i];
      } else {
        assert IdsNamed(docs, n) == IdsNamed(rest, n);
        LaterIdIffEarlierName(rest, i - 1);
      }
    }
  }

  /** The documents whose name has not occurred earlier: the first document of
      every name, in collection order. */
  function KeepFirst(docs: seq<Document>): seq<Document> {
    if docs == [] then []
    else
      var init, last := docs[..|docs| - 1], docs[|docs| - 1];
      if last.player.name in NameSet(init) then KeepFirst(init) else KeepFirst(init) + [last]
  }

  /** Keeping the first document of each name loses no name. */
  lemma {:induction false} KeepFirstKeepsNames(docs: seq<Document>)
    ensures NameSet(KeepFirst(docs)) == NameSet(docs)
  {
    if docs != [] {
      var init, last := docs[..|docs| - 1], docs[|docs| - 1];
      KeepFirstKeepsNames(init);
      assert docs == init + [last];
      assert NameSet(docs) == NameSet(init) + {last.player.name};
      if last.player.name !in NameSet(init) {
      }
    }
  }

  /** No two documents share a name. */
  ghost predicate NamesUnique(docs: seq<Document>) {
    forall i, j :: 0 <= i < j < |docs| ==> docs[i].player.name != docs[j].player.name
  }

  /** After keeping the first document of each name, every name occurs once. */
  lemma {:induction false} KeepFirstNamesUnique(docs: seq<Document>)
    ensures NamesUnique(KeepFirst(docs))
  {
    if docs != [] {
      var init, last := docs[..|docs| - 1], docs[|docs| - 1];
      KeepFirstNamesUnique(init);
      KeepFirstKeepsNames(init);
      var k := KeepFirst(init);
      if last.player.name !in NameSet(init) {
        var r := k + [last];
        forall i, j | 0 <= i < j < |r|
          ensures r[i].player.name != r[j].player.name
        {
          if j == |r| - 1 {
            assert r[i] in k;
          } else {
          }
        }
      }
    }
  }

  /** A document whose name has not occurred earlier is kept. */
  lemma {:induction false} KeepFirstKeepsFirst(docs: seq<Document>, i: int)
    requires 0 <= i < |docs| && docs[i].player.name !in NameSet(docs[..i])
    ensures docs[i] in KeepFirst(docs)
  {
    var init, last := docs[..|docs| - 1], docs[|docs| - 1];
    if i < |docs| - 1 {
      KeepFirstKeepsFirst(init, i);
    } else {
      assert init == docs[..i];
    }
  }

  /** Deleting by id keeps the first document of each name when the deleted
      ids are exactly those of documents whose name occurred earlier. */
  lemma {:induction false} RemovingLaterCopies(docs: seq<Document>, ids: set<DocId>)
    requires forall i :: 0 <= i < |docs| ==> (docs[i].id in ids <==> docs[i].player.name in NameSet(docs[..i]))
    ensures RemoveIds(docs, ids) == KeepFirst(docs)
  {
    if docs != [] {
      var init, last := docs[..|docs| - 1], docs[|docs| - 1];
      assert docs == init + [last];
      forall i | 0 <= i < |init|
        ensures init[i].id in ids <==> init[i].player.name in NameSet(init[..i])
      {
      }
      RemovingLaterCopies(init, ids);
      FilterConcat(init, [last], IdNotIn(ids));
      assert docs[..|docs| - 1] == init;
    }
  }

  /** The ids `delete_many` removes for one group: all but the first. */
  function LaterIds(g: Group): set<DocId> {
    if g.ids == [] then {} else set x | x in g.ids[1..]
  }

  /** All ids the loop of lines 29-35 deletes. */
  function Dropped(groups: seq<Group>): set<DocId> {
    if groups == [] then {}
    else Dropped(groups[..|groups| - 1]) + LaterIds(groups[|groups| - 1])
  }

  lemma {:induction false} DroppedMember(groups: seq<Group>, x: DocId)
    ensures x in Dropped(groups) <==> exists k :: 0 <= k < |groups| && x in LaterIds(groups[k])
  {
    if groups != [] {
      var init := groups[..|groups| - 1];
      DroppedMember(init, x);
      if exists k :: 0 <= k < |init| && x in LaterIds(init[k]) {
        var k :| 0 <= k < |init| && x in LaterIds(init[k]);
        assert groups[k] == init[k];
      }
      if exists k :: 0 <= k < |groups| && x in LaterIds(groups[k]) {
        var k :| 0 <= k < |groups| && x in LaterIds(groups[k]);
        if k < |init| {
          assert groups[k] == init[k];
        }
      }
    }
  }

  /** How many documents the loop deletes: the sum over groups of count - 1. */
  function SumExtra(groups: seq<Group>): int {
    if groups == [] then 0
    else SumExtra(groups[..|groups| - 1]) + (groups[|groups| - 1].count - 1)
  }

  /** Each group lists the ids of its name, each once but in no promised order
      (the store does not say in which order `$push` meets the documents),
      with their number, more than one of them; no two groups share a name. (A
      prefix of a report still has this shape.) */
  ghost predicate WellFormedGroups(groups: seq<Group>, docs: seq<Document>) {
    && (forall k :: 0 <= k < |groups| ==>
          multiset(groups[k].ids) == multiset(IdsNamed(docs, groups[k].name))
          && groups[k].count == |groups[k].ids| && groups[k].count > 1)
    && (forall k, l :: 0 <= k < l < |groups| ==> groups[k].name != groups[l].name)
  }

  /** What the aggregation of lines 22-26 returns, in whatever order the store
      emits its groups: one well-formed group for every name with more than one
      document, and no others. */
  ghost predicate IsDuplicateReport(groups: seq<Group>, docs: seq<Document>) {
    && WellFormedGroups(groups, docs)
    && (forall n :: |IdsNamed(docs, n)| > 1 ==> exists k :: 0 <= k < |groups| && groups[k].name == n)
  }

  /** Every group lists its ids in collection order, as `Aggregate` does. */
  ghost predicate InCollectionOrder(groups: seq<Group>, docs: seq<Document>) {
    forall k :: 0 <= k < |groups| ==> groups[k].ids == IdsNamed(docs, groups[k].name)
  }

  /** A group's ids are the ids of its name, as many of them, each once. */
  lemma GroupIds(docs: seq<Document>, g: Group)
    requires DistinctIds(docs) && multiset(g.ids) == multiset(IdsNamed(docs, g.name))
    ensures forall x :: x in g.ids <==> x in IdsNamed(docs, g.name)
    ensures |g.ids| == |IdsNamed(docs, g.name)|
    ensures forall i, j :: 0 <= i < j < |g.ids| ==> g.ids[i] != g.ids[j]
  {
    var ids := IdsNamed(docs, g.name);
    IdsNamedDistinct(docs, g.name);
    DistinctCount(ids);
    CountedOnceDistinct(g.ids);
    forall x
      ensures x in g.ids <==> x in ids
    {
      assert x in g.ids <==> x in multiset(g.ids);
      assert x in ids <==> x in multiset(ids);
    }
  }

  /** A group's later ids belong to documents with the group's name. */
  lemma LaterIdsOwned(docs: seq<Document>, g: Group, x: DocId)
    requires DistinctIds(docs) && multiset(g.ids) == multiset(IdsNamed(docs, g.name))
    requires x in LaterIds(g)
    ensures x in IdsNamed(docs, g.name)
    ensures exists d :: 0 <= d < |docs| && docs[d].id == x && docs[d].player.name == g.name
  {
    var m :| 0 <= m < |g.ids[1..]| && g.ids[1..][m] == x;
    assert g.ids[m + 1] == x;
    GroupIds(docs, g);
    IdsNamedMember(docs, g.name, x);
  }

  /** With unique ids, an id is listed under one name only. */
  lemma IdsNamedDisjoint(docs: seq<Document>, a: string, b: string, x: DocId)
    requires DistinctIds(docs) && x in IdsNamed(docs, a) && x in IdsNamed(docs, b)
    ensures a == b
  {
    IdsNamedMember(docs, a, x);
    var d :| 0 <= d < |docs| && docs[d].id == x && docs[d].player.name == a;
    IdsNamedOwner(docs, b, d);
  }

  /** A group deletes one document fewer than it counts. */
  lemma LaterIdsCard(docs: seq<Document>, g: Group)
    requires DistinctIds(docs) && multiset(g.ids) == multiset(IdsNamed(docs, g.name)) && |g.ids| >= 1
    ensures |LaterIds(g)| == |g.ids| - 1
  {
    GroupIds(docs, g);
    var later := g.ids[1..];
    assert forall i, j :: 0 <= i < j < |later| ==> later[i] == g.ids[i + 1] && later[j] == g.ids[j + 1];
    DistinctCard(later);
  }

  /** The deleted ids are ids of the collection, as many as the counts say. */
  lemma {:induction false} DroppedSize(docs: seq<Document>, groups: seq<Group>)
    requires DistinctIds(docs) && WellFormedGroups(groups, docs)
    ensures Dropped(groups) <= IdSet(docs)
    ensures |Dropped(groups)| == SumExtra(groups)
  {
    if groups != [] {
      var init, last := groups[..|groups| - 1], groups[|groups| - 1];
      assert WellFormedGroups(init, docs) by {
        forall k | 0 <= k < |init| ensures init[k] == groups[k] { }
      }
      DroppedSize(docs, init);
      LaterIdsCard(docs, last);
      forall x | x in LaterIds(last)
        ensures x in IdSet(docs)
      {
        LaterIdsOwned(docs, last, x);
        var d :| 0 <= d < |docs| && docs[d].id == x && docs[d].player.name == last.name;
        assert docs[d] in docs;
      }
      forall x | x in Dropped(init) && x in LaterIds(last)
        ensures false
      {
        DroppedMember(init, x);
        var k :| 0 <= k < |init| && x in LaterIds(init[k]);
        assert init[k] == groups[k];
        LaterIdsOwned(docs, init[k], x);
        LaterIdsOwned(docs, last, x);
        IdsNamedDisjoint(docs, init[k].name, last.name, x);
      }
      assert Dropped(groups) == Dropped(init) + LaterIds(last);
    }
  }

  /** A later id of a group belongs to a document of the group's name, and is
      not the id the group lists first. */
  lemma LaterIdOf(docs: seq<Document>, g: Group, i: int)
    requires DistinctIds(docs) && multiset(g.ids) == multiset(IdsNamed(docs, g.name)) && 0 <= i < |docs|
    requires docs[i].id in LaterIds(g)
    ensures g.name == docs[i].player.name && g.ids[0] != docs[i].id
  {
    var x := docs[i].id;
    GroupIds(docs, g);
    var m :| 0 <= m < |g.ids[1..]| && g.ids[1..][m] == x;
    assert g.ids[m + 1] == x;
    IdsNamedOwner(docs, g.name, i);
  }

  /** A document of a group's name whose id the group does not list first has
      one of its later ids. */
  lemma NotFirstIsLater(docs: seq<Document>, g: Group, i: int)
    requires DistinctIds(docs) && multiset(g.ids) == multiset(IdsNamed(docs, g.name)) && 0 <= i < |docs|
    requires g.name == docs[i].player.name && |g.ids| > 0 && g.ids[0] != docs[i].id
    ensures docs[i].id in LaterIds(g)
  {
    var x := docs[i].id;
    GroupIds(docs, g);
    IdsNamedMember(docs, g.name, x);
    var m :| 0 <= m < |g.ids| && g.ids[m] == x;
    assert g.ids[1..][m - 1] == x;
  }

  /** A document's id is deleted exactly when a group of its name lists a
      different id first. */
  lemma DroppedIffNotHead(docs: seq<Document>, groups: seq<Group>, i: int)
    requires DistinctIds(docs) && WellFormedGroups(groups, docs) && 0 <= i < |docs|
    ensures docs[i].id in Dropped(groups) <==>
      exists k :: 0 <= k < |groups| && groups[k].name == docs[i].player.name && groups[k].ids[0] != docs[i].id
  {
    var x, n := docs[i].id, docs[i].player.name;
    DroppedMember(groups, x);
    forall k | 0 <= k < |groups| && x in LaterIds(groups[k])
      ensures groups[k].name == n && groups[k].ids[0] != x
    {
      LaterIdOf(docs, groups[k], i);
    }
    forall k | 0 <= k < |groups| && groups[k].name == n && groups[k].ids[0] != x
      ensures x in LaterIds(groups[k])
    {
      NotFirstIsLater(docs, groups[k], i);
    }
  }

  /** The first id a group lists belongs to a document of its name that the
      loop does not delete. */
  lemma HeadKept(docs: seq<Document>, groups: seq<Group>, k: int)
    requires DistinctIds(docs) && WellFormedGroups(groups, docs) && 0 <= k < |groups|
    ensures exists j :: 0 <= j < |docs| && docs[j].id == groups[k].ids[0]
                      && docs[j].player.name == groups[k].name && docs[j].id !in Dropped(groups)
  {
    var g := groups[k];
    GroupIds(docs, g);
    assert g.ids[0] in g.ids;
    IdsNamedMember(docs, g.name, g.ids[0]);
    var j :| 0 <= j < |docs| && docs[j].id == g.ids[0] && docs[j].player.name == g.name;
    DroppedIffNotHead(docs, groups, j);
    forall l | 0 <= l < |groups| && groups[l].name == g.name
      ensures groups[l].ids[0] == g.ids[0]
    {
      assert l == k;
    }
  }

  /** A document the loop spares carries the first id of its name's group. */
  lemma SurvivorIsHead(docs: seq<Document>, groups: seq<Group>, i: int, k: int)
    requires DistinctIds(docs) && WellFormedGroups(groups, docs) && 0 <= i < |docs|
    requires 0 <= k < |groups| && groups[k].name == docs[i].player.name
    requires docs[i].id !in Dropped(groups)
    ensures groups[k].ids[0] == docs[i].id
  {
    DroppedIffNotHead(docs, groups, i);
  }

  /** Two documents of a name with at most one id are one document. */
  lemma OnlyDocumentOfName(docs: seq<Document>, n: string, i: int, j: int)
    requires DistinctIds(docs) && |IdsNamed(docs, n)| <= 1
    requires 0 <= i < |docs| && 0 <= j < |docs|
    requires docs[i].player.name == n && docs[j].player.name == n
    ensures i == j
  {
    var ids := IdsNamed(docs, n);
    IdsNamedMember(docs, n, docs[i].id);
    IdsNamedMember(docs, n, docs[j].id);
    var p :| 0 <= p < |ids| && ids[p] == docs[i].id;
    var q :| 0 <= q < |ids| && ids[q] == docs[j].id;
  }

  /** Two documents of one name that both escape the loop are one document. */
  lemma SurvivorsOfOneName(docs: seq<Document>, groups: seq<Group>, i: int, j: int)
    requires DistinctIds(docs) && IsDuplicateReport(groups, docs)
    requires 0 <= i < |docs| && 0 <= j < |docs|
    requires docs[i].id !in Dropped(groups) && docs[j].id !in Dropped(groups)
    ensures docs[i].player.name == docs[j].player.name ==> i == j
  {
    var n := docs[i].player.name;
    if docs[j].player.name == n {
      if |IdsNamed(docs, n)| > 1 {
        var k :| 0 <= k < |groups| && groups[k].name == n;
        SurvivorIsHead(docs, groups, i, k);
        SurvivorIsHead(docs, groups, j, k);
      } else {
        OnlyDocumentOfName(docs, n, i, j);
      }
    }
  }

  /** After the loop every name occurs at most once. */
  lemma DeduplicatedNamesUnique(docs: seq<Document>, groups: seq<Group>)
    requires DistinctIds(docs) && IsDuplicateReport(groups, docs)
    ensures NamesUnique(RemoveIds(docs, Dropped(groups)))
  {
    var r := RemoveIds(docs, Dropped(groups));
    FilterKeepsDistinctIds(docs, IdNotIn(Dropped(groups)));
    forall a, b | 0 <= a < b < |r|
      ensures r[a].player.name != r[b].player.name
    {
      var i :| 0 <= i < |docs| && docs[i] == r[a];
      var j :| 0 <= j < |docs| && docs[j] == r[b];
      SurvivorsOfOneName(docs, groups, i, j);
    }
  }

  /** The name of every document is still carried by a document the loop
      spares. */
  lemma NameSurvives(docs: seq<Document>, groups: seq<Group>, i: int)
    requires DistinctIds(docs) && WellFormedGroups(groups, docs) && 0 <= i < |docs|
    ensures exists d :: d in RemoveIds(docs, Dropped(groups)) && d.player.name == docs[i].player.name
  {
    var dropped := Dropped(groups);
    var n := docs[i].player.name;
    DroppedIffNotHead(docs, groups, i);
    if docs[i].id in dropped {
      var k :| 0 <= k < |groups| && groups[k].name == n && groups[k].ids[0] != docs[i].id;
      HeadKept(docs, groups, k);
      var j :| 0 <= j < |docs| && docs[j].id == groups[k].ids[0] && docs[j].player.name == n && docs[j].id !in dropped;
      assert docs[j] in RemoveIds(docs, dropped);
    } else {
      assert docs[i] in RemoveIds(docs, dropped);
    }
  }

  /** A document whose name no other document carries is spared. */
  lemma UniqueSurvives(docs: seq<Document>, groups: seq<Group>, i: int)
    requires DistinctIds(docs) && WellFormedGroups(groups, docs) && 0 <= i < |docs|
    requires forall j :: 0 <= j < |docs| && j != i ==> docs[j].player.name != docs[i].player.name
    ensures docs[i] in RemoveIds(docs, Dropped(groups))
  {
    DroppedIffNotHead(docs, groups, i);
    forall k | 0 <= k < |groups| && groups[k].name == docs[i].player.name
      ensures groups[k].ids[0] == docs[i].id
    {
      HeadKept(docs, groups, k);
    }
  }

  /** The loop loses no name, and spares every document whose name no other
      document carries. */
  lemma DeduplicatedKeeps(docs: seq<Document>, groups: seq<Group>)
    requires DistinctIds(docs) && IsDuplicateReport(groups, docs)
    ensures NameSet(RemoveIds(docs, Dropped(groups))) == NameSet(docs)
    ensures forall i :: 0 <= i < |docs| && (forall j :: 0 <= j < |docs| && j != i ==> docs[j].player.name != docs[i].player.name)
                    ==> docs[i] in RemoveIds(docs, Dropped(groups))
  {
    var r := RemoveIds(docs, Dropped(groups));
    forall n | n in NameSet(docs)
      ensures n in NameSet(r)
    {
      var d :| d in docs && d.player.name == n;
      var i :| 0 <= i < |docs| && docs[i] == d;
      NameSurvives(docs, groups, i);
    }
    forall i | 0 <= i < |docs| && (forall j :: 0 <= j < |docs| && j != i ==> docs[j].player.name != docs[i].player.name)
      ensures docs[i] in r
    {
      UniqueSurvives(docs, groups, i);
    }
  }

  /** Of every group the loop keeps the first listed id and deletes the rest,
      and it deletes as many documents as the counts minus one add up to. */
  lemma DeduplicatedHeadsAndSize(docs: seq<Document>, groups: seq<Group>)
    requires DistinctIds(docs) && WellFormedGroups(groups, docs)
    ensures |RemoveIds(docs, Dropped(groups))| == |docs| - SumExtra(groups)
    ensures forall k :: 0 <= k < |groups| ==> groups[k].ids[0] in IdSet(RemoveIds(docs, Dropped(groups)))
    ensures forall k, j :: 0 <= k < |groups| && 1 <= j < |groups[k].ids| ==>
      groups[k].ids[j] !in IdSet(RemoveIds(docs, Dropped(groups)))
  {
    var r := RemoveIds(docs, Dropped(groups));
    DroppedSize(docs, groups);
    RemoveIdsCount(docs, Dropped(groups));
    assert Dropped(groups) * IdSet(docs) == Dropped(groups);
    forall k | 0 <= k < |groups|
      ensures groups[k].ids[0] in IdSet(r)
    {
      HeadKept(docs, groups, k);
      var j :| 0 <= j < |docs| && docs[j].id == groups[k].ids[0]
        && docs[j].player.name == groups[k].name && docs[j].id !in Dropped(groups);
      assert docs[j] in r;
    }
    forall k, j | 0 <= k < |groups| && 1 <= j < |groups[k].ids|
      ensures groups[k].ids[j] !in IdSet(r)
    {
      assert groups[k].ids[j] == groups[k].ids[1..][j - 1];
      DroppedMember(groups, groups[k].ids[j]);
    }
  }

  /** The whole effect of the loop of lines 29-35, for any order of the
      report's groups and of the ids inside each: every name at most once, no
      name lost, every document whose name was unique still there, exactly the
      counts minus one deleted, of each group the first listed id kept and the
      others deleted, and only original documents, in their order. */
  lemma RemoveDuplicatesOutcome(docs: seq<Document>, groups: seq<Group>)
    requires DistinctIds(docs) && IsDuplicateReport(groups, docs)
    ensures NamesUnique(RemoveIds(docs, Dropped(groups)))
    ensures NameSet(RemoveIds(docs, Dropped(groups))) == NameSet(docs)
    ensures forall i :: 0 <= i < |docs| && (forall j :: 0 <= j < |docs| && j != i ==> docs[j].player.name != docs[i].player.name)
                    ==> docs[i] in RemoveIds(docs, Dropped(groups))
    ensures |RemoveIds(docs, Dropped(groups))| == |docs| - SumExtra(groups)
    ensures forall k :: 0 <= k < |groups| ==> groups[k].ids[0] in IdSet(RemoveIds(docs, Dropped(groups)))
    ensures forall k, j :: 0 <= k < |groups| && 1 <= j < |groups[k].ids| ==>
      groups[k].ids[j] !in IdSet(RemoveIds(docs, Dropped(groups)))
    ensures IsSubsequence(RemoveIds(docs, Dropped(groups)), docs)
  {
    DeduplicatedNamesUnique(docs, groups);
    DeduplicatedKeeps(docs, groups);
    DeduplicatedHeadsAndSize(docs, groups);
    FilterSubsequence(docs, IdNotIn(Dropped(groups)));
  }

  /** When the groups list their ids in collection order, the ids the loop
      deletes are exactly those of documents whose name occurred earlier. */
  lemma DroppedAreLaterCopies(docs: seq<Document>, groups: seq<Group>)
    requires DistinctIds(docs) && IsDuplicateReport(groups, docs) && InCollectionOrder(groups, docs)
    ensures forall i :: 0 <= i < |docs| ==>
      (docs[i].id in Dropped(groups) <==> docs[i].player.name in NameSet(docs[..i]))
  {
    forall i | 0 <= i < |docs|
      ensures docs[i].id in Dropped(groups) <==> docs[i].player.name in NameSet(docs[..i])
    {
      var x, n := docs[i].id, docs[i].player.name;
      LaterIdIffEarlierName(docs, i);
      DroppedMember(groups, x);
      if x in Dropped(groups) {
        var k :| 0 <= k < |groups| && x in LaterIds(groups[k]);
        var ids := groups[k].ids;
        assert x in ids[1..];
        assert x in ids by {
          var j :| 0 <= j < |ids[1..]| && ids[1..][j] == x;
          assert ids[j + 1] == x;
        }
        IdsNamedOwner(docs, groups[k].name, i);
      }
      if n in NameSet(docs[..i]) {
        var ids := IdsNamed(docs, n);
        assert |ids| > 1;
        var k :| 0 <= k < |groups| && groups[k].name == n;
        assert x in LaterIds(groups[k]);
      }
    }
  }

  /** With ids in collection order, deleting the reported later ids is
      keeping the first document of each name. */
  lemma RemoveDuplicatesIsKeepFirst(docs: seq<Document>, groups: seq<Group>)
    requires DistinctIds(docs) && IsDuplicateReport(groups, docs) && InCollectionOrder(groups, docs)
    ensures RemoveIds(docs, Dropped(groups)) == KeepFirst(docs)
  {
    DroppedAreLaterCopies(docs, groups);
    RemovingLaterCopies(docs, Dropped(groups));
  }

  /** What keeping the first document of each name promises: every name at
      most once, no name lost, every document whose name was already unique
      still there, and nothing but original documents, in their order. */
  lemma KeepFirstOutcome(docs: seq<Document>)
    requires DistinctIds(docs)
    ensures var r := KeepFirst(docs);
      && NamesUnique(r)
      && NameSet(r) == NameSet(docs)
      && (forall i :: 0 <= i < |docs| && (forall j :: 0 <= j < |docs| && j != i ==> docs[j].player.name != docs[i].player.name)
            ==> docs[i] in r)
      && IsSubsequence(r, docs)
  {
    KeepFirstNamesUnique(docs);
    KeepFirstKeepsNames(docs);
    forall i | 0 <= i < |docs| && (forall j :: 0 <= j < |docs| && j != i ==> docs[j].player.name != docs[i].player.name)
      ensures docs[i] in KeepFirst(docs)
    {
      assert docs[i].player.name !in NameSet(docs[..i]);
      KeepFirstKeepsFirst(docs, i);
    }
    var later := set i | 0 <= i < |docs| && docs[i].player.name in NameSet(docs[..i]) :: docs[i].id;
    forall i | 0 <= i < |docs|
      ensures docs[i].id in later <==> docs[i].player.name in NameSet(docs[..i])
    {
      if docs[i].id in later {
        var i' :| 0 <= i' < |docs| && docs[i'].player.name in NameSet(docs[..i']) && docs[i'].id == docs[i].id;
        assert i' == i;
      }
    }
    RemovingLaterCopies(docs, later);
    FilterSubsequence(docs, IdNotIn(later));
  }

  /** The `$group` stage: one group per name, in order of first appearance. */
  function GroupByName(docs: seq<Document>): (r: seq<Group>)
    ensures |r| == |KeepFirst(docs)|
    ensures forall k :: 0 <= k < |r| ==> r[k].ids == IdsNamed(docs, r[k].name) && r[k].count == |r[k].ids|
    ensures forall n :: n in NameSet(docs) <==> exists k :: 0 <= k < |r| && r[k].name == n
  {
    var firsts := KeepFirst(docs);
    var r := seq(|firsts|, i requires 0 <= i < |firsts| =>
      var n := firsts[i].player.name;
      Group(n, |IdsNamed(docs, n)|, IdsNamed(docs, n)));
    KeepFirstKeepsNames(docs);
    assert forall n :: n in NameSet(firsts) <==> exists k :: 0 <= k < |r| && r[k].name == n by {
      forall n | n in NameSet(firsts)
        ensures exists k :: 0 <= k < |r| && r[k].name == n
      {
        var d :| d in firsts && d.player.name == n;
        var k :| 0 <= k < |firsts| && firsts[k] == d;
        assert r[k].name == n;
      }
      forall k | 0 <= k < |r|
        ensures r[k].name in NameSet(firsts)
      {
        assert firsts[k] in firsts;
      }
    }
    r
  }

  /** Lines 22-26: `$group` by name, then `$match` on `count > 1`. */
  function Aggregate(docs: seq<Document>): (r: seq<Group>)
    ensures forall g :: g in r ==> g in GroupByName(docs) && g.count > 1
  {
    Filter(GroupByName(docs), Repeated)
  }

  /** The `$match` condition `count > 1`. */
  predicate Repeated(g: Group) {
    g.count > 1
  }

  /** A group's name. Named, so that a lemma about keys and the filter it is
      applied to mention the same function value. */
  function GroupName(g: Group): string {
    g.name
  }

  /** One group per name. */
  lemma GroupByNameDistinct(docs: seq<Document>)
    ensures DistinctBy(GroupByName(docs), GroupName)
  {
    var all := GroupByName(docs);
    var firsts := KeepFirst(docs);
    KeepFirstNamesUnique(docs);
    forall i, j | 0 <= i < j < |all|
      ensures GroupName(all[i]) != GroupName(all[j])
    {
      assert all[i].name == firsts[i].player.name;
      assert all[j].name == firsts[j].player.name;
      assert firsts[i].player.name != firsts[j].player.name;
    }
  }

  /** Every group of the aggregation lists the ids of its name in collection
      order, more than one, and no two groups share a name. */
  lemma AggregateWellFormed(docs: seq<Document>)
    ensures WellFormedGroups(Aggregate(docs), docs)
    ensures InCollectionOrder(Aggregate(docs), docs)
  {
    var all := GroupByName(docs);
    var groups := Aggregate(docs);
    forall k | 0 <= k < |groups|
      ensures groups[k].ids == IdsNamed(docs, groups[k].name) && groups[k].count == |groups[k].ids|
      ensures groups[k].count > 1
    {
      assert groups[k] in all;
    }
    GroupByNameDistinct(docs);
    FilterKeepsDistinct(all, Repeated, GroupName);
  }

  /** A name with more than one document has a group in the aggregation. */
  lemma AggregateComplete(docs: seq<Document>, n: string)
    requires |IdsNamed(docs, n)| > 1
    ensures exists k :: 0 <= k < |Aggregate(docs)| && Aggregate(docs)[k].name == n
  {
    var all := GroupByName(docs);
    var firsts := KeepFirst(docs);
    var x := IdsNamed(docs, n)[0];
    IdsNamedMember(docs, n, x);
    var d :| 0 <= d < |docs| && docs[d].id == x && docs[d].player.name == n;
    assert n in NameSet(docs) by {
      assert docs[d] in docs;
    }
    KeepFirstKeepsNames(docs);
    var f :| f in firsts && f.player.name == n;
    var i :| 0 <= i < |firsts| && firsts[i] == f;
    assert all[i] in Aggregate(docs);
  }

  /** The aggregation returns a duplicate report: only names with more than
      one document, each with all its ids in collection order, and every such
      name once. */
  lemma AggregateIsReport(docs: seq<Document>)
    ensures IsDuplicateReport(Aggregate(docs), docs)
    ensures InCollectionOrder(Aggregate(docs), docs)
  {
    AggregateWellFormed(docs);
    forall n | |IdsNamed(docs, n)| > 1
      ensures exists k :: 0 <= k < |Aggregate(docs)| && Aggregate(docs)[k].name == n
    {
      AggregateComplete(docs, n);
    }
  }

  /** Lines 22-26 as the store promises them: a duplicate report of the
      collection, with no promise about the order of the groups or of the ids
      inside a group. (`Aggregate` is one such report.) */
  method AggregateDuplicates(c: Collection) returns (duplicates: seq<Group>)
    ensures IsDuplicateReport(duplicates, c.docs)
  {
    duplicates := Aggregate(c.docs);
    AggregateIsReport(c.docs);
  }

  /** Lines 29-35: for each group, drop its first id (`pop(0)`) and delete the
      documents with the remaining ids. */
  method RemoveDuplicates(c: Collection, duplicates: seq<Group>)
    requires c.Valid() && IsDuplicateReport(duplicates, c.docs)
    modifies c
    ensures c.Valid() && c.nextId == old(c.nextId)
    ensures c.docs == RemoveIds(old(c.docs), Dropped(duplicates))
    ensures NamesUnique(c.docs) && NameSet(c.docs) == NameSet(old(c.docs))
    ensures |c.docs| == |old(c.docs)| - SumExtra(duplicates)
    ensures InCollectionOrder(duplicates, old(c.docs)) ==> c.docs == KeepFirst(old(c.docs))
  {
    ghost var before := c.docs;
    FilterAll(before, IdNotIn(Dropped(duplicates[..0])));
    var i := 0;
    while i < |duplicates|
      invariant 0 <= i <= |duplicates|
      invariant c.Valid() && c.nextId == old(c.nextId)
      invariant c.docs == RemoveIds(before, Dropped(duplicates[..i]))
    {
      var playerIds := duplicates[i].ids;
      var keepOne := playerIds[0];
      playerIds := playerIds[1..];
      c.DeleteMany(set x | x in playerIds);
      RemoveIdsTwice(before, Dropped(duplicates[..i]), LaterIds(duplicates[i]));
      assert duplicates[..i + 1][..i] == duplicates[..i];
      i := i + 1;
    }
    assert duplicates[..i] == duplicates;
    RemoveDuplicatesOutcome(before, duplicates);
    if InCollectionOrder(duplicates, before) {
      RemoveDuplicatesIsKeepFirst(before, duplicates);
    }
  }

  /** The eight names line 39 deletes. */
  const TestNames: set<string> := {
    "M. Salah", "K. De Bruyne", "E. Haaland", "B. Saka",
    "T. Alexander-Arnold", "A. Isak", "M. \U{D8}degaard", "R. James"
  }

  /** A document's name. Named, so that a lemma about keys and the filter it
      is applied to mention the same function value. */
  function NameOf(d: Document): string {
    d.player.name
  }

  /** Deleting documents keeps names unique. */
  lemma RemoveNamesKeepsUnique(docs: seq<Document>, names: set<string>)
    requires NamesUnique(docs)
    ensures NamesUnique(RemoveNames(docs, names))
  {
    FilterKeepsDistinct(docs, NameNotIn(names), NameOf);
    var r := RemoveNames(docs, names);
    forall i, j | 0 <= i < j < |r|
      ensures r[i].player.name != r[j].player.name
    {
      assert NameOf(r[i]) != NameOf(r[j]);
    }
  }

  /** What the script leaves behind, for any duplicate report the store may
      return: every name at most once; exactly the names that were there
      except the eight test names; every document whose name was unique and
      is not a test name; and only original documents, in their order. */
  lemma CleanUpOutcome(docs: seq<Document>, groups: seq<Group>)
    requires DistinctIds(docs) && IsDuplicateReport(groups, docs)
    ensures var r := RemoveNames(RemoveIds(docs, Dropped(groups)), TestNames);
      && NamesUnique(r)
      && NameSet(r) == NameSet(docs) - TestNames
      && (forall i :: 0 <= i < |docs| && docs[i].player.name !in TestNames
            && (forall j :: 0 <= j < |docs| && j != i ==> docs[j].player.name != docs[i].player.name)
            ==> docs[i] in r)
      && IsSubsequence(r, docs)
  {
    RemoveDuplicatesOutcome(docs, groups);
    var dropped := Dropped(groups);
    var k := RemoveIds(docs, dropped);
    var r := RemoveNames(k, TestNames);
    RemoveNamesKeepsUnique(k, TestNames);
    FilterFilter(docs, IdNotIn(dropped), NameNotIn(TestNames));
    FilterSubsequence(docs, Both(IdNotIn(dropped), NameNotIn(TestNames)));
    assert NameSet(r) == NameSet(k) - TestNames by {
      forall n | n in NameSet(k) - TestNames ensures n in NameSet(r) {
        var d :| d in k && d.player.name == n;
        assert d in r;
      }
    }
  }

  /** The script from line 22 on: report the duplicates, remove them, then
      remove the test names. `duplicates` is the report the store returned. */
  method CleanUp(c: Collection) returns (duplicates: seq<Group>)
    requires c.Valid()
    modifies c
    ensures c.Valid()
    ensures IsDuplicateReport(duplicates, old(c.docs))
    ensures c.docs == RemoveNames(RemoveIds(old(c.docs), Dropped(duplicates)), TestNames)
    ensures NamesUnique(c.docs) && NameSet(c.docs) == NameSet(old(c.docs)) - TestNames
    ensures IsSubsequence(c.docs, old(c.docs))
    ensures InCollectionOrder(duplicates, old(c.docs)) ==> c.docs == RemoveNames(KeepFirst(old(c.docs)), TestNames)
  {
    duplicates := AggregateDuplicates(c);
    ghost var before := c.docs;
    RemoveDuplicates(c, duplicates);
    c.DeleteManyByName(TestNames);
    CleanUpOutcome(before, duplicates);
  }
}
