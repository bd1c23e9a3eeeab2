/** The `premier_league.players` collection: a sequence of documents, each
    carrying the `_id` the store assigned on insertion. */
module Store {
  import opened Player
  import opened Seqs

  /** MongoDB's `_id`; the store hands out fresh ones on insertion. */
  type DocId = nat

  datatype Document = Document(id: DocId, player: PlayerRecord)

  /** `_id` is unique within a collection. */
  ghost predicate DistinctIds(docs: seq<Document>) {
    forall i, j :: 0 <= i < j < |docs| ==> docs[i].id != docs[j].id
  }

  /** The ids present in `docs`. */
  ghost function IdSet(docs: seq<Document>): set<DocId> {
    set d | d in docs :: d.id
  }

  /** `find({}, {"_id": 0})`: the records with their ids projected away, one
      per document; the records found are exactly those of the documents. */
  function Players(docs: seq<Document>): (r: seq<PlayerRecord>)
    ensures |r| == |docs|
    ensures forall p :: p in r <==> exists d :: d in docs && d.player == p
  {
    var r := seq(|docs|, i requires 0 <= i < |docs| => docs[i].player);
    assert forall p :: p in r ==> exists d :: d in docs && d.player == p by {
      forall p | p in r ensures exists d :: d in docs && d.player == p {
        var i :| 0 <= i < |r| && r[i] == p;
        assert docs[i] in docs;
      }
    }
    assert forall d :: d in docs ==> d.player in r by {
      forall d | d in docs ensures d.player in r {
        var i :| 0 <= i < |docs| && docs[i] == d;
        assert r[i] == d.player;
      }
    }
    r
  }

  /** The documents a `{"_id": {"$in": ids}}` deletion spares. */
  function IdNotIn(ids: set<DocId>): Document -> bool {
    (d: Document) => d.id !in ids
  }

  /** The documents a `{"name": {"$in": names}}` deletion spares. */
  function NameNotIn(names: set<string>): Document -> bool {
    (d: Document) => d.player.name !in names
  }

  /** `delete_many({"_id": {"$in": ids}})` on a document list: what stays is
      exactly the documents whose id is not listed. */
  function RemoveIds(docs: seq<Document>, ids: set<DocId>): (r: seq<Document>)
    ensures |r| <= |docs|
    ensures forall d :: d in r <==> d in docs && d.id !in ids
  {
    Filter(docs, IdNotIn(ids))
  }

  /** `delete_many({"name": {"$in": names}})` on a document list: what stays
      is exactly the documents whose name is not listed. */
  function RemoveNames(docs: seq<Document>, names: set<string>): (r: seq<Document>)
    ensures |r| <= |docs|
    ensures forall d :: d in r <==> d in docs && d.player.name !in names
  {
    Filter(docs, NameNotIn(names))
  }

  /** The documents `insert_many(players)` adds: one per record, in order,
      each with its own id from the `|players|` ids the store has not yet
      handed out, `first` onwards. */
  function Stamp(players: seq<PlayerRecord>, first: DocId): (r: seq<Document>)
    ensures Players(r) == players
    ensures DistinctIds(r)
    ensures forall d :: d in r ==> first <= d.id < first + |players|
  {
    var r := seq(|players|, i requires 0 <= i < |players| => Document(first + i, players[i]));
    assert Players(r) == players;
    r
  }

  /** The records of two document lists laid end to end; `InsertMany` uses it
      to state the records after an append. */
  lemma PlayersConcat(a: seq<Document>, b: seq<Document>)
    ensures Players(a + b) == Players(a) + Players(b)
  {
  }

  /** A document's id. Named, so that a lemma about keys and the filter it
      is applied to mention the same function value. */
  function IdOf(d: Document): DocId {
    d.id
  }

  /** Removing documents never creates an `_id` clash. */
  lemma FilterKeepsDistinctIds(docs: seq<Document>, p: Document -> bool)
    requires DistinctIds(docs)
    ensures DistinctIds(Filter(docs, p))
  {
    FilterKeepsDistinct(docs, p, IdOf);
    var r := Filter(docs, p);
    forall i, j | 0 <= i < j < |r|
      ensures r[i].id != r[j].id
    {
      assert IdOf(r[i]) != IdOf(r[j]);
    }
  }

  /** Deleting by a set of ids removes as many documents as of those ids are present. */
  lemma {:induction false} RemoveIdsCount(docs: seq<Document>, ids: set<DocId>)
    requires DistinctIds(docs)
    ensures |RemoveIds(docs, ids)| == |docs| - |ids * IdSet(docs)|
  {
    if docs == [] {
      assert ids * IdSet(docs) == {};
    } else {
      var rest := docs[1..];
      RemoveIdsCount(rest, ids);
      assert IdSet(docs) == {docs[0].id} + IdSet(rest);
      assert docs[0].id !in IdSet(rest);
      if docs[0].id in ids {
        assert ids * IdSet(docs) == ids * IdSet(rest) + {docs[0].id};
      } else {
        assert ids * IdSet(docs) == ids * IdSet(rest);
      }
    }
  }

  /** Two deletions by id in a row are one deletion by the union. */
  lemma {:induction false} RemoveIdsTwice(docs: seq<Document>, a: set<DocId>, b: set<DocId>)
    ensures RemoveIds(RemoveIds(docs, a), b) == RemoveIds(docs, a + b)
  {
    if docs != [] {
      RemoveIdsTwice(docs[1..], a, b);
      if docs[0].id !in a {
        var rest := RemoveIds(docs[1..], a);
        assert RemoveIds(docs, a) == [docs[0]] + rest;
        assert ([docs[0]] + rest)[1..] == rest;
      }
    }
  }

  /** The collection. Invariant: ids are unique, and every id is below
      `nextId`, so ids handed out from `nextId` on are fresh. */
  class Collection {
    var docs: seq<Document>
    var nextId: DocId

    ghost predicate Valid()
      reads this
    {
      DistinctIds(docs) && forall d :: d in docs ==> d.id < nextId
    }

    constructor ()
      ensures Valid() && docs == []
    {
      docs := [];
      nextId := 0;
    }

    /** `delete_many({})`. */
    method DeleteAll()
      requires Valid()
      modifies this
      ensures Valid() && docs == [] && nextId == old(nextId)
    {
      docs := [];
    }

    /** `insert_many(players)`: appends one fresh document per record. The
        driver refuses an empty list (it raises before contacting the
        server); `ok` is false then and nothing changes. */
    method InsertMany(players: seq<PlayerRecord>) returns (ok: bool)
      requires Valid()
      modifies this
      ensures Valid()
      ensures ok <==> players != []
      ensures docs == old(docs) + Stamp(players, old(nextId))
      ensures Players(docs) == old(Players(docs)) + players
      ensures nextId == old(nextId) + |players|
    {
      if players == [] {
        assert docs + Stamp(players, nextId) == docs;
        return false;
      }
      ok := true;
      var added := Stamp(players, nextId);
      ghost var was := docs;
      docs := docs + added;
      nextId := nextId + |players|;
      PlayersConcat(was, added);
      forall i, j | 0 <= i < j < |docs|
        ensures docs[i].id != docs[j].id
      {
        if i < |was| && j >= |was| {
          assert docs[i] in was;
        }
      }
    }

    /** `delete_many({"_id": {"$in": ids}})`. */
    method DeleteMany(ids: set<DocId>)
      requires Valid()
      modifies this
      ensures Valid() && nextId == old(nextId)
      ensures docs == RemoveIds(old(docs), ids)
    {
      FilterKeepsDistinctIds(docs, IdNotIn(ids));
      docs := RemoveIds(docs, ids);
    }

    /** `delete_many({"name": {"$in": names}})`. */
    method DeleteManyByName(names: set<string>)
      requires Valid()
      modifies this
      ensures Valid() && nextId == old(nextId)
      ensures docs == RemoveNames(old(docs), names)
    {
      FilterKeepsDistinctIds(docs, NameNotIn(names));
      docs := RemoveNames(docs, names);
    }
  }
}
