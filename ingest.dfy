/** The ingestion script (`fetch_fpl_data.py`): build the id-to-name maps
    from the bootstrap payload, flatten every raw player into a record and,
    when the request succeeded, replace the whole collection with the result. */
module Ingest {
  import opened Player
  import opened Store

  /** An entry of the payload's `teams` list. */
  datatype Team = Team(id: int, name: string)

  /** An entry of the payload's `element_types` list (a playing position). */
  datatype ElementType = ElementType(id: int, singularName: string)

  /** An entry of the payload's `elements` list: one raw player. */
  datatype Element = Element(
    firstName: string,
    secondName: string,
    team: int,
    elementType: int,
    nowCost: int,
    totalPoints: int,
    goalsScored: int,
    assists: int,
    minutes: int)

  /** The parsed JSON body of the bootstrap endpoint. */
  datatype BootstrapData = BootstrapData(
    teams: seq<Team>,
    elementTypes: seq<ElementType>,
    elements: seq<Element>)

  /** What the HTTP request returned: its status and its parsed body. */
  datatype Response = Response(statusCode: int, data: BootstrapData)

  /** How a run ends: the records were stored; the request failed and nothing
      was written; or the payload had no players, so after the collection was
      emptied the driver refused the empty `insert_many` and the script
      stopped with an error. */
  datatype Outcome = Stored | FetchFailed | EmptyInsertRefused

  const StatusOk := 200
  const Unknown := "Unknown"

  /** A dict comprehension `{k: v for (k, v) in pairs}`: every key that occurs,
      and a later pair overwrites an earlier one with the same key. */
  function BuildMapping(pairs: seq<(int, string)>): (m: map<int, string>)
    ensures m.Keys == set p | p in pairs :: p.0
    ensures forall k :: k in m ==> (k, m[k]) in pairs
  {
    if pairs == [] then map[]
    else
      var init := pairs[..|pairs| - 1];
      var last := pairs[|pairs| - 1];
      assert pairs == init + [last];
      BuildMapping(init)[last.0 := last.1]
  }

  /** The `(id, name)` pairs the team comprehension iterates over. */
  function TeamPairs(teams: seq<Team>): seq<(int, string)> {
    seq(|teams|, i requires 0 <= i < |teams| => (teams[i].id, teams[i].name))
  }

  /** The `(id, singular_name)` pairs the position comprehension iterates over. */
  function PositionPairs(types: seq<ElementType>): seq<(int, string)> {
    seq(|types|, i requires 0 <= i < |types| => (types[i].id, types[i].singularName))
  }

  /** `team_mapping`. */
  function TeamMapping(teams: seq<Team>): (m: map<int, string>)
    ensures forall t :: t in teams ==> t.id in m
    ensures forall k :: k in m ==> Team(k, m[k]) in teams
  {
    var pairs := TeamPairs(teams);
    assert forall t :: t in teams ==> (t.id, t.name) in pairs by {
      forall t | t in teams ensures (t.id, t.name) in pairs {
        var i :| 0 <= i < |teams| && teams[i] == t;
        assert pairs[i] == (t.id, t.name);
      }
    }
    BuildMapping(pairs)
  }

  /** `position_mapping`. */
  function PositionMapping(types: seq<ElementType>): (m: map<int, string>)
    ensures forall t :: t in types ==> t.id in m
    ensures forall k :: k in m ==> ElementType(k, m[k]) in types
  {
    var pairs := PositionPairs(types);
    assert forall t :: t in types ==> (t.id, t.singularName) in pairs by {
      forall t | t in types ensures (t.id, t.singularName) in pairs {
        var i :| 0 <= i < |types| && types[i] == t;
        assert pairs[i] == (t.id, t.singularName);
      }
    }
    BuildMapping(pairs)
  }

  /** `mapping.get(id, "Unknown")`. */
  function Resolve(mapping: map<int, string>, id: int): (r: string)
    ensures id in mapping ==> r == mapping[id]
    ensures id !in mapping ==> r == Unknown
    ensures r == Unknown || r in mapping.Values
  {
    if id in mapping then mapping[id] else Unknown
  }

  /** What looking `id` up among `pairs` should give: the name of the LAST pair
      with that id, or "Unknown" when no pair has it. */
  ghost predicate LookupMeans(pairs: seq<(int, string)>, id: int, v: string) {
    && ((forall i :: 0 <= i < |pairs| ==> pairs[i].0 != id) ==> v == Unknown)
    && (forall i :: 0 <= i < |pairs| && pairs[i].0 == id && (forall j :: i < j < |pairs| ==> pairs[j].0 != id)
          ==> v == pairs[i].1)
  }

  /** The last pair with a given key decides that key's value. */
  lemma {:induction false} LaterEntryWins(pairs: seq<(int, string)>, i: int)
    requires 0 <= i < |pairs|
    requires forall j :: i < j < |pairs| ==> pairs[j].0 != pairs[i].0
    ensures pairs[i].0 in BuildMapping(pairs)
    ensures BuildMapping(pairs)[pairs[i].0] == pairs[i].1
  {
    if i < |pairs| - 1 {
      var init := pairs[..|pairs| - 1];
      LaterEntryWins(init, i);
    }
  }

  /** Resolving through the built map is the lookup described by `LookupMeans`,
      and its result is one of the payload's names or "Unknown". */
  lemma ResolveIsLastEntry(pairs: seq<(int, string)>, id: int)
    ensures LookupMeans(pairs, id, Resolve(BuildMapping(pairs), id))
    ensures var v := Resolve(BuildMapping(pairs), id);
      v == Unknown || exists i :: 0 <= i < |pairs| && pairs[i] == (id, v)
  {
    var m := BuildMapping(pairs);
    if id !in m {
      assert forall i :: 0 <= i < |pairs| ==> pairs[i].0 != id by {
        forall i | 0 <= i < |pairs| ensures pairs[i].0 != id {
          assert pairs[i] in pairs;
        }
      }
    }
    forall i | 0 <= i < |pairs| && pairs[i].0 == id && (forall j :: i < j < |pairs| ==> pairs[j].0 != id)
      ensures Resolve(m, id) == pairs[i].1
    {
      LaterEntryWins(pairs, i);
    }
  }

  /** One entry of `formatted_players`. */
  function Format(e: Element, teams: map<int, string>, positions: map<int, string>): (r: PlayerRecord)
    ensures r.name == e.firstName + " " + e.secondName
    ensures r.price * 10.0 == e.nowCost as real
    ensures r.team == Unknown || r.team in teams.Values
    ensures r.position == Unknown || r.position in positions.Values
    ensures (r.totalPoints, r.goalsScored, r.assists, r.minutes) == (e.totalPoints, e.goalsScored, e.assists, e.minutes)
  {
    PlayerRecord(
      e.firstName + " " + e.secondName,
      Resolve(teams, e.team),
      Resolve(positions, e.elementType),
      e.nowCost as real / 10.0,
      e.totalPoints,
      e.goalsScored,
      e.assists,
      e.minutes)
  }

  /** The whole `formatted_players` list for a payload. */
  function Formatted(data: BootstrapData): (r: seq<PlayerRecord>)
    ensures |r| == |data.elements|
    ensures forall k :: 0 <= k < |r| ==> r[k].price * 10.0 == data.elements[k].nowCost as real
  {
    var teams := TeamMapping(data.teams);
    var positions := PositionMapping(data.elementTypes);
    seq(|data.elements|, k requires 0 <= k < |data.elements| => Format(data.elements[k], teams, positions))
  }

  /** What the k-th formatted record is, in terms of the raw payload alone. */
  lemma FormattedRecord(data: BootstrapData, k: int)
    requires 0 <= k < |data.elements|
    ensures |Formatted(data)| == |data.elements|
    ensures var r, e := Formatted(data)[k], data.elements[k];
      && r.name == e.firstName + " " + e.secondName
      && LookupMeans(TeamPairs(data.teams), e.team, r.team)
      && LookupMeans(PositionPairs(data.elementTypes), e.elementType, r.position)
      && (r.team == Unknown || exists i :: 0 <= i < |data.teams| && data.teams[i] == Team(e.team, r.team))
      && (r.position == Unknown
          || exists i :: 0 <= i < |data.elementTypes| && data.elementTypes[i] == ElementType(e.elementType, r.position))
      && r.price * 10.0 == e.nowCost as real
      && r.totalPoints == e.totalPoints && r.goalsScored == e.goalsScored
      && r.assists == e.assists && r.minutes == e.minutes
  {
    var e := data.elements[k];
    ResolveIsLastEntry(TeamPairs(data.teams), e.team);
    ResolveIsLastEntry(PositionPairs(data.elementTypes), e.elementType);
  }

  /** The `for player in players` loop: appends one formatted record per raw
      player, in order. */
  method FormatPlayers(data: BootstrapData) returns (formatted: seq<PlayerRecord>)
    ensures formatted == Formatted(data)
  {
    var teamMapping := TeamMapping(data.teams);
    var positionMapping := PositionMapping(data.elementTypes);
    var players := data.elements;
    formatted := [];
    var i := 0;
    while i < |players|
      invariant 0 <= i <= |players|
      invariant formatted == Formatted(data)[..i]
    {
      formatted := formatted + [Format(players[i], teamMapping, positionMapping)];
      i := i + 1;
    }
  }

  /** One run of the script: on status 200, delete every document and insert the
      formatted records; on any other status, write nothing. */
  method Ingest(c: Collection, response: Response) returns (outcome: Outcome)
    requires c.Valid()
    modifies c
    ensures c.Valid()
    ensures response.statusCode != StatusOk ==>
      outcome == FetchFailed && c.docs == old(c.docs) && c.nextId == old(c.nextId)
    ensures response.statusCode == StatusOk ==>
      && outcome == (if response.data.elements == [] then EmptyInsertRefused else Stored)
      && Players(c.docs) == Formatted(response.data)
      && (forall d :: d in c.docs ==> d.id >= old(c.nextId))
      && (forall d :: d in old(c.docs) ==> d !in c.docs)
  {
    if response.statusCode == StatusOk {
      var formattedPlayers := FormatPlayers(response.data);
      c.DeleteAll();
      var inserted := c.InsertMany(formattedPlayers);
      assert forall d :: d in c.docs ==> d.id >= old(c.nextId);
      outcome := if inserted then Stored else EmptyInsertRefused;
    } else {
      outcome := FetchFailed;
    }
  }

  /** Two successful runs on the same payload leave the same records as one. */
  method IngestTwice(c: Collection, response: Response) returns (afterFirst: seq<PlayerRecord>)
    requires c.Valid()
    requires response.statusCode == StatusOk
    modifies c
    ensures c.Valid()
    ensures Players(c.docs) == afterFirst == Formatted(response.data)
  {
    var _ := Ingest(c, response);
    afterFirst := Players(c.docs);
    var _ := Ingest(c, response);
  }
}
