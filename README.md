# FPL player database — a verified model

The repository is a small Fantasy Premier League tool made of three scripts.

- `fetch_fpl_data.py` downloads the bootstrap payload of the FPL API. It
  resolves each player's team and position ids to names and replaces the
  whole `premier_league.players` MongoDB collection with the flattened
  records.
- `app.py` is a Streamlit dashboard over that collection:
  - a case-insensitive name search;
  - team and position filters whose "All" option switches them off;
  - a sort menu;
  - a top-ten goal scorers chart.
- `mongodb_test.py` is a maintenance script in two steps:
  - it groups the collection by name and keeps the first document of every
    name that occurs more than once, deleting the others;
  - it then deletes eight fixed test players.

The model keeps the record transformations of these scripts and drops the
database, HTTP and UI calls around them. It has these modules:

- `Seqs`: the order-preserving filter that both pandas boolean indexing and
  MongoDB `delete_many` amount to, and the subsequence relation.
- `Text`: Python's string ordering, ASCII lower-casing and the substring
  test.
- `Player` and `Store`:
  - the flat player record;
  - a document with its `_id`;
  - the collection as a class holding a `seq` of documents, whose methods
    are `delete_many` and `insert_many`.
- `Ingest`: the id-to-name maps, the formatting loop and the status-checked
  replace done by the ingestion script.
- `Sorting` and `Dashboard`: the dashboard's query pipeline, with the widget
  selections passed in as parameters.
- `Cleanup`:
  - the `$group`/`$match` aggregation;
  - the keep-first/delete-rest loop;
  - the fixed-name deletion.

The duplicate report is specified by a predicate, `IsDuplicateReport`. It
admits every order in which MongoDB might return the groups and every order
of the ids inside a group. The loop is proved correct for all of them: every
name is left once, no name is lost, and exactly the counts minus one are
deleted. The deterministic `Aggregate` is proved to be one such report, with
its ids in collection order. For such a report the loop keeps the earliest
document of each name.

## Model

| member | source | states |
|---|---|---|
| Ingest.BuildMapping | fetch_fpl_data.py:26 | the dict comprehension's keys are exactly the ids that occur, and each entry is one of the payload's pairs |
| Ingest.TeamMapping | fetch_fpl_data.py:26 | every team of the payload has an entry, and every entry is the id and name of one of the payload's teams |
| Ingest.PositionMapping | fetch_fpl_data.py:29 | every position of the payload has an entry, and every entry is the id and singular name of one of the payload's positions |
| Ingest.LaterEntryWins | fetch_fpl_data.py:26 | when two entries share an id, the later one decides the name |
| Ingest.Resolve | fetch_fpl_data.py:37-38 | `.get(id, "Unknown")`: the mapped name when the id is a key, "Unknown" otherwise, so always one of the map's names or "Unknown" |
| Ingest.ResolveIsLastEntry | fetch_fpl_data.py:37-38 | `.get(id, "Unknown")` gives "Unknown" when no entry has the id, and otherwise the name of the last entry with it; so the result is a payload name or "Unknown" |
| Ingest.Format | fetch_fpl_data.py:35-44 | one formatted entry: the name is first name, space, second name; team and position are a name from their map or "Unknown"; ten times the price is the raw cost; the four statistics are copied |
| Ingest.Formatted | fetch_fpl_data.py:33-44 | one record per raw player, and ten times each record's price is that player's raw cost |
| Ingest.FormattedRecord | fetch_fpl_data.py:32-44 | one record per raw player, in order; the name is first name, space, second name; team and position are looked up as above (each a payload name or "Unknown"); the price times 10 is the cost; the four statistics are copied |
| Ingest.FormatPlayers | fetch_fpl_data.py:33-44 | the appending loop builds exactly the formatted list |
| Ingest.Ingest | fetch_fpl_data.py:20-52 | on a status other than 200 nothing is written, and the ids and documents are as before; on 200 the collection holds exactly the formatted records, under fresh ids, and no old document survives; an empty payload leaves the collection empty and ends with the driver's refusal of an empty insert |
| Ingest.IngestTwice | fetch_fpl_data.py:47-48 | two successful runs on one payload leave the same records as one run |
| Store.Stamp | fetch_fpl_data.py:48 | inserted documents carry the records in order; no two share an id, and every id is one of the `|players|` ids from `first` on |
| Store.Collection.DeleteAll | fetch_fpl_data.py:47 | `delete_many({})` empties the collection; the id invariant is kept |
| Store.Collection.InsertMany | fetch_fpl_data.py:48 | appends one fresh document per record and keeps ids unique; an empty list is refused and changes nothing |
| Store.Collection.DeleteMany | mongodb_test.py:34 | the collection becomes its documents without the given ids, in order |
| Store.Collection.DeleteManyByName | mongodb_test.py:39 | the collection becomes its documents without the given names, in order |
| Store.Players | app.py:19 | `find({}, {"_id": 0})` gives one record per document, and the records found are exactly the records of the documents |
| Store.RemoveIds | mongodb_test.py:34 | `delete_many` by ids keeps exactly the documents whose id is not listed, never more documents than there were |
| Store.RemoveNames | mongodb_test.py:39 | `delete_many` by names keeps exactly the documents whose name is not listed, never more documents than there were |
| Store.FilterKeepsDistinctIds | mongodb_test.py:34 | deleting documents never makes two of them share an `_id` |
| Store.RemoveIdsCount | mongodb_test.py:34 | deleting by a set of ids removes one document per id that is present |
| Store.RemoveIdsTwice | mongodb_test.py:29-34 | two deletions by id in a row equal one deletion by the union of the ids |
| Seqs.Filter | app.py:31 | boolean indexing keeps exactly the rows that pass, and never more rows than it was given |
| Seqs.FilterMultiset | app.py:31 | each passing row is kept as often as it occurs, and every other row is dropped |
| Seqs.FilterSubsequence | app.py:31 | the kept rows stay in their original order |
| Seqs.FilterFilter | app.py:51-59 | two filters in a row equal one filter by the conjunction |
| Seqs.FilterConcat | mongodb_test.py:34 | filtering distributes over concatenation |
| Seqs.FilterKeepsDistinct | mongodb_test.py:26 | filtering keeps a key unique |
| Seqs.FilterAll | mongodb_test.py:29 | a filter every element passes changes nothing |
| Seqs.IsSubsequenceRefl | app.py:30 | a row list is a subsequence of itself, which is the result of a search or filter that is switched off |
| Seqs.DistinctCount | mongodb_test.py:23 | a list without repeats holds every value at most once |
| Seqs.CountedOnceDistinct | mongodb_test.py:23 | a list holding every value at most once has no repeats |
| Text.Less | app.py:41 | Python's `<` on strings: nothing is below the empty string, the empty string is below every other, and a proper prefix is below the longer string |
| Text.LessIrreflexive | app.py:41 | Python's string order is irreflexive |
| Text.LessTransitive | app.py:41 | Python's string order is transitive |
| Text.LessTrichotomy | app.py:76 | any two strings are equal or ordered one way or the other |
| Text.ContainsIff | app.py:31 | the recursive substring test holds exactly when the query occurs at some position |
| Sorting.InOrderTotal | app.py:75-90 | for every column and direction, any two rows are comparable |
| Sorting.InOrderTransitive | app.py:75-90 | for every column and direction, the order is transitive |
| Sorting.SortedCons | app.py:75-90 | a row that may precede all rows of a sorted list can go in front of it |
| Sorting.Insert | app.py:75-90 | inserting into a sorted list keeps it sorted and adds exactly that row |
| Sorting.SortValues | app.py:75-90 | `sort_values` returns a permutation of the rows, ordered by the column in the chosen direction |
| Dashboard.Search | app.py:30-31 | a row stays exactly when the query is empty or the row's name matches it, and the search never adds rows |
| Dashboard.SearchKeepsMatches | app.py:30-31 | an empty query keeps every row; otherwise a row is kept exactly when its lower-cased name contains the lower-cased query; every kept row keeps its multiplicity and every other row is dropped; the result is always a subsequence |
| Dashboard.SelectTeam | app.py:53-54 | "All" keeps every row; any other team keeps exactly the rows of that team with their multiplicities |
| Dashboard.SelectPosition | app.py:56-59 | the same for positions |
| Dashboard.ApplyFilters | app.py:51-59 | both filters in turn keep exactly the rows that pass both, as a subsequence, with their multiplicities |
| Dashboard.InsertDistinct | app.py:41 | adding a value to a strictly ascending list keeps it strictly ascending and adds exactly that value |
| Dashboard.SortedDistinct | app.py:41 | `sorted(unique(...))` is strictly ascending and holds exactly the values given |
| Dashboard.Options | app.py:41-45 | an option list is "All" followed by the distinct values in ascending order, with no repeats |
| Dashboard.TeamColumn | app.py:41 | the team column holds exactly the teams of the rows |
| Dashboard.PositionColumn | app.py:45 | the position column holds exactly the positions of the rows |
| Dashboard.ApplySort | app.py:62-90 | each label a branch compares against sorts on its column in its direction; the result is always a permutation; "None" and the menu's "Name (Z_A)" leave the rows as they are |
| Dashboard.TopScorers | app.py:100 | exactly ten rows, or every row when there are fewer, all drawn from the input; goals never increase; no row left out has more goals than a kept row |
| Dashboard.SortedPrefixDominates | app.py:100 | cutting a goal-sorted list leaves behind only rows with goals no higher than the rows kept |
| Dashboard.TableRows | app.py:30-90 | whatever the sort, the table holds exactly the rows that pass the search and both filters, each as often as it occurs in the collection |
| Dashboard.Render | app.py:28-100 | an empty collection fails on the missing column; otherwise the option lists come from the searched rows, the table is the filtered rows in the chosen sort, the chart takes the top scorers of that table, and the table holds exactly the rows that pass the search and both filters, each as often as it occurs in the collection |
| Cleanup.IdsNamed | mongodb_test.py:23 | `$push` of `_id` for one name: no more ids than documents, and only ids of the collection |
| Cleanup.IdsNamedMember | mongodb_test.py:23 | `$push` of `_id` for a name collects exactly the ids of the documents with that name |
| Cleanup.IdsNamedOwner | mongodb_test.py:23 | with unique `_id`s, a document whose id is pushed for a name carries that name |
| Cleanup.IdsNamedDistinct | mongodb_test.py:23 | with unique `_id`s, a group has no repeated id |
| Cleanup.LaterIdIffEarlierName | mongodb_test.py:23-31 | a document's id is after the head of its group's ids exactly when its name occurs earlier in the collection |
| Cleanup.KeepFirstKeepsNames | mongodb_test.py:22-35 | keeping the first document of each name loses no name |
| Cleanup.KeepFirstNamesUnique | mongodb_test.py:22-35 | after keeping the first document of each name, every name occurs once |
| Cleanup.KeepFirstKeepsFirst | mongodb_test.py:31 | a document whose name has not occurred earlier is kept |
| Cleanup.RemovingLaterCopies | mongodb_test.py:29-34 | deleting exactly the ids of repeated names' later documents keeps the first document of each name |
| Cleanup.DroppedMember | mongodb_test.py:30-34 | an id is deleted by the loop exactly when it is a non-head id of some group |
| Cleanup.GroupIds | mongodb_test.py:23 | a group whose ids are its name's ids in some order has exactly those ids, as many of them, and no id twice |
| Cleanup.LaterIdsOwned | mongodb_test.py:31-34 | a group's deleted ids belong to documents with the group's name |
| Cleanup.IdsNamedDisjoint | mongodb_test.py:23 | with unique `_id`s, no id is pushed under two names |
| Cleanup.LaterIdsCard | mongodb_test.py:31-34 | a group deletes one document fewer than it counts |
| Cleanup.DroppedSize | mongodb_test.py:29-35 | the deleted ids are ids of the collection, and there are as many as the sum of count minus one over the groups |
| Cleanup.LaterIdOf | mongodb_test.py:31-34 | an id after the first of a group belongs to a document of that name and is not the first id |
| Cleanup.NotFirstIsLater | mongodb_test.py:31-34 | a document of a group's name whose id is not the group's first is among the ids deleted for that group |
| Cleanup.DroppedIffNotHead | mongodb_test.py:29-34 | a document is deleted by the loop exactly when a group of its name lists another id first |
| Cleanup.HeadKept | mongodb_test.py:31 | the id `pop(0)` takes belongs to a document of the group's name that the loop keeps |
| Cleanup.SurvivorIsHead | mongodb_test.py:29-34 | a document the loop keeps carries the first id of its name's group |
| Cleanup.OnlyDocumentOfName | mongodb_test.py:23-24 | a name with at most one pushed id has at most one document |
| Cleanup.SurvivorsOfOneName | mongodb_test.py:22-34 | two kept documents with the same name are the same document, for any duplicate report |
| Cleanup.DeduplicatedNamesUnique | mongodb_test.py:22-34 | after the loop every name occurs once, for any duplicate report |
| Cleanup.NameSurvives | mongodb_test.py:22-34 | every name of the collection is still carried by some kept document |
| Cleanup.UniqueSurvives | mongodb_test.py:22-34 | a document whose name no other document carries is kept |
| Cleanup.DeduplicatedKeeps | mongodb_test.py:22-34 | the loop loses no name and keeps every document whose name was unique |
| Cleanup.DeduplicatedHeadsAndSize | mongodb_test.py:29-35 | the collection shrinks by the sum of count minus one; of each group the first listed id stays and every other id is gone |
| Cleanup.RemoveDuplicatesOutcome | mongodb_test.py:22-35 | for any duplicate report, whatever the order of its groups and of the ids inside them: every name once, no name lost, unique-name documents kept, the size drops by the sum of count minus one, each group's first id stays and the others go, and the result is a subsequence of the collection |
| Cleanup.DroppedAreLaterCopies | mongodb_test.py:22-34 | for a duplicate report whose ids are in collection order, the deleted ids are exactly those of documents whose name occurred earlier |
| Cleanup.RemoveDuplicatesIsKeepFirst | mongodb_test.py:29-34 | for a duplicate report whose ids are in collection order, deleting the reported ids leaves the first document of each name |
| Cleanup.KeepFirstOutcome | mongodb_test.py:22-35 | after deduplication every name occurs once and no name is lost; every document whose name was already unique is still there; the result is a subsequence of the collection |
| Cleanup.GroupByName | mongodb_test.py:23 | `$group` gives one group per first occurrence of a name, with a group for exactly the names of the collection, each with its name's ids and their number |
| Cleanup.Aggregate | mongodb_test.py:22-26 | `$match` keeps only groups of the `$group` stage whose count is above one |
| Cleanup.GroupByNameDistinct | mongodb_test.py:23 | `$group` yields one group per name |
| Cleanup.AggregateWellFormed | mongodb_test.py:22-26 | every group returned lists all ids of its name in collection order and counts them, the count is above one, and no two groups share a name |
| Cleanup.AggregateComplete | mongodb_test.py:22-26 | every name with more than one document has a group |
| Cleanup.AggregateIsReport | mongodb_test.py:22-26 | the aggregation returns a duplicate report: exactly the names with count above one, each once with all its ids, in collection order |
| Cleanup.AggregateDuplicates | mongodb_test.py:22-26 | `collection.aggregate(pipeline)` as the store promises it: a duplicate report of the collection, in no promised order of groups or of ids |
| Cleanup.RemoveDuplicates | mongodb_test.py:29-35 | for any duplicate report, the loop deletes exactly the reported non-head ids; afterwards every name occurs once, no name is lost, and the collection has shrunk by the sum of count minus one; when the ids are in collection order what is left is the first document of each name |
| Cleanup.RemoveNamesKeepsUnique | mongodb_test.py:39 | deleting by name keeps names unique |
| Cleanup.CleanUpOutcome | mongodb_test.py:22-39 | for any duplicate report: at the end every name occurs once; the names are those that were there minus the eight test names; every document with a unique non-test name is kept; the result is a subsequence of the collection |
| Cleanup.CleanUp | mongodb_test.py:22-39 | for the report the store returns: the script deletes the reported non-head ids and then the test names; every name then occurs once, the names are the old ones minus the test names, and the result is a subsequence of the old collection; when the report's ids are in collection order what is left is the first document of each non-test name |

## Left out

- MongoDB connection setup, `load_dotenv` and environment reads, `requests.get` and JSON parsing are I/O. The parsed payload and the HTTP status are inputs to `Ingest.Ingest`, and `players` is an input to `Dashboard.Render`.
- Streamlit widgets, `st.session_state` (app.py:33-48), the displayed table's column projection (app.py:94), the charts and every `print` are UI output. The search string, team, position and sort label are plain parameters of `Dashboard.Render`.
- Ingest.Ingest: the status test is `== 200` exactly, as the code has it; other 2xx codes count as failure.
- Ingest.Ingest: the run replaces the whole collection; it is not an upsert by name.
- Ingest.Ingest: pymongo refuses `insert_many([])` before it contacts the server. This is modelled as the `EmptyInsertRefused` outcome, after the collection has already been emptied.
- Ingest.Format: `now_cost / 10` is an exact rational (`real`); floating-point rounding is not modelled.
- Store.Collection: MongoDB's ObjectId generation is modelled as a counter of fresh natural numbers. Only freshness and uniqueness matter here.
- Dashboard.NameMatches: `str.contains` reads the query as a regular expression by default; the model reads it literally.
- Text.Lower: case folding covers ASCII letters only. Non-ASCII case folding and Unicode normalisation are not modelled.
- Sorting.SortValues: pandas does not fix the order of rows with equal keys. The contract states ordering and permutation only, and the body is one particular such sort; tie order is not a property of the model.
- Dashboard.Render: an empty collection gives a DataFrame with no columns. With a non-empty search the `KeyError` comes from `df["name"]` at app.py:31, otherwise from `df["team"]` at app.py:41. Both are modelled as the one `Failure(MissingColumn)`.
- Cleanup.Aggregate: MongoDB promises neither the order of the groups nor the order of the `$push` ids inside a group. `Aggregate` is one possible answer, in collection order. `AggregateDuplicates`, `RemoveDuplicates` and `CleanUp` assume only `IsDuplicateReport`, which allows any order. So "first" is just the id the store happens to list first. The result equals keeping the earliest document of each name only when the ids come in collection order (`InCollectionOrder`).
- Concurrent writers and scheduled re-ingestion are out of scope: the scripts have neither.
