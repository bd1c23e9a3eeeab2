/** `DataFrame.sort_values(column, ascending)` over player rows. pandas does
    not promise an order among rows with equal keys, so the model promises
    only what every such sort gives: a permutation of the rows, ordered by the
    column in the chosen direction. */
module Sorting {
  import opened Player
  import Text

  /** The columns the dashboard sorts on. */
  datatype Column = Name | Price | TotalPoints | GoalsScored | Assists | Minutes

  /** `a`'s value in column `col` is at most `b`'s. */
  predicate KeyAtMost(a: PlayerRecord, b: PlayerRecord, col: Column) {
    match col
    case Name => Text.AtMost(a.name, b.name)
    case Price => a.price <= b.price
    case TotalPoints => a.totalPoints <= b.totalPoints
    case GoalsScored => a.goalsScored <= b.goalsScored
    case Assists => a.assists <= b.assists
    case Minutes => a.minutes <= b.minutes
  }

  /** `a` may come before `b` in a sort on `col` in the given direction. */
  predicate InOrder(a: PlayerRecord, b: PlayerRecord, col: Column, ascending: bool) {
    if ascending then KeyAtMost(a, b, col) else KeyAtMost(b, a, col)
  }

  /** Every earlier row may precede every later one. */
  predicate Sorted(s: seq<PlayerRecord>, col: Column, ascending: bool) {
    forall i, j :: 0 <= i < j < |s| ==> InOrder(s[i], s[j], col, ascending)
  }

  lemma InOrderTotal(a: PlayerRecord, b: PlayerRecord, col: Column, ascending: bool)
    ensures InOrder(a, b, col, ascending) || InOrder(b, a, col, ascending)
  {
    if col == Name {
      Text.LessTrichotomy(a.name, b.name);
    }
  }

  lemma InOrderTransitive(a: PlayerRecord, b: PlayerRecord, c: PlayerRecord, col: Column, ascending: bool)
    requires InOrder(a, b, col, ascending) && InOrder(b, c, col, ascending)
    ensures InOrder(a, c, col, ascending)
  {
    if col == Name {
      if ascending && Text.Less(a.name, b.name) && Text.Less(b.name, c.name) {
        Text.LessTransitive(a.name, b.name, c.name);
      } else if !ascending && Text.Less(c.name, b.name) && Text.Less(b.name, a.name) {
        Text.LessTransitive(c.name, b.name, a.name);
      }
    }
  }

  /** Putting `x` in front of a sorted sequence whose rows `x` may all precede
      keeps it sorted. */
  lemma SortedCons(x: PlayerRecord, s: seq<PlayerRecord>, col: Column, ascending: bool)
    requires Sorted(s, col, ascending)
    requires forall y :: y in s ==> InOrder(x, y, col, ascending)
    ensures Sorted([x] + s, col, ascending)
  {
    var r := [x] + s;
    forall i, j | 0 <= i < j < |r|
      ensures InOrder(r[i], r[j], col, ascending)
    {
      if i == 0 {
        assert r[j] in s;
      } else {
      }
    }
  }

  /** Inserts `x` into a sorted sequence at the first place it may go. */
  function Insert(x: PlayerRecord, s: seq<PlayerRecord>, col: Column, ascending: bool): (r: seq<PlayerRecord>)
    requires Sorted(s, col, ascending)
    ensures Sorted(r, col, ascending)
    ensures multiset(r) == multiset(s) + multiset{x}
  {
    if s == [] then [x]
    else if InOrder(x, s[0], col, ascending) then
      assert forall y :: y in s ==> InOrder(x, y, col, ascending) by {
        forall y | y in s ensures InOrder(x, y, col, ascending) {
          var j :| 0 <= j < |s| && s[j] == y;
          if j > 0 {
            InOrderTransitive(x, s[0], y, col, ascending);
          }
        }
      }
      SortedCons(x, s, col, ascending);
      [x] + s
    else
      assert s == [s[0]] + s[1..];
      var rest := Insert(x, s[1..], col, ascending);
      assert forall y :: y in rest ==> InOrder(s[0], y, col, ascending) by {
        forall y | y in rest ensures InOrder(s[0], y, col, ascending) {
          assert y in multiset(rest);
          if y == x {
            InOrderTotal(x, s[0], col, ascending);
          } else {
            assert y in s[1..];
          }
        }
      }
      SortedCons(s[0], rest, col, ascending);
      [s[0]] + rest
  }

  /** `sort_values(col, ascending=ascending)`: a sorted permutation of the rows. */
  function SortValues(s: seq<PlayerRecord>, col: Column, ascending: bool): (r: seq<PlayerRecord>)
    ensures Sorted(r, col, ascending)
    ensures multiset(r) == multiset(s)
  {
    if s == [] then []
    else
      assert s == [s[0]] + s[1..];
      Insert(s[0], SortValues(s[1..], col, ascending), col, ascending)
  }
}
