/**
  What the storage does with a query: scan the table in storage order, keep
  the rows that satisfy an equality filter, and cut a page out of the result
  with OFFSET and LIMIT.
 */
module Query {
  import opened Errors
  import opened Entity
  import opened Store

  /** The rows stored under the keys `ks`, in that order. */
  function RowsAt(rows: map<int, Row>, ks: seq<int>): (r: seq<Row>)
    requires forall i :: 0 <= i < |ks| ==> ks[i] in rows
    ensures |r| == |ks| && forall i :: 0 <= i < |ks| ==> r[i] == rows[ks[i]]
  {
    seq(|ks|, i requires 0 <= i < |ks| => rows[ks[i]])
  }

  /** The committed rows in storage order (ascending id: no query here has an ORDER BY). */
  function Scan(rows: map<int, Row>): (r: seq<Row>)
    ensures |r| == |rows|
    ensures forall x :: x in r <==> Stored(rows, x)
  {
    var ks := SortedKeys(rows.Keys);
    var r := RowsAt(rows, ks);
    forall x | x in r
      ensures Stored(rows, x)
    {
      var i :| 0 <= i < |r| && r[i] == x;
      assert rows[ks[i]] == x;
    }
    forall x | Stored(rows, x)
      ensures x in r
    {
      var k :| k in rows && rows[k] == x;
      var i :| 0 <= i < |ks| && ks[i] == k;
      assert r[i] == x;
    }
    r
  }

  /** WHERE: the rows that satisfy the filter, in the order given. */
  function Select(xs: seq<Row>, filter: Filter): (r: seq<Row>)
    ensures |r| <= |xs|
    ensures forall x :: x in r <==> x in xs && Matches(x, filter)
  {
    if xs == [] then []
    else (if Matches(xs[0], filter) then [xs[0]] else []) + Select(xs[1..], filter)
  }

  /** How many stored rows satisfy the filter. */
  function MatchCount(rows: map<int, Row>, filter: Filter): nat {
    |set k | k in rows && Matches(rows[k], filter)|
  }

  /** The keys among `ks` whose rows satisfy the filter. */
  function MatchingKeys(rows: map<int, Row>, ks: seq<int>, filter: Filter): set<int>
    requires forall i :: 0 <= i < |ks| ==> ks[i] in rows
  {
    set k | k in ks && Matches(rows[k], filter)
  }

  /** The matching keys of a key list are those of its tail, plus its head when that row matches and is not in the tail. */
  lemma MatchingKeysCons(rows: map<int, Row>, ks: seq<int>, filter: Filter)
    requires ks != [] && forall i :: 0 <= i < |ks| ==> ks[i] in rows
    requires ks[0] !in ks[1..]
    ensures |MatchingKeys(rows, ks, filter)| ==
      |MatchingKeys(rows, ks[1..], filter)| + if Matches(rows[ks[0]], filter) then 1 else 0
  {
    var rest := ks[1..];
    var before, after := MatchingKeys(rows, rest, filter), MatchingKeys(rows, ks, filter);
    assert forall k :: k in ks <==> k == ks[0] || k in rest;
    if Matches(rows[ks[0]], filter) {
      assert after == before + {ks[0]};
    } else {
      assert after == before;
    }
  }

  /** Filtering the rows under distinct keys keeps one row per key whose row satisfies the filter. */
  lemma {:induction false} SelectCounts(rows: map<int, Row>, ks: seq<int>, filter: Filter)
    requires forall i :: 0 <= i < |ks| ==> ks[i] in rows
    requires forall i, j :: 0 <= i < j < |ks| ==> ks[i] != ks[j]
    ensures |Select(RowsAt(rows, ks), filter)| == |MatchingKeys(rows, ks, filter)|
    decreases |ks|
  {
    if ks != [] {
      var rest := ks[1..];
      assert forall j :: 0 <= j < |rest| ==> rest[j] == ks[j + 1];
      SelectCounts(rows, rest, filter);
      assert RowsAt(rows, ks)[1..] == RowsAt(rows, rest);
      MatchingKeysCons(rows, ks, filter);
    }
  }

  /** A key list holding exactly the table's keys has the table's matching keys. */
  lemma MatchingKeysOfAll(rows: map<int, Row>, ks: seq<int>, filter: Filter)
    requires forall i :: 0 <= i < |ks| ==> ks[i] in rows
    requires forall k :: k in rows ==> k in ks
    ensures MatchingKeys(rows, ks, filter) == set k | k in rows && Matches(rows[k], filter)
  {
    var all := set k | k in rows && Matches(rows[k], filter);
    forall k | k in all
      ensures k in MatchingKeys(rows, ks, filter)
    {
      assert k in ks;
    }
  }

  /** A scan filtered by a filter holds exactly as many rows as the table has rows satisfying it. */
  lemma ScanSelectCount(rows: map<int, Row>, filter: Filter)
    ensures |Select(Scan(rows), filter)| == MatchCount(rows, filter)
  {
    var ks := SortedKeys(rows.Keys);
    assert Scan(rows) == RowsAt(rows, ks);
    SelectCounts(rows, ks, filter);
    MatchingKeysOfAll(rows, ks, filter);
  }

  /** The first element, if there is one (what `.first()` returns). */
  function First<T>(xs: seq<T>): (r: Option<T>)
    ensures r.None? <==> xs == []
    ensures r.Some? ==> r.value in xs
  {
    if xs == [] then None else Some(xs[0])
  }

  /** OFFSET `skip` LIMIT `limit`: drop the first `skip` rows, keep at most `limit` of the rest. */
  function Page<T>(xs: seq<T>, skip: nat, limit: nat): (r: seq<T>)
    ensures |r| <= limit
    ensures |r| == if skip >= |xs| then 0 else Min(limit, |xs| - skip)
    ensures forall i :: 0 <= i < |r| ==> r[i] == xs[skip + i]
  {
    if skip >= |xs| then [] else xs[skip..][..Min(limit, |xs| - skip)]
  }

  /** A page holds only elements of what it was cut from. */
  lemma PageWithin<T>(xs: seq<T>, skip: nat, limit: nat)
    ensures forall x :: x in Page(xs, skip, limit) ==> x in xs
  {
    var r := Page(xs, skip, limit);
    forall x | x in r
      ensures x in xs
    {
      var i :| 0 <= i < |r| && r[i] == x;
      assert xs[skip + i] == x;
    }
  }

  /** The first page is everything when the limit covers the whole result. */
  lemma PageAll<T>(xs: seq<T>, limit: nat)
    ensures |xs| <= limit ==> Page(xs, 0, limit) == xs
  {
  }

  /** Consecutive pages tile the result: the page after a page starts where it stopped. */
  lemma PagesTile<T>(xs: seq<T>, skip: nat, a: nat, b: nat)
    ensures Page(xs, skip, a) + Page(xs, skip + a, b) == Page(xs, skip, a + b)
  {
    var left, right, whole := Page(xs, skip, a), Page(xs, skip + a, b), Page(xs, skip, a + b);
    if skip + a < |xs| {
      assert |left| == a;
      forall i | 0 <= i < |whole|
        ensures (left + right)[i] == whole[i]
      {
        if i >= a {
          assert (left + right)[i] == right[i - a] == xs[skip + i];
        }
      }
    }
  }
}
