/** The listing query of `GET /tables`: all tables ordered by creation time,
    newest first, then an offset-based page of that order. */
module Catalog {
  import opened TableModel

  predicate SortedByCreatedDesc(ts: seq<Table>)
  {
    forall i, j :: 0 <= i < j < |ts| ==> ts[i].createdAt >= ts[j].createdAt
  }

  /** Places `t` in front of the first table that is not newer than it. */
  function Insert(t: Table, sorted: seq<Table>): (r: seq<Table>)
    requires SortedByCreatedDesc(sorted)
    ensures SortedByCreatedDesc(r)
    ensures multiset(r) == multiset(sorted) + multiset{t}
  {
    if sorted == [] then [t]
    else if t.createdAt >= sorted[0].createdAt then
      ConsSorted(t, sorted);
      [t] + sorted
    else
      var rest := Insert(t, sorted[1..]);
      assert sorted == [sorted[0]] + sorted[1..];
      NoNewerThan(sorted[0].createdAt, rest, sorted[1..], t);
      ConsSorted(sorted[0], rest);
      [sorted[0]] + rest
  }

  /** A table no older than the head of a newest-first list may go in front. */
  lemma ConsSorted(t: Table, ts: seq<Table>)
    requires SortedByCreatedDesc(ts)
    requires ts != [] ==> ts[0].createdAt <= t.createdAt
    ensures SortedByCreatedDesc([t] + ts)
  {
    var r := [t] + ts;
    forall i, j | 0 <= i < j < |r| ensures r[i].createdAt >= r[j].createdAt {
      assert r[j] == ts[j - 1];
      if i > 0 {
        assert r[i] == ts[i - 1];
      }
    }
  }

  /** A bound on every table of `ts` and on `t` bounds every table of a list
      holding exactly those tables. */
  lemma NoNewerThan(bound: int, r: seq<Table>, ts: seq<Table>, t: Table)
    requires multiset(r) == multiset(ts) + multiset{t}
    requires t.createdAt <= bound
    requires SortedByCreatedDesc(ts) && (ts != [] ==> ts[0].createdAt <= bound)
    ensures r != [] ==> r[0].createdAt <= bound
  {
    if r != [] {
      var x := r[0];
      assert x in multiset(r);
      if x != t {
        assert x in multiset(ts);
        var i :| 0 <= i < |ts| && ts[i] == x;
        assert i == 0 || ts[0].createdAt >= ts[i].createdAt;
      }
    }
  }

  /** `.sort({ createdAt: -1 })`: a permutation of the tables, newest first.
      Tables with equal timestamps keep their relative order. */
  function SortByCreatedDesc(ts: seq<Table>): (r: seq<Table>)
    ensures SortedByCreatedDesc(r)
    ensures multiset(r) == multiset(ts)
  {
    if ts == [] then []
    else
      assert ts == [ts[0]] + ts[1..];
      Insert(ts[0], SortByCreatedDesc(ts[1..]))
  }

  /** `.skip(skip).limit(limit)`, where a limit of 0 means no limit. */
  function Window(ts: seq<Table>, skip: nat, limit: nat): (page: seq<Table>)
    ensures |page| == if skip >= |ts| then 0
                      else if limit == 0 || skip + limit > |ts| then |ts| - skip
                      else limit
    ensures forall i :: 0 <= i < |page| ==> page[i] == ts[skip + i]
  {
    if skip >= |ts| then []
    else if limit == 0 || skip + limit > |ts| then ts[skip..]
    else ts[skip..skip + limit]
  }

  /** Consecutive pages tile the ordering: the page of `n` items at `skip`
      followed by the page at `skip + n` is the page of both sizes together. */
  lemma {:induction false} WindowsTile(ts: seq<Table>, skip: nat, n: nat, m: nat)
    requires n > 0
    ensures Window(ts, skip, n) + Window(ts, skip + n, m) == Window(ts, skip, if m == 0 then 0 else n + m)
  {
    var left := Window(ts, skip, n);
    var right := Window(ts, skip + n, m);
    var whole := Window(ts, skip, if m == 0 then 0 else n + m);
    assert |left + right| == |whole|;
    forall i | 0 <= i < |whole| ensures (left + right)[i] == whole[i] {
      if i < |left| {
        assert (left + right)[i] == ts[skip + i];
      } else {
        assert (left + right)[i] == right[i - |left|] == ts[skip + n + (i - |left|)];
      }
    }
  }

  /** A page of a newest-first ordering is itself newest first. */
  lemma WindowKeepsOrder(ts: seq<Table>, skip: nat, limit: nat)
    requires SortedByCreatedDesc(ts)
    ensures SortedByCreatedDesc(Window(ts, skip, limit))
  {
    var page := Window(ts, skip, limit);
    forall i, j | 0 <= i < j < |page| ensures page[i].createdAt >= page[j].createdAt {
      assert page[i] == ts[skip + i] && page[j] == ts[skip + j];
    }
  }

  /** Every table on a page of a reordering of `ts` is one of `ts`. */
  lemma WindowWithin(sorted: seq<Table>, ts: seq<Table>, skip: nat, limit: nat)
    requires multiset(sorted) == multiset(ts)
    ensures forall t :: t in Window(sorted, skip, limit) ==> t in ts
  {
    var page := Window(sorted, skip, limit);
    forall t | t in page ensures t in ts {
      var i :| 0 <= i < |page| && page[i] == t;
      assert t in multiset(sorted);
    }
  }
}
