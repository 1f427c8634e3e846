/**
 * What the history-merge query of the funding crawler computes, stated over
 * an in-memory table instead of generated SQL text.
 *
 * A table is a sequence of rows read as a bag: SQL gives it no order, and
 * the model keeps duplicates wherever the query's joins produce them. A
 * content column that is NULL in a row is absent from that row's `cells`.
 */
module History {
  import opened Wrappers
  import opened Sorting

  type Id = string
  type Column = string
  type Date = int

  /** The identity column; it is never coalesced as content. */
  const IdColumn: Column := "id_hash"

  /** One stored version of an entry: open while `onWebsiteTo` is NULL. */
  datatype Row<V> = Row(idHash: Id, cells: map<Column, V>,
                        onWebsiteFrom: Option<Date>, onWebsiteTo: Option<Date>)

  /** One group of `aggregated_data_retired`. */
  datatype Aggregate = Aggregate(previousUpdateDates: seq<Date>, lastUpdated: Date)

  /** One row of `most_recent_data_retired`. */
  datatype Retired<V> = Retired(aggId: Id, previousUpdateDates: seq<Date>,
                                onWebsiteFrom: Option<Date>, lastUpdated: Date,
                                cells: map<Column, V>)

  /** One row of the full outer join of `data_new` and `most_recent_data_retired`. */
  datatype Joined<V> =
    | Both(current: Row<V>, retired: Retired<V>)
    | NewOnly(current: Row<V>)
    | RetiredOnly(retired: Retired<V>)

  /** A joined row after the left join with `deleted_records`. */
  datatype Tagged<V> = Tagged(row: Joined<V>, deleted: bool)

  /** One row of the query's result; it has no `on_website_to` column. */
  datatype OutRow<V> = OutRow(idHash: Id, cells: map<Column, V>,
                              previousUpdateDates: Option<seq<Date>>,
                              lastUpdated: Option<Date>,
                              onWebsiteFrom: Option<Date>,
                              deleted: bool)

  // Keys of the intermediate tables, used to count rows per id.

  function RowId<V>(r: Row<V>): Id { r.idHash }
  function RetiredId<V>(r: Retired<V>): Id { r.aggId }
  function JoinKey<V>(p: Joined<V>): Id {
    // COALESCE(data_new.new_id_hash, most_recent_data_retired.agg_id)
    if p.RetiredOnly? then p.retired.aggId else p.current.idHash
  }
  function TaggedKey<V>(t: Tagged<V>): Id { JoinKey(t.row) }
  function OutId<V>(o: OutRow<V>): Id { o.idHash }

  /** The number of elements of s whose key is id. */
  function Count<T>(s: seq<T>, key: T -> Id, id: Id): (c: nat)
    ensures c <= |s|
    ensures c > 0 <==> exists i :: 0 <= i < |s| && key(s[i]) == id
  {
    if s == [] then 0
    else
      var rest := Count(s[1..], key, id);
      assert forall i :: 1 <= i < |s| ==> s[1..][i - 1] == s[i];
      (if key(s[0]) == id then 1 else 0) + rest
  }

  /** `c` copies of `x`. */
  function Repeat<T>(x: T, c: nat): (r: seq<T>)
    ensures |r| == c
    ensures forall y :: y in r ==> y == x
  {
    if c == 0 then [] else [x] + Repeat(x, c - 1)
  }

  // ---------------------------------------------------------------------
  // gen_comp_b: data_new

  /** The open rows: those whose `on_website_to` is NULL, in table order, each
   * as often as it occurs in the table. */
  function DataNew<V(!new)>(t: seq<Row<V>>): (n: seq<Row<V>>)
    ensures forall x :: x in n <==> x in t && x.onWebsiteTo.None?
    ensures forall x :: multiset(n)[x] == if x.onWebsiteTo.None? then multiset(t)[x] else 0
  {
    if t == [] then []
    else
      assert t == [t[0]] + t[1..];
      assert forall x :: x in t <==> x == t[0] || x in t[1..];
      (if t[0].onWebsiteTo.None? then [t[0]] else []) + DataNew(t[1..])
  }

  /** The ids that have at least one open row. */
  ghost function OpenIds<V(!new)>(t: seq<Row<V>>): (ids: set<Id>)
    ensures forall id :: id in ids <==> exists x :: x in t && x.onWebsiteTo.None? && x.idHash == id
  {
    set x | x in t && x.onWebsiteTo.None? :: x.idHash
  }

  // ---------------------------------------------------------------------
  // gen_comp_a: aggregated_data_retired

  /** The ids that have at least one closed row. */
  function ClosedIds<V(!new)>(t: seq<Row<V>>): (ids: set<Id>)
    ensures forall id :: id in ids <==> exists x :: x in t && x.onWebsiteTo.Some? && x.idHash == id
  {
    set i | 0 <= i < |t| && t[i].onWebsiteTo.Some? :: t[i].idHash
  }

  /** The number of rows of `id` in t whose `on_website_to` is d. */
  function ClosedOn<V>(t: seq<Row<V>>, id: Id, d: Date): nat {
    if t == [] then 0
    else (if t[0].idHash == id && t[0].onWebsiteTo == Some(d) then 1 else 0) + ClosedOn(t[1..], id, d)
  }

  /** Every `on_website_to` of a closed row of `id`, in table order, duplicates kept. */
  function ClosedDates<V(!new)>(t: seq<Row<V>>, id: Id): (ds: seq<Date>)
    ensures forall d :: d in ds <==> exists x :: x in t && x.idHash == id && x.onWebsiteTo == Some(d)
    ensures forall d :: multiset(ds)[d] == ClosedOn(t, id, d)
  {
    if t == [] then []
    else
      assert forall x :: x in t <==> x == t[0] || x in t[1..];
      (if t[0].idHash == id && t[0].onWebsiteTo.Some? then [t[0].onWebsiteTo.value] else [])
        + ClosedDates(t[1..], id)
  }

  /** `MAX(on_website_to)` of a non-empty group. */
  function MaxDate(ds: seq<Date>): (m: Date)
    requires ds != []
    ensures m in ds
    ensures forall d :: d in ds ==> d <= m
  {
    if |ds| == 1 then ds[0]
    else
      var m := MaxDate(ds[1..]);
      assert forall d :: d in ds <==> d == ds[0] || d in ds[1..];
      if ds[0] < m then m else ds[0]
  }

  /**
   * What `ARRAY_AGG(on_website_to ORDER BY on_website_to)` and
   * `MAX(on_website_to)` promise of one group's dates ds: the list is ds in
   * ascending order, duplicates kept; the maximum is an element of ds, bounds
   * every element, and is the list's last element.
   */
  ghost predicate Summarises(a: Aggregate, ds: seq<Date>) {
    && SortedBy(a.previousUpdateDates, IntLe)
    && multiset(a.previousUpdateDates) == multiset(ds)
    && a.lastUpdated in ds
    && (forall d :: d in ds ==> d <= a.lastUpdated)
    && |a.previousUpdateDates| > 0
    && a.previousUpdateDates[|a.previousUpdateDates| - 1] == a.lastUpdated
  }

  /** One group of `aggregated_data_retired`, from the group's dates. */
  function AggregateOf(ds: seq<Date>): (a: Aggregate)
    requires ds != []
    ensures Summarises(a, ds)
  {
    IntLeIsTotalPreorder();
    var sorted := Sort(ds, IntLe);
    var m := MaxDate(ds);
    SortedLastIsMax(sorted, ds, m);
    Aggregate(sorted, m)
  }

  /** The closed rows grouped by id (`GROUP BY id_hash`), one aggregate per id. */
  function AggregatedRetired<V(!new)>(t: seq<Row<V>>): (agg: map<Id, Aggregate>)
    ensures agg.Keys == ClosedIds(t)
    ensures forall id :: id in agg ==> Summarises(agg[id], ClosedDates(t, id))
  {
    var ids := ClosedIds(t);
    assert forall id :: id in ids ==> ClosedDates(t, id) != [] by {
      forall id | id in ids ensures ClosedDates(t, id) != [] {
        var x :| x in t && x.onWebsiteTo.Some? && x.idHash == id;
        assert x.onWebsiteTo.value in ClosedDates(t, id);
      }
    }
    map id | id in ids :: AggregateOf(ClosedDates(t, id))
  }

  // ---------------------------------------------------------------------
  // gen_comp_c: most_recent_data_retired

  /**
   * The inner join of the aggregate with the table on `agg_id = id_hash AND
   * last_updated = on_website_to`: every row that attains its id's maximum,
   * in table order. Rows of one id tied at the maximum all appear.
   */
  function JoinLatest<V(!new)>(agg: map<Id, Aggregate>, t: seq<Row<V>>): (rr: seq<Retired<V>>)
    ensures forall r :: r in rr ==>
      r.aggId in agg && exists x :: x in t && Attains(agg, x) && r == RetiredOf(agg, x)
    ensures forall x :: x in t && Attains(agg, x) ==> RetiredOf(agg, x) in rr
    ensures forall id ::
      Count(rr, RetiredId, id) == if id in agg then ClosedOn(t, id, agg[id].lastUpdated) else 0
  {
    if t == [] then []
    else
      var rest := JoinLatest(agg, t[1..]);
      assert forall x :: x in t <==> x == t[0] || x in t[1..];
      if Attains(agg, t[0]) then [RetiredOf(agg, t[0])] + rest else rest
  }

  /** The join condition of `gen_comp_c`. */
  predicate Attains<V(!new)>(agg: map<Id, Aggregate>, x: Row<V>) {
    x.idHash in agg && x.onWebsiteTo == Some(agg[x.idHash].lastUpdated)
  }

  function RetiredOf<V(!new)>(agg: map<Id, Aggregate>, x: Row<V>): Retired<V>
    requires x.idHash in agg
  {
    Retired(x.idHash, agg[x.idHash].previousUpdateDates, x.onWebsiteFrom,
            agg[x.idHash].lastUpdated, x.cells)
  }

  /** x is a closed row whose `on_website_to` is the latest of its id's. */
  ghost predicate LatestClosed<V(!new)>(t: seq<Row<V>>, x: Row<V>) {
    x.onWebsiteTo.Some? && forall d :: d in ClosedDates(t, x.idHash) ==> d <= x.onWebsiteTo.value
  }

  /**
   * r is the row of `most_recent_data_retired` made from the table row x:
   * x's id, content and `on_website_from`, x's closing date as
   * `last_updated`, and the id's dates ascending as `previous_update_dates`.
   */
  ghost predicate Retires<V(!new)>(t: seq<Row<V>>, x: Row<V>, r: Retired<V>) {
    && r.aggId == x.idHash && r.cells == x.cells && r.onWebsiteFrom == x.onWebsiteFrom
    && x.onWebsiteTo == Some(r.lastUpdated)
    && Summarises(Aggregate(r.previousUpdateDates, r.lastUpdated), ClosedDates(t, x.idHash))
  }

  /** The number of closed rows of id whose `on_website_to` is the id's latest. */
  ghost function LatestCount<V(!new)>(t: seq<Row<V>>, id: Id): nat {
    var ds := ClosedDates(t, id);
    if ds == [] then 0 else ClosedOn(t, id, MaxDate(ds))
  }

  /** `most_recent_data_retired`, from the table. */
  function MostRecentRetired<V(!new)>(t: seq<Row<V>>): (rr: seq<Retired<V>>)
    ensures forall r :: r in rr ==> exists x :: x in t && Retires(t, x, r)
    ensures forall x :: x in t && LatestClosed(t, x) ==> exists r :: r in rr && Retires(t, x, r)
    ensures forall id :: Count(rr, RetiredId, id) == LatestCount(t, id)
  {
    var agg := AggregatedRetired(t);
    forall x | x in t && Attains(agg, x) {
      AttainsRetires(t, x);
    }
    forall x | x in t && LatestClosed(t, x) {
      LatestAttains(t, x);
    }
    forall id {
      LatestCountOfAggregate(t, id);
    }
    JoinLatest(agg, t)
  }

  /** A row that satisfies the join condition yields a row of
   * `most_recent_data_retired` with its id's aggregate. */
  lemma AttainsRetires<V(!new)>(t: seq<Row<V>>, x: Row<V>)
    requires Attains(AggregatedRetired(t), x)
    ensures Retires(t, x, RetiredOf(AggregatedRetired(t), x))
  {
  }

  /** A closed row at its id's latest date satisfies the join condition. */
  lemma LatestAttains<V(!new)>(t: seq<Row<V>>, x: Row<V>)
    requires x in t && LatestClosed(t, x)
    ensures Attains(AggregatedRetired(t), x)
  {
  }

  /** The join's count per id is the number of the id's closed rows at its maximum. */
  lemma LatestCountOfAggregate<V(!new)>(t: seq<Row<V>>, id: Id)
    ensures var agg := AggregatedRetired(t);
            (if id in agg then ClosedOn(t, id, agg[id].lastUpdated) else 0) == LatestCount(t, id)
  {
  }

  // ---------------------------------------------------------------------
  // gen_query: the full outer join, deleted_records and the final select

  /** The retired rows that join with the open row x. */
  function Matches<V(!new)>(x: Row<V>, rr: seq<Retired<V>>): (ps: seq<Joined<V>>)
    ensures forall p :: p in ps ==> p.Both? && p.current == x && p.retired in rr && p.retired.aggId == x.idHash
    ensures forall r :: r in rr && r.aggId == x.idHash ==> Both(x, r) in ps
    ensures |ps| == Count(rr, RetiredId, x.idHash)
  {
    if rr == [] then []
    else
      var rest := Matches(x, rr[1..]);
      assert forall r :: r in rr <==> r == rr[0] || r in rr[1..];
      (if rr[0].aggId == x.idHash then [Both(x, rr[0])] else []) + rest
  }

  /** The part of the full outer join that starts from `data_new`. */
  function LeftSide<V(!new)>(n: seq<Row<V>>, rr: seq<Retired<V>>): (ps: seq<Joined<V>>)
    ensures forall p :: p in ps ==>
      || (p.Both? && p.current in n && p.retired in rr && p.retired.aggId == p.current.idHash)
      || (p.NewOnly? && p.current in n && Count(rr, RetiredId, p.current.idHash) == 0)
    ensures forall x :: x in n ==> exists p :: p in ps && !p.RetiredOnly? && p.current == x
    ensures forall x, r :: x in n && r in rr && r.aggId == x.idHash ==> Both(x, r) in ps
  {
    if n == [] then []
    else
      var m := Matches(n[0], rr);
      var rest := LeftSide(n[1..], rr);
      var piece := if m == [] then [NewOnly(n[0])] else m;
      assert forall x :: x in n <==> x == n[0] || x in n[1..];
      assert piece[0] in piece + rest && !piece[0].RetiredOnly? && piece[0].current == n[0];
      piece + rest
  }

  /** The part of the full outer join with no partner in `data_new`. */
  function RightOnly<V(!new)>(n: seq<Row<V>>, rr: seq<Retired<V>>): (ps: seq<Joined<V>>)
    ensures forall p :: p in ps ==> p.RetiredOnly? && p.retired in rr && Count(n, RowId, p.retired.aggId) == 0
    ensures forall r :: r in rr && Count(n, RowId, r.aggId) == 0 ==> RetiredOnly(r) in ps
  {
    if rr == [] then []
    else
      var rest := RightOnly(n, rr[1..]);
      assert forall r :: r in rr <==> r == rr[0] || r in rr[1..];
      (if Count(n, RowId, rr[0].aggId) == 0 then [RetiredOnly(rr[0])] else []) + rest
  }

  /**
   * `data_new FULL OUTER JOIN most_recent_data_retired ON new_id_hash = agg_id`:
   * no row of either side is lost. Every open row appears with each retired
   * row of its id, and every retired row with each open row of its id or
   * alone.
   */
  function FullOuterJoin<V(!new)>(n: seq<Row<V>>, rr: seq<Retired<V>>): (ps: seq<Joined<V>>)
    ensures forall x :: x in n ==> exists p :: p in ps && !p.RetiredOnly? && p.current == x
    ensures forall r :: r in rr ==> exists p :: p in ps && !p.NewOnly? && p.retired == r
  {
    var left := LeftSide(n, rr);
    var right := RightOnly(n, rr);
    forall r | r in rr ensures exists p :: p in left + right && !p.NewOnly? && p.retired == r {
      if Count(n, RowId, r.aggId) == 0 {
        assert RetiredOnly(r) in left + right;
      } else {
        var i :| 0 <= i < |n| && n[i].idHash == r.aggId;
        assert Both(n[i], r) in left + right;
      }
    }
    left + right
  }

  /** `deleted_records`: the ids of the retired rows no open row joins with. */
  function DeletedRecords<V(!new)>(n: seq<Row<V>>, rr: seq<Retired<V>>): (d: seq<Id>)
    ensures forall id :: id in d <==> Count(n, RowId, id) == 0 && Count(rr, RetiredId, id) > 0
  {
    if rr == [] then []
    else
      var rest := DeletedRecords(n, rr[1..]);
      assert forall id :: Count(rr, RetiredId, id) > 0 <==> rr[0].aggId == id || Count(rr[1..], RetiredId, id) > 0;
      (if Count(n, RowId, rr[0].aggId) == 0 then [rr[0].aggId] else []) + rest
  }

  /**
   * `LEFT JOIN deleted_records ON <id> = deleted_records.agg_id`: a joined row
   * is repeated once per matching deleted id and flagged, or kept once
   * unflagged when none matches.
   */
  function TagDeleted<V(!new)>(ps: seq<Joined<V>>, d: seq<Id>): (ts: seq<Tagged<V>>)
    ensures forall tg :: tg in ts ==> tg.row in ps && (tg.deleted <==> JoinKey(tg.row) in d)
  {
    if ps == [] then []
    else
      var c := multiset(d)[JoinKey(ps[0])];
      var rest := TagDeleted(ps[1..], d);
      assert forall p :: p in ps[1..] ==> p in ps;
      (if c == 0 then [Tagged(ps[0], false)] else Repeat(Tagged(ps[0], true), c)) + rest
  }

  /** The open row of a joined row, NULL when only the retired side is there. */
  function CurrentRow<V>(p: Joined<V>): Option<Row<V>> {
    if p.RetiredOnly? then None else Some(p.current)
  }

  /** The cells of a row that may be NULL as a whole: none when it is. */
  function RowCells<V>(r: Option<Row<V>>): map<Column, V> {
    if r.Some? then r.value.cells else map[]
  }

  /** The `on_website_from` of a row that may be NULL as a whole. */
  function RowFrom<V>(r: Option<Row<V>>): Option<Date> {
    if r.Some? then r.value.onWebsiteFrom else None
  }

  /** The content cells of a joined row's retired side: none when it is NULL. */
  function RetiredCells<V>(p: Joined<V>): map<Column, V> {
    if p.NewOnly? then map[] else p.retired.cells
  }

  /** The `on_website_from` of a joined row's retired side. */
  function RetiredFrom<V>(p: Joined<V>): Option<Date> {
    if p.NewOnly? then None else p.retired.onWebsiteFrom
  }

  /** The value of column c in a row's cells, NULL when absent. */
  function Cell<V>(cells: map<Column, V>, c: Column): Option<V> {
    if c in cells then Some(cells[c]) else None
  }

  /**
   * m holds the requested content columns, and each is the first non-NULL
   * of the open side's value and the retired side's value.
   */
  ghost predicate CoalescedFrom<V>(m: map<Column, V>, cur: map<Column, V>, prev: map<Column, V>, columns: seq<Column>) {
    && (forall c :: c in m ==> c in columns && c != IdColumn)
    && (forall c :: c in columns && c != IdColumn ==> Cell(m, c) == Coalesce(Cell(cur, c), Cell(prev, c)))
  }

  /** `COALESCE(data_new.col, most_recent_data_retired.col)` for every column but `id_hash`. */
  function CoalesceCells<V>(cur: map<Column, V>, prev: map<Column, V>, columns: seq<Column>): (m: map<Column, V>)
    ensures CoalescedFrom(m, cur, prev, columns)
  {
    map c | c in columns && c != IdColumn && (c in cur || c in prev) :: if c in cur then cur[c] else prev[c]
  }

  /**
   * o is the select list applied to an open side with the given cells and
   * `on_website_from` and a retired side with the given ones: coalesced
   * content, and `on_website_from` preferring the retired side.
   */
  ghost predicate Merges<V>(o: OutRow<V>, cur: map<Column, V>, curFrom: Option<Date>,
                           prev: map<Column, V>, prevFrom: Option<Date>, columns: seq<Column>) {
    CoalescedFrom(o.cells, cur, prev, columns) && o.onWebsiteFrom == Coalesce(prevFrom, curFrom)
  }

  /** The select list of the final query, for one row. */
  function Project<V>(tg: Tagged<V>, columns: seq<Column>): (o: OutRow<V>)
    ensures o.idHash == JoinKey(tg.row) && o.deleted == tg.deleted
    ensures Merges(o, RowCells(CurrentRow(tg.row)), RowFrom(CurrentRow(tg.row)),
                   RetiredCells(tg.row), RetiredFrom(tg.row), columns)
    ensures o.previousUpdateDates.Some? <==> !tg.row.NewOnly?
    ensures o.lastUpdated.Some? <==> !tg.row.NewOnly?
    ensures !tg.row.NewOnly? ==>
      && o.previousUpdateDates == Some(tg.row.retired.previousUpdateDates)
      && o.lastUpdated == Some(tg.row.retired.lastUpdated)
  {
    var p := tg.row;
    OutRow(JoinKey(p),
           CoalesceCells(RowCells(CurrentRow(p)), RetiredCells(p), columns),
           if p.NewOnly? then None else Some(p.retired.previousUpdateDates),
           if p.NewOnly? then None else Some(p.retired.lastUpdated),
           Coalesce(RetiredFrom(p), RowFrom(CurrentRow(p))),
           tg.deleted)
  }

  function Emit<V>(ts: seq<Tagged<V>>, columns: seq<Column>): (os: seq<OutRow<V>>)
    ensures forall o :: o in os ==> exists tg :: tg in ts && o == Project(tg, columns)
  {
    if ts == [] then []
    else
      var rest := Emit(ts[1..], columns);
      assert forall tg :: tg in ts[1..] ==> tg in ts;
      [Project(ts[0], columns)] + rest
  }

  /**
   * The generated SQL lists the content columns between commas in each of
   * its select lists; with no column other than `id_hash` the text is not a
   * valid query.
   */
  predicate HasContentColumn(columns: seq<Column>) {
    exists c :: c in columns && c != IdColumn
  }

  /** `gen_query(dataset_name, columns)` evaluated over the table t. */
  function Query<V(!new)>(t: seq<Row<V>>, columns: seq<Column>): (q: seq<OutRow<V>>)
    requires HasContentColumn(columns)
    ensures forall o :: o in q ==> forall c :: c in o.cells ==> c in columns && c != IdColumn
    ensures forall o :: o in q ==> (o.previousUpdateDates.Some? <==> o.lastUpdated.Some?)
  {
    var n := DataNew(t);
    var rr := MostRecentRetired(t);
    Emit(TagDeleted(FullOuterJoin(n, rr), DeletedRecords(n, rr)), columns)
  }
}
