/**
 * What the history-merge query guarantees about its result, proved over the
 * model in module History.
 */
module HistoryProofs {
  import opened Wrappers
  import opened Sorting
  import opened History

  // ---------------------------------------------------------------------
  // Counting rows per id

  lemma {:induction false} CountAppend<T>(a: seq<T>, b: seq<T>, key: T -> Id, id: Id)
    ensures Count(a + b, key, id) == Count(a, key, id) + Count(b, key, id)
  {
    if a != [] {
      assert (a + b)[0] == a[0];
      assert (a + b)[1..] == a[1..] + b;
      CountAppend(a[1..], b, key, id);
      assert Count(a + b, key, id) == (if key(a[0]) == id then 1 else 0) + Count(a[1..] + b, key, id);
      assert Count(a, key, id) == (if key(a[0]) == id then 1 else 0) + Count(a[1..], key, id);
    } else {
      assert a + b == b;
    }
  }

  /** A sequence whose elements all have key k holds |s| rows of k and none of any other id. */
  lemma {:induction false} CountUniform<T>(s: seq<T>, key: T -> Id, k: Id, id: Id)
    requires forall i :: 0 <= i < |s| ==> key(s[i]) == k
    ensures Count(s, key, id) == if k == id then |s| else 0
  {
    if s != [] {
      CountUniform(s[1..], key, k, id);
    }
  }

  lemma CountRepeat<T>(x: T, c: nat, key: T -> Id, id: Id)
    ensures Count(Repeat(x, c), key, id) == if key(x) == id then c else 0
  {
    var s := Repeat(x, c);
    assert forall i :: 0 <= i < |s| ==> s[i] in s;
    CountUniform(s, key, key(x), id);
  }

  lemma CountMember<T>(s: seq<T>, x: T, key: T -> Id)
    requires x in s
    ensures Count(s, key, key(x)) > 0
  {
    var i :| 0 <= i < |s| && s[i] == x;
  }

  /** At least one: a joined row with no partner is still emitted once. */
  function AtLeastOne(b: nat): nat {
    if b == 0 then 1 else b
  }

  lemma JoinLatestUnfold<V(!new)>(agg: map<Id, Aggregate>, t: seq<Row<V>>, y: Retired<V>)
    requires t != []
    ensures multiset(JoinLatest(agg, t))[y]
      == (if Attains(agg, t[0]) && RetiredOf(agg, t[0]) == y then 1 else 0)
         + multiset(JoinLatest(agg, t[1..]))[y]
  {
    var rest := JoinLatest(agg, t[1..]);
    if Attains(agg, t[0]) {
      var head := [RetiredOf(agg, t[0])];
      assert JoinLatest(agg, t) == head + rest;
      assert multiset(head + rest) == multiset(head) + multiset(rest);
    }
  }

  /** The multiplicity of x in a non-empty sequence, from its head and tail. */
  lemma MultiplicityUnfold<T>(s: seq<T>, x: T)
    requires s != []
    ensures multiset(s)[x] == (if s[0] == x then 1 else 0) + multiset(s[1..])[x]
  {
    assert s == [s[0]] + s[1..];
  }

  /** A row gives the retired row of an attaining row x exactly when it is x:
   * both rows reach their id's maximum, so the retired row determines them. */
  lemma RetiredOfInjective<V(!new)>(agg: map<Id, Aggregate>, w: Row<V>, x: Row<V>)
    requires Attains(agg, x)
    ensures (Attains(agg, w) && RetiredOf(agg, w) == RetiredOf(agg, x)) <==> w == x
  {
  }

  /** The inner join of `gen_comp_c` keeps each attaining table row's
   * multiplicity: it yields one retired row per copy of the table row. */
  lemma {:induction false} JoinLatestMultiplicity<V(!new)>(agg: map<Id, Aggregate>, t: seq<Row<V>>, x: Row<V>)
    requires Attains(agg, x)
    ensures multiset(JoinLatest(agg, t))[RetiredOf(agg, x)] == multiset(t)[x]
  {
    if t != [] {
      JoinLatestMultiplicity(agg, t[1..], x);
      JoinLatestUnfold(agg, t, RetiredOf(agg, x));
      MultiplicityUnfold(t, x);
      RetiredOfInjective(agg, t[0], x);
    }
  }

  lemma MatchesUnfold<V(!new)>(x: Row<V>, rr: seq<Retired<V>>, r: Retired<V>)
    requires rr != [] && r.aggId == x.idHash
    ensures multiset(Matches(x, rr))[Both(x, r)]
      == (if rr[0] == r then 1 else 0) + multiset(Matches(x, rr[1..]))[Both(x, r)]
  {
    var rest := Matches(x, rr[1..]);
    if rr[0].aggId == x.idHash {
      var head := [Both(x, rr[0])];
      assert Matches(x, rr) == head + rest;
      assert multiset(head + rest) == multiset(head) + multiset(rest);
    }
  }

  /** The full outer join keeps the retired side's multiplicity: an open row
   * is paired with each copy of each retired row of its id. */
  lemma {:induction false} MatchesMultiplicity<V(!new)>(x: Row<V>, rr: seq<Retired<V>>, r: Retired<V>)
    requires r.aggId == x.idHash
    ensures multiset(Matches(x, rr))[Both(x, r)] == multiset(rr)[r]
  {
    if rr != [] {
      MatchesMultiplicity(x, rr[1..], r);
      MatchesUnfold(x, rr, r);
      MultiplicityUnfold(rr, r);
    }
  }

  /** The joined rows that one open row x contributes: one per retired row of
   * its id, or a single unmatched one. */
  lemma LeftPieceCount<V(!new)>(x: Row<V>, rr: seq<Retired<V>>, id: Id)
    ensures var m := Matches(x, rr);
            Count(if m == [] then [NewOnly(x)] else m, JoinKey, id)
              == if x.idHash == id then AtLeastOne(Count(rr, RetiredId, id)) else 0
  {
    var m := Matches(x, rr);
    var piece := if m == [] then [NewOnly(x)] else m;
    assert forall i :: 0 <= i < |piece| ==> JoinKey(piece[i]) == x.idHash by {
      forall i | 0 <= i < |piece| ensures JoinKey(piece[i]) == x.idHash {
        assert piece[i] in piece;
      }
    }
    CountUniform(piece, JoinKey, x.idHash, id);
  }

  /** One step of counting a product: a sequence with c elements of an id,
   * each contributing k rows, contributes c*k rows. */
  lemma MulStep(hit: bool, c: nat, rest: nat, k: nat, total: nat, restTotal: nat)
    requires c == (if hit then 1 else 0) + rest
    requires restTotal == rest * k
    requires total == (if hit then k else 0) + restTotal
    ensures total == c * k
  {
  }

  lemma LeftSideUnfold<V(!new)>(n: seq<Row<V>>, rr: seq<Retired<V>>, id: Id)
    requires n != []
    ensures Count(LeftSide(n, rr), JoinKey, id)
      == (if n[0].idHash == id then AtLeastOne(Count(rr, RetiredId, id)) else 0)
         + Count(LeftSide(n[1..], rr), JoinKey, id)
  {
    var m := Matches(n[0], rr);
    var piece := if m == [] then [NewOnly(n[0])] else m;
    assert LeftSide(n, rr) == piece + LeftSide(n[1..], rr);
    LeftPieceCount(n[0], rr, id);
    CountAppend(piece, LeftSide(n[1..], rr), JoinKey, id);
  }

  lemma {:induction false} LeftSideCount<V(!new)>(n: seq<Row<V>>, rr: seq<Retired<V>>, id: Id)
    ensures Count(LeftSide(n, rr), JoinKey, id) == Count(n, RowId, id) * AtLeastOne(Count(rr, RetiredId, id))
  {
    if n != [] {
      LeftSideUnfold(n, rr, id);
      LeftSideCount(n[1..], rr, id);
      MulStep(n[0].idHash == id, Count(n, RowId, id), Count(n[1..], RowId, id),
              AtLeastOne(Count(rr, RetiredId, id)),
              Count(LeftSide(n, rr), JoinKey, id), Count(LeftSide(n[1..], rr), JoinKey, id));
    }
  }

  lemma {:induction false} RightOnlyCount<V(!new)>(n: seq<Row<V>>, rr: seq<Retired<V>>, id: Id)
    ensures Count(RightOnly(n, rr), JoinKey, id) == if Count(n, RowId, id) == 0 then Count(rr, RetiredId, id) else 0
  {
    if rr != [] {
      var piece := if Count(n, RowId, rr[0].aggId) == 0 then [RetiredOnly(rr[0])] else [];
      CountAppend(piece, RightOnly(n, rr[1..]), JoinKey, id);
      RightOnlyCount(n, rr[1..], id);
    }
  }

  lemma {:induction false} DeletedRecordsCount<V(!new)>(n: seq<Row<V>>, rr: seq<Retired<V>>, id: Id)
    ensures multiset(DeletedRecords(n, rr))[id] == if Count(n, RowId, id) == 0 then Count(rr, RetiredId, id) else 0
  {
    if rr != [] {
      DeletedRecordsCount(n, rr[1..], id);
    }
  }

  lemma TagDeletedUnfold<V(!new)>(ps: seq<Joined<V>>, d: seq<Id>, id: Id)
    requires ps != []
    ensures Count(TagDeleted(ps, d), TaggedKey, id)
      == (if JoinKey(ps[0]) == id then AtLeastOne(multiset(d)[id]) else 0)
         + Count(TagDeleted(ps[1..], d), TaggedKey, id)
  {
    var c := multiset(d)[JoinKey(ps[0])];
    var piece := if c == 0 then [Tagged(ps[0], false)] else Repeat(Tagged(ps[0], true), c);
    assert TagDeleted(ps, d) == piece + TagDeleted(ps[1..], d);
    if c == 0 {
      assert Count(piece, TaggedKey, id) == if JoinKey(ps[0]) == id then 1 else 0;
    } else {
      CountRepeat(Tagged(ps[0], true), c, TaggedKey, id);
    }
    CountAppend(piece, TagDeleted(ps[1..], d), TaggedKey, id);
  }

  lemma {:induction false} TagDeletedCount<V(!new)>(ps: seq<Joined<V>>, d: seq<Id>, id: Id)
    ensures Count(TagDeleted(ps, d), TaggedKey, id) == Count(ps, JoinKey, id) * AtLeastOne(multiset(d)[id])
  {
    if ps != [] {
      TagDeletedUnfold(ps, d, id);
      TagDeletedCount(ps[1..], d, id);
      MulStep(JoinKey(ps[0]) == id, Count(ps, JoinKey, id), Count(ps[1..], JoinKey, id),
              AtLeastOne(multiset(d)[id]),
              Count(TagDeleted(ps, d), TaggedKey, id), Count(TagDeleted(ps[1..], d), TaggedKey, id));
    }
  }

  lemma {:induction false} EmitCount<V(!new)>(ts: seq<Tagged<V>>, columns: seq<Column>, id: Id)
    ensures Count(Emit(ts, columns), OutId, id) == Count(ts, TaggedKey, id)
  {
    if ts != [] {
      EmitCount(ts[1..], columns, id);
    }
  }

  /** The number of result rows of an id with a open rows and b most recent retired rows. */
  function RowsPerId(a: nat, b: nat): nat {
    if a == 0 then b * b else a * AtLeastOne(b)
  }

  /** An id gets a row exactly when it has an open or a retired row, and
   * exactly one when it has at most one of each. */
  lemma RowsPerIdFacts(a: nat, b: nat)
    ensures RowsPerId(a, b) > 0 <==> a > 0 || b > 0
    ensures a <= 1 && b <= 1 && (a > 0 || b > 0) ==> RowsPerId(a, b) == 1
  {
    if a > 0 {
      assert a * AtLeastOne(b) >= AtLeastOne(b);
    } else if b > 0 {
      assert b * b >= b;
    }
  }

  lemma CombineCounts(a: nat, b: nat, j: nat, d: nat, total: nat)
    requires j == a * AtLeastOne(b) + (if a == 0 then b else 0)
    requires d == if a == 0 then b else 0
    requires total == j * AtLeastOne(d)
    ensures total == RowsPerId(a, b)
  {
  }

  /** The full outer join gives an id a*b rows when both sides have it, and
   * otherwise as many rows as the side that has it. */
  lemma FullOuterJoinCount<V(!new)>(n: seq<Row<V>>, rr: seq<Retired<V>>, id: Id)
    ensures var a := Count(n, RowId, id);
            var b := Count(rr, RetiredId, id);
            Count(FullOuterJoin(n, rr), JoinKey, id) == a * AtLeastOne(b) + (if a == 0 then b else 0)
  {
    CountAppend(LeftSide(n, rr), RightOnly(n, rr), JoinKey, id);
    LeftSideCount(n, rr, id);
    RightOnlyCount(n, rr, id);
  }

  /** The row count of the final select for one id, in terms of the open rows
   * n and the most recent retired rows rr. */
  lemma MergeRowCount<V(!new)>(n: seq<Row<V>>, rr: seq<Retired<V>>, columns: seq<Column>, id: Id)
    ensures var a := Count(n, RowId, id);
            var b := Count(rr, RetiredId, id);
            Count(Emit(TagDeleted(FullOuterJoin(n, rr), DeletedRecords(n, rr)), columns), OutId, id)
              == RowsPerId(a, b)
  {
    var d := DeletedRecords(n, rr);
    var ps := FullOuterJoin(n, rr);
    var ts := TagDeleted(ps, d);
    FullOuterJoinCount(n, rr, id);
    DeletedRecordsCount(n, rr, id);
    TagDeletedCount(ps, d, id);
    EmitCount(ts, columns, id);
    CombineCounts(Count(n, RowId, id), Count(rr, RetiredId, id), Count(ps, JoinKey, id),
                  multiset(d)[id], Count(ts, TaggedKey, id));
  }

  // ---------------------------------------------------------------------
  // The two per-id quantities that decide the result

  /** An id has a most recent retired row exactly when it has a closed row. */
  lemma LatestCountPositive<V(!new)>(t: seq<Row<V>>, id: Id)
    ensures LatestCount(t, id) > 0 <==> id in ClosedIds(t)
  {
    var rr := MostRecentRetired(t);
    if id in ClosedIds(t) {
      var ds := ClosedDates(t, id);
      var x :| x in t && x.onWebsiteTo.Some? && x.idHash == id;
      assert x.onWebsiteTo.value in ds;
      var last := MaxDate(ds);
      var y :| y in t && y.idHash == id && y.onWebsiteTo == Some(last);
      assert LatestClosed(t, y);
      var r :| r in rr && Retires(t, y, r);
      CountMember(rr, r, RetiredId);
    }
    if Count(rr, RetiredId, id) > 0 {
      var i :| 0 <= i < |rr| && rr[i].aggId == id;
      assert rr[i] in rr;
    }
  }

  lemma OpenCountPositive<V(!new)>(t: seq<Row<V>>, id: Id)
    ensures Count(DataNew(t), RowId, id) > 0 <==> id in OpenIds(t)
  {
    var n := DataNew(t);
    if id in OpenIds(t) {
      var x :| x in t && x.onWebsiteTo.None? && x.idHash == id;
      CountMember(n, x, RowId);
    }
    if Count(n, RowId, id) > 0 {
      var i :| 0 <= i < |n| && n[i].idHash == id;
      assert n[i] in n;
    }
  }

  // ---------------------------------------------------------------------
  // Theorems about gen_query

  /**
   * How many result rows an id gets, with a the number of its open rows and
   * b the number of its closed rows tied at its maximum `on_website_to`:
   * b*b when it has no open row (the full outer join gives b rows and the
   * left join with `deleted_records` repeats each b times), otherwise a
   * times b, or a when it has no closed row.
   */
  lemma QueryRowCount<V(!new)>(t: seq<Row<V>>, columns: seq<Column>, id: Id)
    requires HasContentColumn(columns)
    ensures var a := Count(DataNew(t), RowId, id);
            var b := LatestCount(t, id);
            Count(Query(t, columns), OutId, id) == RowsPerId(a, b)
  {
    LatestCountPositive(t, id);
    MergeRowCount(DataNew(t), MostRecentRetired(t), columns, id);
  }

  /** The result holds exactly the ids that have an open row or a closed row. */
  lemma QueryIds<V(!new)>(t: seq<Row<V>>, columns: seq<Column>)
    requires HasContentColumn(columns)
    ensures (set o | o in Query(t, columns) :: o.idHash) == OpenIds(t) + ClosedIds(t)
  {
    var q := Query(t, columns);
    forall id ensures id in (set o | o in q :: o.idHash) <==> id in OpenIds(t) + ClosedIds(t) {
      IdPresent(t, columns, id);
      if Count(q, OutId, id) > 0 {
        var i :| 0 <= i < |q| && q[i].idHash == id;
        assert q[i] in q;
      }
      if id in (set o | o in q :: o.idHash) {
        var o :| o in q && o.idHash == id;
        CountMember(q, o, OutId);
      }
    }
  }

  lemma IdPresent<V(!new)>(t: seq<Row<V>>, columns: seq<Column>, id: Id)
    requires HasContentColumn(columns)
    ensures Count(Query(t, columns), OutId, id) > 0 <==> id in OpenIds(t) + ClosedIds(t)
  {
    QueryRowCount(t, columns, id);
    LatestCountPositive(t, id);
    OpenCountPositive(t, id);
    RowsPerIdFacts(Count(DataNew(t), RowId, id), LatestCount(t, id));
  }

  /** With at most one open row per id and no tie at any id's maximum, every id
   * of the result occurs exactly once. */
  ghost predicate WellFormed<V(!new)>(t: seq<Row<V>>) {
    && (forall id :: Count(DataNew(t), RowId, id) <= 1)
    && (forall id :: LatestCount(t, id) <= 1)
  }

  lemma QueryOneRowPerId<V(!new)>(t: seq<Row<V>>, columns: seq<Column>, id: Id)
    requires HasContentColumn(columns)
    requires WellFormed(t)
    ensures Count(Query(t, columns), OutId, id) == if id in OpenIds(t) + ClosedIds(t) then 1 else 0
  {
    QueryRowCount(t, columns, id);
    LatestCountPositive(t, id);
    OpenCountPositive(t, id);
    RowsPerIdFacts(Count(DataNew(t), RowId, id), LatestCount(t, id));
  }

  /** What a row of the full outer join says about the two sides it joins. */
  lemma JoinedFacts<V(!new)>(n: seq<Row<V>>, rr: seq<Retired<V>>, p: Joined<V>)
    requires p in FullOuterJoin(n, rr)
    ensures !p.RetiredOnly? ==> p.current in n
    ensures p.RetiredOnly? <==> Count(n, RowId, JoinKey(p)) == 0
    ensures p.NewOnly? <==> Count(rr, RetiredId, JoinKey(p)) == 0
    ensures !p.NewOnly? ==> p.retired in rr && p.retired.aggId == JoinKey(p)
    ensures JoinKey(p) in DeletedRecords(n, rr) <==> p.RetiredOnly?
  {
    if p in LeftSide(n, rr) {
      CountMember(n, p.current, RowId);
      if p.Both? {
        CountMember(rr, p.retired, RetiredId);
      }
    } else {
      assert p in RightOnly(n, rr);
      CountMember(rr, p.retired, RetiredId);
    }
  }

  /** Provenance of a row of the full outer join, in terms of the table: its
   * open side is an open row of the table. */
  lemma JoinedRowSources<V(!new)>(t: seq<Row<V>>, p: Joined<V>)
    requires p in FullOuterJoin(DataNew(t), MostRecentRetired(t))
    ensures !p.RetiredOnly? ==> p.current in t && p.current.onWebsiteTo.None?
  {
    JoinedFacts(DataNew(t), MostRecentRetired(t), p);
  }

  /** Its retired side is a row of `most_recent_data_retired` of the same id. */
  lemma JoinedRowRetired<V(!new)>(t: seq<Row<V>>, p: Joined<V>)
    requires p in FullOuterJoin(DataNew(t), MostRecentRetired(t))
    ensures !p.NewOnly? ==> p.retired in MostRecentRetired(t) && p.retired.aggId == JoinKey(p)
  {
    JoinedFacts(DataNew(t), MostRecentRetired(t), p);
  }

  /** Provenance of a row of the full outer join, in terms of the table: which
   * sides its id has, and whether it is in `deleted_records`. */
  lemma JoinedRowSides<V(!new)>(t: seq<Row<V>>, p: Joined<V>)
    requires p in FullOuterJoin(DataNew(t), MostRecentRetired(t))
    ensures p.RetiredOnly? <==> JoinKey(p) !in OpenIds(t)
    ensures p.NewOnly? <==> JoinKey(p) !in ClosedIds(t)
    ensures JoinKey(p) in DeletedRecords(DataNew(t), MostRecentRetired(t)) <==> p.RetiredOnly?
  {
    JoinedFacts(DataNew(t), MostRecentRetired(t), p);
    OpenCountPositive(t, JoinKey(p));
    LatestCountPositive(t, JoinKey(p));
  }

  /** A result row carries `deleted` exactly when its id has no open row; an id
   * with an open row is never deleted, and a deleted id has a closed row. */
  lemma QueryDeletedFlag<V(!new)>(t: seq<Row<V>>, columns: seq<Column>, o: OutRow<V>)
    requires HasContentColumn(columns)
    requires o in Query(t, columns)
    ensures o.deleted <==> o.idHash !in OpenIds(t)
    ensures o.deleted ==> o.idHash in ClosedIds(t)
  {
    var n := DataNew(t);
    var rr := MostRecentRetired(t);
    var tg :| tg in TagDeleted(FullOuterJoin(n, rr), DeletedRecords(n, rr)) && o == Project(tg, columns);
    JoinedRowSides(t, tg.row);
  }

  /** `previous_update_dates` and `last_updated` are copied from the id's
   * aggregate, and are NULL for an id with no closed row. */
  lemma QueryAggregateColumns<V(!new)>(t: seq<Row<V>>, columns: seq<Column>, o: OutRow<V>)
    requires HasContentColumn(columns)
    requires o in Query(t, columns)
    ensures var agg := AggregatedRetired(t);
            if o.idHash in ClosedIds(t) then
              && o.previousUpdateDates == Some(agg[o.idHash].previousUpdateDates)
              && o.lastUpdated == Some(agg[o.idHash].lastUpdated)
            else o.previousUpdateDates.None? && o.lastUpdated.None?
  {
    var n := DataNew(t);
    var rr := MostRecentRetired(t);
    var tg :| tg in TagDeleted(FullOuterJoin(n, rr), DeletedRecords(n, rr)) && o == Project(tg, columns);
    JoinedRowSides(t, tg.row);
  }

  /**
   * cur is an open row of id (absent only when id has none) and ret a most
   * recent closed row of id (absent only when id has no closed row).
   */
  ghost predicate Sources<V(!new)>(t: seq<Row<V>>, id: Id, cur: Option<Row<V>>, ret: Option<Row<V>>) {
    && (cur.None? <==> id !in OpenIds(t))
    && (cur.Some? ==> cur.value in t && cur.value.idHash == id && cur.value.onWebsiteTo.None?)
    && (ret.None? <==> id !in ClosedIds(t))
    && (ret.Some? ==>
          && ret.value in t && ret.value.idHash == id && ret.value.onWebsiteTo.Some?
          && forall d :: d in ClosedDates(t, id) ==> d <= ret.value.onWebsiteTo.value)
  }

  /**
   * o merges the table rows cur and ret (either may be absent): each
   * requested column except `id_hash` is the first non-NULL of cur's value
   * and ret's; `on_website_from` is the first non-NULL of ret's and cur's.
   */
  ghost predicate MergedFrom<V>(o: OutRow<V>, cur: Option<Row<V>>, ret: Option<Row<V>>, columns: seq<Column>) {
    Merges(o, RowCells(cur), RowFrom(cur), RowCells(ret), RowFrom(ret), columns)
  }

  /** Every result row is the merge of an open row and a most recent retired
   * row of its id, whichever of the two exist. */
  lemma QueryCoalescing<V(!new)>(t: seq<Row<V>>, columns: seq<Column>, o: OutRow<V>)
    requires HasContentColumn(columns)
    requires o in Query(t, columns)
    ensures exists cur, ret :: Sources(t, o.idHash, cur, ret) && MergedFrom(o, cur, ret, columns)
  {
    var n := DataNew(t);
    var rr := MostRecentRetired(t);
    var tg :| tg in TagDeleted(FullOuterJoin(n, rr), DeletedRecords(n, rr)) && o == Project(tg, columns);
    var p := tg.row;
    JoinedRowSources(t, p);
    JoinedRowRetired(t, p);
    JoinedRowSides(t, p);
    var cur := CurrentRow(p);
    var ret: Option<Row<V>> := None;
    if !p.NewOnly? {
      var w :| w in t && Retires(t, w, p.retired);
      ret := Some(w);
    }
    assert RowCells(ret) == RetiredCells(p) && RowFrom(ret) == RetiredFrom(p);
    assert Sources(t, o.idHash, cur, ret);
    assert MergedFrom(o, cur, ret, columns);
  }

  /** Two different elements with one key make that key's count at least two. */
  lemma {:induction false} CountTwo<T>(s: seq<T>, x: T, y: T, key: T -> Id)
    requires x in s && y in s && x != y && key(x) == key(y)
    ensures Count(s, key, key(x)) >= 2
  {
    if s[0] == x {
      CountMember(s[1..], y, key);
    } else if s[0] == y {
      CountMember(s[1..], x, key);
    } else {
      CountTwo(s[1..], x, y, key);
    }
  }

  /** In a well-formed table an id has at most one open row and at most one
   * most recent closed row, so its sources are determined. */
  lemma SourcesUnique<V(!new)>(t: seq<Row<V>>, id: Id,
                               c1: Option<Row<V>>, r1: Option<Row<V>>,
                               c2: Option<Row<V>>, r2: Option<Row<V>>)
    requires WellFormed(t)
    requires Sources(t, id, c1, r1) && Sources(t, id, c2, r2)
    ensures c1 == c2 && r1 == r2
  {
    if c1.Some? && c1.value != c2.value {
      CountTwo(DataNew(t), c1.value, c2.value, RowId);
    }
    if r1.Some? && r1.value != r2.value {
      var agg := AggregatedRetired(t);
      var x, y := r1.value, r2.value;
      assert x.onWebsiteTo.value in ClosedDates(t, id);
      assert y.onWebsiteTo.value in ClosedDates(t, id);
      assert Attains(agg, x) && Attains(agg, y);
      var rr := MostRecentRetired(t);
      assert RetiredOf(agg, x) != RetiredOf(agg, y);
      CountTwo(rr, RetiredOf(agg, x), RetiredOf(agg, y), RetiredId);
      LatestCountPositive(t, id);
    }
  }

  /**
   * In a well-formed table the single result row of an id merges the id's
   * open row and its most recent closed row, whichever exist.
   */
  lemma QueryRowDetermined<V(!new)>(t: seq<Row<V>>, columns: seq<Column>, o: OutRow<V>,
                                    cur: Option<Row<V>>, ret: Option<Row<V>>)
    requires HasContentColumn(columns)
    requires WellFormed(t)
    requires o in Query(t, columns)
    requires Sources(t, o.idHash, cur, ret)
    ensures MergedFrom(o, cur, ret, columns)
  {
    QueryCoalescing(t, columns, o);
    var c', r' :| Sources(t, o.idHash, c', r') && MergedFrom(o, c', r', columns);
    SourcesUnique(t, o.idHash, cur, ret, c', r');
  }
}
