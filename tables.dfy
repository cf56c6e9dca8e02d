/**
 * A SQLite table whose key is `id INTEGER PRIMARY KEY AUTOINCREMENT`, as a
 * value: the rows keyed by id, and the largest id the table has ever handed
 * out (SQLite keeps it in sqlite_sequence, so ids of deleted rows are never
 * reused). The statements the pages issue (INSERT, UPDATE ... WHERE,
 * DELETE ... WHERE, the check-then-update-or-insert pattern) are functions
 * from the old table to the new one.
 */
module Tables {

  datatype Table<R> = Table(rows: map<nat, R>, lastId: nat)

  /** Every id in use is positive and no larger than the AUTOINCREMENT counter. */
  ghost predicate Valid<R>(t: Table<R>) {
    forall k :: k in t.rows ==> 0 < k <= t.lastId
  }

  /** The id the next INSERT receives. */
  function NextId<R>(t: Table<R>): nat {
    t.lastId + 1
  }

  /** INSERT INTO t VALUES r: a fresh id, every earlier row kept as it was. */
  function Insert<R>(t: Table<R>, r: R): (u: Table<R>)
    requires Valid(t)
    ensures Valid(u) && NextId(t) !in t.rows
    ensures u.rows.Keys == t.rows.Keys + {NextId(t)} && u.rows[NextId(t)] == r
    ensures forall k :: k in t.rows ==> u.rows[k] == t.rows[k]
  {
    Table(t.rows[NextId(t) := r], NextId(t))
  }

  /** The ids of the rows a WHERE clause `p` selects. */
  function Ids<R>(t: Table<R>, p: R -> bool): set<nat> {
    set k | k in t.rows && p(t.rows[k])
  }

  /** UPDATE t SET ... WHERE p: `f` applied to the selected rows, ids and counter kept. */
  function UpdateWhere<R>(t: Table<R>, p: R -> bool, f: R -> R): (u: Table<R>)
    ensures u.rows.Keys == t.rows.Keys && u.lastId == t.lastId
    ensures Valid(t) ==> Valid(u)
    ensures forall k :: k in t.rows && !p(t.rows[k]) ==> u.rows[k] == t.rows[k]
    ensures forall k :: k in t.rows && p(t.rows[k]) ==> u.rows[k] == f(t.rows[k])
  {
    Table(map k | k in t.rows :: if p(t.rows[k]) then f(t.rows[k]) else t.rows[k], t.lastId)
  }

  /** An UPDATE whose WHERE clause selects no row leaves the table as it was. */
  lemma UpdateNoMatch<R>(t: Table<R>, p: R -> bool, f: R -> R)
    requires Ids(t, p) == {}
    ensures UpdateWhere(t, p, f) == t
  {
    var u := UpdateWhere(t, p, f);
    forall k | k in t.rows ensures u.rows[k] == t.rows[k] {
      assert k !in Ids(t, p);
    }
    assert u.rows == t.rows;
  }

  /** UPDATE t SET ... WHERE id = ?: only that row changes; a missing id changes nothing. */
  function UpdateId<R>(t: Table<R>, id: nat, f: R -> R): (u: Table<R>)
    ensures u.rows.Keys == t.rows.Keys && u.lastId == t.lastId
    ensures Valid(t) ==> Valid(u)
    ensures forall k :: k in t.rows && k != id ==> u.rows[k] == t.rows[k]
    ensures id in t.rows ==> u.rows[id] == f(t.rows[id])
  {
    if id in t.rows then Table(t.rows[id := f(t.rows[id])], t.lastId) else t
  }

  /** DELETE FROM t WHERE p: exactly the selected rows leave; the counter is kept. */
  function DeleteWhere<R>(t: Table<R>, p: R -> bool): (u: Table<R>)
    ensures u.rows.Keys == t.rows.Keys - Ids(t, p) && u.lastId == t.lastId
    ensures Valid(t) ==> Valid(u)
    ensures forall k :: k in u.rows ==> u.rows[k] == t.rows[k]
  {
    Table(map k | k in t.rows && !p(t.rows[k]) :: t.rows[k], t.lastId)
  }

  /** DELETE FROM t WHERE id = ?. */
  function DeleteId<R>(t: Table<R>, id: nat): (u: Table<R>)
    ensures u.rows.Keys == t.rows.Keys - {id} && u.lastId == t.lastId
    ensures Valid(t) ==> Valid(u)
    ensures forall k :: k in u.rows ==> u.rows[k] == t.rows[k]
  {
    Table(t.rows - {id}, t.lastId)
  }

  /** DELETE FROM t with no WHERE clause. */
  function Clear<R>(t: Table<R>): (u: Table<R>)
    ensures u.rows == map[] && u.lastId == t.lastId
    ensures Valid(u)
  {
    Table(map[], t.lastId)
  }

  /**
   * The pages' upsert: SELECT the rows matching `p`; if there are any,
   * UPDATE all of them with `f`, otherwise INSERT `r`.
   */
  function Upsert<R>(t: Table<R>, p: R -> bool, f: R -> R, r: R): Table<R>
    requires Valid(t)
  {
    if Ids(t, p) != {} then UpdateWhere(t, p, f) else Insert(t, r)
  }

  /**
   * When the update and the inserted row keep the key `p` describes, an upsert
   * leaves the same matching ids if there were any and exactly one new id if
   * there were none; each matching row is the updated old row or `r`.
   */
  lemma UpsertMatches<R>(t: Table<R>, p: R -> bool, f: R -> R, r: R)
    requires Valid(t) && p(r)
    requires forall x :: p(x) ==> p(f(x))
    ensures Valid(Upsert(t, p, f, r))
    ensures Ids(t, p) != {} ==> Ids(Upsert(t, p, f, r), p) == Ids(t, p)
    ensures Ids(t, p) == {} ==> Ids(Upsert(t, p, f, r), p) == {NextId(t)}
    ensures forall k :: k in Ids(Upsert(t, p, f, r), p) ==>
      Upsert(t, p, f, r).rows[k] == if k in t.rows then f(t.rows[k]) else r
  {
    var u := Upsert(t, p, f, r);
    if Ids(t, p) != {} {
      assert Ids(u, p) == Ids(t, p) by {
        forall k | k in t.rows ensures p(u.rows[k]) <==> p(t.rows[k]) {
        }
      }
    } else {
      assert Ids(u, p) == {NextId(t)};
    }
  }

  /** An upsert leaves every row the key does not select where and as it was. */
  lemma UpsertKeepsOthers<R>(t: Table<R>, p: R -> bool, f: R -> R, r: R)
    requires Valid(t)
    ensures t.rows.Keys <= Upsert(t, p, f, r).rows.Keys
    ensures forall k :: k in t.rows && !p(t.rows[k]) ==> Upsert(t, p, f, r).rows[k] == t.rows[k]
    ensures Upsert(t, p, f, r).rows.Keys - t.rows.Keys <= {NextId(t)}
  {
  }

  /**
   * An upsert on key `p` does not disturb the rows of a disjoint key `q`
   * when neither the update nor the inserted row can produce a `q` row.
   */
  lemma UpsertOtherKey<R>(t: Table<R>, p: R -> bool, f: R -> R, r: R, q: R -> bool)
    requires Valid(t) && p(r)
    requires forall x :: p(x) ==> p(f(x))
    requires forall x :: !(p(x) && q(x))
    requires forall x :: p(x) ==> !q(f(x))
    ensures Ids(Upsert(t, p, f, r), q) == Ids(t, q)
    ensures forall k :: k in Ids(t, q) ==> Upsert(t, p, f, r).rows[k] == t.rows[k]
  {
    var u := Upsert(t, p, f, r);
    if Ids(t, p) != {} {
      assert u == UpdateWhere(t, p, f);
      forall k | k in u.rows ensures q(u.rows[k]) <==> k in t.rows && q(t.rows[k]) {
        var x := t.rows[k];
        if p(x) {
          assert u.rows[k] == f(x);
        }
      }
    } else {
      assert u == Insert(t, r);
      forall k | k in u.rows ensures q(u.rows[k]) <==> k in t.rows && q(t.rows[k]) {
        if k in t.rows {
          assert k !in Ids(t, p);
        }
      }
    }
  }

  /** An upsert whose update leaves every matching row as it is changes nothing. */
  lemma UpsertFixed<R>(t: Table<R>, p: R -> bool, f: R -> R, r: R)
    requires Valid(t) && Ids(t, p) != {}
    requires forall k :: k in Ids(t, p) ==> f(t.rows[k]) == t.rows[k]
    ensures Upsert(t, p, f, r) == t
  {
    var u := Upsert(t, p, f, r);
    assert u.rows == t.rows by {
      forall k | k in t.rows ensures u.rows[k] == t.rows[k] {
        if p(t.rows[k]) {
          assert k in Ids(t, p);
        }
      }
    }
  }

  /**
   * The rows a SELECT with WHERE clause `p` returns, by id: each selected row
   * exactly once (in an order the query's ORDER BY decides).
   */
  ghost predicate Lists<R>(t: Table<R>, p: R -> bool, ids: seq<nat>) {
    && (forall i :: 0 <= i < |ids| ==> ids[i] in t.rows && p(t.rows[ids[i]]))
    && (forall k :: k in t.rows && p(t.rows[k]) ==> k in ids)
    && (forall i, j :: 0 <= i < j < |ids| ==> ids[i] != ids[j])
  }

  /** The ids a listing mentions. */
  function AsSet(ids: seq<nat>): set<nat> {
    set k | k in ids
  }

  /** A sequence without repetitions has as many elements as its set. */
  lemma {:induction false} DistinctCard(ids: seq<nat>)
    requires forall i, j :: 0 <= i < j < |ids| ==> ids[i] != ids[j]
    ensures |AsSet(ids)| == |ids|
  {
    if |ids| > 0 {
      var rest := ids[1..];
      DistinctCard(rest);
      assert AsSet(ids) == AsSet(rest) + {ids[0]};
      assert ids[0] !in AsSet(rest);
    } else {
      assert AsSet(ids) == {};
    }
  }

  /** A listing has exactly as many rows as the WHERE clause selects. */
  lemma ListsCount<R>(t: Table<R>, p: R -> bool, ids: seq<nat>)
    requires Lists(t, p, ids)
    ensures |ids| == |Ids(t, p)|
  {
    DistinctCard(ids);
    assert AsSet(ids) == Ids(t, p);
  }
}
