/**
 * A relational table as the handlers see it: a sequence of rows in storage order,
 * each row keyed by an auto-increment id. Each SQL statement of main.py becomes a
 * function on the table: INSERT, SELECT ... WHERE (with fetchall or fetchone),
 * UPDATE ... WHERE id and DELETE ... WHERE id. A row count `> 0` becomes a
 * test that the selection is non-empty.
 */
module Table {
  import opened Wrappers

  datatype Row<R> = Row(id: nat, data: R)

  /**
   * The auto-increment discipline: ids increase along the table and all lie
   * below `next`, the id the counter hands out next. In particular no two rows
   * share an id.
   */
  ghost predicate KeyedBelow<R>(t: seq<Row<R>>, next: nat) {
    && (forall i, j :: 0 <= i < j < |t| ==> t[i].id < t[j].id)
    && (forall i :: 0 <= i < |t| ==> t[i].id < next)
  }

  /** `INSERT`: appends a row carrying the counter's next id. */
  function Insert<R>(t: seq<Row<R>>, next: nat, data: R): (r: seq<Row<R>>)
    ensures forall i :: 0 <= i < |t| ==> t[i] in r
    ensures Row(next, data) in r
    ensures forall i :: 0 <= i < |r| ==> r[i] in t || r[i] == Row(next, data)
    ensures KeyedBelow(t, next) ==> KeyedBelow(r, next + 1)
  {
    t + [Row(next, data)]
  }

  /** `SELECT * ... WHERE id=%s` followed by `fetchone()`. */
  function Lookup<R>(t: seq<Row<R>>, id: int): (r: Option<Row<R>>)
    ensures r.None? <==> forall i :: 0 <= i < |t| ==> t[i].id != id
    ensures r.Some? ==> r.value in t && r.value.id == id
  {
    if t == [] then None
    else if t[0].id == id then Some(t[0])
    else Lookup(t[1..], id)
  }

  /** `SELECT * ... WHERE <p>` followed by `fetchall()`: the matching rows, in table order. */
  function Where<R>(t: seq<Row<R>>, p: R -> bool): (r: seq<Row<R>>)
    ensures forall i :: 0 <= i < |r| ==> r[i] in t && p(r[i].data)
    ensures forall i :: 0 <= i < |t| && p(t[i].data) ==> t[i] in r
    ensures |r| <= |t|
  {
    if t == [] then []
    else if p(t[0].data) then [t[0]] + Where(t[1..], p)
    else Where(t[1..], p)
  }

  /** `SELECT * ... WHERE <p>` followed by `fetchone()`. */
  function First<R>(t: seq<Row<R>>, p: R -> bool): (r: Option<Row<R>>)
    ensures r.None? <==> forall i :: 0 <= i < |t| ==> !p(t[i].data)
    ensures r.Some? ==> r.value in t && p(r.value.data)
  {
    var rows := Where(t, p);
    if rows == [] then None
    else
      assert rows[0] in rows;
      Some(rows[0])
  }

  /** `DELETE ... WHERE id=%s` */
  function Delete<R>(t: seq<Row<R>>, id: int): (r: seq<Row<R>>)
    ensures forall i :: 0 <= i < |r| ==> r[i] in t && r[i].id != id
    ensures forall i :: 0 <= i < |t| && t[i].id != id ==> t[i] in r
    ensures |r| <= |t|
  {
    if t == [] then []
    else if t[0].id == id then Delete(t[1..], id)
    else [t[0]] + Delete(t[1..], id)
  }

  /** `UPDATE ... SET <f> WHERE id=%s`: every row with that id is rewritten by `f`, its id kept. */
  function Update<R>(t: seq<Row<R>>, id: int, f: R -> R): (r: seq<Row<R>>)
    ensures |r| == |t|
    ensures forall i :: 0 <= i < |t| ==> r[i].id == t[i].id
    ensures forall i :: 0 <= i < |t| && t[i].id != id ==> r[i] == t[i]
    ensures forall i :: 0 <= i < |t| && t[i].id == id ==> r[i].data == f(t[i].data)
  {
    if t == [] then []
    else [if t[0].id == id then Row(t[0].id, f(t[0].data)) else t[0]] + Update(t[1..], id, f)
  }

  /** A row whose id is below every id of a keyed table can be put in front of it. */
  lemma PrependKeyed<R>(x: Row<R>, rest: seq<Row<R>>, next: nat)
    requires KeyedBelow(rest, next) && x.id < next
    requires forall i :: 0 <= i < |rest| ==> x.id < rest[i].id
    ensures KeyedBelow([x] + rest, next)
  {
  }

  /** Rows drawn from the tail of a keyed table all have ids above its head's. */
  lemma TailAboveHead<R>(t: seq<Row<R>>, rest: seq<Row<R>>, next: nat)
    requires KeyedBelow(t, next) && t != []
    requires forall i :: 0 <= i < |rest| ==> rest[i] in t[1..]
    ensures forall i :: 0 <= i < |rest| ==> t[0].id < rest[i].id
  {
  }

  /** Filtering keeps the auto-increment discipline (and so the table order). */
  lemma {:induction false} WhereKeyed<R>(t: seq<Row<R>>, p: R -> bool, next: nat)
    requires KeyedBelow(t, next)
    ensures KeyedBelow(Where(t, p), next)
  {
    if t != [] {
      assert KeyedBelow(t[1..], next);
      WhereKeyed(t[1..], p, next);
      if p(t[0].data) {
        var rest := Where(t[1..], p);
        TailAboveHead(t, rest, next);
        PrependKeyed(t[0], rest, next);
      }
    }
  }

  /** Deleting keeps the auto-increment discipline. */
  lemma {:induction false} DeleteKeyed<R>(t: seq<Row<R>>, id: int, next: nat)
    requires KeyedBelow(t, next)
    ensures KeyedBelow(Delete(t, id), next)
  {
    if t != [] {
      assert KeyedBelow(t[1..], next);
      DeleteKeyed(t[1..], id, next);
      if t[0].id != id {
        var rest := Delete(t[1..], id);
        TailAboveHead(t, rest, next);
        PrependKeyed(t[0], rest, next);
      }
    }
  }

  /** Updating keeps the auto-increment discipline: ids do not move. */
  lemma UpdateKeyed<R>(t: seq<Row<R>>, id: int, f: R -> R, next: nat)
    requires KeyedBelow(t, next)
    ensures KeyedBelow(Update(t, id, f), next)
  {
  }

  /** Deleting an id that is not in the table leaves the table as it was. */
  lemma {:induction false} DeleteAbsent<R>(t: seq<Row<R>>, id: int)
    requires Lookup(t, id).None?
    ensures Delete(t, id) == t
  {
    if t != [] {
      assert t[0].id != id;
      assert Lookup(t[1..], id).None?;
      DeleteAbsent(t[1..], id);
      assert t == [t[0]] + t[1..];
    }
  }

  /** Deleting twice is deleting once: the second DELETE finds no row. */
  lemma {:induction false} DeleteIdempotent<R>(t: seq<Row<R>>, id: int)
    ensures Delete(Delete(t, id), id) == Delete(t, id)
  {
    var once := Delete(t, id);
    assert forall i :: 0 <= i < |once| ==> once[i] in once;
    DeleteAbsent(once, id);
  }

  /** A lookup over an appended row finds the old row first, else the new one. */
  lemma {:induction false} LookupAppend<R>(t: seq<Row<R>>, x: Row<R>, id: int)
    ensures Lookup(t + [x], id) ==
      if Lookup(t, id).Some? then Lookup(t, id)
      else if x.id == id then Some(x) else None
  {
    if t != [] {
      assert (t + [x])[1..] == t[1..] + [x];
      LookupAppend(t[1..], x, id);
    }
  }

  /**
   * Add-then-read: after an INSERT under the counter's id, selecting that id
   * yields the inserted data verbatim, and every other id reads as before.
   */
  lemma {:induction false} InsertThenLookup<R>(t: seq<Row<R>>, next: nat, data: R, id: int)
    requires KeyedBelow(t, next)
    ensures Lookup(Insert(t, next, data), next) == Some(Row(next, data))
    ensures id != next ==> Lookup(Insert(t, next, data), id) == Lookup(t, id)
  {
    LookupAppend(t, Row(next, data), next);
    LookupAppend(t, Row(next, data), id);
  }

  /** After a DELETE the id is gone and every other id reads as before. */
  lemma {:induction false} LookupAfterDelete<R>(t: seq<Row<R>>, id: int, other: int)
    ensures Lookup(Delete(t, id), id).None?
    ensures other != id ==> Lookup(Delete(t, id), other) == Lookup(t, other)
  {
    if t != [] {
      LookupAfterDelete(t[1..], id, other);
    }
  }

  /**
   * After an UPDATE the row with that id reads as `f` of what it held (its id
   * kept), an absent id stays absent, and every other id reads as before.
   */
  lemma {:induction false} LookupAfterUpdate<R>(t: seq<Row<R>>, id: int, f: R -> R, other: int)
    ensures Lookup(Update(t, id, f), id) ==
      match Lookup(t, id)
      case Some(row) => Some(Row(row.id, f(row.data)))
      case None => None
    ensures other != id ==> Lookup(Update(t, id, f), other) == Lookup(t, other)
  {
    if t != [] {
      LookupAfterUpdate(t[1..], id, f, other);
    }
  }

  /** Updating an id that is not in the table leaves the table as it was. */
  lemma UpdateAbsent<R>(t: seq<Row<R>>, id: int, f: R -> R)
    requires Lookup(t, id).None?
    ensures Update(t, id, f) == t
  {
  }
}
