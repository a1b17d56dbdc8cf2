/**
 * The `peliculas` table as the two forms see it: rows carrying the four
 * editable text columns plus the store-assigned `id` and `created_at`.
 *
 * The hosted database is an external collaborator. The model keeps the table
 * as a sequence in the order the admin page queries it
 * (`order("created_at", { ascending: false })`, src/pages/Admin.tsx:33), so a
 * successful query returns the sequence itself. The three writes the pages
 * issue -- insert, update by id, delete by id -- are functions on that
 * sequence that keep it newest first and its ids unique (the primary key).
 */
module Catalogue {
  import opened Wrappers

  /** One row; the nullable columns are `Option`s. */
  datatype Pelicula = Pelicula(
    id: string,
    titulo: string,
    descripcion: Option<string>,
    portadaUrl: Option<string>,
    videoUrl: string,
    createdAt: int)

  /** The columns a page sends with `insert` or `update`. */
  datatype Draft = Draft(
    titulo: string,
    descripcion: Option<string>,
    portadaUrl: Option<string>,
    videoUrl: string)

  /** Rows in query order: `created_at` descending. */
  ghost predicate NewestFirst(rows: seq<Pelicula>) {
    forall i, j :: 0 <= i < j < |rows| ==> rows[i].createdAt >= rows[j].createdAt
  }

  /** No two rows share an id. */
  ghost predicate UniqueIds(rows: seq<Pelicula>) {
    forall i, j :: 0 <= i < j < |rows| ==> rows[i].id != rows[j].id
  }

  /** The table's invariant. */
  ghost predicate Valid(rows: seq<Pelicula>) {
    NewestFirst(rows) && UniqueIds(rows)
  }

  function Ids(rows: seq<Pelicula>): (ids: set<string>)
    ensures forall p :: p in rows ==> p.id in ids
    ensures forall id :: id in ids ==> exists p :: p in rows && p.id == id
  {
    set p | p in rows :: p.id
  }

  /** The head of a table in query order is its newest row, and the tail is in query order. */
  lemma UnconsNewest(rows: seq<Pelicula>)
    requires rows != [] && NewestFirst(rows)
    ensures NewestFirst(rows[1..])
    ensures forall p :: p in rows[1..] ==> rows[0].createdAt >= p.createdAt
  {
    var tail := rows[1..];
    assert forall i :: 0 <= i < |tail| ==> tail[i] == rows[i + 1];
  }

  /** The head of a table with unique ids owns its id, and the tail has unique ids. */
  lemma UnconsUnique(rows: seq<Pelicula>)
    requires rows != [] && UniqueIds(rows)
    ensures UniqueIds(rows[1..])
    ensures rows[0].id !in Ids(rows[1..])
  {
    var tail := rows[1..];
    assert forall i :: 0 <= i < |tail| ==> tail[i] == rows[i + 1];
    forall p | p in tail ensures p.id != rows[0].id {
      var i :| 0 <= i < |tail| && tail[i] == p;
      assert rows[i + 1] == p;
    }
  }

  /** A row no older than any row of a table in query order can go in front. */
  lemma ConsNewest(x: Pelicula, rest: seq<Pelicula>)
    requires NewestFirst(rest) && forall p :: p in rest ==> x.createdAt >= p.createdAt
    ensures NewestFirst([x] + rest)
  {
    var r := [x] + rest;
    assert forall i :: 0 < i < |r| ==> r[i] == rest[i - 1] && r[i] in rest;
  }

  /** A row whose id is not in a table with unique ids can go in front. */
  lemma ConsUnique(x: Pelicula, rest: seq<Pelicula>)
    requires UniqueIds(rest) && x.id !in Ids(rest)
    ensures UniqueIds([x] + rest)
  {
    var r := [x] + rest;
    assert forall i :: 0 < i < |r| ==> r[i] == rest[i - 1] && r[i] in rest;
  }

  lemma ConsIds(x: Pelicula, rest: seq<Pelicula>)
    ensures Ids([x] + rest) == {x.id} + Ids(rest)
  {
    assert forall p :: p in [x] + rest <==> p == x || p in rest;
  }

  /** The row the store creates for `d`. */
  function NewRow(id: string, createdAt: int, d: Draft): Pelicula {
    Pelicula(id, d.titulo, d.descripcion, d.portadaUrl, d.videoUrl, createdAt)
  }

  /** The row `p` after `update(d).eq("id", p.id)`: the sent columns replaced, id and creation time kept. */
  function Apply(p: Pelicula, d: Draft): (q: Pelicula)
    ensures q.id == p.id && q.createdAt == p.createdAt
    ensures Draft(q.titulo, q.descripcion, q.portadaUrl, q.videoUrl) == d
  {
    Pelicula(p.id, d.titulo, d.descripcion, d.portadaUrl, d.videoUrl, p.createdAt)
  }

  // ---------------------------------------------------------------------
  // Insert
  // ---------------------------------------------------------------------

  /** `row` placed before the first row that is not newer than it. */
  function InsertNewest(rows: seq<Pelicula>, row: Pelicula): (r: seq<Pelicula>)
    ensures multiset(r) == multiset(rows) + multiset{row}
    ensures forall p :: p in r <==> p in rows || p == row
    ensures |r| == |rows| + 1
  {
    if rows == [] || row.createdAt >= rows[0].createdAt then [row] + rows
    else
      assert rows == [rows[0]] + rows[1..];
      [rows[0]] + InsertNewest(rows[1..], row)
  }

  lemma {:induction false} InsertNewestIds(rows: seq<Pelicula>, row: Pelicula)
    ensures Ids(InsertNewest(rows, row)) == Ids(rows) + {row.id}
  {
    var r := InsertNewest(rows, row);
    forall x | x in Ids(rows) + {row.id} ensures x in Ids(r) {
      if x != row.id {
        var p :| p in rows && p.id == x;
        assert p in r;
      } else {
        assert row in r;
      }
    }
  }

  lemma {:induction false} InsertNewestKeepsOrder(rows: seq<Pelicula>, row: Pelicula)
    requires NewestFirst(rows)
    ensures NewestFirst(InsertNewest(rows, row))
  {
    if rows == [] || row.createdAt >= rows[0].createdAt {
      if rows != [] {
        UnconsNewest(rows);
        assert forall p :: p in rows ==> p == rows[0] || p in rows[1..];
      }
      ConsNewest(row, rows);
    } else {
      var tail := rows[1..];
      UnconsNewest(rows);
      InsertNewestKeepsOrder(tail, row);
      var rest := InsertNewest(tail, row);
      assert InsertNewest(rows, row) == [rows[0]] + rest;
      ConsNewest(rows[0], rest);
    }
  }

  lemma {:induction false} InsertNewestKeepsIds(rows: seq<Pelicula>, row: Pelicula)
    requires UniqueIds(rows) && row.id !in Ids(rows)
    ensures UniqueIds(InsertNewest(rows, row))
  {
    if rows == [] || row.createdAt >= rows[0].createdAt {
      ConsUnique(row, rows);
    } else {
      var tail := rows[1..];
      UnconsUnique(rows);
      assert rows == [rows[0]] + tail;
      ConsIds(rows[0], tail);
      assert row.id !in Ids(tail) && row.id != rows[0].id;
      InsertNewestKeepsIds(tail, row);
      var rest := InsertNewest(tail, row);
      InsertNewestIds(tail, row);
      assert rows[0].id !in Ids(rest);
      assert InsertNewest(rows, row) == [rows[0]] + rest;
      ConsUnique(rows[0], rest);
    }
  }

  /**
   * `insert(d)`: the store assigns `id` and `createdAt`; an id already in use
   * violates the primary key and the insert fails without a change.
   */
  function Insert(rows: seq<Pelicula>, id: string, createdAt: int, d: Draft): (r: Option<seq<Pelicula>>)
    ensures r.None? <==> id in Ids(rows)
    ensures r.Some? ==> multiset(r.value) == multiset(rows) + multiset{NewRow(id, createdAt, d)}
  {
    if id in Ids(rows) then None else Some(InsertNewest(rows, NewRow(id, createdAt, d)))
  }

  /** A successful insert adds exactly the new row, under a fresh id, and keeps the table valid. */
  lemma InsertKeepsValid(rows: seq<Pelicula>, id: string, createdAt: int, d: Draft)
    requires Valid(rows) && id !in Ids(rows)
    ensures Insert(rows, id, createdAt, d).Some?
    ensures Valid(Insert(rows, id, createdAt, d).value)
    ensures Ids(Insert(rows, id, createdAt, d).value) == Ids(rows) + {id}
  {
    InsertNewestKeepsOrder(rows, NewRow(id, createdAt, d));
    InsertNewestKeepsIds(rows, NewRow(id, createdAt, d));
    InsertNewestIds(rows, NewRow(id, createdAt, d));
  }

  // ---------------------------------------------------------------------
  // Update
  // ---------------------------------------------------------------------

  /** `update(d).eq("id", id)`: every row with that id gets the sent columns; no other row changes. */
  function Update(rows: seq<Pelicula>, id: string, d: Draft): (r: seq<Pelicula>)
    ensures |r| == |rows|
    ensures forall i :: 0 <= i < |rows| ==> r[i] == if rows[i].id == id then Apply(rows[i], d) else rows[i]
  {
    if rows == [] then []
    else [if rows[0].id == id then Apply(rows[0], d) else rows[0]] + Update(rows[1..], id, d)
  }

  /** An update neither adds nor removes rows, changes no id or creation time, and keeps the table valid. */
  lemma UpdateKeepsValid(rows: seq<Pelicula>, id: string, d: Draft)
    requires Valid(rows)
    ensures Valid(Update(rows, id, d))
    ensures Ids(Update(rows, id, d)) == Ids(rows)
    ensures forall i :: 0 <= i < |rows| ==>
              Update(rows, id, d)[i].id == rows[i].id && Update(rows, id, d)[i].createdAt == rows[i].createdAt
  {
    var r := Update(rows, id, d);
    assert forall i :: 0 <= i < |rows| ==> r[i].id == rows[i].id && r[i].createdAt == rows[i].createdAt;
    UpdateKeepsIds(rows, id, d);
  }

  lemma UpdateKeepsIds(rows: seq<Pelicula>, id: string, d: Draft)
    ensures Ids(Update(rows, id, d)) == Ids(rows)
  {
    var r := Update(rows, id, d);
    assert forall i :: 0 <= i < |rows| ==> r[i].id == rows[i].id;
    SameIds(r, rows);
  }

  /** Two tables with the same id at every index have the same ids. */
  lemma SameIds(a: seq<Pelicula>, b: seq<Pelicula>)
    requires |a| == |b| && forall i :: 0 <= i < |a| ==> a[i].id == b[i].id
    ensures Ids(a) == Ids(b)
  {
    forall x | x in Ids(a) ensures x in Ids(b) {
      var p :| p in a && p.id == x;
      var i :| 0 <= i < |a| && a[i] == p;
      assert b[i] in b;
    }
    forall x | x in Ids(b) ensures x in Ids(a) {
      var p :| p in b && p.id == x;
      var i :| 0 <= i < |b| && b[i] == p;
      assert a[i] in a;
    }
  }

  /** With unique ids, an update by id changes at most the one row that has it. */
  lemma UpdateTouchesOneRow(rows: seq<Pelicula>, id: string, d: Draft, k: nat)
    requires UniqueIds(rows) && k < |rows| && rows[k].id == id
    ensures Update(rows, id, d)[k] == Apply(rows[k], d)
    ensures forall i :: 0 <= i < |rows| && i != k ==> Update(rows, id, d)[i] == rows[i]
  {
    forall i | 0 <= i < |rows| && i != k ensures rows[i].id != id {
      if i < k { assert rows[i].id != rows[k].id; } else { assert rows[k].id != rows[i].id; }
    }
  }

  // ---------------------------------------------------------------------
  // Delete
  // ---------------------------------------------------------------------

  /** `delete().eq("id", id)`: the rows with that id removed, the others kept. */
  function Delete(rows: seq<Pelicula>, id: string): (r: seq<Pelicula>)
    ensures forall p :: p in r <==> p in rows && p.id != id
    ensures |r| <= |rows|
  {
    if rows == [] then []
    else if rows[0].id == id then Delete(rows[1..], id)
    else [rows[0]] + Delete(rows[1..], id)
  }

  lemma {:induction false} DeleteKeepsInvariant(rows: seq<Pelicula>, id: string)
    ensures NewestFirst(rows) ==> NewestFirst(Delete(rows, id))
    ensures UniqueIds(rows) ==> UniqueIds(Delete(rows, id))
  {
    if rows != [] {
      var tail := rows[1..];
      DeleteKeepsInvariant(tail, id);
      if rows[0].id != id {
        var rest := Delete(tail, id);
        if NewestFirst(rows) {
          UnconsNewest(rows);
          ConsNewest(rows[0], rest);
        }
        if UniqueIds(rows) {
          UnconsUnique(rows);
          ConsUnique(rows[0], rest);
        }
      } else {
        if NewestFirst(rows) { UnconsNewest(rows); }
        if UniqueIds(rows) { UnconsUnique(rows); }
      }
    }
  }

  /** A delete removes exactly the id asked for, keeps every other row, and keeps the table valid. */
  lemma DeleteKeepsValid(rows: seq<Pelicula>, id: string)
    requires Valid(rows)
    ensures Valid(Delete(rows, id))
    ensures Ids(Delete(rows, id)) == Ids(rows) - {id}
  {
    DeleteKeepsInvariant(rows, id);
    var r := Delete(rows, id);
    forall x | x in Ids(rows) - {id} ensures x in Ids(r) {
      var p :| p in rows && p.id == x;
      assert p in r;
    }
  }
}
