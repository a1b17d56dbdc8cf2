/**
 * The admin panel (src/pages/Admin.tsx): a create/edit form over the
 * catalogue table and the list of rows it displays.
 *
 * The class `AdminPanel` holds the page's React state (`peliculas`,
 * `editing`, `form`, `submitting`) and, as the field `table`, the state of
 * the external table that submit and delete change. Each handler takes the
 * outcome of its database call as a parameter; the id and creation time the
 * database assigns to an inserted row are parameters too.
 */
module AdminPage {
  import opened Wrappers
  import opened Catalogue

  /** The four text fields of the form. */
  datatype Form = Form(titulo: string, descripcion: string, portadaUrl: string, videoUrl: string)

  const EmptyForm := Form("", "", "", "")

  /** `handleEdit`'s copy of a row into the form: `null` optional columns become `""`. */
  function FormOf(p: Pelicula): (f: Form)
    ensures f.titulo == p.titulo && f.videoUrl == p.videoUrl
    ensures p.descripcion.Some? ==> f.descripcion == p.descripcion.value
    ensures p.descripcion.None? ==> f.descripcion == ""
    ensures p.portadaUrl.Some? ==> f.portadaUrl == p.portadaUrl.value
    ensures p.portadaUrl.None? ==> f.portadaUrl == ""
  {
    Form(p.titulo, p.descripcion.GetOr(""), p.portadaUrl.GetOr(""), p.videoUrl)
  }

  /** The form object sent as is to `insert` and `update`: every field, empty or not, is a string. */
  function DraftOf(f: Form): (d: Draft)
    ensures d.descripcion.Some? && d.portadaUrl.Some?
  {
    Draft(f.titulo, Some(f.descripcion), Some(f.portadaUrl), f.videoUrl)
  }

  /**
   * Opening a row for editing and saving it unchanged gives the row back
   * exactly when neither optional column is `null`; a `null` is saved as `""`.
   */
  lemma EditSaveRoundTrip(p: Pelicula)
    ensures Apply(p, DraftOf(FormOf(p))) == p <==> p.descripcion.Some? && p.portadaUrl.Some?
    ensures Apply(p, DraftOf(FormOf(p))).descripcion == Some(p.descripcion.GetOr(""))
    ensures Apply(p, DraftOf(FormOf(p))).portadaUrl == Some(p.portadaUrl.GetOr(""))
  {
  }

  // ---------------------------------------------------------------------
  // The admin gate
  // ---------------------------------------------------------------------

  /** What the page renders. */
  datatype View = LoadingScreen | Nothing | Panel

  function ViewOf(loading: bool, isAdmin: bool): (v: View)
    ensures v == Panel <==> !loading && isAdmin
    ensures v == LoadingScreen <==> loading
  {
    if loading then LoadingScreen else if !isAdmin then Nothing else Panel
  }

  /** The redirect effect's condition. */
  function RedirectsToLogin(loading: bool, signedIn: bool, isAdmin: bool): (go: bool)
    ensures go ==> !loading
    ensures go ==> !signedIn || !isAdmin
    ensures !loading && !signedIn ==> go
    ensures !loading && !isAdmin ==> go
  {
    !loading && (!signedIn || !isAdmin)
  }

  /** Once loading has finished, a non-admin is sent to `/login` and shown nothing; an admin who is signed in stays. */
  lemma GateKeepsOutNonAdmins(loading: bool, signedIn: bool, isAdmin: bool)
    ensures !loading && !isAdmin ==> RedirectsToLogin(loading, signedIn, isAdmin) && ViewOf(loading, isAdmin) == Nothing
    ensures !loading && !signedIn ==> RedirectsToLogin(loading, signedIn, isAdmin)
    ensures !loading && signedIn && isAdmin ==> !RedirectsToLogin(loading, signedIn, isAdmin) && ViewOf(loading, isAdmin) == Panel
    ensures loading ==> !RedirectsToLogin(loading, signedIn, isAdmin)
  {
  }

  /**
   * The render tests only `isAdmin`, the redirect also tests the user: with
   * no user but `isAdmin` true, the page both redirects and renders the panel.
   */
  lemma NoUserAdminRedirectsAndRenders(loading: bool, signedIn: bool, isAdmin: bool)
    ensures !loading && !signedIn && isAdmin ==>
              RedirectsToLogin(loading, signedIn, isAdmin) && ViewOf(loading, isAdmin) == Panel
  {
  }

  // ---------------------------------------------------------------------
  // The page state
  // ---------------------------------------------------------------------

  class AdminPanel {
    /** The external table, in query order. */
    var table: seq<Pelicula>
    /** The list on screen. */
    var peliculas: seq<Pelicula>
    var editing: Option<Pelicula>
    var form: Form
    var submitting: bool

    /** The table keeps its primary key and query order, and the list on screen is newest first. */
    ghost predicate Valid()
      reads this
    {
      Catalogue.Valid(table) && NewestFirst(peliculas)
    }

    /** The initial `useState` values, over a table in some valid state. */
    constructor (rows: seq<Pelicula>)
      requires Catalogue.Valid(rows)
      ensures Valid()
      ensures table == rows && peliculas == [] && editing == None && form == EmptyForm && !submitting
    {
      table := rows;
      peliculas := [];
      editing := None;
      form := EmptyForm;
      submitting := false;
    }

    /** `fetchPeliculas`: a failed query (`data` null) leaves the list as it was. */
    method FetchPeliculas(queryFails: bool)
      requires Valid()
      modifies this`peliculas
      ensures Valid()
      ensures peliculas == if queryFails then old(peliculas) else table
    {
      if !queryFails {
        peliculas := table;
      }
    }

    method ResetForm()
      modifies this`form, this`editing
      ensures form == EmptyForm && editing == None
    {
      form := EmptyForm;
      editing := None;
    }

    /** The `onChange` handlers of the four inputs, which replace the form. */
    method SetForm(f: Form)
      modifies this`form
      ensures form == f
    {
      form := f;
    }

    method HandleEdit(p: Pelicula)
      modifies this`editing, this`form
      ensures editing == Some(p) && form == FormOf(p)
    {
      editing := Some(p);
      form := FormOf(p);
    }

    /**
     * `handleSubmit`: an update of the row being edited, or else an insert
     * under the id and creation time the database assigns. Whatever the
     * outcome, the form is cleared afterwards and the list refetched.
     */
    method HandleSubmit(writeFails: bool, newId: string, now: int, queryFails: bool) returns (ok: bool)
      requires Valid()
      modifies this
      ensures Valid()
      ensures old(editing).Some? ==>
                && ok == !writeFails
                && table == if ok then Update(old(table), old(editing).value.id, DraftOf(old(form))) else old(table)
      ensures old(editing).None? ==>
                && ok == (!writeFails && newId !in Ids(old(table)))
                && table == if ok then Insert(old(table), newId, now, DraftOf(old(form))).value else old(table)
      ensures form == EmptyForm && editing == None && !submitting
      ensures peliculas == if queryFails then old(peliculas) else table
    {
      submitting := true;
      ok := Write(writeFails, newId, now);
      ResetForm();
      FetchPeliculas(queryFails);
      submitting := false;
    }

    /** The `update` or `insert` call of `handleSubmit`, sending the form as it is. */
    method Write(writeFails: bool, newId: string, now: int) returns (ok: bool)
      requires Catalogue.Valid(table)
      modifies this`table
      ensures Catalogue.Valid(table)
      ensures editing.Some? ==>
                && ok == !writeFails
                && table == if ok then Update(old(table), editing.value.id, DraftOf(form)) else old(table)
      ensures editing.None? ==>
                && ok == (!writeFails && newId !in Ids(old(table)))
                && table == if ok then Insert(old(table), newId, now, DraftOf(form)).value else old(table)
    {
      if editing.Some? {
        ok := !writeFails;
        if ok {
          UpdateKeepsValid(table, editing.value.id, DraftOf(form));
          table := Update(table, editing.value.id, DraftOf(form));
        }
      } else {
        var inserted := Insert(table, newId, now, DraftOf(form));
        ok := !writeFails && inserted.Some?;
        if ok {
          InsertKeepsValid(table, newId, now, DraftOf(form));
          table := inserted.value;
        }
      }
    }

    /** `handleDelete`: only a successful delete refetches the list. */
    method HandleDelete(id: string, deleteFails: bool, queryFails: bool) returns (ok: bool)
      requires Valid()
      modifies this`table, this`peliculas
      ensures Valid()
      ensures ok == !deleteFails
      ensures table == if ok then Delete(old(table), id) else old(table)
      ensures !ok ==> peliculas == old(peliculas)
      ensures ok ==> peliculas == if queryFails then old(peliculas) else table
    {
      ok := !deleteFails;
      if ok {
        DeleteKeepsValid(table, id);
        table := Delete(table, id);
        FetchPeliculas(queryFails);
      }
    }
  }

  /** A submit while editing touches only the edited row: same ids, every other row unchanged, nothing inserted. */
  lemma SubmitWhileEditingTouchesOneRow(rows: seq<Pelicula>, edited: Pelicula, f: Form, k: nat)
    requires Catalogue.Valid(rows) && k < |rows| && rows[k].id == edited.id
    ensures Ids(Update(rows, edited.id, DraftOf(f))) == Ids(rows)
    ensures |Update(rows, edited.id, DraftOf(f))| == |rows|
    ensures Update(rows, edited.id, DraftOf(f))[k] == Apply(rows[k], DraftOf(f))
    ensures forall i :: 0 <= i < |rows| && i != k ==> Update(rows, edited.id, DraftOf(f))[i] == rows[i]
  {
    UpdateKeepsValid(rows, edited.id, DraftOf(f));
    UpdateTouchesOneRow(rows, edited.id, DraftOf(f), k);
  }

  /** A successful submit without a row being edited adds exactly one row, built from the form, and updates none. */
  lemma SubmitWithoutEditingInsertsOneRow(rows: seq<Pelicula>, f: Form, newId: string, now: int)
    requires Catalogue.Valid(rows) && newId !in Ids(rows)
    ensures Insert(rows, newId, now, DraftOf(f)).Some?
    ensures multiset(Insert(rows, newId, now, DraftOf(f)).value) == multiset(rows) + multiset{NewRow(newId, now, DraftOf(f))}
    ensures |Insert(rows, newId, now, DraftOf(f)).value| == |rows| + 1
    ensures Ids(Insert(rows, newId, now, DraftOf(f)).value) == Ids(rows) + {newId}
  {
    InsertKeepsValid(rows, newId, now, DraftOf(f));
    assert |multiset(Insert(rows, newId, now, DraftOf(f)).value)| == |multiset(rows)| + 1;
  }
}
