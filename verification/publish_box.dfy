/**
 * The publish box on the catalogue page (src/components/PublishBox.tsx): a
 * form that is closed (`mode` null) or open for pasting a link or uploading a
 * file, and that inserts one new row into the catalogue on submit.
 *
 * The pure parts -- file extension, storage path, the final video URL, the
 * normalisation of empty optional fields to `null` and the submit-enable
 * condition -- are functions; the React state and the handlers that update it
 * are the class `PublishBox`. The storage upload and the row insert are
 * external calls: each handler takes their success or failure as a
 * parameter, `getPublicUrl` as a function argument, and `crypto.randomUUID()`
 * as a string argument.
 */
module Publish {
  import opened Wrappers
  import Catalogue

  datatype Mode = Link | Upload

  /** A file chosen in the file input; only its name matters to the logic. */
  datatype File = File(name: string)

  // ---------------------------------------------------------------------
  // name.split(".").pop()
  // ---------------------------------------------------------------------

  /** `s.split(sep)` for a one-character separator: the pieces between separators, at least one. */
  function Split(s: string, sep: char): (parts: seq<string>)
    ensures |parts| >= 1
    ensures forall k :: 0 <= k < |parts| ==> sep !in parts[k]
    ensures |parts| == 1 <==> sep !in s
  {
    if s == [] then [""]
    else
      var rest := Split(s[1..], sep);
      if s[0] == sep then [""] + rest
      else [[s[0]] + rest[0]] + rest[1..]
  }

  /** `parts.join(sep)`. */
  function Join(parts: seq<string>, sep: char): string
    requires |parts| >= 1
  {
    if |parts| == 1 then parts[0] else parts[0] + [sep] + Join(parts[1..], sep)
  }

  /** Splitting loses nothing: joining the pieces gives the string back. */
  lemma {:induction false} JoinSplit(s: string, sep: char)
    ensures Join(Split(s, sep), sep) == s
  {
    if s != [] {
      var rest := Split(s[1..], sep);
      JoinSplit(s[1..], sep);
      if s[0] == sep {
        assert Split(s, sep)[1..] == rest;
      } else {
        var parts := Split(s, sep);
        if |rest| > 1 {
          assert parts[1..] == rest[1..];
          assert Join(rest, sep) == rest[0] + [sep] + Join(rest[1..], sep);
        }
      }
    }
  }

  /** The last piece of `Split` is the text after the last separator, or all of `s` when there is none. */
  lemma {:induction false} LastPiece(s: string, sep: char)
    ensures var parts := Split(s, sep); var e := parts[|parts| - 1];
      && |e| <= |s| && s[|s| - |e|..] == e
      && (sep !in s ==> e == s)
      && (sep in s ==> |e| < |s| && s[|s| - |e| - 1] == sep)
  {
    if s != [] {
      LastPiece(s[1..], sep);
      var rest := Split(s[1..], sep);
      var parts := Split(s, sep);
      if s[0] == sep {
        assert parts[|parts| - 1] == rest[|rest| - 1];
      } else if |rest| > 1 {
        assert parts[|parts| - 1] == rest[|rest| - 1];
      } else {
        assert parts[|parts| - 1] == [s[0]] + rest[0];
        assert s == [s[0]] + s[1..];
      }
    }
  }

  /** `file.name.split(".").pop()`. */
  function Extension(name: string): (ext: string)
    ensures '.' !in ext
  {
    var parts := Split(name, '.');
    parts[|parts| - 1]
  }

  /**
   * The extension is the text after the last `.` of the name, or the whole
   * name when it has no `.`; it never contains a `.` itself.
   */
  lemma ExtensionAfterLastDot(name: string)
    ensures '.' !in Extension(name)
    ensures '.' !in name ==> Extension(name) == name
    ensures '.' in name ==>
              var e := Extension(name);
              && |e| < |name|
              && name[|name| - |e| - 1] == '.'
              && name[|name| - |e|..] == e
  {
    LastPiece(name, '.');
  }

  /** Any dot-free tail that follows a `.` is the extension. */
  lemma ExtensionUnique(name: string, e: string)
    requires '.' !in e && |e| < |name| && name[|name| - |e| - 1] == '.' && name[|name| - |e|..] == e
    ensures Extension(name) == e
  {
    ExtensionAfterLastDot(name);
    var x := Extension(name);
    assert '.' in name;
    forall k | |name| - |x| <= k < |name| ensures name[k] != '.' {
      assert name[k] == x[k - (|name| - |x|)];
    }
    forall k | |name| - |e| <= k < |name| ensures name[k] != '.' {
      assert name[k] == e[k - (|name| - |e|)];
    }
    assert |x| == |e|;
  }

  /** The storage object name, `${uuid}.${ext}`. */
  function StoragePath(uuid: string, name: string): (path: string)
    ensures |path| > |Extension(name)|
    ensures path[|path| - |Extension(name)| - 1..] == "." + Extension(name)
  {
    uuid + "." + Extension(name)
  }

  /** The stored object keeps the file's extension, whatever the generated identifier. */
  lemma StoragePathKeepsExtension(uuid: string, name: string)
    ensures Extension(StoragePath(uuid, name)) == Extension(name)
  {
    var e := Extension(name);
    var path := StoragePath(uuid, name);
    assert path[|path| - |e|..] == e;
    ExtensionUnique(path, e);
  }

  // ---------------------------------------------------------------------
  // The inserted row
  // ---------------------------------------------------------------------

  /** `s || null`: the empty string is falsy. */
  function OrNull(s: string): (r: Option<string>)
    ensures r == None <==> s == ""
    ensures r.Some? ==> r.value == s
  {
    if s == "" then None else Some(s)
  }

  /** The object passed to `insert`. */
  function NewRecord(titulo: string, descripcion: string, portadaUrl: string, videoUrl: string): (d: Catalogue.Draft)
    ensures d.titulo == titulo && d.videoUrl == videoUrl
    ensures d.descripcion == None <==> descripcion == ""
    ensures d.portadaUrl == None <==> portadaUrl == ""
  {
    Catalogue.Draft(titulo, OrNull(descripcion), OrNull(portadaUrl), videoUrl)
  }

  /**
   * Normalising to `null` loses nothing: reading a `null` column back as the
   * empty string (what the admin page's edit form does) gives the typed text.
   */
  lemma NewRecordRoundTrip(titulo: string, descripcion: string, portadaUrl: string, videoUrl: string)
    ensures var d := NewRecord(titulo, descripcion, portadaUrl, videoUrl);
      (d.titulo, d.descripcion.GetOr(""), d.portadaUrl.GetOr(""), d.videoUrl) == (titulo, descripcion, portadaUrl, videoUrl)
  {
  }

  /**
   * The submit handler takes the upload branch: exactly in upload mode when
   * the submit button would be enabled, so never without a file.
   */
  function Uploads(mode: Option<Mode>, file: Option<File>): (b: bool)
    ensures b <==> mode == Some(Upload) && !SubmitDisabled(false, mode, file)
    ensures b ==> file.Some?
  {
    mode == Some(Upload) && file.Some?
  }

  /** The `disabled` attribute of the submit button. */
  function SubmitDisabled(submitting: bool, mode: Option<Mode>, file: Option<File>): (disabled: bool)
    ensures !disabled <==> !submitting && (mode == Some(Upload) ==> file.Some?)
  {
    submitting || (mode == Some(Upload) && file.None?)
  }

  /** Whenever the button can be pressed in upload mode, the handler uploads. */
  lemma EnabledUploadUploads(submitting: bool, mode: Option<Mode>, file: Option<File>)
    ensures !SubmitDisabled(submitting, mode, file) && mode == Some(Upload) ==> Uploads(mode, file)
  {
  }

  // ---------------------------------------------------------------------
  // The component state
  // ---------------------------------------------------------------------

  class PublishBox {
    var mode: Option<Mode>
    var titulo: string
    var descripcion: string
    var portadaUrl: string
    var videoUrl: string
    var file: Option<File>
    var submitting: bool

    /** What `reset` leaves: the box closed and every field empty. */
    predicate IsBlank()
      reads this
    {
      mode == None && titulo == "" && descripcion == "" && portadaUrl == "" && videoUrl == "" && file == None
    }

    /** The initial `useState` values. */
    constructor ()
      ensures IsBlank() && !submitting
    {
      mode, titulo, descripcion, portadaUrl, videoUrl, file := None, "", "", "", "", None;
      submitting := false;
    }

    /** The two buttons shown while the box is closed. */
    method ChooseMode(m: Mode)
      requires mode == None
      modifies this`mode
      ensures mode == Some(m)
    {
      mode := Some(m);
    }

    method Reset()
      modifies this
      ensures IsBlank()
      ensures submitting == old(submitting)
    {
      mode := None;
      titulo := "";
      descripcion := "";
      portadaUrl := "";
      videoUrl := "";
      file := None;
    }

    /** `handleFileChange`: `chosen` is `e.target.files?.[0]`; nothing chosen keeps the previous file. */
    method HandleFileChange(chosen: Option<File>)
      modifies this`file
      ensures file == if chosen.Some? then chosen else old(file)
    {
      if chosen.Some? {
        file := chosen;
      }
    }

    /**
     * `handleSubmit`. `uploadFails` and `insertFails` are the outcomes of the
     * storage upload and of the row insert, `publicUrl` is `getPublicUrl`.
     * Returns the path uploaded to (if the upload branch was taken), the row
     * sent to `insert` (if one was sent), and whether `onPublished` was called.
     */
    method HandleSubmit(uuid: string, uploadFails: bool, publicUrl: string -> string, insertFails: bool)
      returns (uploadedTo: Option<string>, inserted: Option<Catalogue.Draft>, published: bool)
      modifies this
      ensures !submitting
      ensures uploadedTo == if Uploads(old(mode), old(file)) then Some(StoragePath(uuid, old(file).value.name)) else None
      ensures uploadedTo.Some? && uploadFails ==> inserted == None
      ensures !(uploadedTo.Some? && uploadFails) ==>
                inserted == Some(NewRecord(old(titulo), old(descripcion), old(portadaUrl),
                                           if uploadedTo.Some? then publicUrl(uploadedTo.value) else old(videoUrl)))
      ensures published <==> inserted.Some? && !insertFails
      ensures published ==> IsBlank()
      ensures !published ==>
                && mode == old(mode) && titulo == old(titulo) && descripcion == old(descripcion)
                && portadaUrl == old(portadaUrl) && videoUrl == old(videoUrl) && file == old(file)
    {
      submitting := true;
      uploadedTo, inserted, published := None, None, false;
      var finalVideoUrl := videoUrl;
      if Uploads(mode, file) {
        var path := StoragePath(uuid, file.value.name);
        uploadedTo := Some(path);
        if uploadFails {
          submitting := false;
          return;
        }
        finalVideoUrl := publicUrl(path);
      }
      inserted := Some(NewRecord(titulo, descripcion, portadaUrl, finalVideoUrl));
      if !insertFails {
        Reset();
        published := true;
      }
      submitting := false;
    }
  }
}
