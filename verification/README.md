# Cine club catalogue: video-URL resolution, publish box and admin panel

A Dafny model of the three pieces of behaviour in the cine club catalogue web
application that go beyond layout:

- **Video-URL resolution** (`getEmbedUrl`, `src/pages/Movie.tsx`). A stored
  video URL becomes either an `iframe` embed for YouTube, Vimeo or Google
  Drive, or a direct `video` source. Each provider's regular expression is
  modelled as a search: the leftmost occurrence of a literal marker (one of
  three for YouTube, tried in order) followed by a greedy, non-empty run of
  identifier characters. This is JavaScript's first-match semantics for these
  patterns. `IsFirstMatch` states the match declaratively. The contract of
  `FirstMatch` and the lemma `FirstMatchUnique` prove that the search computes exactly that match.
- **Publish box** (`src/components/PublishBox.tsx`). A form that is closed,
  in link mode or in upload mode. On submit it may upload a file to storage
  under `${uuid}.${ext}` and then inserts one row. The extension logic
  (`split(".").pop()`), the storage path, the `|| null` normalisation and the
  submit-enable condition are functions. The React state and its handlers
  form the class `Publish.PublishBox`.
- **Admin panel** (`src/pages/Admin.tsx`). A create/edit form over the
  `peliculas` table: `editing` plus a four-field form, the displayed list,
  and the admin gate. The class is `AdminPage.AdminPanel`. The table it writes
  to is modelled in module `Catalogue` as a sequence in query order (newest
  first, ids unique). Its insert, update-by-id and delete-by-id are functions
  proved to keep that order and the primary key.

External calls are parameters of the handlers: the storage upload, the
database writes and queries (success or failure), `getPublicUrl` (a function
argument), `crypto.randomUUID()` (a string argument), and the id and
`created_at` the database assigns to a new row. The publish box uploads with
a single `upload` call (src/components/PublishBox.tsx:44). It does no part
splitting, retrying or resuming, so no upload session is modelled.

Files: `wrappers.dfy` (Option), `embed_url.dfy` (module `EmbedUrl`),
`catalogue.dfy` (module `Catalogue`), `publish_box.dfy` (module `Publish`),
`admin.dfy` (module `AdminPage`).

## Model

| member | source | states |
|---|---|---|
| `EmbedUrl.RunLength` | src/pages/Movie.tsx:12 | the greedy `[...]+` run: every character from `j` up to `j + n` is in the class, and the next character (if any) is not |
| `EmbedUrl.TryAtFails` | src/pages/Movie.tsx:11-13 | the attempt at one position fails exactly when none of the remaining alternatives, followed by a class character, occurs there |
| `EmbedUrl.TryAtFinds` | src/pages/Movie.tsx:11-13 | a successful attempt is a greedy match at that position of the first remaining alternative that occurs there |
| `EmbedUrl.SearchFromCorrect` | src/pages/Movie.tsx:11-13 | scanning from a position finds nothing exactly when no alternative occurs from there on; a hit is a greedy match with no occurrence before it and no earlier alternative at its position |
| `EmbedUrl.FirstMatch` | src/pages/Movie.tsx:11-13 | `url.match(...)` of each pattern (also lines 21 and 29): no match exactly when no alternative followed by a class character occurs anywhere; a match is at the leftmost such position, uses the first alternative that works there, and captures a maximal non-empty run |
| `EmbedUrl.FirstMatchUnique` | src/pages/Movie.tsx:11-13 | the declarative first match is unique, so "the match `url.match` reports" is well defined |
| `EmbedUrl.FirstMatchIs` | src/pages/Movie.tsx:11-34 | whenever a hit satisfies the declarative first-match description, it is exactly what the search returns |
| `EmbedUrl.Classify` | src/pages/Movie.tsx:11-35 | the three patterns are tried in the order YouTube, Vimeo, Drive: no provider exactly when none occurs; a chosen provider's pattern occurs, no higher-priority pattern does, and the captured id is non-empty and drawn from that provider's class |
| `EmbedUrl.EmbedSrc` | src/pages/Movie.tsx:17-33 | the three `src` templates: every embed URL starts with `https://`; `DecodeEmbedSrc` inverts it |
| `EmbedUrl.GetEmbedUrl` | src/pages/Movie.tsx:9-38 | total; a `video` result's `src` is the input unchanged; an `iframe` result's `src` starts with `https://` |
| `EmbedUrl.DirectVideoExactlyWhenNoPattern` | src/pages/Movie.tsx:36-37 | the result is `video` if and only if none of the YouTube, Vimeo and Drive patterns occurs, and then `src` is the input |
| `EmbedUrl.YouTubeTakesPrecedence` | src/pages/Movie.tsx:11-18 | given the first YouTube match, the result is `https://www.youtube.com/embed/` + its id + `?autoplay=1&rel=0&modestbranding=1`, whatever else occurs |
| `EmbedUrl.VimeoUnlessYouTube` | src/pages/Movie.tsx:21-26 | with no YouTube match, the first Vimeo match gives `https://player.vimeo.com/video/` + its maximal digit run + `?autoplay=1&color=e53e3e` |
| `EmbedUrl.DriveOnlyAsLastResort` | src/pages/Movie.tsx:29-34 | with neither a YouTube nor a Vimeo match, the first Drive match gives `https://drive.google.com/file/d/` + its id + `/preview` |
| `EmbedUrl.IframeSrcShape` | src/pages/Movie.tsx:14-34 | every `iframe` result is prefix + id + suffix for one provider; the id is non-empty and drawn from that provider's class; the provider's pattern occurs; no higher-priority pattern occurs; provider and id can be read back from `src` |
| `EmbedUrl.DecodeEmbedSrc` | src/pages/Movie.tsx:17-33 | stripping the provider's prefix and suffix recovers provider and id from any embed URL built by the three templates |
| `EmbedUrl.IdMayRecurInSrc` | src/pages/Movie.tsx:17 | `youtu.be/w` gives an embed URL in which the id `w` also occurs inside `www`, so the id need not occur only once in `src` |
| `EmbedUrl.YouTubeSrcStable` | src/pages/Movie.tsx:11-17 | a YouTube embed URL that `getEmbedUrl` itself produced (with its `?autoplay=1&rel=0&modestbranding=1` suffix) is resolved to itself, because its `youtube.com/embed/` marker is the first match |
| `EmbedUrl.DriveSrcStable` | src/pages/Movie.tsx:29-33 | a Drive preview URL that `getEmbedUrl` itself produced (ending in `/preview`) is resolved to itself |
| `EmbedUrl.VimeoSrcPlayedDirectly` | src/pages/Movie.tsx:21-37 | a Vimeo player URL that `getEmbedUrl` itself produced (`https://player.vimeo.com/video/` + digits + `?autoplay=1&color=e53e3e`) matches no pattern and is played as a direct `video` source |
| `EmbedUrl.EmbedSrcIsStable` | src/pages/Movie.tsx:9-38 | resolving the `src` of any result again gives the same `src` |
| `Publish.Split` | src/components/PublishBox.tsx:42 | `split(".")` gives at least one piece; no piece contains the separator; there is exactly one piece when the string has no separator |
| `Publish.JoinSplit` | src/components/PublishBox.tsx:42 | joining the pieces with the separator gives the string back |
| `Publish.Extension` | src/components/PublishBox.tsx:42 | the extension (`pop()` of the pieces) never contains a `.` |
| `Publish.ExtensionAfterLastDot` | src/components/PublishBox.tsx:42 | the extension is the whole name when the name has no `.`, and otherwise the text after its last `.` |
| `Publish.ExtensionUnique` | src/components/PublishBox.tsx:42 | any dot-free tail that directly follows a `.` is the extension |
| `Publish.StoragePath` | src/components/PublishBox.tsx:43 | the storage path ends with `"." + ext` |
| `Publish.StoragePathKeepsExtension` | src/components/PublishBox.tsx:42-43 | the storage path has the same extension as the file name, whatever the generated uuid |
| `Publish.OrNull` | src/components/PublishBox.tsx:58-59 | the or-null of a text field is `null` exactly when the text is empty, and the text otherwise |
| `Publish.NewRecord` | src/components/PublishBox.tsx:56-61 | the inserted object keeps `titulo` and `video_url`; `descripcion` and `portada_url` are `null` exactly when empty |
| `Publish.NewRecordRoundTrip` | src/components/PublishBox.tsx:56-61 | normalising to `null` loses nothing: reading `null` back as `""` gives the typed text |
| `Publish.Uploads` | src/components/PublishBox.tsx:41 | the upload branch is taken exactly in upload mode when the submit button would be enabled, and so never without a file |
| `Publish.SubmitDisabled` | src/components/PublishBox.tsx:120 | the submit button is enabled exactly when not submitting and, in upload mode, a file is selected |
| `Publish.EnabledUploadUploads` | src/components/PublishBox.tsx:120 | an enabled submit in upload mode always takes the upload branch of the handler (line 41) |
| `Publish.PublishBox.constructor` | src/components/PublishBox.tsx:12-18 | the box starts closed, with every field empty, no file and not submitting |
| `Publish.PublishBox.ChooseMode` | src/components/PublishBox.tsx:73-89 | the two buttons, shown only while the box is closed, set the mode |
| `Publish.PublishBox.Reset` | src/components/PublishBox.tsx:21-28 | mode is null, the four text fields are `""` and the file is null; `submitting` is untouched |
| `Publish.PublishBox.HandleFileChange` | src/components/PublishBox.tsx:30-33 | a chosen file replaces the current one; choosing nothing keeps the previous file |
| `Publish.PublishBox.HandleSubmit` | src/components/PublishBox.tsx:35-71 | uploads to `uuid.ext` only in upload mode with a file; a failed upload inserts nothing and leaves the form as it was; otherwise one row is sent, with the public URL of the path when uploaded and the typed link otherwise; the form is reset and `onPublished` called exactly when the insert succeeds; `submitting` is false at the end of every path |
| `Catalogue.Apply` | src/pages/Admin.tsx:47 | an updated row takes the sent columns and keeps its id and creation time |
| `Catalogue.InsertNewest` | src/pages/Admin.tsx:33 | the new row placed before the first row not newer than it: the result is the old rows plus exactly that row (as a multiset), one row longer |
| `Catalogue.InsertNewestKeepsOrder` | src/pages/Admin.tsx:33 | placing the new row keeps the table in `created_at` descending query order |
| `Catalogue.InsertNewestKeepsIds` | src/pages/Admin.tsx:51 | placing a row whose id is not taken keeps the ids unique |
| `Catalogue.Insert` | src/pages/Admin.tsx:51 | an insert fails exactly when the id is taken (primary key); otherwise the table gains exactly the new row |
| `Catalogue.InsertKeepsValid` | src/pages/Admin.tsx:51 | a successful insert keeps the table newest first with unique ids, and adds exactly the new id |
| `Catalogue.Update` | src/pages/Admin.tsx:47 | `update(form).eq("id", id)` changes exactly the rows with that id and keeps every other row and the row count |
| `Catalogue.UpdateKeepsValid` | src/pages/Admin.tsx:47 | an update adds or removes no row, changes no id or creation time, and keeps the table valid |
| `Catalogue.UpdateTouchesOneRow` | src/pages/Admin.tsx:47 | with unique ids, only the one row that has the id changes |
| `Catalogue.Delete` | src/pages/Admin.tsx:67 | `delete().eq("id", id)` keeps exactly the rows with another id |
| `Catalogue.DeleteKeepsValid` | src/pages/Admin.tsx:67 | a delete removes exactly that id and keeps the table valid |
| `AdminPage.FormOf` | src/pages/Admin.tsx:63 | `handleEdit` copies `titulo` and `video_url` verbatim; a null `descripcion` or `portada_url` becomes `""` and a non-null one is copied |
| `AdminPage.DraftOf` | src/pages/Admin.tsx:47-51 | the form is sent as is: both optional columns are written as strings, never `null` |
| `AdminPage.EditSaveRoundTrip` | src/pages/Admin.tsx:47-63 | editing a row and saving it unchanged gives the row back exactly when neither optional column is null; a null is saved as `""` |
| `AdminPage.ViewOf` | src/pages/Admin.tsx:75-76 | the panel renders exactly when loading has finished and the user is an admin |
| `AdminPage.RedirectsToLogin` | src/pages/Admin.tsx:22-26 | the redirect to `/login` fires exactly when loading has finished and there is no user or the user is not an admin |
| `AdminPage.GateKeepsOutNonAdmins` | src/pages/Admin.tsx:22-26 | once loaded, a non-admin is redirected and shown nothing, and a missing user is redirected; a signed-in admin is shown the panel and stays; nothing redirects while loading |
| `AdminPage.NoUserAdminRedirectsAndRenders` | src/pages/Admin.tsx:22-76 | once loaded, with no user but `isAdmin` true, the page both redirects to `/login` and renders the panel, because the render tests only `isAdmin` |
| `AdminPage.AdminPanel.constructor` | src/pages/Admin.tsx:17-20 | empty list, no row being edited, a blank form, not submitting |
| `AdminPage.AdminPanel.FetchPeliculas` | src/pages/Admin.tsx:32-35 | a successful query shows the table in `created_at` descending order; a failed one leaves the list as it was |
| `AdminPage.AdminPanel.ResetForm` | src/pages/Admin.tsx:37-40 | all four fields become `""` and `editing` becomes null |
| `AdminPage.AdminPanel.SetForm` | src/pages/Admin.tsx:107-127 | an input's change replaces the form |
| `AdminPage.AdminPanel.HandleEdit` | src/pages/Admin.tsx:61-64 | `editing` is the row and the form is its copy |
| `AdminPage.AdminPanel.HandleSubmit` | src/pages/Admin.tsx:42-59 | while editing: update by the edited id and no insert; otherwise: insert one row and no update; either way the form is blank, `editing` null and `submitting` false afterwards, and the list is refetched |
| `AdminPage.AdminPanel.Write` | src/pages/Admin.tsx:46-54 | while editing, the table becomes the update of the edited id, unless the write fails; otherwise it gains the inserted row, unless the write fails or the id is taken; the table stays valid |
| `AdminPage.AdminPanel.HandleDelete` | src/pages/Admin.tsx:66-73 | a failed delete changes neither the table nor the list; only a successful one refetches |
| `AdminPage.SubmitWhileEditingTouchesOneRow` | src/pages/Admin.tsx:46-47 | a submit while editing keeps the set of ids and the row count; only the edited row changes |
| `AdminPage.SubmitWithoutEditingInsertsOneRow` | src/pages/Admin.tsx:50-51 | a successful submit without editing adds exactly one row, built from the form, under a new id |

Observations the proofs bring out (behaviour of the code as written; none of
it is claimed to be a defect):

- The embedded id need not occur only once in `src`. A one-letter id `w` also
  occurs in `www` (`IdMayRecurInSrc`). What holds instead is that `src`
  determines the provider and the id (`DecodeEmbedSrc`).
- A YouTube embed URL or Drive preview URL that `getEmbedUrl` itself
  produced resolves to itself (`YouTubeSrcStable`, `DriveSrcStable`). A URL
  pasted from elsewhere need not: `https://www.youtube.com/embed/abc` gains
  the `?autoplay=1&rel=0&modestbranding=1` suffix. A Vimeo player URL that
  `getEmbedUrl` produced (`https://player.vimeo.com/video/123?autoplay=1&color=e53e3e`)
  is not recognised: `vimeo.com/` in it is followed by `video/`, so it
  becomes a direct `video` source (`VimeoSrcPlayedDirectly`). Only URLs of
  the template's exact shape are covered by these lemmas.
- The publish box stores an empty description or cover as `null`. The admin
  form stores it as `""`. Opening a row with a `null` column in the admin
  form and saving it unchanged turns the `null` into `""`
  (`EditSaveRoundTrip`).

## Left out

- RedirectsToLogin, ViewOf, GateKeepsOutNonAdmins: `signedIn` and `isAdmin`
  are independent inputs, because the `useAuth` hook's code is not part of
  this model. So the case "no user but `isAdmin` true" is not excluded. In
  that case the page redirects and renders the panel at once
  (`NoUserAdminRedirectsAndRenders`).

- Rendering, styling, toasts, routing and `navigate` calls other than the
  admin redirect condition. The detail page's fetch of one row by id and the
  animation delays (`i * 0.05`, floating point) are also left out.
- The storage upload, `getPublicUrl`, the database calls, `crypto.randomUUID`
  and the `useAuth` hook are external. Their results are handler parameters.
  `signedIn` and `isAdmin` are inputs of the gate.
- The handlers are modelled as atomic steps. React batches the state
  setters, each handler reads the values captured when it was rendered, and
  user input during an `await` is not modelled. The moment when `submitting`
  is true is therefore not observable. The admin page's `fetchPeliculas()`
  after a submit is not awaited; it is modelled as finishing before
  `submitting` is cleared. The final state is the same either way.
- The browser's `required` validation of the title and link inputs
  (src/components/PublishBox.tsx:104, 109; src/pages/Admin.tsx:108, 128)
  is not modelled. The submit handlers are modelled for every form state.
- Columns of `peliculas` other than the four text columns, `id` and
  `created_at` are not modelled. The table type definition is not part of
  this model. Neither form sends any other column.
- Rows with equal `created_at` are kept in one fixed order. The database may
  return such rows in any order.
- JavaScript strings are UTF-16 while Dafny's `char` is a Unicode scalar.
  Every character the patterns test is ASCII, so matches and captured ids
  are the same.
- The multipart upload proxy (`supabase/functions/s3-multipart/index.ts`) is
  not part of this model. It only forwards requests to the object store's
  SDK. No page shown calls it.
