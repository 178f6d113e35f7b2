# UniSearch post controller, modelled in Dafny

This project models the post controller of the UniSearch backend
(`backend/Controllers/postController.js`): the multer storage rules that
accept the `foto` and `video` file parts and name stored files
`<fieldname>-<timestamp><extension>`, the `requiredFields` table and the
fail-fast validation of a submission, the creation of a generic Post plus
exactly one record of the matching category (Atletica, Aviso, Comodidades,
Eventos), and the listing that joins each Post with its category records and
rewrites stored media paths into `<protocol>://<host>/uploads/<basename>`
URLs.

Modules, one per concern of the controller:

- `Wrappers`: `Option` (standing for `undefined`/`null`) and `Result`.
- `Paths`: `path.basename` and `path.extname` over '/'-separated paths.
- `Decimal`: the decimal text of the `Date.now()` reading and its inverse.
- `Upload`: the `destination` and `filename` callbacks and the
  `fields([{foto, 1}, {video, 1}])` intake of one request's file parts.
- `Rules`: the four categories and the required-field table.
- `Validation`: truthiness of body fields and the `post_type`/required-field checks.
- `Records`: the Post row, the four category payloads, the store.
- `Create`: `createPost` over an immutable store.
- `Listing`: `getAllPosts` over a store.

The ORM is replaced by a `Store` value: the Post table as one sequence in
insertion order, and the four category tables merged into a second sequence
in insertion order, where each record's payload variant (Atletica, Aviso,
Comodidades, Eventos) says which table it belongs to. Fresh identifiers are
taken from two counters. `createPost` is a pure function from a store, a request body,
the request's file parts, the upload directory and a database-fault choice
to an HTTP reply and the new store. `getAllPosts` is a pure function from a
store, the request protocol and the host to an HTTP reply.

## Model

| member | source | states |
|---|---|---|
| `Paths.Basename` | backend/Controllers/postController.js:170 | the result is the tail of the path after its last '/', holds no '/', and is the whole path when the path has no '/' |
| `Paths.BasenameOfJoin` | backend/Controllers/postController.js:170-173 | a file stored as `dir/name` with a plain `name` has basename `name`, so only the file name reaches the URL |
| `Paths.ExtnameShape` | backend/Controllers/postController.js:21 | `extname` is empty or a single dot followed by no dot and no '/', and is a tail of the path |
| `Paths.ExtnameOfSuffix` | backend/Controllers/postController.js:21 | a stem free of '.' and '/' followed by an extension has exactly that extension |
| `Paths.ExtensionOfRules` | backend/Controllers/postController.js:21 | for one path component: the extension is empty exactly when the component has no '.' after its first character or is ".."; otherwise it is the component's tail from its last '.', which holds no further '.' |
| `Paths.ExtnameRules` | backend/Controllers/postController.js:21 | `extname` is empty exactly when the basename has no '.' after its first character (no dot, or a leading dot only as in ".profile") or is ".."; otherwise it is the tail of the basename that starts at its last '.' |
| `Decimal.ValueOfToDecimal` | backend/Controllers/postController.js:21 | reading back the decimal text of the clock reading gives the same number |
| `Decimal.ToDecimal` | backend/Controllers/postController.js:21 | the clock reading as a non-empty string of decimal digits with no leading zero |
| `Decimal.ToDecimalInjective` | backend/Controllers/postController.js:21 | different clock readings give different decimal texts |
| `Upload.Destination` | backend/Controllers/postController.js:12-18 | the upload directory is chosen exactly for field names `foto` and `video`; any other name fails with "Nome do campo inválido" |
| `Upload.StoredFilename` | backend/Controllers/postController.js:19-25 | a name is generated exactly for `foto` and `video`, it starts with the field name and '-', holds no '/'; other names fail with "Nome do campo inválido" |
| `Upload.ParseComposed` | backend/Controllers/postController.js:21 | a media field name, '-', the decimal clock reading and an extension parse back to exactly those three parts |
| `Upload.ParseStoredFilename` | backend/Controllers/postController.js:21 | every generated name parses back to its field name, its timestamp and the original file's extension |
| `Upload.ParsedNameIsGenerated` | backend/Controllers/postController.js:21 | every name that parses is exactly `field + "-" + timestamp + extension` of its parts |
| `Upload.StoredFilenameKeepsExtension` | backend/Controllers/postController.js:21 | the stored file has the same `extname` as the uploaded one |
| `Upload.StoredNamesDistinct` | backend/Controllers/postController.js:21 | two files with a different field or a different clock reading never get the same stored name |
| `Upload.Intake` | backend/Controllers/postController.js:11-39 | the upload succeeds iff every part is `foto` or `video` and no field repeats; then each field holds the stored path `dir/<generated name>` of its part, or null when it was not uploaded; a failure names a part of the request |
| `Rules.ParseCategory` | backend/Controllers/postController.js:44-53 | a `post_type` text maps to the category it names |
| `Rules.Required` | backend/Controllers/postController.js:44-49 | every category requires `nome` then `descricao` first |
| `Rules.TableKeysAreCategories` | backend/Controllers/postController.js:44-51 | the table's keys are exactly the four category names |
| `Validation.FirstFalsy` | backend/Controllers/postController.js:55-59 | None iff every listed field is truthy; otherwise the index of a falsy field with every earlier field truthy |
| `Validation.TruthyMeansDefined` | backend/Controllers/postController.js:51-56 | a body field is falsy exactly when destructuring yields `undefined` or the empty string |
| `Validation.Capitalize` | backend/Controllers/postController.js:57 | same length, first character upper-cased, the rest unchanged |
| `Validation.Message` | backend/Controllers/postController.js:52-57 | the invalid-type text is "Tipo de postagem inválido"; a missing-field text is the capitalised field name followed by " é obrigatório para " and the `post_type` |
| `Validation.Validate` | backend/Controllers/postController.js:44-59 | an absent, empty or unknown `post_type` gives the invalid-type error; success iff every required field of the named category is truthy; a missing-field error names the first falsy required field in table order |
| `Records.BuildPayload` | backend/Controllers/postController.js:63-112 | the record is of the requested category, copies every text column of that category from the body, carries the uploaded `foto`/`video` paths (or null) for Atletica, Comodidades and Eventos, and has no media columns for Aviso |
| `Records.WithMediaColumns` | backend/Controllers/postController.js:168-176 | replacing the media columns of a record changes no other column |
| `Create.CreatePost` | backend/Controllers/postController.js:34-119 | a refused upload gives 400 "File upload failed" and a refused body gives 400 with the validation message, both with the store unchanged; 201 iff upload and body are accepted and no insert fails; on 201 exactly one Post (fresh id, the requested `post_type`, copied user_id/name/status) and one record pointing at it of the requested category are appended; a failing first insert gives 400 with the database error text and writes nothing; a failing second insert gives 400 with its error text and leaves the new Post, with the body's user_id/name/status and the requested `post_type`, without a record |
| `Create.NewPost` | backend/Controllers/postController.js:61 | the inserted Post has the given id, copies `user_id`, `name` and `status` from the body, and its `post_type` names the validated category |
| `Create.UnknownTypeRejected` | backend/Controllers/postController.js:51-53 | a `post_type` outside the four names is refused with "Tipo de postagem inválido" and nothing is written |
| `Create.MissingFieldRejected` | backend/Controllers/postController.js:55-59 | the first falsy required field is reported as `<Field> é obrigatório para <category>` and nothing is written |
| `Create.CreatedRecordContents` | backend/Controllers/postController.js:63-112 | the new record carries exactly its table's columns, text columns copied from the body, uploaded media paths or null outside Aviso, and never media for Aviso |
| `Create.CreatedIdIsFresh` | backend/Controllers/postController.js:61 | the new Post's id is not used by any earlier Post |
| `Create.ValidAppendPost` | backend/Controllers/postController.js:61 | inserting a Post with the next id and a known `post_type` keeps the store valid, including every existing record's link to its Post |
| `Create.CreatePreservesValid` | backend/Controllers/postController.js:61-112 | every submission outcome keeps the store valid: increasing Post ids, known `post_type`s, every record pointing at a Post of its own category |
| `Listing.RewriteMedia` | backend/Controllers/postController.js:168-176 | null and empty media stay as they are; any other path becomes `<protocol>://<host>/uploads/` followed by the path's `basename`, a '/'-free tail of the path |
| `Listing.RewritePayload` | backend/Controllers/postController.js:168-176 | only `foto` and `video` are rewritten; every other column and the category are unchanged |
| `Listing.Join` | backend/Controllers/postController.js:138-162 | every listed record of a Post is, with rewritten media, a record of its category table whose `post_id` is the Post's id, and every such record is listed (each once and in table order by `Listing.JoinSelects`) |
| `Listing.MatchIndices` | backend/Controllers/postController.js:140-161 | the `where: { post_id }` selection: every position of a matching record exactly once, in increasing order, and no other position |
| `Listing.JoinSelects` | backend/Controllers/postController.js:138-162 | the listed records of a Post are the records `MatchIndices` selects, one view each, in table order |
| `Listing.ListAfterAppendLast` | backend/Controllers/postController.js:132-179 | after a fresh Post and one record pointing at it are appended, the listing succeeds, has one more entry, and its last entry is the new Post with that one record |
| `Listing.Entries` | backend/Controllers/postController.js:135-179 | fails iff some Post has an unknown `post_type`; otherwise one entry per Post in order, with its id, `post_type`, status and joined records |
| `Listing.ListAll` | backend/Controllers/postController.js:123-185 | 404 "Posts not found" iff there is no Post; 500 "Internal server error" iff some Post has an unknown `post_type`; otherwise one entry per Post in fetch order |
| `Listing.ValidStoreLists` | backend/Controllers/postController.js:132-165 | a store built by the controller lists successfully whenever it has a Post |
| `Listing.CreateThenList` | backend/Controllers/postController.js:132-179 | after a successful creation the listing keeps every earlier entry and ends with the new Post and its one new record |
| `Listing.ServedAsSubmitted` | backend/Controllers/postController.js:63-112 | the created record is listed with every text column exactly as submitted |
| `Listing.ServedMedia` | backend/Controllers/postController.js:168-176 | a media column holding `dir/name`, with `name` free of '/', is served as `<protocol>://<host>/uploads/name` |
| `Listing.ServedMediaUrls` | backend/Controllers/postController.js:168-176 | each uploaded media part of an Atletica, Comodidades or Eventos post is listed as `<protocol>://<host>/uploads/<generated file name>` |

## Left out

- Disk storage: the files are not written; the stored path is modelled as the upload directory, a '/', and the generated name. The upload directory is a parameter.
- `Date.now()` is an input: each file part carries the clock reading taken when it was named.
- The ORM: tables are sequences in insertion order, and `findAll` returns that order. One counter hands out record ids for all four category tables; per-table auto-increment is not modelled.
- Database failures during creation are a `Fault` parameter with the error text. Database failures during listing are not modelled; the 500 reply arises only from an unknown `post_type`.
- `req.protocol` and `req.get('host')` are string parameters.
- Express responses and `console.error` logging: the replies are datatypes with a `Status()`.
- The JavaScript prototype keys of `requiredFields` (`"toString"` and the like): the table is a map with exactly the four category keys.
- Requests that are not multipart (`req.files` undefined) and repeated text fields (array values) are not modelled: the body is a map from field name to string.
- multer rejects an unlisted or repeated file field before the storage callbacks run. In the model `Upload.Destination` refuses an unlisted field, and `Upload.Intake` itself refuses a second file for the same field. The client-visible outcome is the same 400 "File upload failed".
- `Validation.Capitalize`: upper-cases ASCII letters only, because JavaScript's full Unicode `toUpperCase` is out of scope. Every field name in the table starts with an ASCII letter.
- `Paths.Basename`: trailing '/' characters are not stripped, and Windows separators are not handled, because stored paths are generated by the upload rule and never end in '/'.
- The two inserts are not atomic: a failing category-record insert leaves an orphan Post, and `Create.CreatePost` states this. An unknown `post_type` at listing time gives 500 "Internal server error".
- `backend/router.js` (route wiring) and the frontend screens are not part of this model.
