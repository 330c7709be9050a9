# Portfolio back end: a verified model

This project models the logic of a small Flask portfolio back end. It keeps
projects with their technology tags and demo media in three tables. Pages
and a JSON endpoint list the projects newest first. Forms add, edit and delete
projects inside an all-or-nothing database transaction. Uploaded media lives
in a Supabase storage bucket under generated names. Two maintenance scripts
are also modelled: a clean-up pass strips trailing `?` from stored image URLs,
and a patcher rewrites the text of `app.py` to add CORS support and extra API
routes.

The modules follow the program:

- `Models` (`models.dfy`, from `models.py`): the three row types, their
  constructor defaults, the declared column widths, and `to_dict` as a JSON
  value. A reader turns that JSON back into rows, which gives the serialiser
  a round trip.
- `TechList` (`techlist.dfy`, from `app.py`): the comma-separated technology
  field. Parsing splits on `,`, strips each piece and drops empty pieces; the
  edit page joins the names back with `", "`.
- `Store` (`store.dfy`, from `app.py`): the tables as a `Database` class
  whose fields the handlers update statement by statement. Add, edit and
  delete are methods, each proved equal to a functional specification
  (`AddSpec`, `EditSpec`, `DeleteSpec`). The section also holds the lookups
  of the detail and edit pages and the newest-first ordering.
- `StoreFacts` (`store_facts.dfy`): what the handlers promise. This covers
  the fields written, the technology rows a project ends up with, frame
  conditions for every other project, the delete cascade, rollback on
  failure, and the preservation of table well-formedness.
- `FixUrls` (`fix_urls.dfy`, from `fix_urls.py`): the in-place loop over all
  projects and its commit.
- `Storage` (`storage.dfy`, from `supabase_utils.py`): the object path of an
  upload, and the public URL of an object. It also covers extracting the
  object path from a stored URL for deletion, with its round trip. The
  upload and delete helpers are methods that return the calls they make to
  the storage client.
- `ApiRoutes` (`api_routes.dfy`, from `add_api_routes.py`): the three
  guarded `str.replace` steps applied to the text of `app.py`.
- `Strings` and `Wrappers`: Python's string operations as the code uses them
  (`split`, `strip`/`lstrip`/`rstrip`, `replace`, `in`, `rfind`, `lower`,
  `join`), and an `Option` type.

Python's `str.replace` replaces every occurrence. It is modelled that way
(`Strings.ReplaceAll`), not as a replacement of the first occurrence only.

## Model

| member | source | states |
|---|---|---|
| Models.NewProject | models.py:24-29 | a new project has no id and no timestamps until it is inserted; title, description and the three URLs are the arguments |
| Models.ProjectDefaults | models.py:24 | called with title and description only, a project gets `""` for `github_url`, `demo_url` and `image_url` |
| Models.NewTechnology | models.py:56-58 | a new technology row has no id and carries the given name and project id |
| Models.NewDemo | models.py:75-80 | a new demo item has no id and no timestamp and carries the given fields |
| Models.DemoDefaults | models.py:75 | called with the three required arguments only, a demo item has no `media_name` and `order_index` 0 |
| Models.DemoToDict | models.py:86-95 | `Demo.to_dict()`: the seven columns under their own keys, the timestamp as JSON null when unset; `DemoDictRoundTrip` reads it back |
| Models.ProjectToDict | models.py:34-47 | `Project.to_dict()`: the eight columns, then the technology names and the demo items' dictionaries; `ProjectDictRoundTrip` reads it back |
| Models.ProjectDictLists | models.py:45-46 | `to_dict()["technologies"]` is the list of the technology names in relationship order; `["demo_media"]` is the element-wise `Demo.to_dict()` of the demo items |
| Models.CreatedAtSerialises | models.py:43 | a project's `created_at` serialises to null when unset, and to its time otherwise |
| Models.UpdatedAtSerialises | models.py:44 | a project's `updated_at` serialises to null when unset, and to its time otherwise |
| Models.DemoCreatedAtSerialises | models.py:94 | a demo item's `created_at` serialises to null when unset, and to its time otherwise |
| Models.DemoDictRoundTrip | models.py:86-95 | reading back `Demo.to_dict()` gives the same demo item |
| Models.StrArrayRoundTrip | models.py:45 | the serialised technology names read back as the same names |
| Models.DemoArrayRoundTrip | models.py:46 | the serialised demo list reads back as the same demo items, in order |
| Models.ProjectDictRoundTrip | models.py:34-47 | reading back `Project.to_dict()` gives the project with its technology names and its demo items, so no field is lost or confused with another |
| TechList.KeepTrimmed | app.py:55 | the comprehension's strip-and-filter over the pieces, keeping their order; `ParseIsPieces` and `ParseConcat` state its effect |
| TechList.ParseTechnologies | app.py:53-55 | every parsed name is non-empty, has no surrounding whitespace and contains no comma; an empty field gives no names |
| TechList.ParseIsPieces | app.py:55 | parsing is: split on `,`, strip each piece, drop the empty pieces, keep the order |
| TechList.ParseSingle | app.py:55 | a comma-free piece gives its stripped text, or nothing when that is empty |
| TechList.ParseConcat | app.py:98 | parsing `a + "," + b` gives the names of `a` followed by the names of `b` |
| TechList.ParseExample | app.py:55 | `"Go, Rust"` parses to `["Go", "Rust"]` |
| TechList.JoinTechnologies | app.py:112 | the edit page's `', '.join` of the names; `JoinParseRoundTrip` proves the parser inverts it |
| TechList.JoinParseRoundTrip | app.py:112 | names the parser can produce, joined with `", "`, parse back to the same names |
| TechList.ParseIdempotent | app.py:98 | parsing the edit page's joined string of a parse result gives that result again |
| Store.FindProject | app.py:79 | the position of a project with the id, or none exactly when no project has it |
| Store.GetOr404 | app.py:73 | the project with the id when one exists; none, for the 404 page, exactly when none does |
| Store.TechnologiesOf | models.py:19 | a project's technology rows are exactly the rows pointing to it |
| Store.TechnologiesNotOf | app.py:93 | the bulk delete keeps exactly the rows of the other projects |
| Store.DemosOf | models.py:22 | a project's demo items are exactly the items pointing to it |
| Store.DemosNotOf | models.py:22 | the cascade keeps exactly the demo items of the other projects |
| Store.EditFormString | app.py:111-113 | the edit page has a technology string exactly when the project exists |
| Store.InsertNewestFirst | app.py:26 | inserting into a newest-first list keeps it sorted and adds exactly the one project |
| Store.NewestFirst | app.py:26 | `order_by(created_at.desc())`: sorted newest first, with unset timestamps first, and a permutation of the table |
| Store.HomeProjects | app.py:23-27 | the home page lists every project exactly once, sorted newest first |
| Store.ApiProjects | app.py:32-33 | `/api/projects` is a JSON list with one item per project |
| Store.ValidTables | models.py:9-16 | the invariant the handlers keep: unique ids below their sequence, set timestamps, technology rows and demo items that point to an existing project (models.py:54, 68), and strings within their declared widths (models.py:10-14, 53, 69-71) |
| Store.Rows | app.py:56-58 | one technology row per name, in order, each pointing to the project, with consecutive fresh ids |
| Store.AddSpec | app.py:36-66 | an add either commits under the next project id or leaves the tables unchanged |
| Store.EditSpec | app.py:77-109 | an edit commits under the project's id, or is a 404, or leaves the tables unchanged |
| Store.DeleteSpec | app.py:116-125 | a delete either commits under the project's id or leaves the tables unchanged |
| Store.Database.Rollback | app.py:65 | after a rollback, the tables are the snapshot taken when the handler began |
| Store.Database.AddTechnologies | app.py:56-58 | the loop of `db.session.add(Technology(...))` appends exactly the rows for the names and changes nothing else |
| Store.Database.AddProject | app.py:38-66 | the handler's statements, from `add` to `commit` or `rollback`, produce the outcome and tables of `AddSpec` |
| Store.Database.EditProject | app.py:79-109 | the handler's statements produce the outcome and tables of `EditSpec`, including the partial update undone by the rollback |
| Store.Database.DeleteProject | app.py:118-125 | the handler's statements produce the outcome and tables of `DeleteSpec` |
| StoreFacts.AddCommitted | app.py:41-60 | a committed add appends one project. It gets the next id, the form's title and description, each URL or `""`, and both timestamps at `now`. Its technologies are exactly the parsed names and nothing else changes |
| StoreFacts.AddWithoutTechnologies | app.py:53-54 | an empty or absent technology field adds no technology rows |
| StoreFacts.AddRollsBack | app.py:64-66 | a missing title or description, or a failed commit, leaves the tables unchanged |
| StoreFacts.AddFormRoundTrip | app.py:112 | after a committed add, the edit page's technology string parses back to the submitted names |
| StoreFacts.EditCommitted | app.py:84-103 | a committed edit overwrites the fields, keeps the id and creation time, and sets `updated_at` to `now`. The project's technologies become exactly the parsed names. Every other project, everyone else's technology rows and all demo items are unchanged |
| StoreFacts.EditClearsTechnologies | app.py:93-97 | editing with an empty technology field leaves the project without technologies |
| StoreFacts.EditNotFound | app.py:79 | editing a missing project is a 404 and changes nothing |
| StoreFacts.EditRollsBack | app.py:107-109 | a missing title or description, or a failed commit, leaves the tables unchanged |
| StoreFacts.EditFormRoundTrip | app.py:112 | after a committed edit, the edit page's technology string parses back to the submitted names |
| StoreFacts.DeleteCommitted | app.py:119-121 | a committed delete removes exactly the project with the id. The cascade removes all its technology rows and demo items, and every other project keeps its own |
| StoreFacts.DeleteCascades | models.py:19-22 | after the cascade the project owns no rows or items; every other project's are unchanged |
| StoreFacts.DeleteMissing | app.py:118-125 | the lookup of a missing project raises inside the `try`: rolled back, nothing changes |
| StoreFacts.FailureChangesNothing | app.py:64-66 | for add, edit and delete alike, an outcome other than a commit leaves the tables as they were |
| StoreFacts.AddKeepsValid | app.py:49-60 | a well-formed database stays well-formed after an add. Ids stay unique and below their sequence, every row and item belongs to an existing project, and every string fits its column |
| StoreFacts.EditKeepsValid | app.py:84-103 | an edit keeps the database well-formed |
| StoreFacts.DeleteKeepsValid | app.py:120-121 | a delete with its cascade keeps the database well-formed; no orphan rows are left |
| StoreFacts.ApiProjectsItem | app.py:32-33 | item `k` of `/api/projects` reads back as the `k`-th project in newest-first order, with its technology names and its demo items |
| FixUrls.NeedsFix | fix_urls.py:8 | the guard of the loop: `image_url` is set, non-empty and ends in `?` |
| FixUrls.FixProject | fix_urls.py:8-11 | a project that needs a fix changes in `image_url`, which loses exactly its trailing run of `?` and no longer ends in `?`, and in `updated_at`, which the `onupdate` default of models.py:16 sets to the commit time. Any other project is unchanged |
| FixUrls.FixAll | fix_urls.py:7-11 | every project goes through the pass, in place and in order |
| FixUrls.FixSpec | fix_urls.py:4-19 | the pass as one transaction: every project through `FixProject` when the commit succeeds, the tables unchanged otherwise |
| FixUrls.FixImageUrls | fix_urls.py:4-19 | the loop and commit leave the database as `FixSpec` says, with `updated_at` refreshed on the rewritten rows: all projects fixed when the commit succeeds, all unchanged otherwise |
| FixUrls.NoTrailingQuestionMark | fix_urls.py:8-11 | after a committed pass, no project's image URL ends in `?` |
| FixUrls.PassChangesOnlyImageUrls | fix_urls.py:7-14 | the pass changes no field but `image_url` and `updated_at`, changes a project only when it needed a fix and the commit went through, sets its `updated_at` to the commit time, and changes no table but `projects` |
| FixUrls.FixAllIdempotent | fix_urls.py:8-11 | fixing fixed projects changes nothing, at any later time: no row is rewritten, so no timestamp is refreshed |
| FixUrls.PassIdempotent | fix_urls.py:4-14 | running the committed pass again, at any later time, gives what running it once gives |
| FixUrls.PassKeepsValid | fix_urls.py:14 | the pass keeps the database well-formed |
| Storage.Marker | supabase_utils.py:92 | the split marker is the public-object prefix, then the bucket, then a final `/` |
| Storage.FileExtension | supabase_utils.py:30 | `""` when the name has no `.`; otherwise the lower-cased text after the last `.`, which holds no `.` and no upper-case letter |
| Storage.StoredName | supabase_utils.py:30-31 | the stored file name is the UUID, a `.` and the extension; `StoredNameKeepsExtension` states what it keeps |
| Storage.StoragePath | supabase_utils.py:32 | the object path is the folder, a `/` and the stored name; `DistinctUuidsDistinctPaths` states when two are equal |
| Storage.PublicUrl | supabase_utils.py:90 | the URL format the code expects from `get_public_url`: the project URL, the marker and the path; `ObjectPathRoundTrip` inverts it |
| Storage.StoredNameKeepsExtension | supabase_utils.py:30-31 | the stored name `uuid.ext` has the extension of the uploaded file |
| Storage.DistinctUuidsDistinctPaths | supabase_utils.py:31-32 | two uploads share a storage path exactly when their UUIDs and extensions agree; the file name matters only through its extension |
| Storage.SplitSecond | supabase_utils.py:92-97 | the split has a second piece exactly when the marker occurs. That piece is the text after the first marker, up to the next marker that starts after it (no marker starts inside the piece) or the end |
| Storage.ObjectPath | supabase_utils.py:78-97 | a path is extracted exactly when the URL is non-empty, contains `supabase.co`, and (trailing `?`s stripped) contains the marker. The path is the text after the first marker up to the next one or the end, and holds no marker |
| Storage.PathAfterMarkerUnique | supabase_utils.py:92-97 | a URL determines that text: two paths that both run from the first marker to the next one or the end are equal |
| Storage.ObjectPathRoundTrip | supabase_utils.py:87-97 | the public URL of a path, with any number of trailing `?`s, gives back that path. This holds for a Supabase project URL without a `/storage/` segment and a path without the marker and without a trailing `?` |
| Storage.UploadedUrlDeletes | supabase_utils.py:62 | the URL an upload returns leads deletion to the uploaded object |
| Storage.ContentTypeOf | supabase_utils.py:45 | the upload's content type when it has one, and `application/octet-stream` when it has none; never empty |
| Storage.UploadFile | supabase_utils.py:21-73 | no file or no file name: no storage calls and no URL. Otherwise an upload to `folder/uuid.ext`, then the public-URL request if the upload succeeded. A URL is returned exactly when both succeed with a non-empty URL; it is that URL without trailing `?`s and does not end in `?` |
| Storage.DeleteFile | supabase_utils.py:75-120 | no storage call and `False` when no path can be extracted. Otherwise one removal of exactly the extracted path; `True` exactly when it succeeds |
| ApiRoutes.Anchor | add_api_routes.py:147-153 | the routes go before `# Error handlers` if present, else before the 404 handler, else before the main guard, else nowhere |
| ApiRoutes.AddApiRoutesToApp | add_api_routes.py:9-171 | a missing `app.py` returns `False` and any other read failure raises, with nothing written either way. Otherwise the text written is the three steps applied in order, and the result is whether the write succeeds |
| ApiRoutes.ImportStep | add_api_routes.py:21-26 | the guarded import replacement; `ImportStepImports`, `ImportStepUnchanged` and `ImportStepIdempotent` state its effect |
| ApiRoutes.ConfigStep | add_api_routes.py:29-40 | the guarded CORS configuration replacement; the `ConfigStep…` lemmas state its effect |
| ApiRoutes.RouteStep | add_api_routes.py:145-153 | the guarded route insertion before the chosen anchor; the `RouteStep…` lemmas state its effect |
| ApiRoutes.Patched | add_api_routes.py:21-153 | the content after the three steps, in the source's order; it is the text `AddApiRoutesToApp` writes |
| ApiRoutes.ImportStepImports | add_api_routes.py:21-26 | after the import step, the CORS import is present exactly when it was already present or a Flask import line was |
| ApiRoutes.ImportStepUnchanged | add_api_routes.py:21 | the import step leaves the text unchanged when the CORS import is present or no Flask import line is |
| ApiRoutes.ImportStepIdempotent | add_api_routes.py:21-26 | applying the import step twice gives what applying it once gives |
| ApiRoutes.ConfigStepConfigures | add_api_routes.py:29-40 | after the config step, a `CORS(app` call is present exactly when it was already present or an application creation line was |
| ApiRoutes.ConfigStepUnchanged | add_api_routes.py:29 | the config step leaves the text unchanged when `CORS(app` is present or no application creation line is |
| ApiRoutes.ConfigStepIdempotent | add_api_routes.py:29-40 | applying the config step twice gives what applying it once gives |
| ApiRoutes.ConfigStepKeepsImport | add_api_routes.py:31-40 | the config step keeps a CORS import that is present |
| ApiRoutes.ConfigStepAddsNoImportLine | add_api_routes.py:31-40 | the config step creates no Flask import line |
| ApiRoutes.ImportConfigIdempotent | add_api_routes.py:21-40 | applying the import and config steps twice gives what applying them once gives |
| ApiRoutes.RouteStepUnchanged | add_api_routes.py:145-153 | when the projects route is already declared, or no anchor exists, the route step leaves the text unchanged |
| ApiRoutes.RouteStepUsesAnchor | add_api_routes.py:147-153 | otherwise it puts the routes in front of every occurrence of the chosen anchor |
| ApiRoutes.RouteStepInsertsBefore | add_api_routes.py:148 | the result begins with the text before the first anchor, then the routes, a line break and the anchor |
| ApiRoutes.RouteStepNotIdempotent | add_api_routes.py:145-148 | the route step is not idempotent. A route block whose decorator is `@app.route('/api/projects', methods=[...])` is not recognised by the guard, so a second run inserts it again |

## Left out

- The Supabase client (`create_client`, `upload`, `get_public_url`, `remove`, `list_buckets`) is foreign network code. Each call's success or failure is a parameter, and the helpers return the calls they make. `test_supabase_connection` is not modelled, because it only lists buckets through the client.
- `uuid.uuid4()` and `secure_filename` are a random source and a library function; their results are parameters. A UUID's text is assumed to contain no `.` where this matters (`DistinctUuidsDistinctPaths`).
- Reading the uploaded file, the environment variables and `.env` loading are not modelled. The bucket is a parameter; `DefaultBucket` records its default.
- Every `print`, `flash`, `render_template`, `redirect` and `jsonify` is not modelled. Nor are routing, the error-handler pages and `create_app` with its configuration loading.
- Timestamps are natural numbers supplied as `now`. The clock and `isoformat()` are not modelled; a serialised timestamp is `JTime(t)`.
- SQLAlchemy internals are not modelled. Ids come from two counters. A rollback also restores those counters, whereas a real database sequence does not give ids back. Commit is all-or-nothing.
- Store.AddSpec: the declared column widths are enforced at commit, as PostgreSQL does. A value that is too long makes the commit fail and roll back; SQLite would accept it.
- Store.NewestFirst: the order among projects with equal `created_at` is the model's own. The source leaves that order to the database. Unset `created_at` values sort first, as PostgreSQL does for a descending order (NULLS FIRST); SQLite and MySQL put them last.
- Store.TechnologiesOf and Store.DemosOf: the `technologies` and `demo_media` relationships (models.py:19, 22) have no `order_by`, so the database may return their rows in any order. The model takes insertion order. `ProjectDictLists`, `AddFormRoundTrip`, `EditFormRoundTrip` and `ApiProjectsItem` state their lists in that order.
- FixUrls.FixImageUrls: every rewritten row gets the same `now`. The `onupdate` default reads the clock once per UPDATE, so the stored times may differ slightly.
- Strings.Lower: only ASCII letters are lower-cased. Python's `str.lower` also maps other Unicode letters.
- `init_db.py` is a seeding fixture, and `setup_test.py` is a connectivity check that imports `DemoImage` and `DemoVideo`, which `models.py` does not define; neither is part of this model.
- In `add_api_routes.py`, `install_flask_cors`, the backup copy, the file write and `main` are not modelled. The content read from `app.py` is a parameter, and the route text is a parameter (`routes`) rather than the literal block, whose content is inserted text and not logic.
- AddApiRoutesToApp: the read failures that propagate are all folded into one `ReadFailed` case, which raises. The exception's type is not modelled.
- AddApiRoutesToApp: a write that fails part-way, leaving a truncated `app.py`, is not modelled. The write either succeeds or fails as a whole.
- ApiRoutes.RouteStepNotIdempotent: the route step is not idempotent and no idempotence is claimed for it. The lemma exhibits a text on which a second run inserts the block again.
- Storage.ObjectPathRoundTrip: the base URL is required to contain no `/storage/` segment. It is not enough that it lacks the whole marker: the marker starts and ends with `/`, so a base ending in the marker without its final `/` would make the first occurrence of the marker straddle base and path.
- The route bodies inside the literal refer to `demo_images` and `demo_videos`, which `models.py` lacks. They are not modelled, since they are text that is inserted, not run, by the patcher.
