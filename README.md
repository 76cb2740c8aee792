# Blog post store

A model of the state behind a small blog server (travel-love-blog). The
server keeps a list of post records in a JSON data file, and a process-wide
id counter. Its request handlers read the whole list, change it and write
it back:

- submission creates a post;
- the edit and detail pages look a post up by id;
- update changes some fields of a post and may replace its image;
- delete removes a post.

The model has two modules.

- `Records` (records.dfy) is the pure part. It holds the `Record` datatype
  and the lookups `FindIndex` and `Find` (the first record with an id, or
  none). It holds the counter seed `Seed`, which uses `MaxId`. It holds
  the field-wise update `Patch` and `Revise`, the removal `RemoveAt`, and
  lemmas on how lookups and id uniqueness behave under append, replace and
  remove.
- `Store` (store.dfy) is the mutable part. The class `RecordStore` has the
  fields `records` (the contents of the data file) and `nextId` (the
  counter), plus a ghost set `issued` of the ids handed out so far. Its
  invariant `Valid()` says that `nextId` exceeds every stored id and every
  issued id. Unique ids are not part of `Valid()`, since the data file read
  at start-up may already hold duplicates; instead `Submit`, `Update` and
  `Delete` are shown to keep ids unique when they were unique before. The
  methods `InitializeNextId`, `GenerateUniqueId`, `Submit`, `Update` and
  `Delete` are the state-changing code. Each method states its
  whole new state in terms of the old one.

Inputs that come from I/O are parameters:

- `moved` is whether moving the uploaded file succeeded;
- `fileName` is the name of the uploaded file;
- `image` is the name of an optional replacement image;
- the request's id is an `int`.

Reading the data file reads `records`, and writing it assigns `records`. A
form field that is absent is modelled as the empty string. The source
tests fields for truthiness, and `undefined` and `""` are both falsy.

Two points of the code decide the model's behaviour:

- A failed upload allocates no id: the id is allocated only after the move
  of the uploaded file succeeds (index.js:109-116).
- An update overwrites only the text fields that are non-empty
  (index.js:152-156).

## Model

| member | source | states |
|---|---|---|
| Records.FindIndex | index.js:146-149 | the result is -1 exactly when no record has the id; otherwise it is an index whose record has the id and no earlier record does |
| Records.Find | index.js:60-63 | none exactly when no record has the id (the 404 of the edit and detail pages); otherwise a record with that id that occurs in the list with no earlier record carrying the id |
| Records.MaxId | index.js:36 | the maximum of a non-empty list's ids: it is one of the ids and no id exceeds it |
| Records.Seed | index.js:33-40 | the counter seed exceeds every stored id; it is 1 for an empty list, and otherwise it is one more than a stored id, so no smaller value would do |
| Records.RemoveAt | index.js:194 | splicing out one index leaves exactly one record fewer |
| Records.RemoveAtOrder | index.js:194 | the records before the spliced index are unchanged and the ones after it move down by one, keeping their order |
| Records.RemoveAtMultiset | index.js:194 | splicing removes exactly one occurrence of the removed record and nothing else |
| Records.ImagePathFor | index.js:119 | the stored path of an uploaded image is "images/" followed by the uploaded file's name verbatim (also the new path of an update, index.js:169) |
| Records.Overwrite | index.js:152 | a non-empty incoming text value is taken; an empty (falsy) one leaves the current value |
| Records.Patch | index.js:152-156 | the text-field part of an update never changes id or imagePath; PatchFields, PatchTitleOnly, PatchEmptyIsIdentity and PatchIdempotent state what it does to the text fields |
| Records.Revise | index.js:152-175 | a successful update's record: same id; imagePath is "images/" + the new name when an image was given and unchanged otherwise; every text field is as the patch makes it |
| Records.PatchFields | index.js:152-156 | an update keeps id and imagePath; each text field becomes the incoming value when that is non-empty and keeps its old value otherwise |
| Records.PatchEmptyIsIdentity | index.js:152-156 | an update with every text field empty leaves the record as it was |
| Records.PatchIdempotent | index.js:152-156 | applying the same text-field update twice equals applying it once |
| Records.PatchTitleOnly | index.js:152 | an update carrying only a title changes at most the title; every other field stays identical |
| Records.FindIndexAppend | index.js:129 | after an append, an id already present is found where it was; an absent id is found at the new last index if the appended record has it, and is not found otherwise |
| Records.AppendFresh | index.js:114-132 | appending a record whose id exceeds every stored id: a lookup of the new id returns that record, ids stay unique, and all ids are below the new id + 1 |
| Records.FindIndexReplace | index.js:152-156 | overwriting a record with one of the same id changes the result of no id lookup |
| Records.ReplaceSameId | index.js:175-176 | overwriting a record with one of the same id keeps ids unique and bounded; with unique ids the new record is what its id finds |
| Records.RemoveAtBelow | index.js:194 | removal keeps every remaining id below any bound the ids were below |
| Records.RemoveAtIds | index.js:189-194 | removal keeps ids unique; with unique ids the removed id is no longer present; every other id is present after exactly when it was before |
| Store.RecordStore.constructor | index.js:42-43 | at start-up the store holds the data file's list, the counter is its seed, no id has been issued, and the invariant holds |
| Store.RecordStore.InitializeNextId | index.js:33-40 | run at start-up, before any id is issued: sets the counter to the seed of the stored list, establishes the invariant, and changes nothing else |
| Store.RecordStore.GenerateUniqueId | index.js:45 | returns the old counter and advances it by exactly one; the id exceeds every id issued before, is not stored in the list, and is added to the issued ids |
| Store.RecordStore.Submit | index.js:105-138 | if the move failed: a 500, and list, counter and issued ids unchanged; otherwise it appends exactly one record with the old counter as id, the form fields and "images/" + file name, and advances the counter by one; that id was not in use and now finds the new record; unique ids stay unique |
| Store.RecordStore.Update | index.js:140-183 | unknown id: a 404 and no change; image given but move failed: a 500 and no change, text fields included; otherwise only the first record with the id is replaced by its revised form (non-empty fields overwritten, imagePath replaced when an image was given); length and every id are unchanged; the counter is untouched (lookups are then unchanged by FindIndexReplace) |
| Store.RecordStore.Delete | index.js:185-207 | unknown id: a 404 and no change; otherwise the record at the first matching index is spliced out and returned (for unlinking its image); ids that were unique stay unique and the deleted id is gone; the counter is untouched (order and other ids by RemoveAtOrder and RemoveAtIds) |
| Store.ExampleSession | index.js:105-132 | from an empty data file, submit "A", submit with a failed upload, submit "B", delete id 1: the posts get ids 1 and 2, and only post 2 remains |

## Left out

- Express set-up, middleware, routing and method override (index.js:9-19) are framework plumbing. So are the render-only routes and EJS views (index.js:47-54, 68-91).
- Reading and writing the data file, and JSON parsing and printing (index.js:22-30), are modelled as reading and assigning `records`. A missing or malformed file at start-up, and a failed write, are not modelled.
- Moving uploaded files and unlinking images (index.js:109, 162, 170, 198) are file-system I/O. A move is the boolean `moved`. An unlink is best-effort and has no effect on the list. `Delete` returns the removed record so that a caller knows which image would be unlinked.
- In an update with an image, the old image is unlinked before the move of the new one (index.js:162-170). If the move fails, the stored record still names the old, possibly deleted, file. The image directory is not modelled, so the model does not capture this.
- A submission without any uploaded file fails reading `req.files.image` before anything changes (index.js:106). It is covered only by the `moved == false` path, which also changes nothing.
- `parseInt` and `path.join` (index.js:58, 95, 142, 187) are left out. The id is an `int`, so a non-numeric id, which `parseInt` turns into `NaN` and which never matches, is not modelled.
- JavaScript numbers are modelled as unbounded integers. Ids beyond 2^53 lose precision in the source; this is not modelled.
- A field absent from the request (`undefined`) is stored as `""` by `Submit`, while the data file would omit the key.
- Concurrent requests are not modelled. Neither is the asynchronous ordering of unlink and move callbacks, nor lost updates between requests.
- Console logging and the unused `domain` import (index.js:7) are left out.
