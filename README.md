# PDF records API — a Dafny model of its record store and request handlers

The modelled system is a small HTTP API for PDF document records. Each record is a row
`{id, name, selected, file}` of one table. The API creates, lists, gets, partially
updates and deletes rows. An upload endpoint stores the file with a hosted object
storage service and records the URL that service returns. The delete endpoint derives
a storage key from the stored URL and destroys that object before it deletes the row.

This project models two parts:

- **The record store** (`crud.dfy`, module `Crud`). The database session is the class
  `PdfStore`. Its table is a field `rows: map<int, Pdf>` keyed by primary key, and
  `nextId` is the key generator. Create, update and delete are methods that update
  `rows` in place; list and get only read it. A partial update runs a `while` loop of `setattr` steps over the
  fields the client set. That loop is proved to compute `Patched`, a field-by-field
  reference definition.
- **The `/pdfs` request handlers** (`pdfs_router.dfy`, module `PdfsRouter`). The upload
  gate, the public-id derivation and the destroy key are string functions. They are
  built on a model of Python's `str.endswith`, `str.split` and `str.join` in
  `py_strings.dfy`. The handlers are methods over a `PdfStore` that return the HTTP
  status, except the question-answering gate, which returns either `QaNotFound` (its
  404) or the file reference to load. The storage service's upload and destroy calls
  are parameters that say how the call went. The upload and delete handlers also return the storage calls and
  record-store writes they made, in order (record-store lookups are not listed). That
  list is how their contracts state "no storage call and no write before the 400 or
  404" and "destroy before delete".

The key derivation is proved to round-trip for file names `<stem>.pdf` whose stem has
no `.` or `/`. It is also proved to fail for names with another dot: for
`<stem>.<more>.pdf` the destroy key is not the key the upload created.
(`DestroyKeyRoundTrip`, `DottedNameMissesUpload`.)

## Model

| member | source | states |
|---|---|---|
| `Crud.PdfStore.CreatePdf` | crud.py:7-12 | the new row has exactly the given name, selected and file; its id was not in the table; the table gains that one row and nothing else changes |
| `Crud.PdfStore.ReadPdfs` | crud.py:14-18 | with no filter every stored row is returned; with a filter exactly the rows whose `selected` equals it; every returned row is the stored one; each appears once (ids strictly increase) |
| `Crud.PdfStore.ReadPdf` | crud.py:20-21 | returns the row stored under `id` (with that id) when there is one and `None` exactly when there is not; changes nothing |
| `Crud.PdfStore.UpdatePdf` | crud.py:23-32 | absent id: `None` and the table unchanged; present id: the row becomes `Patched(row, patch)` and is returned, and every other row is unchanged |
| `Crud.PdfStore.DeletePdf` | crud.py:34-40 | present id: returns `True` and removes only that row; absent id: returns `None` (not `False`) and changes nothing |
| `Crud.ApplyItemsKeepsId` | crud.py:28-29 | no run of the `setattr` loop, over any items in any order, changes the row's id |
| `Crud.ApplyUpdateData` | crud.py:27-29 | the `setattr` loop over the `exclude_unset` items sets each field the client set and leaves the id and every unset field as it was |
| `Crud.UpdateIdempotent` | crud.py:27-32 | applying the same partial update twice gives the same row as applying it once |
| `Crud.CreateThenRead` | crud.py:7-21 | a create followed by `read_pdf` on the returned id gives back that record, with the given field values |
| `Crud.DeleteThenRead` | crud.py:20-40 | delete returns `True` exactly when the id was present, and a later `read_pdf` on it returns `None` |
| `Crud.UpdateTwice` | crud.py:23-32 | two identical partial updates return the same result and leave the table as one does |
| `PyStrings.EndsWith` | routers/pdfs.py:54 | `endswith` is true exactly when the name is some prefix followed by the suffix, compared exactly |
| `PyStrings.Split` | routers/pdfs.py:106 | `split` gives at least one piece, no piece holds the separator, and joining the pieces with it gives the input back |
| `PyStrings.SplitJoin` | routers/pdfs.py:106 | `split` undoes `join` when no part holds the separator |
| `PyStrings.JoinSepBeforeLast` | routers/pdfs.py:106 | in a join of two or more parts the character just before the last part is the separator, so `split(sep)[-1]` begins right after the last `sep` |
| `PyStrings.SplitAround` | routers/pdfs.py:106 | splitting `a + sep + b` gives the pieces of `a` followed by the pieces of `b` |
| `PdfsRouter.SuffixGate` | routers/pdfs.py:54-55 | every `<stem>.pdf` passes the upload gate and no `<stem>.PDF` does: the check is case-sensitive |
| `PdfsRouter.LastSegment` | routers/pdfs.py:106 | `split('/')[-1]` holds no `/`, is a suffix of the stored reference, and is either the whole reference or starts right after a `/`, so it is the text after the last `/` |
| `PdfsRouter.PublicIdFromUrl` | routers/pdfs.py:106 | the derived public id holds neither `/` nor `.`, is a prefix of the last `/`-segment, and is either that whole segment or followed in it by a `.`, so it runs up to the segment's first `.` |
| `PdfsRouter.UploadPublicId` | routers/pdfs.py:64 | the public id of an upload ends with the file name and holds a `/` or a `.` exactly when the file name does |
| `PdfsRouter.DestroyKey` | routers/pdfs.py:105-109 | whatever the stored reference, the key destroyed is `pdfs/` followed by one object name with no `/`, ending in `.pdf`, with no `.` before that suffix |
| `PdfsRouter.PublicIdOfSegment` | routers/pdfs.py:106 | for a URL ending in `/<head>.<tail>` with no `.` in `head` and no `/` in `head` or `tail`, the public id is `head` |
| `PdfsRouter.DestroyKeyRoundTrip` | routers/pdfs.py:105-109 | for a file `<stem>.pdf` whose stem has no `.` or `/`, the key destroyed from a URL ending in `/pdf_<stem>.pdf` is `pdfs/pdf_<stem>.pdf`, the folder and public id of the upload at line 64 |
| `PdfsRouter.DottedNameMissesUpload` | routers/pdfs.py:105-109 | for a file `<stem>.<more>.pdf` the key destroyed differs from the key the upload at line 64 created |
| `PdfsRouter.DeleteStatus` | routers/pdfs.py:99-119 | the delete handler answers 404 exactly when the record was not found; 200 exactly when destroy returned and the crud delete returned `True`; otherwise 500, so the 404 raised at line 115 inside the `try` leaves as 500 |
| `PdfsRouter.CreatePdf` | routers/pdfs.py:48-50 | answers 201 with the created record; the table gains exactly that record |
| `PdfsRouter.UploadPdf` | routers/pdfs.py:52-78 | 400 exactly when the name does not end in `.pdf`, with no storage call, no write and the table unchanged (raised outside the `try`, never 500); if the upload to folder `pdfs` as `pdf_<name>` raises, 500 and no record; otherwise 201 and one new record `{name, selected: false, file: secure URL}`, created after the upload |
| `PdfsRouter.GetPdfs` | routers/pdfs.py:80-82 | answers 200 with exactly the stored records the optional filter admits, each once (ids strictly increase) |
| `PdfsRouter.GetPdfById` | routers/pdfs.py:84-89 | 404 exactly when the lookup finds nothing; otherwise 200 with the stored record unchanged |
| `PdfsRouter.UpdatePdf` | routers/pdfs.py:91-96 | 404 exactly when the id is absent, with the table unchanged; otherwise 200 with the patched record that is now stored |
| `PdfsRouter.DeletePdf` | routers/pdfs.py:98-119 | absent id: 404 with no storage call, no write and no change; present id: destroy of the key derived from the stored URL comes first; if it raises, 500 and the record stays; otherwise the record is deleted after it and the answer is 200 |
| `PdfsRouter.QaPdfById` | routers/pdfs.py:147-151 | 404 exactly when the record is absent; otherwise the record's file reference is what the question-answering pipeline loads |

## Left out

- The object storage service (its configuration, upload and destroy calls, lines 31-35, 59-66 and 109 of `routers/pdfs.py`) is a foreign network service. Each call is a parameter that says whether it returned or raised. The upload's result is the secure URL. The naming rule `StorageKey` (folder, `/`, public id) and the URL shape assumed by `DestroyKeyRoundTrip` are assumptions about that service.
- Summarisation and question answering (lines 122-163 of `routers/pdfs.py`): the LLM, embeddings, vector index, PDF loader and text splitter are foreign libraries. Only the 404 gate of `qa_pdf_by_id` is modelled.
- `crud.upload_pdf` (lines 42-64 of `crud.py`) writes to the local file system, and no handler calls it. The commented-out S3 version (lines 67-88) is dead code.
- The session lifecycle (`get_db`), environment configuration, `print` calls and request/response serialisation are left out. `schemas` and `models` are not part of this model. A create request is taken as all three field values. An update request is three optional fields, where `None` means "not set". Schema defaults and explicit `null` values are not modelled.
- Id allocation follows `models`, which is not part of this model. `nextId` is one policy that keeps keys fresh, and contracts promise only that a new id is not already in the table.
- `Crud.PdfStore.ReadPdfs`: row order is the table's default. The model scans by primary key, so it returns rows in increasing id order. The source promises no order.
- `PdfsRouter.UploadPdf`: does not model a database failure inside the `try` (which would also answer 500). The record store never fails in this model.
- `PdfsRouter.DeletePdf`: does not model a failure of the database delete. In the sequential model the row found at line 100 is still there at line 114, so the falsy-result branch at line 115 cannot be taken there. `DeleteStatus` states what that branch answers.
- Concurrent requests and last-write-wins interleavings are left out: the model is sequential.
