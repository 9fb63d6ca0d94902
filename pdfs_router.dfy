/**
 * The `/pdfs` request handlers: what each one checks, in which order it calls
 * the object storage service and the record store, and which HTTP status it
 * answers with. The storage service is not modelled: its upload and destroy
 * calls appear as the outcome they had (given as a parameter). The upload and
 * delete handlers return the storage calls and record-store writes they made,
 * in order; record-store lookups are not listed.
 */
module PdfsRouter {
  import opened Wrappers
  import opened PyStrings
  import opened Crud

  const Ok := 200
  const Created := 201
  const BadRequest := 400
  const NotFound := 404
  const ServerError := 500

  /** The only file names upload accepts end with this, compared case-sensitively. */
  const PdfSuffix := ".pdf"
  /** The storage folder uploads go to. */
  const UploadFolder := "pdfs"

  /** What the storage service's upload call did: returned a secure URL, or raised. */
  datatype UploadResult = Uploaded(secureUrl: string) | UploadRaised

  /** What the storage service's destroy call did: returned, or raised. */
  datatype DestroyResult = DestroyReturned | DestroyRaised

  /** A storage call or a record-store write made by the upload or delete handler. */
  datatype Call =
    | StorageUpload(folder: string, publicId: string)
    | StorageDestroy(key: string)
    | DbCreate(fields: PdfFields)
    | DbDelete(id: int)

  /** What the question-answering handler does after its lookup. */
  datatype QaGate = QaNotFound | LoadDocument(file: string)

  /**
   * `f"pdf_{file.filename}"`: the public id an upload asks the storage service
   * to file `filename` under. It ends with the file name and adds no `/` and
   * no `.` to it, so the name's dots and path separators are the id's.
   */
  function UploadPublicId(filename: string): (publicId: string)
    ensures EndsWith(publicId, filename)
    ensures '/' in publicId <==> '/' in filename
    ensures '.' in publicId <==> '.' in filename
  {
    "pdf_" + filename
  }

  /** The key the storage service gives an object uploaded into `folder` under `publicId`. */
  function StorageKey(folder: string, publicId: string): string
  {
    folder + "/" + publicId
  }

  /**
   * `file.split('/')[-1]`: the text after the last `/` of a stored reference,
   * or the whole reference when it has no `/`.
   */
  function LastSegment(file: string): (seg: string)
    ensures '/' !in seg
    ensures |seg| <= |file| && file[|file| - |seg|..] == seg
    ensures |seg| == |file| || file[|file| - |seg| - 1] == '/'
  {
    var parts := Split(file, '/');
    JoinEndsWithLast(parts, '/');
    assert |Last(parts)| == |file| || file[|file| - |Last(parts)| - 1] == '/' by {
      if |parts| >= 2 { JoinSepBeforeLast(parts, '/'); }
    }
    Last(parts)
  }

  /**
   * `file.split('/')[-1].split('.')[0]`: the public id the delete handler
   * derives from a stored URL, i.e. the last segment up to its first `.`.
   */
  function PublicIdFromUrl(file: string): (publicId: string)
    ensures '/' !in publicId && '.' !in publicId
    ensures publicId <= LastSegment(file)
    ensures publicId == LastSegment(file) || LastSegment(file)[|publicId|] == '.'
  {
    var parts := Split(LastSegment(file), '.');
    JoinStartsWithFirst(parts, '.');
    assert |parts| >= 2 ==> Join(parts, '.') == parts[0] + ['.'] + Join(parts[1..], '.');
    assert '.' !in parts[0];
    parts[0]
  }

  /**
   * `f"pdfs/{public_id}.pdf"`: the key the delete handler asks the storage
   * service to destroy. Whatever the stored reference, it names one object
   * directly in the upload folder, `<id>.pdf` with no `.` in `<id>`.
   */
  function DestroyKey(file: string): (key: string)
    ensures |key| >= |UploadFolder| + 1 + |PdfSuffix|
    ensures key[..|UploadFolder| + 1] == UploadFolder + "/"
    ensures EndsWith(key, PdfSuffix)
    ensures '/' !in key[|UploadFolder| + 1..]
    ensures '.' !in key[|UploadFolder| + 1..|key| - |PdfSuffix|]
  {
    UploadFolder + "/" + PublicIdFromUrl(file) + PdfSuffix
  }

  /**
   * The status of the delete handler, given whether the record was found,
   * what the destroy call did and what `crud.delete_pdf` returned (when it was
   * reached). The handler's own 404 for a falsy delete result is raised inside
   * the `try` and so leaves as 500, like every other exception there.
   */
  function DeleteStatus(found: bool, destroy: DestroyResult, deleted: Option<bool>): (status: int)
    ensures status == NotFound <==> !found
    ensures status == Ok <==> found && destroy.DestroyReturned? && deleted == Some(true)
    ensures status == ServerError <==> found && (destroy.DestroyRaised? || deleted != Some(true))
  {
    if !found then NotFound
    // a raising destroy, and the 404 raised for a falsy delete result, both leave through `except Exception`
    else if destroy.DestroyRaised? || deleted != Some(true) then ServerError
    else Ok
  }

  /** A name passes the upload gate exactly when it ends with `.pdf`, in lower case. */
  lemma SuffixGate(stem: string)
    ensures EndsWith(stem + PdfSuffix, PdfSuffix)
    ensures !EndsWith(stem + ".PDF", PdfSuffix)
  {
  }

  /**
   * For a URL `<base>/<head>.<tail>` whose last segment has no `/` and whose
   * `head` has no `.`, the derived public id is `head`.
   */
  lemma PublicIdOfSegment(base: string, head: string, tail: string)
    requires '.' !in head && '/' !in head && '/' !in tail
    ensures PublicIdFromUrl(base + "/" + (head + "." + tail)) == head
  {
    var seg := head + "." + tail;
    assert seg == head + ['.'] + tail;
    assert '/' !in seg;
    assert base + "/" + seg == base + ['/'] + seg;
    SplitAround(base, seg, '/');
    SplitWithoutSep(seg, '/');
    assert LastSegment(base + "/" + seg) == seg;
    SplitAround(head, tail, '.');
    SplitWithoutSep(head, '.');
  }

  /**
   * Round trip of the storage key: when the stored URL ends with `/` and the
   * public id an upload of `<stem>.pdf` used, and the stem has no `.` or `/`,
   * the key the delete handler destroys is the key the upload created.
   */
  lemma DestroyKeyRoundTrip(base: string, stem: string)
    requires '.' !in stem && '/' !in stem
    ensures DestroyKey(base + "/" + UploadPublicId(stem + PdfSuffix))
         == StorageKey(UploadFolder, UploadPublicId(stem + PdfSuffix))
  {
    assert UploadPublicId(stem + PdfSuffix) == UploadPublicId(stem) + "." + "pdf";
    PublicIdOfSegment(base, UploadPublicId(stem), "pdf");
  }

  /**
   * The round trip fails for a file name with a further dot, `<stem>.<more>.pdf`:
   * the derived public id stops at the first dot, so the key destroyed is not
   * the one the upload created.
   */
  lemma DottedNameMissesUpload(base: string, stem: string, more: string)
    requires '.' !in stem && '/' !in stem && '/' !in more
    ensures DestroyKey(base + "/" + UploadPublicId(stem + "." + more + PdfSuffix))
         != StorageKey(UploadFolder, UploadPublicId(stem + "." + more + PdfSuffix))
  {
    var seg := UploadPublicId(stem + "." + more + PdfSuffix);
    assert seg == UploadPublicId(stem) + "." + (more + PdfSuffix);
    PublicIdOfSegment(base, UploadPublicId(stem), more + PdfSuffix);
    assert |DestroyKey(base + "/" + seg)| < |StorageKey(UploadFolder, seg)|;
  }

  /** `POST /pdfs`: creates the record and answers 201 with it. */
  method CreatePdf(db: PdfStore, fields: PdfFields) returns (status: int, body: Pdf)
    requires db.Valid()
    modifies db
    ensures db.Valid()
    ensures status == Created
    ensures body.name == fields.name && body.selected == fields.selected && body.file == fields.file
    ensures body.id !in old(db.rows) && db.rows == old(db.rows)[body.id := body]
  {
    body := db.CreatePdf(fields);
    status := Created;
  }

  /**
   * `POST /pdfs/upload`: a name not ending in `.pdf` gets 400 before any call
   * (outside the `try`, so never turned into 500). Otherwise the file goes to
   * the storage folder under `pdf_<name>`; if that raises, 500 and no record;
   * if not, one record `{name, selected: false, file: secure URL}` and 201.
   */
  method UploadPdf(db: PdfStore, filename: string, upload: UploadResult)
    returns (status: int, body: Option<Pdf>, calls: seq<Call>)
    requires db.Valid()
    modifies db
    ensures db.Valid()
    ensures status == BadRequest <==> !EndsWith(filename, PdfSuffix)
    ensures !EndsWith(filename, PdfSuffix) ==> calls == [] && body == None && db.rows == old(db.rows)
    ensures EndsWith(filename, PdfSuffix) && upload.UploadRaised? ==>
              && status == ServerError && body == None && db.rows == old(db.rows)
              && calls == [StorageUpload(UploadFolder, UploadPublicId(filename))]
    ensures EndsWith(filename, PdfSuffix) && upload.Uploaded? ==>
              && status == Created && body.Some?
              && body.value == Pdf(body.value.id, filename, false, upload.secureUrl)
              && body.value.id !in old(db.rows)
              && db.rows == old(db.rows)[body.value.id := body.value]
              && calls == [StorageUpload(UploadFolder, UploadPublicId(filename)),
                           DbCreate(PdfFields(filename, false, upload.secureUrl))]
  {
    if !EndsWith(filename, PdfSuffix) {
      return BadRequest, None, [];
    }
    calls := [StorageUpload(UploadFolder, UploadPublicId(filename))];
    match upload {
      case UploadRaised =>
        status, body := ServerError, None;
      case Uploaded(url) =>
        var fields := PdfFields(filename, false, url);
        var pdf := db.CreatePdf(fields);
        calls := calls + [DbCreate(fields)];
        status, body := Created, Some(pdf);
    }
  }

  /** `GET /pdfs`: 200 with the records the optional `selected` filter admits. */
  method GetPdfs(db: PdfStore, selected: Option<bool>) returns (status: int, body: seq<Pdf>)
    requires db.Valid()
    ensures status == Ok
    ensures forall i :: 0 <= i < |body| ==>
              body[i].id in db.rows && db.rows[body[i].id] == body[i] && Matches(body[i], selected)
    ensures forall id :: id in db.rows && Matches(db.rows[id], selected) ==> db.rows[id] in body
    ensures forall i, j :: 0 <= i < j < |body| ==> body[i].id < body[j].id
  {
    body := db.ReadPdfs(selected);
    status := Ok;
  }

  /** `GET /pdfs/{id}`: 404 exactly when the lookup finds nothing, else 200 with the record. */
  method GetPdfById(db: PdfStore, id: int) returns (status: int, body: Option<Pdf>)
    requires db.Valid()
    ensures status == NotFound <==> id !in db.rows
    ensures status == Ok <==> id in db.rows
    ensures id in db.rows ==> body == Some(db.rows[id])
    ensures id !in db.rows ==> body == None
  {
    body := db.ReadPdf(id);
    if body.None? {
      status := NotFound;
    } else {
      status := Ok;
    }
  }

  /** `PUT /pdfs/{id}`: 404 exactly when the update finds nothing, else 200 with the updated record. */
  method UpdatePdf(db: PdfStore, id: int, patch: PdfPatch) returns (status: int, body: Option<Pdf>)
    requires db.Valid()
    modifies db
    ensures db.Valid()
    ensures status == NotFound <==> id !in old(db.rows)
    ensures id !in old(db.rows) ==> status == NotFound && body == None && db.rows == old(db.rows)
    ensures id in old(db.rows) ==>
              && status == Ok && body == Some(Patched(old(db.rows)[id], patch))
              && db.rows == old(db.rows)[id := Patched(old(db.rows)[id], patch)]
  {
    body := db.UpdatePdf(id, patch);
    if body.None? {
      status := NotFound;
    } else {
      status := Ok;
    }
  }

  /**
   * `DELETE /pdfs/{id}`: an absent id gets 404 with no storage call and no
   * write. Otherwise the storage object under the key derived from the stored
   * URL is destroyed first; if that raises, 500 and the record stays. Only
   * then is the record deleted, and the answer is 200.
   */
  method DeletePdf(db: PdfStore, id: int, destroy: DestroyResult) returns (status: int, calls: seq<Call>)
    requires db.Valid()
    modifies db
    ensures db.Valid()
    ensures id !in old(db.rows) ==> status == NotFound && calls == [] && db.rows == old(db.rows)
    ensures id in old(db.rows) && destroy.DestroyRaised? ==>
              && status == ServerError && db.rows == old(db.rows)
              && calls == [StorageDestroy(DestroyKey(old(db.rows)[id].file))]
    ensures id in old(db.rows) && destroy.DestroyReturned? ==>
              && status == Ok && db.rows == old(db.rows) - {id}
              && calls == [StorageDestroy(DestroyKey(old(db.rows)[id].file)), DbDelete(id)]
  {
    var pdf := db.ReadPdf(id);
    if pdf.None? {
      return DeleteStatus(false, destroy, None), [];
    }
    calls := [StorageDestroy(DestroyKey(pdf.value.file))];
    if destroy.DestroyRaised? {
      return DeleteStatus(true, destroy, None), calls;
    }
    var deleted := db.DeletePdf(id);
    calls := calls + [DbDelete(id)];
    status := DeleteStatus(true, destroy, deleted);
  }

  /**
   * `POST /pdfs/qa-pdf/{id}`, up to its lookup: 404 exactly when the record is
   * absent; otherwise the record's file reference is what the question
   * answering pipeline loads.
   */
  method QaPdfById(db: PdfStore, id: int) returns (gate: QaGate)
    requires db.Valid()
    ensures gate == QaNotFound <==> id !in db.rows
    ensures id in db.rows ==> gate == LoadDocument(db.rows[id].file)
  {
    var pdf := db.ReadPdf(id);
    if pdf.None? {
      gate := QaNotFound;
    } else {
      gate := LoadDocument(pdf.value.file);
    }
  }
}
