/**
 * The PDF record store: one table of rows `{id, name, selected, file}` keyed by
 * `id`, and the five operations that create, list, get, partially update and
 * delete rows. The database session is the class `PdfStore`; its table is a
 * map from primary key to row. Create, update and delete update it in place;
 * list and get only read it.
 */
module Crud {
  import opened Wrappers

  /** One row of the PDF table; `id` is its primary key. */
  datatype Pdf = Pdf(id: int, name: string, selected: bool, file: string)

  /** What a client supplies to create a row; the store assigns the id. */
  datatype PdfFields = PdfFields(name: string, selected: bool, file: string)

  /** A partial update: a field is `Some` exactly when the client set it. */
  datatype PdfPatch = PdfPatch(name: Option<string>, selected: Option<bool>, file: Option<string>)

  /** One `(key, value)` item of the update's dictionary, applied by one `setattr`. */
  datatype Assignment = SetName(name: string) | SetSelected(selected: bool) | SetFile(file: string)

  /** The items of `patch.dict(exclude_unset=True)`: one per field the client set. */
  function UpdateData(patch: PdfPatch): seq<Assignment>
  {
    (if patch.name.Some? then [SetName(patch.name.value)] else [])
    + (if patch.selected.Some? then [SetSelected(patch.selected.value)] else [])
    + (if patch.file.Some? then [SetFile(patch.file.value)] else [])
  }

  /** `setattr(row, key, value)` for one item. */
  function SetAttr(row: Pdf, a: Assignment): Pdf
  {
    match a
    case SetName(n) => row.(name := n)
    case SetSelected(b) => row.(selected := b)
    case SetFile(f) => row.(file := f)
  }

  /** The row after the `setattr` loop has run over `items`, in order. */
  function ApplyItems(row: Pdf, items: seq<Assignment>): Pdf
    decreases |items|
  {
    if items == [] then row
    else SetAttr(ApplyItems(row, items[..|items| - 1]), items[|items| - 1])
  }

  /**
   * The intended result of a partial update, field by field: a field the
   * client set takes the new value, every other field and the id keep theirs.
   */
  function Patched(row: Pdf, patch: PdfPatch): Pdf
  {
    Pdf(row.id,
        if patch.name.Some? then patch.name.value else row.name,
        if patch.selected.Some? then patch.selected.value else row.selected,
        if patch.file.Some? then patch.file.value else row.file)
  }

  /** Whether `row` passes the optional `selected` filter of a listing. */
  predicate Matches(row: Pdf, selected: Option<bool>)
  {
    selected.None? || row.selected == selected.value
  }

  /**
   * No `setattr` item touches the primary key, whatever the items and their
   * order: the id survives any run of the loop, not only the items of one
   * partial update (for those, `ApplyUpdateData` gives the whole row). This
   * rests on the update schema having no `id` key, so that `Assignment` has
   * no case that sets it.
   */
  lemma {:induction false} ApplyItemsKeepsId(row: Pdf, items: seq<Assignment>)
    ensures ApplyItems(row, items).id == row.id
    decreases |items|
  {
    if items != [] {
      ApplyItemsKeepsId(row, items[..|items| - 1]);
    }
  }

  /** Running the loop over `items` and then over at most one more item. */
  lemma ApplyItemsThen(row: Pdf, items: seq<Assignment>, tail: seq<Assignment>)
    requires |tail| <= 1
    ensures ApplyItems(row, items + tail)
         == if tail == [] then ApplyItems(row, items) else SetAttr(ApplyItems(row, items), tail[0])
  {
    if tail == [] {
      assert items + tail == items;
    } else {
      assert (items + tail)[..|items + tail| - 1] == items;
    }
  }

  /** The `setattr` loop over the set fields computes exactly `Patched`. */
  lemma ApplyUpdateData(row: Pdf, patch: PdfPatch)
    ensures ApplyItems(row, UpdateData(patch)) == Patched(row, patch)
  {
    var n := if patch.name.Some? then [SetName(patch.name.value)] else [];
    var s := if patch.selected.Some? then [SetSelected(patch.selected.value)] else [];
    var f := if patch.file.Some? then [SetFile(patch.file.value)] else [];
    ApplyItemsThen(row, [], n);
    assert [] + n == n;
    ApplyItemsThen(row, n, s);
    ApplyItemsThen(row, n + s, f);
  }

  /** Applying the same partial update twice gives the same row as applying it once. */
  lemma UpdateIdempotent(row: Pdf, patch: PdfPatch)
    ensures ApplyItems(ApplyItems(row, UpdateData(patch)), UpdateData(patch))
         == ApplyItems(row, UpdateData(patch))
  {
    ApplyUpdateData(row, patch);
    ApplyUpdateData(Patched(row, patch), patch);
  }

  /** The database session over the PDF table. */
  class PdfStore {
    /** The table: primary key to row. */
    var rows: map<int, Pdf>
    /** The key generator: every key in use lies below it. */
    var nextId: int

    /**
     * Each row is stored under its own id; keys start at 1 and the key
     * generator is ahead of every key in use.
     */
    ghost predicate Valid()
      reads this
    {
      && 1 <= nextId
      && forall id :: id in rows ==> rows[id].id == id && 1 <= id < nextId
    }

    /** An empty table. */
    constructor ()
      ensures Valid() && rows == map[]
    {
      rows := map[];
      nextId := 1;
    }

    /**
     * `create_pdf`: inserts a row with the given fields under a key not in use,
     * and returns it. Nothing else in the table changes.
     */
    method CreatePdf(fields: PdfFields) returns (pdf: Pdf)
      requires Valid()
      modifies this
      ensures Valid()
      ensures pdf.name == fields.name && pdf.selected == fields.selected && pdf.file == fields.file
      ensures pdf.id !in old(rows)
      ensures rows == old(rows)[pdf.id := pdf]
    {
      pdf := Pdf(nextId, fields.name, fields.selected, fields.file);
      rows := rows[pdf.id := pdf];
      nextId := nextId + 1;
    }

    /**
     * `read_pdfs`: every stored row that passes the `selected` filter (all rows
     * when there is no filter), each exactly once, and no other row. The scan
     * goes by primary key, so the rows come in increasing id order.
     */
    method ReadPdfs(selected: Option<bool>) returns (result: seq<Pdf>)
      requires Valid()
      ensures forall i :: 0 <= i < |result| ==>
                result[i].id in rows && rows[result[i].id] == result[i] && Matches(result[i], selected)
      ensures forall id :: id in rows && Matches(rows[id], selected) ==> rows[id] in result
      ensures forall i, j :: 0 <= i < j < |result| ==> result[i].id < result[j].id
    {
      result := [];
      for id := 1 to nextId
        invariant forall i :: 0 <= i < |result| ==>
                    result[i].id in rows && result[i].id < id
                    && rows[result[i].id] == result[i] && Matches(result[i], selected)
        invariant forall k :: k in rows && k < id && Matches(rows[k], selected) ==> rows[k] in result
        invariant forall i, j :: 0 <= i < j < |result| ==> result[i].id < result[j].id
      {
        if id in rows && Matches(rows[id], selected) {
          result := result + [rows[id]];
        }
      }
    }

    /** `read_pdf`: the row stored under `id`, or `None` when there is none. */
    method ReadPdf(id: int) returns (pdf: Option<Pdf>)
      requires Valid()
      ensures pdf.Some? <==> id in rows
      ensures pdf.Some? ==> pdf.value == rows[id] && pdf.value.id == id
    {
      if id in rows {
        pdf := Some(rows[id]);
      } else {
        pdf := None;
      }
    }

    /**
     * `update_pdf`: on an absent id, `None` and no change; otherwise the row
     * under `id` gets the fields the client set (and only those), is returned,
     * and every other row stays as it was.
     */
    method UpdatePdf(id: int, patch: PdfPatch) returns (updated: Option<Pdf>)
      requires Valid()
      modifies this
      ensures Valid() && nextId == old(nextId)
      ensures id !in old(rows) ==> updated == None && rows == old(rows)
      ensures id in old(rows) ==>
                && updated == Some(Patched(old(rows)[id], patch))
                && rows == old(rows)[id := Patched(old(rows)[id], patch)]
    {
      var found := ReadPdf(id);
      if found.None? {
        return None;
      }
      var row := found.value;
      var items := UpdateData(patch);
      var i := 0;
      while i < |items|
        invariant 0 <= i <= |items|
        invariant row == ApplyItems(found.value, items[..i])
      {
        assert items[..i + 1][..i] == items[..i];
        row := SetAttr(row, items[i]);
        i := i + 1;
      }
      assert items[..i] == items;
      ApplyUpdateData(found.value, patch);
      rows := rows[id := row];
      updated := Some(row);
    }

    /**
     * `delete_pdf`: on a present id, removes that row only and returns `True`;
     * on an absent id returns `None` (not `False`) and changes nothing.
     */
    method DeletePdf(id: int) returns (deleted: Option<bool>)
      requires Valid()
      modifies this
      ensures Valid() && nextId == old(nextId)
      ensures id in old(rows) ==> deleted == Some(true) && rows == old(rows) - {id}
      ensures id !in old(rows) ==> deleted == None && rows == old(rows)
    {
      var found := ReadPdf(id);
      if found.None? {
        return None;
      }
      rows := rows - {id};
      deleted := Some(true);
    }
  }

  /** A create followed by `read_pdf` on the new id gives back the same fields. */
  method CreateThenRead(db: PdfStore, fields: PdfFields) returns (created: Pdf, read: Option<Pdf>)
    requires db.Valid()
    modifies db
    ensures db.Valid()
    ensures read == Some(created)
    ensures read.value.name == fields.name && read.value.selected == fields.selected
            && read.value.file == fields.file
  {
    created := db.CreatePdf(fields);
    read := db.ReadPdf(created.id);
  }

  /** After a successful delete, `read_pdf` on the same id finds nothing. */
  method DeleteThenRead(db: PdfStore, id: int) returns (deleted: Option<bool>, read: Option<Pdf>)
    requires db.Valid()
    modifies db
    ensures db.Valid()
    ensures deleted == Some(true) <==> id in old(db.rows)
    ensures read == None
  {
    deleted := db.DeletePdf(id);
    read := db.ReadPdf(id);
  }

  /** Sending the same partial update twice leaves the table as sending it once. */
  method UpdateTwice(db: PdfStore, id: int, patch: PdfPatch) returns (first: Option<Pdf>, second: Option<Pdf>)
    requires db.Valid()
    modifies db
    ensures db.Valid()
    ensures first == second
    ensures id in old(db.rows) ==> db.rows == old(db.rows)[id := Patched(old(db.rows)[id], patch)]
    ensures id !in old(db.rows) ==> db.rows == old(db.rows)
  {
    first := db.UpdatePdf(id, patch);
    second := db.UpdatePdf(id, patch);
  }
}
