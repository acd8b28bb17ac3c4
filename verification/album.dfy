/** Editing an album's images (`handleAddToAlbum`, `handleRemoveFromAlbum`,
    app/admin/page.tsx lines 239-259). Adding uploads the picked images and
    stores the old gallery followed by the new URLs; removing filters one
    index out and re-points the cover, or, once no image is left, deletes
    the album or leaves it empty. Confirmation dialogs are boolean
    parameters. */
module Album {
  import opened Records
  import opened Upload
  import opened Naming

  /** What an update does to the `file_url` column. */
  datatype CoverUpdate = KeepCover | SetCover(url: Option<string>)

  /** The writes these handlers issue on table `documents`. */
  datatype DocumentWrite =
    | UpdateGallery(docId: int, gallery: seq<string>, cover: CoverUpdate)
    | DeleteDocument(docId: int)

  /** The uploads and the row writes of one handler call. */
  datatype AlbumPlan = AlbumPlan(puts: seq<Put>, writes: seq<DocumentWrite>)

  /** The cover convention an album row is meant to keep: `file_url` is the
      first gallery entry, and is cleared when the gallery is empty. */
  predicate CoverConsistent(d: Document)
  {
    d.docType == Album ==>
      && d.gallery.Some?
      && (|d.gallery.value| > 0 ==> d.fileUrl == Some(d.gallery.value[0]))
      && (|d.gallery.value| == 0 ==> d.fileUrl.None?)
  }

  /** A document row after one write; None once it is deleted. */
  function ApplyWrite(d: Document, w: DocumentWrite): (r: Option<Document>)
    ensures r.None? <==> w == DeleteDocument(d.id)
    ensures r.Some? ==> r.value.id == d.id && r.value.docType == d.docType && r.value.title == d.title
    ensures w.docId != d.id ==> r == Some(d)
    ensures w.UpdateGallery? && w.docId == d.id && w.cover == KeepCover ==>
              r == Some(d.(gallery := Some(w.gallery)))
    ensures w.UpdateGallery? && w.docId == d.id && w.cover.SetCover? ==>
              r == Some(d.(gallery := Some(w.gallery), fileUrl := w.cover.url))
  {
    match w
    case DeleteDocument(id) => if id == d.id then None else Some(d)
    case UpdateGallery(id, g, cover) =>
      if id != d.id then Some(d)
      else
        var url := match cover case KeepCover => d.fileUrl case SetCover(u) => u;
        Some(d.(gallery := Some(g), fileUrl := url))
  }

  /** A document row after writes issued in order. */
  function ApplyWrites(d: Option<Document>, ws: seq<DocumentWrite>): (r: Option<Document>)
    ensures |ws| == 0 ==> r == d
    ensures d.None? ==> r.None?
    decreases |ws|
  {
    if |ws| == 0 then d
    else
      match d
      case None => None
      case Some(doc) => ApplyWrites(ApplyWrite(doc, ws[0]), ws[1..])
  }

  /** `handleAddToAlbum` as the source writes it: nothing without picked
      files or without confirmation; otherwise upload every file (`add-<i>`)
      and store `[...(currentGallery || []), ...newUrls]`, leaving
      `file_url` untouched. */
  function AddToAlbum(docId: int, current: Option<seq<string>>, files: seq<LocalFile>, confirmed: bool,
                      env: UploadEnv): (p: AlbumPlan)
    ensures |files| == 0 || !confirmed ==> p == AlbumPlan([], [])
    ensures |files| > 0 && confirmed ==> p.puts == UploadBatch(files, "add-", env)
    ensures |files| > 0 && confirmed ==>
              var before := ListOrEmpty(current);
              && |p.puts| == |files|
              && (forall i :: 0 <= i < |files| ==> p.puts[i].file == files[i])
              && (forall i :: 0 <= i < |files| ==> Extension(p.puts[i].objectName) == Extension(files[i].name))
              && DistinctObjectNames(p.puts)
              && |p.writes| == 1 && p.writes[0].UpdateGallery?
              && p.writes[0].docId == docId && p.writes[0].cover == KeepCover
              && |p.writes[0].gallery| == |before| + |files|
              && p.writes[0].gallery[..|before|] == before
              && (forall i :: 0 <= i < |files| ==> p.writes[0].gallery[|before| + i] == env.publicUrl(p.puts[i].objectName))
  {
    if |files| == 0 || !confirmed then AlbumPlan([], [])
    else
      var puts := UploadBatch(files, "add-", env);
      var merged := ListOrEmpty(current) + PublicUrls(puts, env);
      AlbumPlan(puts, [UpdateGallery(docId, merged, KeepCover)])
  }

  /** The same handler writing the cover along with the gallery, so that an
      album emptied earlier gets its cover back. */
  function AddToAlbumSettingCover(docId: int, current: Option<seq<string>>, files: seq<LocalFile>, confirmed: bool,
                                  env: UploadEnv): (p: AlbumPlan)
    ensures |files| == 0 || !confirmed ==> p == AlbumPlan([], [])
    ensures |files| > 0 && confirmed ==>
              var asWritten := AddToAlbum(docId, current, files, confirmed, env);
              && p.puts == asWritten.puts
              && p.writes == [asWritten.writes[0].(cover := SetCover(Some(asWritten.writes[0].gallery[0])))]
  {
    var p := AddToAlbum(docId, current, files, confirmed, env);
    if p.writes == [] then p
    else
      var g := p.writes[0].gallery;
      AlbumPlan(p.puts, [UpdateGallery(docId, g, SetCover(Some(g[0])))])
  }

  /** `currentGallery.filter((_, idx) => idx !== k)`. */
  function Without(g: seq<string>, k: int): (r: seq<string>)
    ensures 0 <= k < |g| ==> r == g[..k] + g[k + 1..]
    ensures !(0 <= k < |g|) ==> r == g
    decreases |g|
  {
    if |g| == 0 then []
    else
      var rest := Without(g[1..], k - 1);
      assert g == [g[0]] + g[1..];
      (if k == 0 then [] else [g[0]]) + rest
  }

  /** `handleRemoveFromAlbum` after the first confirmation (`confirmRemove`);
      `confirmDelete` is the answer to the second question, asked only when
      no image is left. */
  function RemoveFromAlbum(docId: int, current: seq<string>, k: int, confirmRemove: bool, confirmDelete: bool): (ws: seq<DocumentWrite>)
    ensures !confirmRemove ==> ws == []
    ensures confirmRemove ==> |ws| == 1
    ensures confirmRemove && 0 <= k < |current| && |current| > 1 ==>
              ws[0] == UpdateGallery(docId, current[..k] + current[k + 1..],
                                     SetCover(Some(if k == 0 then current[1] else current[0])))
    ensures confirmRemove && !(0 <= k < |current|) && |current| > 0 ==>
              ws[0] == UpdateGallery(docId, current, SetCover(Some(current[0])))
    ensures confirmRemove && (|current| == 0 || (|current| == 1 && k == 0)) ==>
              ws[0] == (if confirmDelete then DeleteDocument(docId) else UpdateGallery(docId, [], SetCover(None)))
  {
    if !confirmRemove then []
    else
      var updated := Without(current, k);
      if |updated| == 0 then
        if confirmDelete then [DeleteDocument(docId)] else [UpdateGallery(docId, [], SetCover(None))]
      else [UpdateGallery(docId, updated, SetCover(Some(updated[0])))]
  }

  /** A freshly uploaded album starts with its cover set. */
  lemma UploadedAlbumIsConsistent(form: UploadForm, activity: Option<ActivitySel>, selectedIndicatorId: Option<int>,
                                  env: UploadEnv, id: int)
    requires PlanUpload(form, activity, selectedIndicatorId, env).Ok?
    requires form.kind == Album
    ensures var d := InsertedDocument(PlanUpload(form, activity, selectedIndicatorId, env).value.insert, id);
            CoverConsistent(d) && |d.gallery.value| == |form.images.value|
  {
  }

  /** Removing an image keeps the cover convention: the album is either
      deleted (only when the last image went and deletion was confirmed) or
      its `file_url` is again the first remaining image, or cleared. */
  lemma RemoveKeepsCover(d: Document, k: int, confirmRemove: bool, confirmDelete: bool)
    requires d.docType == Album && d.gallery.Some? && CoverConsistent(d)
    ensures var after := ApplyWrites(Some(d), RemoveFromAlbum(d.id, d.gallery.value, k, confirmRemove, confirmDelete));
            && (after.None? <==> confirmRemove && confirmDelete && |Without(d.gallery.value, k)| == 0)
            && (after.Some? ==> CoverConsistent(after.value) && after.value.gallery == Some(if confirmRemove then Without(d.gallery.value, k) else d.gallery.value))
  {
    var ws := RemoveFromAlbum(d.id, d.gallery.value, k, confirmRemove, confirmDelete);
    if confirmRemove {
      assert ApplyWrites(Some(d), ws) == ApplyWrite(d, ws[0]);
    }
  }

  /** As written, adding to an album with at least one image keeps the cover. */
  lemma AddToNonEmptyAlbumKeepsCover(d: Document, files: seq<LocalFile>, confirmed: bool, env: UploadEnv)
    requires d.docType == Album && d.gallery.Some? && |d.gallery.value| > 0 && CoverConsistent(d)
    ensures var after := ApplyWrites(Some(d), AddToAlbum(d.id, d.gallery, files, confirmed, env).writes);
            after.Some? && CoverConsistent(after.value)
  {
    var ws := AddToAlbum(d.id, d.gallery, files, confirmed, env).writes;
    if |ws| > 0 {
      assert ApplyWrites(Some(d), ws) == ApplyWrite(d, ws[0]);
      assert ws[0].gallery[0] == ws[0].gallery[..|d.gallery.value|][0];
    }
  }

  /** As written, adding images to an album whose last image was removed
      (and kept as an empty album) leaves `file_url` null under a non-empty
      gallery. */
  lemma AddToEmptiedAlbumLosesCover(d: Document, files: seq<LocalFile>, env: UploadEnv)
    requires d.docType == Album && d.gallery == Some([]) && CoverConsistent(d)
    requires |files| > 0
    ensures var after := ApplyWrites(Some(d), AddToAlbum(d.id, d.gallery, files, true, env).writes);
            after.Some? && |after.value.gallery.value| == |files| && after.value.fileUrl.None? && !CoverConsistent(after.value)
  {
    var ws := AddToAlbum(d.id, d.gallery, files, true, env).writes;
    assert ApplyWrites(Some(d), ws) == ApplyWrite(d, ws[0]);
  }

  /** With the cover written along, adding keeps the convention for every
      album, the emptied one included. */
  lemma AddSettingCoverKeepsCover(d: Document, files: seq<LocalFile>, confirmed: bool, env: UploadEnv)
    requires d.docType == Album && d.gallery.Some? && CoverConsistent(d)
    ensures var after := ApplyWrites(Some(d), AddToAlbumSettingCover(d.id, d.gallery, files, confirmed, env).writes);
            after.Some? && CoverConsistent(after.value)
  {
    var ws := AddToAlbumSettingCover(d.id, d.gallery, files, confirmed, env).writes;
    if |ws| > 0 {
      assert ApplyWrites(Some(d), ws) == ApplyWrite(d, ws[0]);
    }
  }

  /** One gallery action taken in the dashboard. */
  datatype AlbumEdit =
    | AddImages(files: seq<LocalFile>, confirmed: bool, env: UploadEnv)
    | RemoveImage(index: int, confirmRemove: bool, confirmDelete: bool)

  /** The writes of one action on the album's current row (adding with the
      cover written along). */
  function EditWrites(d: Document, e: AlbumEdit): seq<DocumentWrite>
  {
    match e
    case AddImages(files, confirmed, env) => AddToAlbumSettingCover(d.id, d.gallery, files, confirmed, env).writes
    case RemoveImage(k, confirmRemove, confirmDelete) => RemoveFromAlbum(d.id, ListOrEmpty(d.gallery), k, confirmRemove, confirmDelete)
  }

  /** The album row after a series of actions, each refetching the row first. */
  function ApplyEdits(d: Option<Document>, edits: seq<AlbumEdit>): Option<Document>
    decreases |edits|
  {
    if |edits| == 0 then d
    else
      match d
      case None => None
      case Some(doc) => ApplyEdits(ApplyWrites(Some(doc), EditWrites(doc, edits[0])), edits[1..])
  }

  /** One action keeps an album's cover convention. */
  lemma EditKeepsCover(d: Document, e: AlbumEdit)
    requires d.docType == Album && CoverConsistent(d)
    ensures var next := ApplyWrites(Some(d), EditWrites(d, e));
            next.Some? ==> next.value.docType == Album && CoverConsistent(next.value)
  {
    SameTypeAfterWrites(d, EditWrites(d, e));
    match e
    case AddImages(files, confirmed, env) =>
      AddSettingCoverKeepsCover(d, files, confirmed, env);
    case RemoveImage(k, confirmRemove, confirmDelete) =>
      RemoveKeepsCover(d, k, confirmRemove, confirmDelete);
  }

  /** Any series of adds and removes keeps an album's cover convention for
      as long as the album exists. */
  lemma {:induction false} EditsKeepCover(d: Document, edits: seq<AlbumEdit>)
    requires d.docType == Album && CoverConsistent(d)
    ensures var after := ApplyEdits(Some(d), edits);
            after.Some? ==> after.value.docType == Album && CoverConsistent(after.value)
    decreases |edits|
  {
    if |edits| > 0 {
      var next := ApplyWrites(Some(d), EditWrites(d, edits[0]));
      assert ApplyEdits(Some(d), edits) == ApplyEdits(next, edits[1..]);
      EditKeepsCover(d, edits[0]);
      if next.Some? {
        EditsKeepCover(next.value, edits[1..]);
      }
    }
  }

  lemma {:induction false} SameTypeAfterWrites(d: Document, ws: seq<DocumentWrite>)
    ensures ApplyWrites(Some(d), ws).Some? ==> ApplyWrites(Some(d), ws).value.docType == d.docType
    decreases |ws|
  {
    if |ws| > 0 {
      var next := ApplyWrite(d, ws[0]);
      if next.Some? {
        SameTypeAfterWrites(next.value, ws[1..]);
      }
    }
  }
}
