/** Building a new document (`handleUpload`, app/admin/page.tsx lines
    179-236): validate the form, upload the chosen files one after another,
    and insert one `documents` row whose `file_url` and `gallery` depend on
    the document type. The storage bucket, the clock and the random numbers
    are parameters; the result is the list of uploads and the insert. */
module Upload {
  import opened Records
  import opened Naming

  /** What the handler reads from outside for its n-th upload: the clock
      (`Date.now()`), the base-36 text of `Math.random()`, and the bucket's
      public URL for an object name (`getPublicUrl`). */
  datatype UploadEnv = UploadEnv(clock: nat -> nat, randomText: nat -> string, publicUrl: string -> string)

  /** `storage.from('school_docs').upload(objectName, file)`. */
  datatype Put = Put(objectName: string, file: LocalFile)

  /** The object name of the n-th upload of a call, made with `prefix`. */
  function ObjectName(file: LocalFile, prefix: string, n: nat, env: UploadEnv): (name: string)
    ensures Extension(name) == Extension(file.name)
  {
    SafeFileName(file.name, prefix, env.clock(n), env.randomText(n))
  }

  /** The sequential upload loop: file i goes up as `<tag><i>-…`, in order. */
  function UploadBatch(files: seq<LocalFile>, tag: string, env: UploadEnv): (puts: seq<Put>)
    ensures |puts| == |files|
    ensures forall i :: 0 <= i < |files| ==>
              puts[i].file == files[i] && Extension(puts[i].objectName) == Extension(files[i].name)
    ensures forall i :: 0 <= i < |files| ==>
              puts[i].objectName == SafeFileName(files[i].name, tag + Decimal(i), env.clock(i), env.randomText(i))
    ensures DistinctObjectNames(puts)
  {
    var puts := seq(|files|, i requires 0 <= i < |files| => Put(BatchObjectName(files, tag, i, env), files[i]));
    BatchDistinct(files, tag, env, puts);
    puts
  }

  /** No two uploads of a batch share an object name. */
  predicate DistinctObjectNames(puts: seq<Put>)
  {
    forall i, j :: 0 <= i < |puts| && 0 <= j < |puts| && i != j ==> puts[i].objectName != puts[j].objectName
  }

  /** The object name of file i of a batch. */
  function BatchObjectName(files: seq<LocalFile>, tag: string, i: nat, env: UploadEnv): (name: string)
    requires i < |files|
    ensures Extension(name) == Extension(files[i].name)
  {
    ObjectName(files[i], tag + Decimal(i), i, env)
  }

  lemma BatchDistinct(files: seq<LocalFile>, tag: string, env: UploadEnv, puts: seq<Put>)
    requires |puts| == |files|
    requires forall i :: 0 <= i < |files| ==> puts[i].objectName == BatchObjectName(files, tag, i, env)
    ensures DistinctObjectNames(puts)
  {
    forall i, j | 0 <= i < |puts| && 0 <= j < |puts| && i != j
      ensures puts[i].objectName != puts[j].objectName
    {
      BatchObjectNamesDistinct(files, tag, i, j, env);
    }
  }

  lemma BatchObjectNamesDistinct(files: seq<LocalFile>, tag: string, i: nat, j: nat, env: UploadEnv)
    requires i < |files| && j < |files| && i != j
    ensures BatchObjectName(files, tag, i, env) != BatchObjectName(files, tag, j, env)
  {
    BatchNamesDistinct(tag, i, j, files[i].name, env.clock(i), env.randomText(i),
                       files[j].name, env.clock(j), env.randomText(j));
  }

  /** The public URL of every uploaded object, in upload order. */
  function PublicUrls(puts: seq<Put>, env: UploadEnv): (urls: seq<string>)
    ensures |urls| == |puts|
    ensures forall i :: 0 <= i < |puts| ==> urls[i] == env.publicUrl(puts[i].objectName)
  {
    seq(|puts|, i requires 0 <= i < |puts| => env.publicUrl(puts[i].objectName))
  }

  /** The activity picked in the dashboard; `indicatorId` is its nullable `indicator_id`. */
  datatype ActivitySel = ActivitySel(id: int, indicatorId: Option<int>)

  /** The upload form: the chosen type, the title, the link text, the PDF
      picked and the images picked (each possibly absent). */
  datatype UploadForm = UploadForm(kind: DocType, title: string, linkUrl: string,
                                   pdf: Option<LocalFile>, images: Option<seq<LocalFile>>)

  /** The payload of `insert` on table `documents`. */
  datatype DocumentInsert = DocumentInsert(title: string, docType: DocType, fileUrl: string, activityId: int,
                                           indicatorId: Option<int>, gallery: Option<seq<string>>)

  datatype UploadPlan = UploadPlan(puts: seq<Put>, insert: DocumentInsert)

  datatype UploadError =
    | NoActivity      // no activity selected, or one without an id
    | TitleRequired
    | LinkRequired
    | FileRequired
    | ImagesRequired

  /** `selectedIndicator?.id || selectedActivity.indicator_id`: a missing or
      zero selected id falls back to the activity's own indicator. */
  function ResolveIndicator(selectedIndicatorId: Option<int>, activity: ActivitySel): (r: Option<int>)
    ensures selectedIndicatorId.Some? && selectedIndicatorId.value != 0 ==> r == selectedIndicatorId
    ensures selectedIndicatorId.None? || selectedIndicatorId.value == 0 ==> r == activity.indicatorId
  {
    match selectedIndicatorId
    case Some(id) => if id != 0 then Some(id) else activity.indicatorId
    case None => activity.indicatorId
  }

  /** `gallery.length > 0 ? gallery : null`. */
  function GalleryColumn(gallery: seq<string>): (r: Option<seq<string>>)
    ensures r.None? <==> |gallery| == 0
    ensures r.Some? ==> r.value == gallery
  {
    if |gallery| > 0 then Some(gallery) else None
  }

  /** The form carries what its type needs: an empty link text, a missing
      PDF and a missing or empty image list are all falsy to the handler. */
  predicate HasRequiredInput(form: UploadForm): (ok: bool)
    ensures ok <==> || (form.kind == Link && |form.linkUrl| > 0)
                    || (form.kind == Pdf && form.pdf.Some?)
                    || (form.kind == Album && form.images.Some? && |form.images.value| > 0)
  {
    match form.kind
    case Link => form.linkUrl != ""
    case Pdf => form.pdf.Some?
    case Album => form.images.Some? && |form.images.value| > 0
  }

  function PlanUpload(form: UploadForm, activity: Option<ActivitySel>, selectedIndicatorId: Option<int>,
                      env: UploadEnv): (r: Result<UploadPlan, UploadError>)
    // Which check stops the handler, in the order the handler makes them.
    ensures activity.None? || activity.value.id == 0 ==> r == Err(NoActivity)
    ensures activity.Some? && activity.value.id != 0 && form.title == "" ==> r == Err(TitleRequired)
    ensures r.Ok? <==> activity.Some? && activity.value.id != 0 && form.title != "" && HasRequiredInput(form)
    ensures r.Err? && r.error != NoActivity && r.error != TitleRequired ==>
              r.error == (match form.kind case Link => LinkRequired case Pdf => FileRequired case Album => ImagesRequired)
    // What the inserted row holds.
    ensures r.Ok? ==>
              && r.value.insert.title == form.title
              && r.value.insert.docType == form.kind
              && r.value.insert.activityId == activity.value.id
              && r.value.insert.indicatorId == ResolveIndicator(selectedIndicatorId, activity.value)
    ensures r.Ok? && form.kind == Link ==>
              r.value.puts == [] && r.value.insert.fileUrl == form.linkUrl && r.value.insert.gallery.None?
    ensures r.Ok? && form.kind == Pdf ==>
              && |r.value.puts| == 1
              && r.value.puts[0].file == form.pdf.value
              && Extension(r.value.puts[0].objectName) == Extension(form.pdf.value.name)
              && r.value.insert.fileUrl == env.publicUrl(r.value.puts[0].objectName)
              && r.value.insert.gallery.None?
    ensures r.Ok? && form.kind == Album ==>
              var images := form.images.value;
              var puts := r.value.puts;
              && |puts| == |images|
              && (forall i :: 0 <= i < |images| ==> puts[i].file == images[i])
              && DistinctObjectNames(puts)
              && r.value.insert.gallery.Some?
              && |r.value.insert.gallery.value| == |images|
              && (forall i :: 0 <= i < |images| ==> r.value.insert.gallery.value[i] == env.publicUrl(puts[i].objectName))
              && r.value.insert.fileUrl == r.value.insert.gallery.value[0]
  {
    if activity.None? || activity.value.id == 0 then Err(NoActivity)
    else if form.title == "" then Err(TitleRequired)
    else
      var act := activity.value;
      var indicatorId := ResolveIndicator(selectedIndicatorId, act);
      match form.kind
      case Link =>
        if form.linkUrl == "" then Err(LinkRequired)
        else Ok(UploadPlan([], DocumentInsert(form.title, Link, form.linkUrl, act.id, indicatorId, GalleryColumn([]))))
      case Pdf =>
        (match form.pdf
         case None => Err(FileRequired)
         case Some(file) => Ok(NewPdfPlan(form.title, file, act.id, indicatorId, env)))
      case Album =>
        if form.images.None? || |form.images.value| == 0 then Err(ImagesRequired)
        else Ok(NewAlbumPlan(form.title, form.images.value, act.id, indicatorId, env))
  }

  /** A PDF goes up as `pdf-…` and the row points at its public URL. */
  function NewPdfPlan(title: string, file: LocalFile, activityId: int, indicatorId: Option<int>, env: UploadEnv): (p: UploadPlan)
    ensures p.insert.title == title && p.insert.docType == Pdf
    ensures p.insert.activityId == activityId && p.insert.indicatorId == indicatorId
    ensures p.insert.gallery.None?
    ensures |p.puts| == 1 && p.puts[0].file == file
    ensures Extension(p.puts[0].objectName) == Extension(file.name)
    ensures p.puts[0].objectName == SafeFileName(file.name, "pdf", env.clock(0), env.randomText(0))
    ensures p.insert.fileUrl == env.publicUrl(p.puts[0].objectName)
  {
    var put := Put(ObjectName(file, "pdf", 0, env), file);
    UploadPlan([put], DocumentInsert(title, Pdf, env.publicUrl(put.objectName), activityId, indicatorId, GalleryColumn([])))
  }

  /** The images go up in order as `img-<i>-…`; the row keeps all their
      public URLs as its gallery and the first as its `file_url`. */
  function NewAlbumPlan(title: string, images: seq<LocalFile>, activityId: int, indicatorId: Option<int>, env: UploadEnv): (p: UploadPlan)
    requires |images| > 0
    ensures p.insert.title == title && p.insert.docType == Album
    ensures p.insert.activityId == activityId && p.insert.indicatorId == indicatorId
    ensures p.insert.gallery.Some?
    ensures |p.puts| == |images| && |p.insert.gallery.value| == |images|
    ensures forall i :: 0 <= i < |images| ==> p.puts[i].file == images[i]
    ensures DistinctObjectNames(p.puts)
    ensures p.puts == UploadBatch(images, "img-", env)
    ensures forall i :: 0 <= i < |images| ==> p.insert.gallery.value[i] == env.publicUrl(p.puts[i].objectName)
    ensures p.insert.fileUrl == p.insert.gallery.value[0]
  {
    var puts := UploadBatch(images, "img-", env);
    var gallery := PublicUrls(puts, env);
    assert GalleryColumn(gallery) == Some(gallery);
    UploadPlan(puts, DocumentInsert(title, Album, gallery[0], activityId, indicatorId, GalleryColumn(gallery)))
  }

  /** The row the backend stores for an insert, under its new id. */
  function InsertedDocument(ins: DocumentInsert, id: int): (d: Document)
    ensures d.id == id && d.docType == ins.docType && d.title == ins.title
    ensures d.fileUrl == Some(ins.fileUrl) && d.gallery == ins.gallery
  {
    Document(id, ins.title, ins.docType, Some(ins.fileUrl), ins.gallery)
  }
}
