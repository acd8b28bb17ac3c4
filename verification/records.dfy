/** Rows of the admin dashboard's hierarchy as the dashboard reads them,
    and the small wrapper types every handler uses. */
module Records {

  /** A value that may be absent: the dashboard's `null` / `undefined`. */
  datatype Option<+T> = None | Some(value: T)

  /** The outcome of a handler that may stop before issuing any write. */
  datatype Result<+T, +E> = Ok(value: T) | Err(error: E)

  /** An activity row (table `activities`); `order` is the nullable `order_index`. */
  datatype Activity = Activity(id: int, title: string, order: Option<int>)

  /** A topic row (table `topics`) with the activities the nested select joined to it. */
  datatype Topic = Topic(id: int, title: string, order: Option<int>, activities: Option<seq<Activity>>)

  /** The three kinds of evidence document. */
  datatype DocType = Pdf | Album | Link

  /** A document row (table `documents`); `fileUrl` and `gallery` are nullable columns. */
  datatype Document = Document(id: int, title: string, docType: DocType, fileUrl: Option<string>, gallery: Option<seq<string>>)

  /** A file picked in the browser; only its name matters to the model. */
  datatype LocalFile = LocalFile(name: string)

  /** `list || []`: an absent list reads as the empty one. */
  function ListOrEmpty<T>(o: Option<seq<T>>): (r: seq<T>)
    ensures o.Some? ==> r == o.value
    ensures o.None? ==> r == []
  {
    match o
    case Some(s) => s
    case None => []
  }

  /** Primary keys: no two rows of a sibling list share an id. */
  predicate DistinctIds(s: seq<Activity>)
  {
    forall i, j :: 0 <= i < |s| && 0 <= j < |s| && i != j ==> s[i].id != s[j].id
  }
}
