# Admin dashboard list rules — a Dafny model

This project models the list rules in the admin dashboard of a school's
quality-assurance documentation site (`app/admin/page.tsx`). The dashboard
keeps a hierarchy of Standard → Indicator → Topic → Activity → Document in a
hosted database. Around its database calls and React state it applies a few
deterministic rules to sibling lists and document rows:

- **Ordering on load** (`fetchData`): topics are sorted by `order_index`, and
  a missing value reads as 0. Activities are sorted by `order_index` and then
  by `id`. JavaScript's sort is stable, so the model uses a stable insertion
  sort over a two-part key (module `Ordering`).
- **Reorder** (`handleMoveActivity`): the handler finds the activity and swaps
  it with its neighbour. It then writes `order_index = i + 1` to every row of
  the new list. At either end, or when the id is absent, nothing is written
  (module `Reorder`).
- **Create** (`handleCreateTopic`, `handleCreateActivity`): an empty title is
  refused before any write. Otherwise one insert is issued, with
  `order_index` = sibling count + 1 (module `Create`).
- **Object names** (`getSafeFileName`): every upload is stored as
  `<prefix>-<millis>-<random>.<ext>` (module `Naming`).
- **New document** (`handleUpload`): the form is validated per type (`link`,
  `pdf`, `album`). The files are uploaded in order, then one row is inserted
  whose `file_url` and `gallery` depend on the type (module `Upload`).
- **Album edits** (`handleAddToAlbum`, `handleRemoveFromAlbum`): adding
  appends the new URLs to the gallery. Removing filters out one index and
  re-points the cover, or deletes or empties the album (module `Album`).

Generic facts about mapping and permuting sequences, shared by the sorting
and write-replay proofs, live in module `Sequences`.

Every handler is a pure function. It returns the new list, or the
storage uploads and row writes it would issue. Confirmation dialogs are
boolean parameters. The clock, the random number and the bucket's
public-URL resolution are function-valued parameters (`Upload.UploadEnv`).
The n-th upload of one handler call reads `clock(n)` and `randomText(n)`.
The upload form keeps its PDF and its image list as options
(`Upload.UploadForm`); the album add reads a missing file list as the
empty list.

Three consequences of the code are worth stating up front:

- Topics are ordered by `order_index` alone (`app/admin/page.tsx:83`).
  Unlike activities, ties are not broken by `id`: topics sharing a position
  keep the order the backend returned them in (`Ordering.SortTopics`).
- `count + 1` (`app/admin/page.tsx:110,142`) is fresh whenever positions
  are dense (`Create.CreatedActivityAppends`). After one deletion from a
  dense list, other than of the last row, it repeats an existing position
  (`Create.GapGivesDuplicatePosition`). Activities sharing a position are
  still ordered by `id`, so their load order stays fixed. Topics sharing a
  position are shown in whatever order the backend returned them.
- The random part of an object name is `substring(2, 8)` of the random
  number's base-36 text, so it has at most 6 characters, and fewer when
  that text is short (`Naming.RandomPart`).

## Model

| member | source | states |
|---|---|---|
| Ordering.SortBy | app/admin/page.tsx:83-89 | The sorted list has the same length and the same elements (as a multiset) as the input, and every pair of positions is in key order. The sort is stable: for every key, the elements carrying it appear in the same order as in the input. |
| Ordering.InsertByKeepsTies | app/admin/page.tsx:83-89 | Inserting an element puts it ahead of every element that has the same key, and leaves the other keys' elements in their order. |
| Ordering.SortedPermutationUnique | app/admin/page.tsx:85-89 | A list whose keys strictly increase is the only sorted arrangement of its elements: any sorted permutation of it equals it. |
| Ordering.StrictlySortedIsFixed | app/admin/page.tsx:85-89 | Sorting a list whose keys already strictly increase returns it unchanged. |
| Ordering.SortIgnoresArrival | app/admin/page.tsx:85-89 | When the sorted keys are distinct, two arrivals of the same rows in any order sort to the same list. |
| Ordering.OrderOrZero | app/admin/page.tsx:83 | `order_index || 0`: a missing position reads as 0, a present one as itself. |
| Ordering.CompareTopics | app/admin/page.tsx:83 | The topic comparator is non-positive exactly when the topic key puts `a` no later than `b`, and zero exactly when the keys tie. |
| Ordering.CompareActivities | app/admin/page.tsx:85-89 | The activity comparator (position difference, else id difference) is non-positive exactly when the activity key puts `a` no later than `b`, and zero exactly when the keys tie. |
| Ordering.SortTopics | app/admin/page.tsx:83 | Topics come out as a permutation of the input, ordered by `order_index` ascending, with a missing value read as 0. Topics sharing a position come out in their arrival order. |
| Ordering.SortActivities | app/admin/page.tsx:85-89 | Activities come out as a permutation of the input, ordered by `order_index` (missing as 0) and, on equal positions, by `id`. Rows sharing both keep their arrival order. |
| Ordering.ActivityOrderIsDeterministic | app/admin/page.tsx:85-89 | With distinct ids, the loaded activity order does not depend on the order the backend returned the rows in. |
| Ordering.DistinctIdsKeepUnderPermutation | app/admin/page.tsx:85-89 | A permutation of a list with distinct ids again has distinct ids. |
| Ordering.ShapeTopics | app/admin/page.tsx:83-90 | An absent topic list becomes empty. The output is a permutation of the input topics, each with its activities sorted. Topics are ordered by position, and every topic's activity list is present and sorted. Topics sharing a position keep their arrival order: for every position, the output's topics at it are the input's topics at it, in the same order, each with its activities sorted. |
| Ordering.WithSortedActivities | app/admin/page.tsx:85-89 | A topic keeps its id, title and position, and its activity list (absent read as empty) becomes a sorted permutation of itself. |
| Reorder.FindIndex | app/admin/page.tsx:169 | Returns the first position holding the id. It returns None exactly when no row has that id. |
| Reorder.Neighbour | app/admin/page.tsx:170 | Moving up targets idx-1, and exists exactly when idx > 0. Moving down targets idx+1, and exists exactly when idx+1 < N. |
| Reorder.Move | app/admin/page.tsx:166-173 | No writes exactly when the id is absent, or the move is up at index 0, or down at the last index; then the list is unchanged. The new list is always a permutation of the input. When it writes, the row at position i gets the `order_index` i+1, for every i. |
| Reorder.MoveSwapsNeighbours | app/admin/page.tsx:169-172 | A move up exchanges the activity with the one before it, a move down with the one after it. Every other position keeps its row. |
| Reorder.Swap | app/admin/page.tsx:172 | The two positions exchange contents, every other position is unchanged, and the multiset of elements is preserved. |
| Reorder.RenumberWrites | app/admin/page.tsx:173 | One write per row of the list, in list order; the write at i addresses row i's id with position i+1. |
| Reorder.ApplyToRow | app/admin/page.tsx:173 | Running the writes one after another keeps a row's id and title; its `order_index` either stays as it was or is the position of some write addressed to its id. |
| Reorder.ApplyOrderWrites | app/admin/page.tsx:173 | The writes act row by row: the table keeps its length, every row keeps its id and title, and a row no write addresses is left exactly as it was. |
| Reorder.Renumbered | app/admin/page.tsx:173 | Row i keeps the id and title of row i of the list and holds position i+1, so the activity keys strictly increase. |
| Reorder.ApplyOneAddressed | app/admin/page.tsx:173 | A row addressed by exactly one position write ends with that write's position. |
| Reorder.LastAddressedDecides | app/admin/page.tsx:173 | The writes run one after another, so a row ends with the position of the last write addressed to it, whatever earlier writes set. |
| Reorder.StoredAfterMove | app/admin/page.tsx:172-173 | With distinct ids, after the writes each stored row carries the 1-based index of its place in the new list. |
| Reorder.ApplyKeepsPermutation | app/admin/page.tsx:173 | Whatever arrangement the rows are stored in, the writes turn the same rows into the same rows (as a multiset). |
| Reorder.MoveThenReload | app/admin/page.tsx:170-174 | After a move that writes, the next load (the sort of `fetchData`) shows exactly the new list with positions 1..N, whatever order the rows are stored in. |
| Create.SiblingCount | app/admin/page.tsx:110 | `children?.length || 0` (also line 142): an absent list counts 0, a present one its length. |
| Create.CreateTopic | app/admin/page.tsx:105-116 | An empty title is refused before anything else, and a missing indicator stops the handler. Otherwise one insert is issued under the indicator with `order_index` = number of its topics + 1, where an absent list counts 0. |
| Create.CreateActivity | app/admin/page.tsx:138-149 | An empty title is refused before anything else, and a missing topic or indicator stops the handler. Otherwise one insert is issued with `order_index` = number of the topic's activities + 1, where an absent list counts 0. |
| Create.CreatedActivityAppends | app/admin/page.tsx:142-148 | When the shown activities hold positions 1..N, the new one gets a position no sibling holds. The list then holds 1..N+1, and the next load shows the new activity last, in whatever order the backend returns the rows. |
| Create.CreatedTopicAppends | app/admin/page.tsx:110-115 | When the shown topics hold positions 1..N, the new one gets a fresh position. The list then holds 1..N+1, and the next load shows the new topic last, in whatever order the backend returns the rows. |
| Create.GapGivesDuplicatePosition | app/admin/page.tsx:142-148 | With stored positions 1 and 3 (a gap left by a deletion), the new activity is also given 3. |
| Naming.Decimal | app/admin/page.tsx:65 | The decimal text of a number is non-empty, all digits, and starts with '0' only for 0. |
| Naming.DecimalRoundTrip | app/admin/page.tsx:65 | Reading the decimal text back gives the number it was made from. |
| Naming.Extension | app/admin/page.tsx:63 | The extension contains no dot and is a suffix of the name. It is either the whole name or follows the name's last dot. |
| Naming.RandomPart | app/admin/page.tsx:64 | The random part has at most 6 characters: characters 2..8 of the random text, clamped to its length as `substring` does. |
| Naming.SafeFileName | app/admin/page.tsx:62-66 | The object name is `<prefix>-<millis>-<random>.<ext>`: the prefix, the clock's decimal text, the clamped random slice and the original file's extension, joined by `-`, `-` and `.`. |
| Naming.ExtensionAfterDot | app/admin/page.tsx:63-65 | Whatever comes before it, a dot-free tail after the last dot is what the extension rule recovers. |
| Naming.BatchNamesDistinct | app/admin/page.tsx:204-205 | Two uploads of one batch, numbered i ≠ j in their prefixes, never get the same object name, whatever the clock and random numbers read. |
| Upload.UploadBatch | app/admin/page.tsx:204-208 | One upload per file, in input order. File i goes up under `getSafeFileName(name, <tag><i>)` with the i-th clock and random reading (`img-<i>` at line 205, `add-<i>` at line 244). Each object keeps its file's extension, and the object names within the batch are pairwise distinct. |
| Upload.PublicUrls | app/admin/page.tsx:207 | One public URL per uploaded object, in upload order, each the URL of that object's name (also line 245). |
| Upload.ResolveIndicator | app/admin/page.tsx:186 | The selected indicator's id is used when present and non-zero; otherwise the activity's own `indicator_id` is used. |
| Upload.NewPdfPlan | app/admin/page.tsx:197-201 | A PDF is uploaded once under `getSafeFileName(name, 'pdf')`, a name that keeps its extension. The row stores that object's public URL and a null gallery. |
| Upload.NewAlbumPlan | app/admin/page.tsx:202-218 | The uploads are exactly the `img-<i>` batch: every image once, in order, under pairwise distinct names. The gallery holds one public URL per image, in the same order, and `file_url` is the first of them. |
| Upload.GalleryColumn | app/admin/page.tsx:218 | The `gallery` column is null exactly when no image URL was collected, and the URLs otherwise. |
| Upload.HasRequiredInput | app/admin/page.tsx:195-203 | A `link` needs a non-empty link text, a `pdf` a chosen file, an `album` a present and non-empty image list; nothing else passes. |
| Upload.PlanUpload | app/admin/page.tsx:179-219 | Checks run in order: activity, then title, then the input the type needs; the result succeeds exactly when all pass. On success: a `link` stores the URL verbatim with no uploads and a null gallery. A `pdf` uploads one file, stores its public URL and a null gallery. An `album` uploads every image in order, stores one URL per image, and sets `file_url` to the first. |
| Album.AddToAlbum | app/admin/page.tsx:239-247 | No files or a declined confirm means no uploads and no writes. Otherwise the uploads are exactly the `add-<i>` batch (line 244): one per file, each keeping its file's extension under pairwise distinct object names. Then one gallery update: the old gallery (absent read as empty) as a prefix, followed by the new URLs in order. Its length is the sum of both, and `file_url` is not touched. |
| Album.AddToAlbumSettingCover | app/admin/page.tsx:247 | The same uploads and gallery as `Album.AddToAlbum`, with `file_url` also set to the gallery's first entry. |
| Album.Without | app/admin/page.tsx:254 | Filtering index k out removes exactly that element and keeps the order; an out-of-range k leaves the gallery unchanged. |
| Album.RemoveFromAlbum | app/admin/page.tsx:251-256 | A declined first confirm means no write. When images remain, the gallery minus index k is stored with `file_url` set to the first remaining image. When none remain, the document is deleted if confirmed, else stored with an empty gallery and null `file_url`. |
| Album.ApplyWrite | app/admin/page.tsx:247-256 | A row disappears exactly on a delete addressed to it. A write to another id leaves it unchanged. An addressed gallery update stores the new gallery, keeps `file_url` under KeepCover and sets it under SetCover, and changes nothing else. |
| Album.UploadedAlbumIsConsistent | app/admin/page.tsx:202-218 | A newly inserted album has one gallery entry per image, and its `file_url` is the first entry. |
| Album.RemoveKeepsCover | app/admin/page.tsx:251-256 | After a removal, the album is gone exactly when the last image went and deletion was confirmed. Otherwise it holds the filtered gallery and `file_url` is the first remaining image, or null when none remain. |
| Album.AddToNonEmptyAlbumKeepsCover | app/admin/page.tsx:239-247 | Adding to an album that still has images keeps `file_url` equal to the first gallery entry. |
| Album.AddToEmptiedAlbumLosesCover | app/admin/page.tsx:247-255 | After an album has been emptied and kept, adding images leaves a non-empty gallery under a null `file_url`. |
| Album.AddSettingCoverKeepsCover | app/admin/page.tsx:247 | With the cover written along, adding keeps `file_url` equal to the first gallery entry for every album, the emptied one included. |
| Album.EditKeepsCover | app/admin/page.tsx:239-259 | One add (with the cover written along) or one remove keeps an album an album whose `file_url` mirrors the first gallery entry. |
| Album.EditsKeepCover | app/admin/page.tsx:239-259 | Any series of adds (with the cover written along) and removes keeps an album's `file_url` equal to the first gallery entry, or null when the gallery is empty, for as long as the album exists. |

## Findings

| source | as written | input that shows it | evidently intended | confidence | as-written member | corrected member |
|---|---|---|---|---|---|---|
| app/admin/page.tsx:247 | Adding images updates only `gallery` and never `file_url`. | An album whose last image was removed and kept empty (`gallery = []`, `file_url = null`, line 255); then one image is added. | Once the gallery is non-empty again, `file_url` is its first entry, as for new albums (line 209) and after every removal (line 256). | medium, not executed | Album.AddToAlbum (shown by Album.AddToEmptiedAlbumLosesCover) | Album.AddToAlbumSettingCover (proved by Album.AddSettingCoverKeepsCover, used in Album.EditsKeepCover) |

## Left out

- Database and storage calls (`supabase.from(...)`, `storage.upload`, `getPublicUrl`): these are network I/O. Handlers return the writes and uploads they would issue, and public URLs come from a parameter.
- Failed calls and partial progress: a write or upload that fails midway through a loop has no rollback to model. The upload's own error result is ignored by the source and is not modelled either.
- The `processingOrder` and `uploading` re-entrancy flags, alerts, modal state, form resets and the refetch after each handler: these are UI state, not list logic.
- Indicator ordering by `localeCompare(..., { numeric: true })` (line 92): its result depends on the platform's collation library.
- The update handlers (`handleUpdateTopic`, `handleUpdateActivity`, `saveEditDoc`) and the delete handlers (`deleteTopic`, `deleteActivity`, `deleteDoc`): each is one write of form fields, or one confirmed delete.
- Login and the session flag (`app/login/page.tsx`, line 13 of the dashboard): this is a navigation gate. The public pages, `Header.tsx`, `AdminButton.tsx` and `layout.tsx` are presentation only.
- Integer width: ids and positions are unbounded integers. JavaScript numbers lose precision only above 2^53, far beyond these lists.
- Album.RemoveFromAlbum: takes the gallery as a list. The source's remove button appears only under a present gallery, so the null gallery that would make `filter` throw is not modelled.
