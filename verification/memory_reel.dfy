/** The Memory Reel scrapbook: the list of memories and the add, edit and delete handlers
    as pure list transformations. The clock (`Date.now()`), the object URL of the
    uploaded file and the random tilt are inputs; audio, file reading, local storage and
    scrolling are left out. */
module MemoryReel {
  import opened Wrappers
  import opened Text
  import opened Seqs

  datatype MediaType = Image | Video

  datatype Memory = Memory(
    id: string,
    kind: MediaType,
    src: string,
    caption: string,
    date: string,
    isNew: Option<bool>,
    rotation: Option<real>)

  /** The uploaded file; only its MIME type matters here. */
  datatype File = File(mimeType: string)

  /** The add-memory form. */
  datatype NewMemoryForm = NewMemoryForm(caption: string, date: string, file: Option<File>)

  /** The state the handlers read and write: the memories, the add form and its preview,
      and the edit form (the memory being edited and the new caption and date). */
  datatype Reel = Reel(
    memories: seq<Memory>,
    newMemory: NewMemoryForm,
    previewImage: Option<string>,
    editMemory: Option<Memory>,
    editCaption: string,
    editDate: string)

  /** The media kind a file of this MIME type is shown as. */
  function KindOf(mimeType: string): MediaType
  {
    if StartsWith(mimeType, "video") then Video else Image
  }

  /** The add button is live: a non-empty preview, a caption that is not all white space, and a file. */
  predicate CanAdd(r: Reel)
  {
    && r.previewImage.Some? && r.previewImage.value != ""
    && !AllSpace(r.newMemory.caption)
    && r.newMemory.file.Some?
  }

  /** `handleAddMemory`. When the form is complete a new memory is put in front of the list
      (id from the clock, kind from the MIME type, the caption as typed, marked new) and the
      form is cleared to an empty caption, `today` and no file; otherwise nothing changes. */
  function AddMemory(r: Reel, now: nat, objectUrl: string, tilt: real, today: string): (r': Reel)
    ensures !CanAdd(r) ==> r' == r
    ensures CanAdd(r) ==>
              && |r'.memories| == |r.memories| + 1
              && r'.memories[1..] == r.memories
              && r'.newMemory == NewMemoryForm("", today, None) && r'.previewImage.None?
              && r'.editMemory == r.editMemory
  {
    if r.previewImage.Some? && r.previewImage.value != "" && Trim(r.newMemory.caption) != [] && r.newMemory.file.Some? then
      var m := Memory("mem-" + Decimal(now), KindOf(r.newMemory.file.value.mimeType), objectUrl,
                      r.newMemory.caption, r.newMemory.date, Some(true), Some(tilt));
      assert ([m] + r.memories)[1..] == r.memories;
      r.(memories := [m] + r.memories, newMemory := NewMemoryForm("", today, None), previewImage := None)
    else
      r
  }

  /** The memory an accepted add puts in front: marked new, a video exactly when the MIME type
      starts with "video", caption and date as typed in the form. */
  lemma AddedMemory(r: Reel, now: nat, objectUrl: string, tilt: real, today: string)
    requires CanAdd(r)
    ensures var m := AddMemory(r, now, objectUrl, tilt, today).memories[0];
      && m.isNew == Some(true)
      && (m.kind == Video <==> StartsWith(r.newMemory.file.value.mimeType, "video"))
      && m.caption == r.newMemory.caption && m.date == r.newMemory.date
      && m.src == objectUrl && m.id == "mem-" + Decimal(now)
  {
  }

  /** The edit save button is live: a memory is being edited and the caption is not all white space. */
  predicate CanEdit(r: Reel)
  {
    r.editMemory.Some? && !AllSpace(r.editCaption)
  }

  /** `m` with the edited caption and date when its id is `id`, otherwise `m` itself. */
  function EditOne(m: Memory, id: string, caption: string, date: string): Memory
  {
    if m.id == id then m.(caption := caption, date := date) else m
  }

  /** `handleEditMemory`. When editing is possible every memory with the edited id gets the new
      caption and date (as typed) and the edit form is cleared; otherwise nothing changes. */
  function EditMemory(r: Reel): (r': Reel)
    ensures !CanEdit(r) ==> r' == r
    ensures CanEdit(r) ==>
              && |r'.memories| == |r.memories|
              && r'.editMemory.None? && r'.editCaption == "" && r'.editDate == ""
              && r'.newMemory == r.newMemory && r'.previewImage == r.previewImage
  {
    if r.editMemory.Some? && Trim(r.editCaption) != [] then
      var id := r.editMemory.value.id;
      r.(memories := seq(|r.memories|, k requires 0 <= k < |r.memories| =>
                           EditOne(r.memories[k], id, r.editCaption, r.editDate)),
         editMemory := None, editCaption := "", editDate := "")
    else
      r
  }

  /** An accepted edit changes only the caption and date, and only of memories with the
      edited id; length, order and every other field stay as they were. */
  lemma EditChangesOnlyTarget(r: Reel)
    requires CanEdit(r)
    ensures var ms := EditMemory(r).memories;
      && |ms| == |r.memories|
      && forall k :: 0 <= k < |ms| ==>
           && ms[k].id == r.memories[k].id && ms[k].kind == r.memories[k].kind
           && ms[k].src == r.memories[k].src && ms[k].isNew == r.memories[k].isNew
           && ms[k].rotation == r.memories[k].rotation
           && (r.memories[k].id == r.editMemory.value.id ==>
                 ms[k].caption == r.editCaption && ms[k].date == r.editDate)
           && (r.memories[k].id != r.editMemory.value.id ==> ms[k] == r.memories[k])
  {
  }

  /** `handleDeleteMemory` once confirmed: every memory with the id is dropped, every other one
      is kept, as many times as it occurs, in its order. */
  function DeleteMemory(ms: seq<Memory>, id: string, confirmed: bool): (r: seq<Memory>)
    ensures !confirmed ==> r == ms
    ensures confirmed ==> IsSubsequence(r, ms)
    ensures confirmed ==> forall m :: m in r <==> m in ms && m.id != id
    ensures confirmed ==> forall m :: multiset(r)[m] == if m.id != id then multiset(ms)[m] else 0
  {
    if confirmed then
      FilterMultiplicity((m: Memory) => m.id != id, ms);
      Filter((m: Memory) => m.id != id, ms)
    else
      ms
  }

  /** Deleting an id no memory has leaves the list as it is. */
  lemma DeleteAbsentIsIdentity(ms: seq<Memory>, id: string)
    requires forall k :: 0 <= k < |ms| ==> ms[k].id != id
    ensures DeleteMemory(ms, id, true) == ms
  {
    FilterKeepsAll((m: Memory) => m.id != id, ms);
  }

  /** Deleting the same id twice is the same as deleting it once. */
  lemma DeleteIdempotent(ms: seq<Memory>, id: string)
    ensures DeleteMemory(DeleteMemory(ms, id, true), id, true) == DeleteMemory(ms, id, true)
  {
    DeleteAbsentIsIdentity(DeleteMemory(ms, id, true), id);
  }
}
