/** The records of the note-taking application and the pure transforms each
    state handler of the App component applies to its previous state: the
    join of notes with their tags, and the new notes or tags sequence computed
    by onCreateNote, onUpdateNote, onDeleteNote, addTag, deleteTag and
    updateTag. */
module Notes {
  import opened Seqs

  /** A vocabulary entry; `id` is its identity, `text` its display label (the source calls it `label`, a reserved word here). */
  datatype Tag = Tag(id: string, text: string)

  /** A note as stored: it refers to its tags by id only. */
  datatype RawNote = RawNote(id: string, title: string, markdown: string, tagIds: seq<string>)

  /** What the note form submits: the chosen tags are whole records. */
  datatype NoteData = NoteData(title: string, markdown: string, tags: seq<Tag>)

  /** A stored note joined with the tag records it refers to. The join spreads
      the stored note, so `tagIds` is carried along beside `tags`. */
  datatype JoinedNote = JoinedNote(id: string, title: string, markdown: string, tagIds: seq<string>, tags: seq<Tag>)

  /** `tags.map(tag => tag.id)` */
  function TagIds(tags: seq<Tag>): (r: seq<string>)
    ensures |r| == |tags|
    ensures forall i :: 0 <= i < |tags| ==> r[i] == tags[i].id
  {
    Map(tags, (t: Tag) => t.id)
  }

  /** The ids of the stored notes, in order. */
  function NoteIds(notes: seq<RawNote>): (r: seq<string>)
    ensures |r| == |notes|
    ensures forall i :: 0 <= i < |notes| ==> r[i] == notes[i].id
  {
    Map(notes, (n: RawNote) => n.id)
  }

  // ---------------------------------------------------------------------------
  // The projection notesWithTags
  // ---------------------------------------------------------------------------

  /** `tags.filter(tag => tagIds.includes(tag.id))`: the vocabulary entries a
      note refers to, in vocabulary order. */
  function ResolveTags(tagIds: seq<string>, vocabulary: seq<Tag>): (r: seq<Tag>)
    ensures IsSubsequence(r, vocabulary)
    ensures forall t :: t in r <==> t in vocabulary && t.id in tagIds
    ensures forall t :: multiset(r)[t] == if t.id in tagIds then multiset(vocabulary)[t] else 0
  {
    FilterCount(vocabulary, (t: Tag) => t.id in tagIds);
    Filter(vocabulary, (t: Tag) => t.id in tagIds)
  }

  /** `{...note, tags: ...}` for one note. */
  function WithTags(note: RawNote, vocabulary: seq<Tag>): (r: JoinedNote)
    ensures r.id == note.id && r.title == note.title && r.markdown == note.markdown
    ensures r.tagIds == note.tagIds
    ensures forall t :: t in r.tags <==> t in vocabulary && t.id in note.tagIds
    ensures IsSubsequence(r.tags, vocabulary)
    ensures forall t :: multiset(r.tags)[t] == if t.id in note.tagIds then multiset(vocabulary)[t] else 0
  {
    JoinedNote(note.id, note.title, note.markdown, note.tagIds, ResolveTags(note.tagIds, vocabulary))
  }

  /** notesWithTags: every stored note, in order, with its tags resolved
      against the current vocabulary. */
  function NotesWithTags(notes: seq<RawNote>, vocabulary: seq<Tag>): (r: seq<JoinedNote>)
    ensures |r| == |notes|
    ensures forall i :: 0 <= i < |notes| ==>
      && r[i].id == notes[i].id
      && r[i].title == notes[i].title
      && r[i].markdown == notes[i].markdown
      && r[i].tagIds == notes[i].tagIds
    ensures forall i :: 0 <= i < |notes| ==> r[i].tags == ResolveTags(notes[i].tagIds, vocabulary)
    ensures forall i, t :: 0 <= i < |notes| ==>
      (t in r[i].tags <==> t in vocabulary && t.id in notes[i].tagIds)
    ensures forall i :: 0 <= i < |notes| ==> IsSubsequence(r[i].tags, vocabulary)
  {
    Map(notes, (n: RawNote) => WithTags(n, vocabulary))
  }

  /** The resolved tags depend on the note's tag ids only as a set: neither
      their order nor their repetitions matter. */
  lemma ResolveTagsIgnoresOrder(a: seq<string>, b: seq<string>, vocabulary: seq<Tag>)
    requires forall x :: x in a <==> x in b
    ensures ResolveTags(a, vocabulary) == ResolveTags(b, vocabulary)
  {
    FilterExtensional(vocabulary, (t: Tag) => t.id in a, (t: Tag) => t.id in b);
  }

  /** A record that occurs twice in the vocabulary is resolved twice. */
  lemma ResolveTagsKeepsCopies()
    ensures ResolveTags(["t1"], [Tag("t1", "work"), Tag("t1", "work")])
         == [Tag("t1", "work"), Tag("t1", "work")]
  {
  }

  /** An id the vocabulary does not hold resolves to nothing. */
  lemma ResolveTagsSkipsDangling(tagIds: seq<string>, vocabulary: seq<Tag>, id: string)
    requires id !in TagIds(vocabulary)
    ensures forall t :: t in ResolveTags(tagIds, vocabulary) ==> t.id != id
  {
  }

  // ---------------------------------------------------------------------------
  // onCreateNote
  // ---------------------------------------------------------------------------

  /** The note onCreateNote builds: the form's title and markdown, the
      generated id, and the ids of the chosen tags. */
  function MakeNote(id: string, data: NoteData): (r: RawNote)
    ensures r.id == id && r.title == data.title && r.markdown == data.markdown
    ensures |r.tagIds| == |data.tags|
    ensures forall i :: 0 <= i < |data.tags| ==> r.tagIds[i] == data.tags[i].id
  {
    RawNote(id, data.title, data.markdown, TagIds(data.tags))
  }

  /** `[...prevNotes, note]` */
  function CreateNote(notes: seq<RawNote>, id: string, data: NoteData): (r: seq<RawNote>)
    ensures |r| == |notes| + 1
    ensures r[..|notes|] == notes
    ensures r[|notes|] == MakeNote(id, data)
  {
    notes + [MakeNote(id, data)]
  }

  /** A fresh id keeps note ids unique, and it is the only id added. */
  lemma CreateNoteIds(notes: seq<RawNote>, id: string, data: NoteData)
    ensures NoteIds(CreateNote(notes, id, data)) == NoteIds(notes) + [id]
    ensures Distinct(NoteIds(notes)) && id !in NoteIds(notes) ==>
      Distinct(NoteIds(CreateNote(notes, id, data)))
  {
  }

  /** The new note joins, at the end of the projection, with exactly the
      vocabulary entries whose ids were among the chosen tags; every chosen
      tag still in the vocabulary shows up. */
  lemma CreateNoteProjection(notes: seq<RawNote>, vocabulary: seq<Tag>, id: string, data: NoteData)
    ensures NotesWithTags(CreateNote(notes, id, data), vocabulary)
         == NotesWithTags(notes, vocabulary) + [WithTags(MakeNote(id, data), vocabulary)]
    ensures forall t :: t in WithTags(MakeNote(id, data), vocabulary).tags <==>
      t in vocabulary && t.id in TagIds(data.tags)
    ensures forall t :: t in data.tags && t in vocabulary ==>
      t in WithTags(MakeNote(id, data), vocabulary).tags
  {
  }

  // ---------------------------------------------------------------------------
  // onUpdateNote
  // ---------------------------------------------------------------------------

  /** `{...note, ...data, tagIds}`: new content, same id. */
  function ApplyEdit(note: RawNote, data: NoteData): (r: RawNote)
    ensures r.id == note.id
    ensures r.title == data.title && r.markdown == data.markdown
    ensures |r.tagIds| == |data.tags|
    ensures forall i :: 0 <= i < |data.tags| ==> r.tagIds[i] == data.tags[i].id
  {
    note.(title := data.title, markdown := data.markdown, tagIds := TagIds(data.tags))
  }

  /** `prevNotes.map(note => note.id === id ? {...note, ...data, tagIds} : note)` */
  function UpdateNote(notes: seq<RawNote>, id: string, data: NoteData): (r: seq<RawNote>)
    ensures |r| == |notes|
    ensures NoteIds(r) == NoteIds(notes)
    ensures forall i :: 0 <= i < |notes| && notes[i].id == id ==>
      r[i] == RawNote(id, data.title, data.markdown, TagIds(data.tags))
    ensures forall i :: 0 <= i < |notes| && notes[i].id != id ==> r[i] == notes[i]
    ensures id !in NoteIds(notes) ==> r == notes
  {
    Map(notes, (n: RawNote) => if n.id == id then ApplyEdit(n, data) else n)
  }

  /** Submitting the same edit twice leaves what submitting it once leaves. */
  lemma UpdateNoteIdempotent(notes: seq<RawNote>, id: string, data: NoteData)
    ensures UpdateNote(UpdateNote(notes, id, data), id, data) == UpdateNote(notes, id, data)
  {
  }

  // ---------------------------------------------------------------------------
  // onDeleteNote
  // ---------------------------------------------------------------------------

  /** `prevNotes.filter(note => note.id !== id)` */
  function DeleteNote(notes: seq<RawNote>, id: string): (r: seq<RawNote>)
    ensures IsSubsequence(r, notes)
    ensures forall n :: n in r <==> n in notes && n.id != id
    ensures forall n :: multiset(r)[n] == if n.id != id then multiset(notes)[n] else 0
  {
    FilterCount(notes, (n: RawNote) => n.id != id);
    Filter(notes, (n: RawNote) => n.id != id)
  }

  /** Deleting an id no note has changes nothing. */
  lemma DeleteNoteMissing(notes: seq<RawNote>, id: string)
    requires id !in NoteIds(notes)
    ensures DeleteNote(notes, id) == notes
  {
    FilterAll(notes, (n: RawNote) => n.id != id);
  }

  /** Deleting twice is deleting once. */
  lemma DeleteNoteIdempotent(notes: seq<RawNote>, id: string)
    ensures DeleteNote(DeleteNote(notes, id), id) == DeleteNote(notes, id)
  {
    FilterIdempotent(notes, (n: RawNote) => n.id != id);
  }

  /** The ids left are the old ids without id, in order; so unique ids stay unique. */
  lemma DeleteNoteIds(notes: seq<RawNote>, id: string)
    ensures NoteIds(DeleteNote(notes, id)) == Filter(NoteIds(notes), (x: string) => x != id)
    ensures Distinct(NoteIds(notes)) ==> Distinct(NoteIds(DeleteNote(notes, id)))
  {
    FilterMap(notes, (n: RawNote) => n.id, (n: RawNote) => n.id != id, (x: string) => x != id);
    if Distinct(NoteIds(notes)) {
      FilterDistinct(NoteIds(notes), (x: string) => x != id);
    }
  }

  /** With unique ids, deleting a present id removes exactly that one note
      and leaves the others in their order. */
  lemma DeleteNoteRemovesOne(notes: seq<RawNote>, id: string)
    requires Distinct(NoteIds(notes)) && id in NoteIds(notes)
    ensures |DeleteNote(notes, id)| == |notes| - 1
    ensures exists k :: (0 <= k < |notes| && notes[k].id == id &&
      DeleteNote(notes, id) == notes[..k] + notes[k + 1..])
  {
    var ids := NoteIds(notes);
    var k :| 0 <= k < |ids| && ids[k] == id;
    forall i | 0 <= i < |notes| && i != k ensures notes[i].id != id {
      if i < k { assert ids[i] != ids[k]; } else { assert ids[k] != ids[i]; }
    }
    FilterDropsOne(notes, (n: RawNote) => n.id != id, k);
  }

  // ---------------------------------------------------------------------------
  // addTag
  // ---------------------------------------------------------------------------

  /** `[...prev, tag]` */
  function AppendTag(tags: seq<Tag>, tag: Tag): (r: seq<Tag>)
    ensures |r| == |tags| + 1
    ensures r[..|tags|] == tags
    ensures r[|tags|] == tag
  {
    tags + [tag]
  }

  /** Tag ids stay unique when the added tag's id is fresh. */
  lemma AppendTagFresh(tags: seq<Tag>, tag: Tag)
    requires Distinct(TagIds(tags)) && tag.id !in TagIds(tags)
    ensures Distinct(TagIds(AppendTag(tags, tag)))
  {
  }

  /** addTag does not check ids: adding an id already present makes two tags
      share it. */
  lemma AppendTagDuplicate(tags: seq<Tag>, tag: Tag)
    requires tag.id in TagIds(tags)
    ensures !Distinct(TagIds(AppendTag(tags, tag)))
  {
  }

  /** After an add, each note additionally shows the new tag exactly when it
      refers to its id; its other tags are as before. */
  lemma AppendTagProjection(tagIds: seq<string>, vocabulary: seq<Tag>, tag: Tag)
    ensures ResolveTags(tagIds, AppendTag(vocabulary, tag))
         == ResolveTags(tagIds, vocabulary) + (if tag.id in tagIds then [tag] else [])
  {
    FilterAppend(vocabulary, tag, (t: Tag) => t.id in tagIds);
  }

  // ---------------------------------------------------------------------------
  // deleteTag
  // ---------------------------------------------------------------------------

  /** `prev.filter(tag => tag.id !== id)` */
  function RemoveTag(tags: seq<Tag>, id: string): (r: seq<Tag>)
    ensures IsSubsequence(r, tags)
    ensures forall t :: t in r <==> t in tags && t.id != id
    ensures forall t :: multiset(r)[t] == if t.id != id then multiset(tags)[t] else 0
  {
    FilterCount(tags, (t: Tag) => t.id != id);
    Filter(tags, (t: Tag) => t.id != id)
  }

  /** Deleting an id the vocabulary lacks changes nothing. */
  lemma RemoveTagMissing(tags: seq<Tag>, id: string)
    requires id !in TagIds(tags)
    ensures RemoveTag(tags, id) == tags
  {
    FilterAll(tags, (t: Tag) => t.id != id);
  }

  /** The ids left are the old ids without id; unique ids stay unique. */
  lemma RemoveTagIds(tags: seq<Tag>, id: string)
    ensures TagIds(RemoveTag(tags, id)) == Filter(TagIds(tags), (x: string) => x != id)
    ensures Distinct(TagIds(tags)) ==> Distinct(TagIds(RemoveTag(tags, id)))
  {
    FilterMap(tags, (t: Tag) => t.id, (t: Tag) => t.id != id, (x: string) => x != id);
    if Distinct(TagIds(tags)) {
      FilterDistinct(TagIds(tags), (x: string) => x != id);
    }
  }

  /** With unique tag ids, deleting a present id removes exactly that one tag
      and leaves the others in their order. */
  lemma RemoveTagRemovesOne(tags: seq<Tag>, id: string)
    requires Distinct(TagIds(tags)) && id in TagIds(tags)
    ensures |RemoveTag(tags, id)| == |tags| - 1
    ensures exists k :: (0 <= k < |tags| && tags[k].id == id &&
      RemoveTag(tags, id) == tags[..k] + tags[k + 1..])
  {
    var ids := TagIds(tags);
    var k :| 0 <= k < |ids| && ids[k] == id;
    forall i | 0 <= i < |tags| && i != k ensures tags[i].id != id {
      if i < k { assert ids[i] != ids[k]; } else { assert ids[k] != ids[i]; }
    }
    FilterDropsOne(tags, (t: Tag) => t.id != id, k);
  }

  /** No cascade: deleting a tag leaves every stored note as it was, and the
      next projection shows each note's former tags minus the deleted one. */
  lemma RemoveTagProjection(notes: seq<RawNote>, vocabulary: seq<Tag>, id: string)
    ensures forall i :: 0 <= i < |notes| ==>
      NotesWithTags(notes, RemoveTag(vocabulary, id))[i]
        == NotesWithTags(notes, vocabulary)[i].(tags := RemoveTag(NotesWithTags(notes, vocabulary)[i].tags, id))
  {
    forall i | 0 <= i < |notes|
      ensures ResolveTags(notes[i].tagIds, RemoveTag(vocabulary, id))
           == RemoveTag(ResolveTags(notes[i].tagIds, vocabulary), id)
    {
      FilterCommutes(vocabulary, (t: Tag) => t.id != id, (t: Tag) => t.id in notes[i].tagIds);
    }
  }

  // ---------------------------------------------------------------------------
  // updateTag
  // ---------------------------------------------------------------------------

  /** updateTag as written: `prev.map(tag => tag.id !== id ? {...tag, label} : tag)`.
      Every tag EXCEPT the one named gets the new label. */
  function RelabelOthers(tags: seq<Tag>, id: string, newLabel: string): (r: seq<Tag>)
    ensures |r| == |tags|
    ensures TagIds(r) == TagIds(tags)
    ensures forall i :: 0 <= i < |tags| && tags[i].id != id ==> r[i] == Tag(tags[i].id, newLabel)
    ensures forall i :: 0 <= i < |tags| && tags[i].id == id ==> r[i] == tags[i]
    ensures id !in TagIds(tags) ==> forall i :: 0 <= i < |r| ==> r[i].text == newLabel
  {
    Map(tags, (t: Tag) => if t.id != id then t.(text := newLabel) else t)
  }

  /** The evident intent of updateTag: the tag named gets the new label, the
      others are untouched, and a missing id changes nothing. */
  function RenameTag(tags: seq<Tag>, id: string, newLabel: string): (r: seq<Tag>)
    ensures |r| == |tags|
    ensures TagIds(r) == TagIds(tags)
    ensures forall i :: 0 <= i < |tags| && tags[i].id == id ==> r[i] == Tag(id, newLabel)
    ensures forall i :: 0 <= i < |tags| && tags[i].id != id ==> r[i] == tags[i]
    ensures id !in TagIds(tags) ==> r == tags
  {
    Map(tags, (t: Tag) => if t.id == id then t.(text := newLabel) else t)
  }

  /** The code as written and the intended rename disagree as soon as the
      vocabulary holds a tag with another id and another label. */
  lemma RelabelOthersDiffers(tags: seq<Tag>, id: string, newLabel: string, k: nat)
    requires k < |tags| && tags[k].id != id && tags[k].text != newLabel
    ensures RelabelOthers(tags, id, newLabel)[k].text == newLabel
    ensures RenameTag(tags, id, newLabel)[k].text == tags[k].text
    ensures RelabelOthers(tags, id, newLabel) != RenameTag(tags, id, newLabel)
  {
  }

  /** The concrete case: renaming "t1" to "personal" in [t1:work, t2:home]. */
  lemma RelabelOthersExample()
    ensures RelabelOthers([Tag("t1", "work"), Tag("t2", "home")], "t1", "personal")
         == [Tag("t1", "work"), Tag("t2", "personal")]
    ensures RenameTag([Tag("t1", "work"), Tag("t2", "home")], "t1", "personal")
         == [Tag("t1", "personal"), Tag("t2", "home")]
  {
  }

  /** Both relabellings keep ids, so unique ids stay unique. */
  lemma RelabelKeepsIdsDistinct(tags: seq<Tag>, id: string, newLabel: string)
    requires Distinct(TagIds(tags))
    ensures Distinct(TagIds(RelabelOthers(tags, id, newLabel)))
    ensures Distinct(TagIds(RenameTag(tags, id, newLabel)))
  {
  }

  /** A rename shows through the join without touching any note: each note's
      resolved tags are the old ones with the new label applied. The same holds
      of the code as written. */
  lemma RenameTagProjection(tagIds: seq<string>, vocabulary: seq<Tag>, id: string, newLabel: string)
    ensures ResolveTags(tagIds, RenameTag(vocabulary, id, newLabel))
         == RenameTag(ResolveTags(tagIds, vocabulary), id, newLabel)
    ensures ResolveTags(tagIds, RelabelOthers(vocabulary, id, newLabel))
         == RelabelOthers(ResolveTags(tagIds, vocabulary), id, newLabel)
  {
    var keep := (t: Tag) => t.id in tagIds;
    FilterMap(vocabulary, (t: Tag) => if t.id == id then t.(text := newLabel) else t, keep, keep);
    FilterMap(vocabulary, (t: Tag) => if t.id != id then t.(text := newLabel) else t, keep, keep);
  }
}
