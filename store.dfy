/** The App component's two state cells and its six handlers. Each handler
    reads the previous value of one cell, computes the next value with a pure
    transform of module Notes, and writes it back; the other cell is left as
    it was. */
module Store {
  import opened Seqs
  import opened Notes

  class NoteStore {
    /** The `notes` cell (storage key "NOTES"). */
    var notes: seq<RawNote>
    /** The `tags` cell (storage key "TAGS"). */
    var tags: seq<Tag>

    /** Note ids are unique: every id comes from the id generator, which never
        repeats itself, and no handler changes an id. */
    ghost predicate Valid()
      reads this
    {
      Distinct(NoteIds(notes))
    }

    /** First run: both cells start out as the empty sequence. */
    constructor ()
      ensures Valid()
      ensures notes == [] && tags == []
    {
      notes := [];
      tags := [];
    }

    /** notesWithTags, recomputed from the current cells. */
    method ListNotesWithTags() returns (r: seq<JoinedNote>)
      ensures r == NotesWithTags(notes, tags)
    {
      r := NotesWithTags(notes, tags);
    }

    /** onCreateNote; `id` stands for the value of uuidV4(). */
    method OnCreateNote(id: string, data: NoteData)
      requires Valid()
      requires id !in NoteIds(notes)
      modifies this
      ensures Valid()
      ensures notes == CreateNote(old(notes), id, data)
      ensures tags == old(tags)
    {
      CreateNoteIds(notes, id, data);
      notes := CreateNote(notes, id, data);
    }

    /** onUpdateNote */
    method OnUpdateNote(id: string, data: NoteData)
      requires Valid()
      modifies this
      ensures Valid()
      ensures notes == UpdateNote(old(notes), id, data)
      ensures NoteIds(notes) == NoteIds(old(notes))
      ensures tags == old(tags)
    {
      notes := UpdateNote(notes, id, data);
    }

    /** addTag; the caller chooses the new tag's id, and it is not checked. */
    method AddTag(tag: Tag)
      requires Valid()
      modifies this
      ensures Valid()
      ensures tags == AppendTag(old(tags), tag)
      ensures notes == old(notes)
      ensures Distinct(TagIds(old(tags))) && tag.id !in TagIds(old(tags)) ==> Distinct(TagIds(tags))
    {
      if Distinct(TagIds(tags)) && tag.id !in TagIds(tags) {
        AppendTagFresh(tags, tag);
      }
      tags := AppendTag(tags, tag);
    }

    /** onDeleteNote */
    method OnDeleteNote(id: string)
      requires Valid()
      modifies this
      ensures Valid()
      ensures notes == DeleteNote(old(notes), id)
      ensures id !in NoteIds(old(notes)) ==> notes == old(notes)
      ensures id in NoteIds(old(notes)) ==> |notes| == |old(notes)| - 1
      ensures tags == old(tags)
    {
      DeleteNoteIds(notes, id);
      if id !in NoteIds(notes) {
        DeleteNoteMissing(notes, id);
      } else {
        DeleteNoteRemovesOne(notes, id);
      }
      notes := DeleteNote(notes, id);
    }

    /** deleteTag: the vocabulary loses the tag, and no note's tagIds changes. */
    method DeleteTag(id: string)
      requires Valid()
      modifies this
      ensures Valid()
      ensures tags == RemoveTag(old(tags), id)
      ensures id !in TagIds(old(tags)) ==> tags == old(tags)
      ensures Distinct(TagIds(old(tags))) ==> Distinct(TagIds(tags))
      ensures notes == old(notes)
      ensures forall i :: 0 <= i < |notes| ==>
        NotesWithTags(notes, tags)[i].tags == RemoveTag(NotesWithTags(notes, old(tags))[i].tags, id)
    {
      RemoveTagProjection(notes, tags, id);
      RemoveTagIds(tags, id);
      if id !in TagIds(tags) {
        RemoveTagMissing(tags, id);
      }
      tags := RemoveTag(tags, id);
    }

    /** updateTag as the source has it: every tag whose id is NOT `id` takes
        the new label, and the tag named `id` keeps its own. */
    method UpdateTag(id: string, newLabel: string)
      requires Valid()
      modifies this
      ensures Valid()
      ensures tags == RelabelOthers(old(tags), id, newLabel)
      ensures TagIds(tags) == TagIds(old(tags))
      ensures notes == old(notes)
      ensures forall i :: 0 <= i < |notes| ==>
        NotesWithTags(notes, tags)[i].tags == RelabelOthers(NotesWithTags(notes, old(tags))[i].tags, id, newLabel)
    {
      forall i | 0 <= i < |notes|
        ensures ResolveTags(notes[i].tagIds, RelabelOthers(tags, id, newLabel))
             == RelabelOthers(ResolveTags(notes[i].tagIds, tags), id, newLabel)
      {
        RenameTagProjection(notes[i].tagIds, tags, id, newLabel);
      }
      tags := RelabelOthers(tags, id, newLabel);
    }
  }

  /** Add a tag, create a note that carries it, then delete the tag: the
      stored note keeps the tag's id, and the projection drops the tag. */
  method TagLifecycle()
  {
    var store := new NoteStore();
    var work := Tag("t1", "work");
    store.AddTag(work);
    assert TagIds([work]) == ["t1"];
    store.OnCreateNote("n1", NoteData("A", "x", [work]));
    assert store.notes == [RawNote("n1", "A", "x", ["t1"])];
    var view := store.ListNotesWithTags();
    assert view[0].tags == [work];
    store.DeleteTag("t1");
    assert store.notes == [RawNote("n1", "A", "x", ["t1"])];
    view := store.ListNotesWithTags();
    assert view[0].tags == [];
  }

  /** Renaming the only tag through updateTag as written: the note still shows
      the old label, since only tags with another id are relabelled. */
  method RenameOnlyTag()
  {
    var store := new NoteStore();
    var work := Tag("t1", "work");
    store.AddTag(work);
    assert TagIds([work]) == ["t1"];
    store.OnCreateNote("n1", NoteData("A", "x", [work]));
    store.UpdateTag("t1", "personal");
    var view := store.ListNotesWithTags();
    assert view[0].tags == [Tag("t1", "work")];
  }

  /** Deleting the first of two notes leaves exactly the second. */
  method DeleteFirstOfTwo(data: NoteData)
  {
    var store := new NoteStore();
    store.OnCreateNote("n1", data);
    store.OnCreateNote("n2", data);
    store.OnDeleteNote("n1");
    assert store.notes == [MakeNote("n2", data)];
  }
}
