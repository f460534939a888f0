# Note/tag store of a note-taking application

This project models the state core of a small React note-taking application
(the `App` component in `src/App.tsx`). The component owns two state cells:

- `notes`, the stored notes `{id, title, markdown, tagIds}`;
- `tags`, the shared tag vocabulary `{id, label}`.

Six handlers change these cells. `onCreateNote`, `onUpdateNote` and
`onDeleteNote` change `notes`. `addTag`, `deleteTag` and `updateTag` change
`tags`. One derived value, `notesWithTags`, joins each stored note with the
vocabulary entries its `tagIds` name.

The project has three modules:

- `Seqs` (`seqs.dfy`): `Map` and `Filter` with the meaning of JavaScript's
  `Array.prototype.map` and `filter`, a subsequence predicate, a
  distinctness predicate, and the generic lemmas about them (filter
  idempotence, commutation of two filters, filter after map, filter of a
  concatenated sequence, removal of a single element, and
  `FilterCount`: every copy of a kept value survives).
- `Notes` (`notes.dfy`): the records `Tag`, `RawNote`, `NoteData` and the
  joined `JoinedNote`. It has one pure transform per handler and the projection
  `NotesWithTags`, with the lemmas that state what each handler does.
- `Store` (`store.dfy`): class `NoteStore` with the two cells as fields and
  one method per handler. Each method assigns the cell it changes from the
  matching pure transform of `Notes` and leaves the other cell alone. Its
  invariant `Valid()` is that note ids are unique. Three client methods
  (`TagLifecycle`, `RenameOnlyTag`, `DeleteFirstOfTwo`) replay short call
  sequences against the class contracts.

The tag field `label` is called `text` in the model because `label` is a
reserved word in Dafny. The parameter `label` of `updateTag` is called
`newLabel`.

Points where the code's behaviour is easy to misread:

- The joined note spreads the stored note (`{...note, tags}`,
  src/App.tsx:22), so it keeps `tagIds` beside `tags`.
- `updateTag` relabels every tag except the one named (see Findings).
- `onDeleteNote` and `deleteTag` remove every entry with the id. They remove
  exactly one entry only when ids are unique (`DeleteNoteRemovesOne` for
  notes, `RemoveTagRemovesOne` for tags).
- `addTag` does not check the new tag's id. So tag ids stay unique only when
  the caller supplies a fresh id (`AppendTagFresh` and `AppendTagDuplicate`).
- Filtering keeps repeated records: a record that occurs twice in the
  vocabulary is resolved twice (`ResolveTagsKeepsCopies`).

## Model

| member | source | states |
|---|---|---|
| Notes.NotesWithTags | src/App.tsx:20-24 | The projection has one entry per stored note, in the same order. Each entry keeps the note's id, title, markdown and tagIds. Its tags are exactly the vocabulary entries whose id is in the note's tagIds, and they form a subsequence of the vocabulary, so they follow vocabulary order. |
| Notes.TagIds | src/App.tsx:28 | `tags.map(tag => tag.id)`: one id per tag, in the same order, each the id of the tag at that position. |
| Notes.ResolveTags | src/App.tsx:22 | A note's resolved tags are a subsequence of the vocabulary. A tag is among them iff it is in the vocabulary and its id is in tagIds. A tag whose id is in tagIds occurs as often as in the vocabulary; any other tag does not occur. |
| Notes.ResolveTagsKeepsCopies | src/App.tsx:22 | A record that occurs twice in the vocabulary and is referred to occurs twice among the resolved tags. |
| Notes.WithTags | src/App.tsx:22 | The joined note keeps the stored note's id, title, markdown and tagIds. Its tags are exactly the vocabulary entries whose id is in tagIds, in vocabulary order, and a tag whose id is in tagIds occurs as often as in the vocabulary. |
| Notes.ResolveTagsIgnoresOrder | src/App.tsx:22 | Two tagIds sequences with the same members resolve to the same tags, whatever their order or repetitions. |
| Notes.ResolveTagsSkipsDangling | src/App.tsx:22 | An id that no vocabulary entry has never shows up among the resolved tags. |
| Notes.MakeNote | src/App.tsx:28 | The note built on create has the generated id, the submitted title and markdown, and the chosen tags' ids in their order. |
| Notes.CreateNote | src/App.tsx:26-30 | The new notes are the old notes followed by exactly one note. That note has the generated id, the given title and markdown, and the ids of the chosen tags in their order. |
| Notes.CreateNoteIds | src/App.tsx:26-30 | Creating a note adds exactly its id at the end of the id sequence. With a fresh id, unique note ids stay unique. |
| Notes.CreateNoteProjection | src/App.tsx:26-30 | After a create, the projection is the old projection plus one entry for the new note. That entry's tags are the vocabulary entries whose ids were chosen. Every chosen tag that is still in the vocabulary appears. |
| Notes.ApplyEdit | src/App.tsx:36 | The edited note keeps its id and takes the submitted title, markdown and the chosen tags' ids in their order. |
| Notes.UpdateNote | src/App.tsx:32-42 | The update keeps the length and every note's id and position. Notes with the id get the new title, markdown and chosen tag ids. Every other note is unchanged. A missing id is a no-op. |
| Notes.UpdateNoteIdempotent | src/App.tsx:32-42 | Applying the same update twice gives the same notes as applying it once. |
| Notes.DeleteNote | src/App.tsx:48-52 | The remaining notes are a subsequence of the old ones. A note remains iff it was present and its id differs from the deleted id. A remaining note occurs as often as before. |
| Notes.DeleteNoteMissing | src/App.tsx:50 | Deleting an id that no note has leaves the notes unchanged. |
| Notes.DeleteNoteIdempotent | src/App.tsx:50 | Deleting the same id twice equals deleting it once. |
| Notes.DeleteNoteIds | src/App.tsx:50 | The remaining ids are the old ids with the deleted id filtered out, in order. Unique note ids stay unique. |
| Notes.DeleteNoteRemovesOne | src/App.tsx:48-52 | With unique ids and the id present, exactly one note goes. That note has the id. The result is the old sequence with that one position cut out. |
| Notes.AppendTag | src/App.tsx:44-46 | The new vocabulary is the old one followed by the given tag, unchanged. |
| Notes.AppendTagFresh | src/App.tsx:45 | Adding a tag whose id is fresh keeps tag ids unique. |
| Notes.AppendTagDuplicate | src/App.tsx:45 | addTag does not check ids. Adding a tag whose id is already present leaves two tags with the same id. |
| Notes.AppendTagProjection | src/App.tsx:45 | After adding a tag, each note's resolved tags are the old ones, followed by the new tag iff the note's tagIds name its id. |
| Notes.RemoveTag | src/App.tsx:54-58 | The remaining tags are a subsequence of the old vocabulary. A tag remains iff it was present and its id differs from the deleted id. A remaining tag occurs as often as before. |
| Notes.RemoveTagMissing | src/App.tsx:56 | Deleting an id that no tag has leaves the vocabulary unchanged. |
| Notes.RemoveTagIds | src/App.tsx:56 | The remaining tag ids are the old ones with the deleted id filtered out. Unique tag ids stay unique. |
| Notes.RemoveTagRemovesOne | src/App.tsx:54-58 | With unique tag ids and the id present, exactly one tag goes. That tag has the id. The result is the old vocabulary with that one position cut out. |
| Notes.RemoveTagProjection | src/App.tsx:54-58 | There is no cascade. Every stored note, including its tagIds, is as before. Each note's projected tags are the old projected tags with the deleted tag filtered out. |
| Notes.RelabelOthers | src/App.tsx:60-70 | updateTag as written keeps the length, order and ids of the vocabulary. Every tag whose id differs from the argument gets the new label. The tag with that id keeps its old label. With a missing id, every tag is relabelled. |
| Notes.RenameTag | src/App.tsx:60-70 | The intended rename keeps the length, order and ids of the vocabulary. The tag with the id gets the new label. All other tags are unchanged. A missing id is a no-op. |
| Notes.RelabelOthersDiffers | src/App.tsx:63 | Suppose the vocabulary holds a tag with another id and another label. Then the code as written gives that tag the new label, the intended rename keeps its label, and the two results differ. |
| Notes.RelabelOthersExample | src/App.tsx:63 | Renaming t1 to "personal" in [t1:work, t2:home] gives [t1:work, t2:personal] as written. The intended result is [t1:personal, t2:home]. |
| Notes.RelabelKeepsIdsDistinct | src/App.tsx:60-70 | Both relabellings keep unique tag ids unique. |
| Notes.RenameTagProjection | src/App.tsx:60-70 | A relabelling, as written or as intended, shows through the projection without any note changing. Each note's resolved tags are the old resolved tags, relabelled the same way. |
| Store.NoteStore.constructor | src/App.tsx:17-18 | Both cells start as the empty sequence, the default used when nothing is stored. |
| Store.NoteStore.ListNotesWithTags | src/App.tsx:20-24 | Returns the projection of the current cells. It changes neither cell. |
| Store.NoteStore.OnCreateNote | src/App.tsx:26-30 | Given an id not used by any note, notes becomes the old notes plus the new note. tags is untouched, and note ids stay unique. |
| Store.NoteStore.OnUpdateNote | src/App.tsx:32-42 | notes becomes the updated sequence, with the same ids in the same positions. tags is untouched. |
| Store.NoteStore.AddTag | src/App.tsx:44-46 | tags becomes the old tags plus the given tag. notes is untouched. Tag ids stay unique when the id is fresh. |
| Store.NoteStore.OnDeleteNote | src/App.tsx:48-52 | notes loses the notes with the id, and is unchanged when the id is absent. Because note ids are unique, a present id removes exactly one note. tags is untouched, and note ids stay unique. |
| Store.NoteStore.DeleteTag | src/App.tsx:54-58 | tags loses the tags with the id, and is unchanged when the id is absent. notes is untouched. Each note's projected tags lose exactly the deleted tag. |
| Store.NoteStore.UpdateTag | src/App.tsx:60-70 | tags becomes the as-written relabelling, with the same ids. notes is untouched. Each note's projected tags are relabelled the same way. |

## Left out

- Rendering, routing and layout (`Container`, `Routes`, `Route`, `Navigate`, src/App.tsx:72-109): presentation only.
- The child components `NewNote`, `NoteList`, `NoteLayout`, `Note` and `EditNote`: presentation only. Their source is not part of this model.
- `useLocalStorage` (src/App.tsx:8, 17-18): the read from storage at start-up, the write-through on every update and the JSON encoding are browser I/O. Its source is not part of this model. The cells are plain fields that start empty, as on first run.
- `uuidV4` (src/App.tsx:4, 28): a random id generator. `OnCreateNote` takes the id as a parameter and requires that no note has it yet, which is the uniqueness the generator provides.
- `useMemo` (src/App.tsx:20, 24): a cache. The projection is recomputed on every call, which gives the same value.
- React's state scheduling: each `setNotes`/`setTags` updater is modelled as applied at once to the current value, one handler after another.
- The type declarations in `./types`: their source is not part of this model. The records follow the fields that App.tsx reads and writes.
- Store.NoteStore.AddTag: its contract does not promise unique tag ids unconditionally, because the source accepts any id. It promises them only when the id is fresh.

## Findings

| source | as written | input that shows it | evidently intended | confidence | as-written member | corrected member |
|---|---|---|---|---|---|---|
| src/App.tsx:63 | `updateTag(id, label)` gives the new label to every tag whose id is NOT `id`. The tag named `id` keeps its label, and a missing id relabels the whole vocabulary. | vocabulary [t1:work, t2:home], `updateTag("t1", "personal")` gives [t1:work, t2:personal] | rename tag `id` only, giving [t1:personal, t2:home]; no-op on a missing id. The handler is named `updateTag(id, label)` and is passed as `onUpdateTag` (src/App.tsx:80). Its sibling `onUpdateNote` selects its target with `note.id === id` (src/App.tsx:35). | high; not executed | Notes.RelabelOthersExample | Notes.RenameTag |

`Store.NoteStore.UpdateTag` models the handler and so keeps the as-written
behaviour (`Notes.RelabelOthers`). `RenameOnlyTag` shows the effect on the
store: after renaming the only tag, the note still shows the old label.
`Notes.RenameTag` holds the intended behaviour, with its no-op-on-miss
property and its projection lemma (`RenameTagProjection`).
