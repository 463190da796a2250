# Note manager: the note store, modelled in Dafny

The note manager is a command-line tool that keeps short text notes, each
identified by its title, in a file named `notes.json`. Every command loads
the whole collection from that file. `add` and `remove` may change the
collection and then write the whole of it back. `read` and `list` only load.

This project models the note store of `notes.js`. It is in two files:

- `collection.dfy` (module `NoteCollection`): the pure part. It has the
  `Note` record, the lookup by title (`Find`, the array's `find`), the two
  filters that `removeNote` runs (`Keep` and `Matching`), the collection after
  an add (`AppendIfAbsent`), and lemmas. The lemmas show that titles stay
  unique, that the filters partition the collection and keep its order, and
  what a read finds after an add.
- `store.dfy` (module `NoteStore`): the stateful part. The notes file is the
  field `file` of class `Store`, an `Artifact`: `Missing`, `Unreadable`, or
  `Stored(notes)`. `LoadNotes` turns a missing or unreadable file into the
  empty collection, as the `try`/`catch` of `loadNotes` does. `SaveNotes`
  overwrites the field. `AddNote`, `RemoveNote`, `ReadNote` and `ListNotes`
  follow the four exported functions step by step. They return an `Outcome`
  (`Added`, `TitleTaken`, `Removed`, `NotFound`, `Found(body)`) in place of
  the console message. `ListNotes` returns the notes it visits, in order.
  `ShoppingSession` is an example session against an empty store: an add,
  a rejected add under the same title, a remove, then a read that misses.

The unique-title rule is checked only when a note is added. The model does
not assume it. Each mutating command instead promises that it keeps titles
unique if they were unique before.

Points where the model follows the code closely:

- `listNotes` runs one `forEach` over the loaded array, so `ListNotes` is a
  loop.
- Saving what was loaded from a missing file creates a file holding `[]`,
  and saving what was loaded from an unreadable file replaces its content.
  So `SaveNotes` promises `Notes() == notes`, not that `file` is unchanged.
- A failed `add` or `remove` writes nothing, so an unreadable file stays
  as it was. A successful `add` replaces an unreadable file with a
  one-note collection. An unreadable file loads as `[]`, so `remove`
  always reports not found on it.

## Model

| member | source | states |
|---|---|---|
| `NoteCollection.Find` | notes.js:81 | None exactly when no note has the title. Otherwise the result is the note at the first index with that title. |
| `NoteCollection.Keep` | notes.js:50 | The result is never longer than the input. A note is in it exactly when it is in the input and its title differs from the argument. |
| `NoteCollection.Matching` | notes.js:51 | A note is in the result exactly when it is in the input and has the argument title. The result is empty exactly when no note has that title. |
| `NoteCollection.AppendIfAbsent` | notes.js:27-34 | When the title is taken, the collection is unchanged. Otherwise it grows by one: the earlier notes are unchanged and in order, and `Note(t, b)` is last. |
| `NoteCollection.AppendIfAbsentPreservesUnique` | notes.js:27-34 | Adding under the add-unless-taken rule keeps titles unique. |
| `NoteCollection.FindAfterAppend` | notes.js:27-36 | After an add under a free title, looking up that title yields the added note and its body. |
| `NoteCollection.Partition` | notes.js:50-51 | `keep` and `remove` split the loaded notes: their multisets add up to the loaded multiset, and their lengths add up to its length. |
| `NoteCollection.KeepDistributes` | notes.js:50 | Filtering a concatenation gives the filtered parts concatenated, so the kept notes keep their relative order. |
| `NoteCollection.KeepAbsent` | notes.js:50-61 | When no note has the title, `keep` equals the loaded collection. Skipping the save in that case therefore loses nothing. |
| `NoteCollection.KeepPreservesUnique` | notes.js:50-57 | Saving `keep` keeps titles unique. |
| `NoteCollection.UniqueMatchesAtMostOne` | notes.js:51-57 | When titles are unique, at most one note matches, so "remove all matches" removes at most one note. |
| `NoteCollection.AddAll` | notes.js:17-36 | A run of adds never removes or reorders the earlier notes, and grows the collection by at most the number of adds. |
| `NoteCollection.AddAllDistinct` | notes.js:17-36 | Successive adds whose titles are pairwise distinct and not taken append exactly those notes, in the order added. The earlier notes need not have unique titles. |
| `NoteStore.LoadNotes` | notes.js:112-131 | A missing or unreadable file loads as the empty collection, not as an error. A stored collection loads as itself. |
| `NoteStore.Store.SaveNotes` | notes.js:107-110 | The file holds exactly the given collection, and loading it again gives that collection back. |
| `NoteStore.Store.AddNote` | notes.js:17-44 | The result is "title taken" exactly when the loaded notes have the title, and then the file is untouched. Otherwise the result is "added" and the file holds the loaded notes plus `Note(t, b)` at the end. Unique titles are preserved. |
| `NoteStore.Store.RemoveNote` | notes.js:46-63 | The result is "not found" exactly when no loaded note has the title, and then the file is untouched. Otherwise the result is "removed" and the file holds `Keep` of the loaded notes. The stored length equals the loaded length minus the number of matches, no stored note has the title afterwards, and unique titles are preserved. |
| `NoteStore.Store.ReadNote` | notes.js:77-90 | The result is "not found" exactly when no stored note has the title. Otherwise it is the body of the first note with that title. Nothing is written. |
| `NoteStore.Store.ListNotes` | notes.js:65-75 | Visits every stored note exactly once, in stored order, and writes nothing. A missing or unreadable file lists as empty. |

## Left out

- `app.js`: registering the commands with the yargs library and checking that required flags are present. The library does that checking, and there is no logic of its own to model.
- File input and output (`fs.readFileSync` and `fs.writeFileSync`). The file is the `file` field. Any failure to read it is the `Missing` or `Unreadable` artifact.
- JSON encoding and decoding (`JSON.stringify` and `JSON.parse`). Their text format is library behaviour. A stored collection is modelled as already decoded.
- A file that parses as JSON but is not an array of `{title, body}` objects. When the parsed value is not an array (an object, string, number or `null`), the `find`, `filter` or `forEach` call throws. An array element that is `null` also throws when its `title` is read. Other elements without a string `title`, such as numbers or objects missing `title`, have `undefined` as their title, which never equals a given title. In that case `add` appends and saves them back, `read` and `remove` report not found, and `list` prints `undefined`. The model's artifacts are only missing, unreadable, or an array of notes with string fields.
- Titles and bodies are Dafny strings, which are sequences of Unicode scalar values. JavaScript strings are UTF-16 code units and can hold lone surrogates (for example in a hand-edited file). Only equality of strings is used, so behaviour on valid text is the same.
- Terminal styling with chalk and the exact console messages, including the header lines of `list` and its `title<TAB><TAB><TAB>body` rows. The messages are `Outcome` values, and `ListNotes` returns the notes it would print.
- Two processes running at the same time and overwriting each other's file. That is a concurrency matter, outside a sequential model.
