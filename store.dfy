/** The note store: the notes file on disk and the four note commands, each of
    which loads the whole collection, works on it in memory and, when it
    changes something, writes the whole collection back. */
module NoteStore {
  import opened NoteCollection

  /** What the notes file holds when a command starts: no file yet, a file whose
      content does not read back as a collection, or a stored collection. */
  datatype Artifact = Missing | Unreadable | Stored(notes: seq<Note>)

  /** What a command reports to the user instead of printing it. */
  datatype Outcome = Added | TitleTaken | Removed | NotFound | Found(body: string)

  /** Loading the collection: a missing or unreadable file counts as an empty
      collection rather than an error. */
  function LoadNotes(a: Artifact): (r: seq<Note>)
    ensures !a.Stored? ==> r == []
    ensures a.Stored? ==> r == a.notes
  {
    match a
    case Stored(notes) => notes
    case _ => []
  }

  class Store {
    /** The persisted notes file. */
    var file: Artifact

    constructor (file: Artifact)
      ensures this.file == file
    {
      this.file := file;
    }

    /** The collection a command loading now would see. */
    function Notes(): seq<Note>
      reads this
    {
      LoadNotes(file)
    }

    /** Overwrites the notes file with the whole collection `notes`; loading
        afterwards gives back exactly `notes`. */
    method SaveNotes(notes: seq<Note>)
      modifies this
      ensures file == Stored(notes)
      ensures Notes() == notes
    {
      file := Stored(notes);
    }

    /** Adds `Note(t, b)` at the end unless a note with title `t` exists; a
        taken title leaves the file exactly as it was. */
    method AddNote(t: string, b: string) returns (r: Outcome)
      modifies this
      ensures r == TitleTaken <==> HasTitle(old(Notes()), t)
      ensures r == TitleTaken || r == Added
      ensures r == TitleTaken ==> file == old(file)
      ensures r == Added ==> file == Stored(old(Notes()) + [Note(t, b)])
      ensures Notes() == AppendIfAbsent(old(Notes()), t, b)
      ensures UniqueTitles(old(Notes())) ==> UniqueTitles(Notes())
    {
      var notes := LoadNotes(file);
      ghost var loaded := notes;
      var duplicate := Find(notes, t);
      if duplicate.None? {
        notes := notes + [Note(t, b)];
        SaveNotes(notes);
        r := Added;
      } else {
        r := TitleTaken;
      }
      if UniqueTitles(loaded) {
        AppendIfAbsentPreservesUnique(loaded, t, b);
      }
    }

    /** Removes every note with title `t`, keeping the others in their order;
        when none matches, nothing is written and the file stays as it was. */
    method RemoveNote(t: string) returns (r: Outcome)
      modifies this
      ensures r == NotFound <==> !HasTitle(old(Notes()), t)
      ensures r == NotFound || r == Removed
      ensures r == NotFound ==> file == old(file)
      ensures r == Removed ==> file == Stored(Keep(old(Notes()), t))
      ensures |Notes()| + |Matching(old(Notes()), t)| == |old(Notes())|
      ensures !HasTitle(Notes(), t)
      ensures UniqueTitles(old(Notes())) ==> UniqueTitles(Notes())
    {
      var notes := LoadNotes(file);
      var keep := Keep(notes, t);
      var remove := Matching(notes, t);
      Partition(notes, t);
      if |remove| != 0 {
        SaveNotes(keep);
        r := Removed;
        forall i | 0 <= i < |keep| ensures keep[i].title != t {
          assert keep[i] in keep;
        }
        if UniqueTitles(notes) {
          KeepPreservesUnique(notes, t);
        }
      } else {
        r := NotFound;
      }
    }

    /** Reports the body of the first note titled `t`, or NotFound. */
    method ReadNote(t: string) returns (r: Outcome)
      ensures r == NotFound <==> !HasTitle(Notes(), t)
      ensures r == NotFound || r.Found?
      ensures r.Found? ==> exists i | 0 <= i < |Notes()| ::
                             Notes()[i].title == t && Notes()[i].body == r.body &&
                             forall j | 0 <= j < i :: Notes()[j].title != t
    {
      var notes := LoadNotes(file);
      var noteToRead := Find(notes, t);
      if noteToRead.Some? {
        r := Found(noteToRead.value.body);
      } else {
        r := NotFound;
      }
    }

    /** Visits the stored notes one at a time and returns them in the order
        they were visited: every note once, in stored order. */
    method ListNotes() returns (listed: seq<Note>)
      ensures listed == Notes()
    {
      var notes := LoadNotes(file);
      listed := [];
      var i := 0;
      while i < |notes|
        invariant 0 <= i <= |notes|
        invariant listed == notes[..i]
      {
        listed := listed + [notes[i]];
        i := i + 1;
      }
    }
  }

  /** An example session against an empty store: an add, a rejected add under
      the same title, a remove, then a read that misses. */
  method ShoppingSession(store: Store)
    modifies store
    requires store.Notes() == []
  {
    var r := store.AddNote("Shopping", "Milk,Eggs");
    assert r == Added;
    var listed := store.ListNotes();
    assert listed == [Note("Shopping", "Milk,Eggs")];
    assert HasTitle(store.Notes(), "Shopping") by {
      assert store.Notes()[0].title == "Shopping";
    }
    r := store.AddNote("Shopping", "Bread");
    assert r == TitleTaken;
    listed := store.ListNotes();
    assert listed == [Note("Shopping", "Milk,Eggs")];
    assert HasTitle(store.Notes(), "Shopping") by {
      assert store.Notes()[0].title == "Shopping";
    }
    r := store.RemoveNote("Shopping");
    assert r == Removed;
    listed := store.ListNotes();
    assert listed == [];
    r := store.ReadNote("Shopping");
    assert r == NotFound;
  }
}
