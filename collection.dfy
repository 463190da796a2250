/** The in-memory note collection of the note manager: an ordered sequence of
    title/body records, the lookups and filters the note commands run over it,
    and the facts those commands rely on (titles stay unique, filters partition
    the collection and keep its order). */
module NoteCollection {

  /** A note: its title is the key a user names it by, its body is free text. */
  datatype Note = Note(title: string, body: string)

  datatype Option<T> = None | Some(value: T)

  /** No two notes of the collection share a title. */
  ghost predicate UniqueTitles(s: seq<Note>) {
    forall i, j | 0 <= i < j < |s| :: s[i].title != s[j].title
  }

  /** Some note of the collection has title `t`. */
  ghost predicate HasTitle(s: seq<Note>, t: string) {
    exists i | 0 <= i < |s| :: s[i].title == t
  }

  /** The first note whose title is `t`, as a lookup of the array by title
      returns it, or None when no note has that title. */
  function Find(s: seq<Note>, t: string): (r: Option<Note>)
    ensures r.None? <==> !HasTitle(s, t)
    ensures r.Some? ==> exists i | 0 <= i < |s| :: s[i] == r.value && r.value.title == t &&
                          forall j | 0 <= j < i :: s[j].title != t
  {
    if s == [] then None
    else if s[0].title == t then Some(s[0])
    else
      var r := Find(s[1..], t);
      assert forall j | 1 <= j < |s| :: s[j] == s[1..][j - 1];
      r
  }

  /** The notes whose title differs from `t`, in their original order. */
  function Keep(s: seq<Note>, t: string): (r: seq<Note>)
    ensures |r| <= |s|
    ensures forall n :: n in r <==> n in s && n.title != t
  {
    if s == [] then []
    else if s[0].title != t then [s[0]] + Keep(s[1..], t)
    else Keep(s[1..], t)
  }

  /** The notes whose title is `t`, in their original order. */
  function Matching(s: seq<Note>, t: string): (r: seq<Note>)
    ensures forall n :: n in r <==> n in s && n.title == t
    ensures r == [] <==> !HasTitle(s, t)
  {
    if s == [] then []
    else if s[0].title == t then [s[0]] + Matching(s[1..], t)
    else
      var r := Matching(s[1..], t);
      assert HasTitle(s[1..], t) ==> HasTitle(s, t);
      r
  }

  /** The collection after adding note `Note(t, b)` unless its title is taken:
      either the collection itself or the collection with the new note appended. */
  function AppendIfAbsent(s: seq<Note>, t: string, b: string): (r: seq<Note>)
    ensures HasTitle(s, t) ==> r == s
    ensures !HasTitle(s, t) ==> |r| == |s| + 1 && r[..|s|] == s && r[|s|] == Note(t, b)
  {
    if Find(s, t).None? then s + [Note(t, b)] else s
  }

  /** Adding a note under a title that is not taken keeps the titles unique. */
  lemma AppendIfAbsentPreservesUnique(s: seq<Note>, t: string, b: string)
    requires UniqueTitles(s)
    ensures UniqueTitles(AppendIfAbsent(s, t, b))
  {
  }

  /** After adding a note under a free title, looking that title up yields the
      new note, so a read reports the body just added. */
  lemma FindAfterAppend(s: seq<Note>, t: string, b: string)
    requires !HasTitle(s, t)
    ensures Find(AppendIfAbsent(s, t, b), t) == Some(Note(t, b))
  {
  }

  /** Keep and Matching split the collection: every note lands in exactly one of
      them, so their lengths add up to the length of the collection. */
  lemma {:induction false} Partition(s: seq<Note>, t: string)
    ensures multiset(Keep(s, t)) + multiset(Matching(s, t)) == multiset(s)
    ensures |Keep(s, t)| + |Matching(s, t)| == |s|
  {
    if s != [] {
      Partition(s[1..], t);
      assert s == [s[0]] + s[1..];
    }
  }

  /** Keep is order-preserving: filtering a concatenation is the concatenation
      of the filtered parts, so notes that survive keep their relative order. */
  lemma {:induction false} KeepDistributes(a: seq<Note>, b: seq<Note>, t: string)
    ensures Keep(a + b, t) == Keep(a, t) + Keep(b, t)
  {
    if a == [] {
      assert a + b == b;
    } else {
      var ab := a + b;
      assert ab[0] == a[0];
      assert ab[1..] == a[1..] + b;
      KeepDistributes(a[1..], b, t);
      if a[0].title != t {
        calc {
          Keep(ab, t);
          [a[0]] + Keep(a[1..] + b, t);
          [a[0]] + (Keep(a[1..], t) + Keep(b, t));
          ([a[0]] + Keep(a[1..], t)) + Keep(b, t);
        }
      }
    }
  }

  /** When no note has title `t`, Keep returns the collection unchanged. */
  lemma {:induction false} KeepAbsent(s: seq<Note>, t: string)
    requires !HasTitle(s, t)
    ensures Keep(s, t) == s
  {
    if s != [] {
      assert !HasTitle(s[1..], t) by {
        forall j | 0 <= j < |s[1..]| ensures s[1..][j].title != t {
          assert s[1..][j] == s[j + 1];
        }
      }
      KeepAbsent(s[1..], t);
    }
  }

  /** Removing every note with title `t` keeps the remaining titles unique. */
  lemma {:induction false} KeepPreservesUnique(s: seq<Note>, t: string)
    requires UniqueTitles(s)
    ensures UniqueTitles(Keep(s, t))
  {
    if s != [] {
      assert UniqueTitles(s[1..]) by {
        forall i, j | 0 <= i < j < |s[1..]| ensures s[1..][i].title != s[1..][j].title {
          assert s[1..][i] == s[i + 1] && s[1..][j] == s[j + 1];
        }
      }
      KeepPreservesUnique(s[1..], t);
      if s[0].title != t {
        var rest := Keep(s[1..], t);
        forall k | 0 <= k < |rest| ensures rest[k].title != s[0].title {
          assert rest[k] in s[1..];
          var m :| 0 <= m < |s[1..]| && s[1..][m] == rest[k];
          assert s[m + 1] == rest[k];
        }
      }
    }
  }

  /** With unique titles, at most one note matches a title: removing all
      matches removes at most one note. */
  lemma {:induction false} UniqueMatchesAtMostOne(s: seq<Note>, t: string)
    requires UniqueTitles(s)
    ensures |Matching(s, t)| <= 1
  {
    if s != [] {
      assert UniqueTitles(s[1..]) by {
        forall i, j | 0 <= i < j < |s[1..]| ensures s[1..][i].title != s[1..][j].title {
          assert s[1..][i] == s[i + 1] && s[1..][j] == s[j + 1];
        }
      }
      UniqueMatchesAtMostOne(s[1..], t);
      if s[0].title == t {
        assert !HasTitle(s[1..], t) by {
          forall j | 0 <= j < |s[1..]| ensures s[1..][j].title != t {
            assert s[1..][j] == s[j + 1];
          }
        }
      }
    }
  }

  /** The collection after adding the notes of `ns` one by one, each with the
      add-unless-taken rule. */
  function AddAll(s: seq<Note>, ns: seq<Note>): (r: seq<Note>)
    ensures |s| <= |r| <= |s| + |ns|
    ensures r[..|s|] == s
    decreases |ns|
  {
    if ns == [] then s
    else AddAll(AppendIfAbsent(s, ns[0].title, ns[0].body), ns[1..])
  }

  /** No note of `s` shares its title with a note of `ns`. */
  ghost predicate TitlesDisjoint(s: seq<Note>, ns: seq<Note>) {
    forall i, k | 0 <= i < |s| && 0 <= k < |ns| :: s[i].title != ns[k].title
  }

  /** Adding notes whose titles are pairwise distinct and not yet taken appends
      them all, in the order they were added: a listing afterwards shows the
      earlier notes followed by exactly the added ones. The earlier notes need
      not have unique titles themselves. */
  lemma {:induction false} AddAllDistinct(s: seq<Note>, ns: seq<Note>)
    requires UniqueTitles(ns)
    requires TitlesDisjoint(s, ns)
    ensures AddAll(s, ns) == s + ns
    decreases |ns|
  {
    if ns != [] {
      var n := ns[0];
      assert !HasTitle(s, n.title) by {
        forall i | 0 <= i < |s| ensures s[i].title != n.title {
          assert ns[0] == n;
        }
      }
      var s' := AppendIfAbsent(s, n.title, n.body);
      assert s' == s + [n];
      var rest := ns[1..];
      assert UniqueTitles(rest) by {
        forall i, j | 0 <= i < j < |rest| ensures rest[i].title != rest[j].title {
          assert rest[i] == ns[i + 1] && rest[j] == ns[j + 1];
        }
      }
      assert TitlesDisjoint(s', rest) by {
        forall i, k | 0 <= i < |s'| && 0 <= k < |rest| ensures s'[i].title != rest[k].title {
          assert rest[k] == ns[k + 1];
          if i < |s| {
            assert s'[i] == s[i];
          } else {
            assert s'[i] == ns[0];
          }
        }
      }
      assert s' + rest == s + ns;
      AddAllDistinct(s', rest);
    }
  }
}
