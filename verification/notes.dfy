/**
 One user's note store (User.cs): an ordered list of notes, each a title and a
 list of category tags, with title lookup, first-occurrence removal, the
 "UNCATEGORISED" fallback, the category-intersection query and the
 category index.
 */
module Notes {
  import opened Seqs
  import opened Text

  /** The category CheckCategorys gives a note that has none. */
  const Uncategorised: string := "UNCATEGORISED"

  /** A note. `id` stands for the identity of the note object: two notes made
      separately are different even when their title and categories agree,
      which is what List.Remove's reference comparison sees. */
  datatype Note = Note(id: nat, title: string, categories: seq<string>)

  /** A user's `Notes` list, in insertion order. */
  datatype User = User(notes: seq<Note>)

  /** At most one note per title (exact, case-sensitive comparison). */
  predicate DistinctTitles(u: User) {
    forall i, j :: 0 <= i < j < |u.notes| ==> u.notes[i].title != u.notes[j].title
  }

  /** Every note has at least one category. */
  predicate AllCategorised(u: User) {
    forall i :: 0 <= i < |u.notes| ==> u.notes[i].categories != []
  }

  /** The `User()` constructor: no notes yet. */
  function NewUser(): (u: User)
    ensures |u.notes| == 0
    ensures forall t :: NoteIndex(u, t) == -1
    ensures GetAllCategories(u) == []
  {
    User([])
  }

  /** An identity no note of `ns` has, standing for the allocation of a new
      note object. */
  function NextId(ns: seq<Note>): (id: nat)
    ensures forall k :: 0 <= k < |ns| ==> ns[k].id < id
  {
    if ns == [] then 0
    else
      var rest := NextId(ns[1..]);
      assert forall k :: 1 <= k < |ns| ==> ns[k] == ns[1..][k - 1];
      if ns[0].id + 1 > rest then ns[0].id + 1 else rest
  }

  /** `AddNote`: the note goes to the end; everything before it stays. */
  function AddNote(u: User, n: Note): (r: User)
    ensures |r.notes| == |u.notes| + 1
    ensures r.notes[..|u.notes|] == u.notes
    ensures r.notes[|u.notes|] == n
  {
    User(u.notes + [n])
  }

  /** `RemoveNote`: List.Remove deletes the first note equal to `n` and keeps
      the order of the rest; without such a note nothing changes. */
  function RemoveNote(u: User, n: Note): (r: User)
    ensures n !in u.notes ==> r == u
    ensures n in u.notes ==>
      var i := IndexOf(u.notes, n);
      |r.notes| == |u.notes| - 1 && r.notes == u.notes[..i] + u.notes[i + 1..]
  {
    User(RemoveFirst(u.notes, n))
  }

  /** Removing a note that was just added (and was not there before) restores the store. */
  lemma RemoveUndoesAdd(u: User, n: Note)
    requires n !in u.notes
    ensures RemoveNote(AddNote(u, n), n) == u
  {
    RemoveFirstOfAppended(u.notes, n);
  }

  /** The notes of `ns` titled `title`, in list order (the `Where` in NoteIndex). */
  function WithTitle(ns: seq<Note>, title: string): (r: seq<Note>)
    ensures forall n :: n in r <==> n in ns && n.title == title
  {
    if ns == [] then []
    else (if ns[0].title == title then [ns[0]] else []) + WithTitle(ns[1..], title)
  }

  /** The first match of the title filter sits at the first position holding that title. */
  lemma {:induction false} FirstWithTitle(ns: seq<Note>, title: string)
    requires WithTitle(ns, title) != []
    ensures var i := IndexOf(ns, WithTitle(ns, title)[0]);
      0 <= i && ns[i].title == title && forall j :: 0 <= j < i ==> ns[j].title != title
    decreases |ns|
  {
    if ns[0].title != title {
      var x := WithTitle(ns, title)[0];
      assert WithTitle(ns, title) == WithTitle(ns[1..], title);
      FirstWithTitle(ns[1..], title);
      assert x.title == title && ns[0] != x;
      var i' := IndexOf(ns[1..], x);
      assert IndexOf(ns, x) == i' + 1;
      assert forall j :: 1 <= j <= i' ==> ns[j] == ns[1..][j - 1];
    }
  }

  /** The position of a note is where its title first occurs. */
  lemma IndexOfFirstTitled(ns: seq<Note>, i: int)
    requires 0 <= i < |ns|
    requires forall j :: 0 <= j < i ==> ns[j].title != ns[i].title
    ensures IndexOf(ns, ns[i]) == i
  {
  }

  /** `NoteIndex`: the position of the first note titled exactly `title`, or -1
      when there is none. As `User.NoteIndex` does, it takes the first note the title
      filter yields and asks the list for that note's position. */
  function NoteIndex(u: User, title: string): (i: int)
    ensures -1 <= i < |u.notes|
    ensures i == -1 <==> forall j :: 0 <= j < |u.notes| ==> u.notes[j].title != title
    ensures 0 <= i ==> u.notes[i].title == title && forall j :: 0 <= j < i ==> u.notes[j].title != title
  {
    var matches := WithTitle(u.notes, title);
    if |matches| > 0 then
      FirstWithTitle(u.notes, title);
      IndexOf(u.notes, matches[0])
    else
      assert forall j :: 0 <= j < |u.notes| ==> u.notes[j] in u.notes;
      -1
  }

  /** Title lookup after an append: earlier matches win; otherwise the new note
      is found at the end exactly when it carries the title. */
  lemma NoteIndexAfterAdd(u: User, n: Note, title: string)
    ensures NoteIndex(AddNote(u, n), title) ==
      if NoteIndex(u, title) != -1 then NoteIndex(u, title)
      else if n.title == title then |u.notes|
      else -1
  {
    var v := AddNote(u, n);
    assert forall j :: 0 <= j < |u.notes| ==> v.notes[j] == u.notes[j];
  }

  /** Removing the note NoteIndex finds under `title` deletes exactly that
      position; with distinct titles the title is then gone and titles stay distinct. */
  lemma RemoveFound(u: User, title: string)
    requires NoteIndex(u, title) != -1
    ensures var i := NoteIndex(u, title);
      RemoveNote(u, u.notes[i]).notes == u.notes[..i] + u.notes[i + 1..]
    ensures DistinctTitles(u) ==>
      var r := RemoveNote(u, u.notes[NoteIndex(u, title)]);
      DistinctTitles(r) && NoteIndex(r, title) == -1
  {
    var i := NoteIndex(u, title);
    IndexOfFirstTitled(u.notes, i);
    if DistinctTitles(u) {
      DeleteKeepsDistinct(u, i);
    }
  }

  /** Deleting position `i` from a store with distinct titles keeps them
      distinct and leaves no note with the deleted note's title. */
  lemma DeleteKeepsDistinct(u: User, i: int)
    requires DistinctTitles(u)
    requires 0 <= i < |u.notes|
    ensures var r := User(u.notes[..i] + u.notes[i + 1..]);
      DistinctTitles(r) && forall j :: 0 <= j < |r.notes| ==> r.notes[j].title != u.notes[i].title
  {
    var r := User(u.notes[..i] + u.notes[i + 1..]);
    assert forall j :: 0 <= j < |r.notes| ==> r.notes[j] == u.notes[if j < i then j else j + 1];
  }

  /** With distinct titles, every note is found under its own title. */
  lemma NoteIndexFindsEach(u: User, i: int)
    requires DistinctTitles(u)
    requires 0 <= i < |u.notes|
    ensures NoteIndex(u, u.notes[i].title) == i
  {
  }

  /** A note with its empty category list replaced by the fallback. */
  function Categorised(n: Note): Note {
    if n.categories == [] then n.(categories := [Uncategorised]) else n
  }

  /** `CheckCategorys`: every note with no category gets exactly
      ["UNCATEGORISED"]; everything else is left alone. */
  function CheckCategorys(u: User): (r: User)
    ensures |r.notes| == |u.notes|
    ensures AllCategorised(r)
    ensures forall i :: 0 <= i < |u.notes| ==>
      r.notes[i].id == u.notes[i].id && r.notes[i].title == u.notes[i].title
    ensures forall i :: 0 <= i < |u.notes| && u.notes[i].categories != [] ==> r.notes[i] == u.notes[i]
    ensures forall i :: 0 <= i < |u.notes| && u.notes[i].categories == [] ==>
      r.notes[i].categories == [Uncategorised]
  {
    User(seq(|u.notes|, i requires 0 <= i < |u.notes| => Categorised(u.notes[i])))
  }

  /** Running CheckCategorys twice changes nothing more than running it once. */
  lemma CheckCategorysIdempotent(u: User)
    ensures CheckCategorys(CheckCategorys(u)) == CheckCategorys(u)
  {
    var r := CheckCategorys(u);
    assert CheckCategorys(r).notes == r.notes;
  }

  /** CheckCategorys leaves a store alone exactly when every note already has a category. */
  lemma CheckCategorysFixes(u: User)
    ensures CheckCategorys(u) == u <==> AllCategorised(u)
  {
    if AllCategorised(u) {
      assert CheckCategorys(u).notes == u.notes;
    }
  }

  /** Note `n` carries every requested category, each upper-cased before the comparison. */
  predicate CarriesAll(n: Note, names: seq<string>) {
    forall k :: 0 <= k < |names| ==> Upper(names[k]) in n.categories
  }

  /** The notes of `ns` whose categories contain `c`, in list order. */
  function WithCategory(ns: seq<Note>, c: string): (r: seq<Note>)
    ensures IsSubsequence(r, ns)
    ensures forall n :: n in r <==> n in ns && c in n.categories
    ensures forall n :: multiset(r)[n] == if c in n.categories then multiset(ns)[n] else 0
  {
    if ns == [] then []
    else
      var rest := WithCategory(ns[1..], c);
      assert ns == [ns[0]] + ns[1..];
      if c in ns[0].categories then
        assert ([ns[0]] + rest)[1..] == rest;
        [ns[0]] + rest
      else
        assert rest != [] ==> rest[0] in rest && rest[0] != ns[0];
        rest
  }

  /** Reference definition of the intersection query: one pass keeping the
      notes that carry every requested category. */
  function CarryingAll(ns: seq<Note>, names: seq<string>): (r: seq<Note>)
    ensures IsSubsequence(r, ns)
    ensures forall n :: n in r <==> n in ns && CarriesAll(n, names)
    ensures forall n :: multiset(r)[n] == if CarriesAll(n, names) then multiset(ns)[n] else 0
  {
    if ns == [] then []
    else
      var rest := CarryingAll(ns[1..], names);
      assert ns == [ns[0]] + ns[1..];
      if CarriesAll(ns[0], names) then
        assert ([ns[0]] + rest)[1..] == rest;
        [ns[0]] + rest
      else
        assert rest != [] ==> rest[0] in rest && rest[0] != ns[0];
        rest
  }

  /** The progressive filter of `User.GetNotesByCategory`: narrow by one upper-cased name at a time. */
  function Narrow(ns: seq<Note>, names: seq<string>): seq<Note>
    decreases |names|
  {
    if names == [] then ns else Narrow(WithCategory(ns, Upper(names[0])), names[1..])
  }

  lemma {:induction false} CarryingNothing(ns: seq<Note>)
    ensures CarryingAll(ns, []) == ns
    decreases |ns|
  {
    if ns != [] {
      CarryingNothing(ns[1..]);
    }
  }

  /** Carrying all of `names` is carrying the first and all of the rest. */
  lemma CarriesAllCons(n: Note, names: seq<string>)
    requires names != []
    ensures CarriesAll(n, names) <==> Upper(names[0]) in n.categories && CarriesAll(n, names[1..])
  {
    assert forall k :: 1 <= k < |names| ==> names[1..][k - 1] == names[k];
  }

  /** Filtering by the first name, then by the rest, keeps exactly the notes carrying all names. */
  lemma {:induction false} CarryingAllNarrowed(ns: seq<Note>, names: seq<string>)
    requires names != []
    ensures CarryingAll(WithCategory(ns, Upper(names[0])), names[1..]) == CarryingAll(ns, names)
    decreases |ns|
  {
    if ns != [] {
      CarriesAllCons(ns[0], names);
      CarryingAllNarrowed(ns[1..], names);
    }
  }

  /** The progressive filter computes the intersection: a note survives exactly
      when it carries every requested category, and the survivors keep their order. */
  lemma {:induction false} NarrowIsCarryingAll(ns: seq<Note>, names: seq<string>)
    ensures Narrow(ns, names) == CarryingAll(ns, names)
    decreases |names|
  {
    if names == [] {
      CarryingNothing(ns);
    } else {
      NarrowIsCarryingAll(WithCategory(ns, Upper(names[0])), names[1..]);
      CarryingAllNarrowed(ns, names);
    }
  }

  /** `GetNotesByCategory`: the notes carrying every requested category
      (intersection, compared after upper-casing each name), in list order;
      no names at all select every note. */
  function GetNotesByCategory(u: User, names: seq<string>): (r: seq<Note>)
    ensures IsSubsequence(r, u.notes)
    ensures forall n :: n in r <==> n in u.notes && CarriesAll(n, names)
    ensures forall n :: multiset(r)[n] == if CarriesAll(n, names) then multiset(u.notes)[n] else 0
    ensures names == [] ==> r == u.notes
  {
    NarrowIsCarryingAll(u.notes, names);
    Narrow(u.notes, names)
  }

  /** The categories of all notes, scanning the notes and then each note's
      categories in order. */
  function Flat(ns: seq<Note>): (cs: seq<string>)
    ensures forall n, c :: n in ns && c in n.categories ==> c in cs
    ensures forall c :: c in cs ==> exists n :: n in ns && c in n.categories
  {
    if ns == [] then [] else ns[0].categories + Flat(ns[1..])
  }

  /** One entry of the category index: a category and the notes carrying it. */
  datatype Bucket = Bucket(category: string, notes: seq<Note>)

  /** The bucket list for the given keys: one bucket per key in key order,
      holding the notes that carry the key in store order, each as often as
      the store holds it. */
  function Buckets(ns: seq<Note>, keys: seq<string>): (index: seq<Bucket>)
    ensures |index| == |keys|
    ensures forall i :: 0 <= i < |keys| ==>
      index[i].category == keys[i] && IsSubsequence(index[i].notes, ns)
    ensures forall i, n :: 0 <= i < |keys| ==>
      multiset(index[i].notes)[n] == if keys[i] in n.categories then multiset(ns)[n] else 0
  {
    seq(|keys|, i requires 0 <= i < |keys| => Bucket(keys[i], WithCategory(ns, keys[i])))
  }

  /** A bucket whose key some note carries is non-empty. */
  lemma BucketNonEmpty(ns: seq<Note>, c: string)
    requires c in Flat(ns)
    ensures WithCategory(ns, c) != []
  {
    var n :| n in ns && c in n.categories;
    assert n in WithCategory(ns, c);
  }

  /** Every bucket over first-seen keys is non-empty and holds exactly the notes carrying its key. */
  lemma BucketsFilled(ns: seq<Note>)
    ensures var index := Buckets(ns, FirstSeen(Flat(ns)));
      forall i :: 0 <= i < |index| ==> index[i].notes != [] && IsSubsequence(index[i].notes, ns)
  {
    var keys := FirstSeen(Flat(ns));
    var index := Buckets(ns, keys);
    forall i | 0 <= i < |index|
      ensures index[i].notes != [] && IsSubsequence(index[i].notes, ns)
    {
      BucketNonEmpty(ns, keys[i]);
    }
  }

  /** Every category carried by a note is among the first-seen keys. */
  lemma KeysCoverCategories(ns: seq<Note>)
    ensures forall n, c :: n in ns && c in n.categories ==> c in FirstSeen(Flat(ns))
  {
    var flat := Flat(ns);
    forall n, c | n in ns && c in n.categories
      ensures c in FirstSeen(flat)
    {
      assert flat[IndexOf(flat, c)] == c;
    }
  }

  /** Every category carried by a note is the key of some bucket. */
  lemma BucketsCoverCategories(ns: seq<Note>, keys: seq<string>)
    requires forall n, c :: n in ns && c in n.categories ==> c in keys
    ensures var index := Buckets(ns, keys);
      forall n, c :: n in ns && c in n.categories ==>
        exists i :: 0 <= i < |index| && index[i].category == c
  {
    var index := Buckets(ns, keys);
    forall n, c | n in ns && c in n.categories
      ensures exists i :: 0 <= i < |index| && index[i].category == c
    {
      var i := IndexOf(keys, c);
      assert index[i].category == c;
    }
  }

  /** `GetAllCategories`: every category any note carries, once each, in order
      of first appearance, each paired with the notes carrying it in list order. */
  function GetAllCategories(u: User): (index: seq<Bucket>)
    ensures forall i, j :: 0 <= i < j < |index| ==> index[i].category != index[j].category
    ensures forall n, c :: n in u.notes && c in n.categories ==>
      exists i :: 0 <= i < |index| && index[i].category == c
    ensures forall i, j :: 0 <= i < j < |index| ==>
      IndexOf(Flat(u.notes), index[i].category) < IndexOf(Flat(u.notes), index[j].category)
    ensures forall i :: 0 <= i < |index| ==>
      index[i].notes != [] && IsSubsequence(index[i].notes, u.notes)
    ensures forall i, n :: 0 <= i < |index| ==>
      (n in index[i].notes <==> n in u.notes && index[i].category in n.categories)
    ensures forall i, n :: 0 <= i < |index| ==>
      multiset(index[i].notes)[n] == if index[i].category in n.categories then multiset(u.notes)[n] else 0
  {
    BucketsFilled(u.notes);
    KeysCoverCategories(u.notes);
    BucketsCoverCategories(u.notes, FirstSeen(Flat(u.notes)));
    Buckets(u.notes, FirstSeen(Flat(u.notes)))
  }

  /** Once CheckCategorys has run, the category index leaves no note out. */
  lemma IndexCoversCheckedNotes(u: User, n: Note)
    requires n in CheckCategorys(u).notes
    ensures exists i :: (0 <= i < |GetAllCategories(CheckCategorys(u))| &&
      n in GetAllCategories(CheckCategorys(u))[i].notes)
  {
    var r := CheckCategorys(u);
    var index := GetAllCategories(r);
    var k :| 0 <= k < |r.notes| && r.notes[k] == n;
    var c := n.categories[0];
    assert c in n.categories;
    var i :| 0 <= i < |index| && index[i].category == c;
    assert n in index[i].notes;
  }

  /** Worked example of the intersection query: one name selects every note
      carrying it, whatever its case; two names select only the notes carrying both. */
  lemma IntersectionExample()
    ensures var a, b, c := Note(0, "A", ["WORK"]), Note(1, "B", ["HOME"]), Note(2, "C", ["WORK", "URGENT"]);
      && GetNotesByCategory(User([a, b, c]), ["work"]) == [a, c]
      && GetNotesByCategory(User([a, b, c]), ["WORK", "URGENT"]) == [c]
  {
    var a, b, c := Note(0, "A", ["WORK"]), Note(1, "B", ["HOME"]), Note(2, "C", ["WORK", "URGENT"]);
    ExampleOneName(a, b, c);
    ExampleTwoNames(a, b, c);
  }

  lemma ExampleOneName(a: Note, b: Note, c: Note)
    requires a == Note(0, "A", ["WORK"]) && b == Note(1, "B", ["HOME"]) && c == Note(2, "C", ["WORK", "URGENT"])
    ensures GetNotesByCategory(User([a, b, c]), ["work"]) == [a, c]
  {
    var names: seq<string> := ["work"];
    assert Upper("work") == "WORK";
    assert names[1..] == [];
    ExampleWork(a, b, c);
    assert Narrow([a, b, c], names) == Narrow([a, c], []);
  }

  lemma ExampleTwoNames(a: Note, b: Note, c: Note)
    requires a == Note(0, "A", ["WORK"]) && b == Note(1, "B", ["HOME"]) && c == Note(2, "C", ["WORK", "URGENT"])
    ensures GetNotesByCategory(User([a, b, c]), ["WORK", "URGENT"]) == [c]
  {
    var names: seq<string> := ["WORK", "URGENT"];
    assert Upper("WORK") == "WORK";
    assert Upper("URGENT") == "URGENT";
    assert names[1..] == ["URGENT"] && names[1..][1..] == [];
    ExampleWork(a, b, c);
    ExampleUrgent(a, c);
    assert Narrow([a, b, c], names) == Narrow([a, c], ["URGENT"]);
    assert Narrow([a, c], ["URGENT"]) == Narrow([c], []);
  }

  lemma ExampleWork(a: Note, b: Note, c: Note)
    requires a == Note(0, "A", ["WORK"]) && b == Note(1, "B", ["HOME"]) && c == Note(2, "C", ["WORK", "URGENT"])
    ensures WithCategory([a, b, c], "WORK") == [a, c]
  {
    assert [a, b, c][1..] == [b, c] && [b, c][1..] == [c] && [c][1..] == [];
    assert WithCategory([c], "WORK") == [c];
    assert WithCategory([b, c], "WORK") == [c];
  }

  lemma ExampleUrgent(a: Note, c: Note)
    requires a == Note(0, "A", ["WORK"]) && c == Note(2, "C", ["WORK", "URGENT"])
    ensures WithCategory([a, c], "URGENT") == [c]
  {
    assert [a, c][1..] == [c] && [c][1..] == [];
    assert WithCategory([c], "URGENT") == [c];
  }

  /** Worked example of the category index: keys in first-seen order, each with
      the notes carrying it. */
  lemma IndexExample()
    ensures var a, b := Note(0, "A", ["WORK"]), Note(1, "B", ["HOME", "WORK"]);
      GetAllCategories(User([a, b])) == [Bucket("WORK", [a, b]), Bucket("HOME", [b])]
  {
    var a, b := Note(0, "A", ["WORK"]), Note(1, "B", ["HOME", "WORK"]);
    ExampleKeys(a, b);
    ExampleBuckets(a, b);
  }

  lemma ExampleBuckets(a: Note, b: Note)
    requires a == Note(0, "A", ["WORK"]) && b == Note(1, "B", ["HOME", "WORK"])
    ensures Buckets([a, b], ["WORK", "HOME"]) == [Bucket("WORK", [a, b]), Bucket("HOME", [b])]
  {
    assert [a, b][1..] == [b] && [b][1..] == [];
    assert WithCategory([a, b], "WORK") == [a, b];
    assert WithCategory([a, b], "HOME") == [b];
  }

  lemma ExampleKeys(a: Note, b: Note)
    requires a == Note(0, "A", ["WORK"]) && b == Note(1, "B", ["HOME", "WORK"])
    ensures FirstSeen(Flat([a, b])) == ["WORK", "HOME"]
  {
    assert [a, b][1..] == [b] && [b][1..] == [];
    assert Flat([b]) == b.categories + Flat([]);
    assert Flat([a, b]) == a.categories + Flat([b]);
    var flat := Flat([a, b]);
    assert flat == ["WORK", "HOME", "WORK"];
    var f1, f2 := ["WORK"], ["WORK", "HOME"];
    assert f1[..0] == [] && f2[..1] == f1 && flat[..2] == f2;
    assert FirstSeen(f1) == ["WORK"];
    assert FirstSeen(f2) == ["WORK", "HOME"];
  }
}
