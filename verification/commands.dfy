/**
 The command layer (Program.cs) as pure transformers of a note store. A
 command line is dispatched on its lower-cased first word; titles are the
 pieces between double quotes; categories are the upper-cased tail of an add
 command split on ';'. An exception a handler throws becomes `Raised(message)`
 and leaves the store as it was; a message a handler prints itself becomes
 `Reported(message)`.
 */
module Commands {
  import opened Seqs
  import opened Text
  import opened Notes

  datatype Outcome = Ok | Reported(message: string) | Raised(message: string)

  /** The store and the outcome a command handler leaves behind. */
  datatype Reply = Reply(user: User, outcome: Outcome)

  /** The result of one ParseCommand call; `exit` is its boolean return value. */
  datatype Step = Step(user: User, outcome: Outcome, exit: bool)

  datatype Result<T> = Success(value: T) | Failure(message: string)

  datatype Action = Add | View | Remove | Edit | EditCategory | Help | Quit | Invalid

  const NoName: string := "No name provided!"
  const Duplicate: string := "The note already exists!"
  const NotFound: string := "No note found under the provided name!"
  const EditNotFound: string := "Error! No note was found."
  const MissingArgument: string := "Error! An arguement was missing from the command."
  const InvalidCommand: string := "Invalid command! Use h(elp) to get help."

  /** The command word: the first space-separated token, lower-cased. */
  function Verb(cmd: string): string {
    Lower(FirstToken(cmd))
  }

  /** A lower-case, space-free word followed by nothing or by a space is the command word. */
  lemma VerbOf(v: string, t: string)
    requires ' ' !in v && IsLowerCase(v)
    requires t == [] || t[0] == ' '
    ensures Verb(v + t) == v
  {
    FirstTokenOf(v, t);
    LowerOfLowerCase(v);
  }

  /** The action a command word selects; every long form selects what its
      one-letter short form selects. */
  function ActionOf(verb: string): (a: Action)
    ensures a == Add <==> verb in {"a", "add"}
    ensures a == View <==> verb in {"v", "view"}
    ensures a == Remove <==> verb in {"r", "remove"}
    ensures a == Edit <==> verb in {"e", "edit"}
    ensures a == EditCategory <==> verb in {"c", "editc"}
    ensures a == Help <==> verb in {"h", "help"}
    ensures a == Quit <==> verb in {"q", "quit"}
  {
    if verb == "a" || verb == "add" then Add
    else if verb == "v" || verb == "view" then View
    else if verb == "r" || verb == "remove" then Remove
    else if verb == "e" || verb == "edit" then Edit
    else if verb == "c" || verb == "editc" then EditCategory
    else if verb == "h" || verb == "help" then Help
    else if verb == "q" || verb == "quit" then Quit
    else Invalid
  }

  /** `GetName`: the second non-empty piece of the command split on '"'. */
  function GetName(cmd: string): (r: Result<string>)
    ensures r.Success? <==> |Split(cmd, '"')| >= 2
    ensures r.Success? ==> r.value == Split(cmd, '"')[1] && r.value != [] && '"' !in r.value
    ensures r.Failure? ==> r.message == NoName
  {
    var pieces := Split(cmd, '"');
    if |pieces| < 2 then Failure(NoName) else Success(pieces[1])
  }

  /** A command of the form `word "name" rest`, with a quote-free word, yields `name`. */
  lemma GetNameOf(word: string, name: string, rest: string)
    requires word != [] && '"' !in word
    requires name != [] && '"' !in name
    ensures GetName(word + "\"" + name + "\"" + rest) == Success(name)
  {
    var cmd := word + "\"" + name + "\"" + rest;
    assert cmd == word + ['"'] + (name + ['"'] + rest);
    SplitAt(word, '"', name + ['"'] + rest);
    SplitAt(name, '"', rest);
  }

  /** The text of an add command that holds its categories: whatever follows
      the first quote by the name's length plus three. Substring throws when the
      offset lies outside the string, and `Program.Add` then uses the empty string. */
  function CategoryText(cmd: string, name: string): string {
    TailFrom(cmd, IndexOf(cmd, '"') + (|name| + 3))
  }

  /** The category list of an add command: the category text upper-cased and
      split on ';' with empty pieces dropped. The categories laid end to end
      are that text with its ';' deleted, so no character of it is lost. */
  function CategoryList(cmd: string, name: string): (cs: seq<string>)
    ensures forall k :: 0 <= k < |cs| ==> cs[k] != [] && ';' !in cs[k] && IsUpperCase(cs[k])
    ensures var off := IndexOf(cmd, '"') + |name| + 3; !(0 <= off <= |cmd|) ==> cs == []
    ensures Concat(cs) == Erase(Upper(CategoryText(cmd, name)), ';')
  {
    SplitUpperCase(Upper(CategoryText(cmd, name)), ';');
    SplitKeepsText(Upper(CategoryText(cmd, name)), ';');
    Split(Upper(CategoryText(cmd, name)), ';')
  }

  /** `Add`: refuse a missing or already used name, otherwise append one new note. */
  function AddCommand(u: User, cmd: string): (r: Reply)
    ensures r.outcome == Raised(NoName) <==> GetName(cmd).Failure?
    ensures r.outcome == Raised(Duplicate) <==>
      GetName(cmd).Success? && NoteIndex(u, GetName(cmd).value) != -1
    ensures r.outcome in {Ok, Raised(NoName), Raised(Duplicate)}
    ensures r.outcome.Raised? ==> r.user == u
    ensures r.outcome.Ok? ==>
      && |r.user.notes| == |u.notes| + 1
      && r.user.notes[..|u.notes|] == u.notes
      && var n := r.user.notes[|u.notes|];
      && n !in u.notes
      && n.title == GetName(cmd).value
      && n.categories == CategoryList(cmd, n.title)
    ensures DistinctTitles(u) ==> DistinctTitles(r.user)
  {
    match GetName(cmd)
    case Failure(m) => Reply(u, Raised(m))
    case Success(name) =>
      if NoteIndex(u, name) != -1 then Reply(u, Raised(Duplicate))
      else
        var n := Note(NextId(u.notes), name, CategoryList(cmd, name));
        var v := AddNote(u, n);
        assert forall j :: 0 <= j < |u.notes| ==> v.notes[j] == u.notes[j];
        Reply(v, Ok)
  }

  /** `Remove`: refuse a missing or unknown name, otherwise drop the note
      NoteIndex finds, keeping the order of the rest. */
  function RemoveCommand(u: User, cmd: string): (r: Reply)
    ensures r.outcome == Raised(NoName) <==> GetName(cmd).Failure?
    ensures r.outcome == Raised(NotFound) <==>
      GetName(cmd).Success? && NoteIndex(u, GetName(cmd).value) == -1
    ensures r.outcome in {Ok, Raised(NoName), Raised(NotFound)}
    ensures r.outcome.Raised? ==> r.user == u
    ensures r.outcome.Ok? ==>
      var i := NoteIndex(u, GetName(cmd).value);
      0 <= i && r.user.notes == u.notes[..i] + u.notes[i + 1..]
    ensures DistinctTitles(u) ==> DistinctTitles(r.user)
    ensures DistinctTitles(u) && r.outcome.Ok? ==> NoteIndex(r.user, GetName(cmd).value) == -1
  {
    match GetName(cmd)
    case Failure(m) => Reply(u, Raised(m))
    case Success(name) =>
      if NoteIndex(u, name) == -1 || |name| == 0 then Reply(u, Raised(NotFound))
      else
        RemoveFound(u, name);
        Reply(RemoveNote(u, u.notes[NoteIndex(u, name)]), Ok)
  }

  /** `Edit`: give the first note titled by the second quoted piece the title in
      the fourth; nothing else changes. The new title is not checked. */
  function EditCommand(u: User, cmd: string): (r: Reply)
    ensures var pieces := Split(cmd, '"');
      |pieces| < 4 ==> r == Reply(u, Reported(MissingArgument))
    ensures var pieces := Split(cmd, '"');
      |pieces| >= 4 && NoteIndex(u, pieces[1]) == -1 ==> r == Reply(u, Reported(EditNotFound))
    ensures var pieces := Split(cmd, '"');
      |pieces| >= 4 && NoteIndex(u, pieces[1]) != -1 ==>
        var i := NoteIndex(u, pieces[1]);
        && r.outcome == Ok
        && |r.user.notes| == |u.notes|
        && r.user.notes[i] == Note(u.notes[i].id, pieces[3], u.notes[i].categories)
        && forall j :: 0 <= j < |u.notes| && j != i ==> r.user.notes[j] == u.notes[j]
  {
    var pieces := Split(cmd, '"');
    if |pieces| < 4 then Reply(u, Reported(MissingArgument))
    else
      var i := NoteIndex(u, pieces[1]);
      if i != -1 then Reply(User(u.notes[i := u.notes[i].(title := pieces[3])]), Ok)
      else Reply(u, Reported(EditNotFound))
  }

  /** `View`: its body is empty, so the store is left alone. */
  function ViewCommand(u: User, cmd: string): (r: Reply)
    ensures r.user == u && r.outcome == Ok
  {
    Reply(u, Ok)
  }

  /** `EditCategory`: its body is empty, so the store is left alone. */
  function EditCategoryCommand(u: User, cmd: string): (r: Reply)
    ensures r.user == u && r.outcome == Ok
  {
    Reply(u, Ok)
  }

  function Continue(r: Reply): Step {
    Step(r.user, r.outcome, false)
  }

  /** `ParseCommand`: dispatch on the command word. Add, remove and edit words
      run their handler on the whole line; view, editc, help and quit succeed
      without touching the store; only q/quit asks to exit; an unknown word is
      reported and changes nothing. */
  function ParseCommand(u: User, cmd: string): (r: Step)
    ensures r.exit <==> Verb(cmd) in {"q", "quit"}
    ensures ActionOf(Verb(cmd)) == Add ==> r == Step(AddCommand(u, cmd).user, AddCommand(u, cmd).outcome, false)
    ensures ActionOf(Verb(cmd)) == Remove ==> r == Step(RemoveCommand(u, cmd).user, RemoveCommand(u, cmd).outcome, false)
    ensures ActionOf(Verb(cmd)) == Edit ==> r == Step(EditCommand(u, cmd).user, EditCommand(u, cmd).outcome, false)
    ensures ActionOf(Verb(cmd)) in {View, EditCategory, Help, Quit} ==> r.outcome == Ok
    ensures ActionOf(Verb(cmd)) == Invalid ==> r == Step(u, Reported(InvalidCommand), false)
    ensures ActionOf(Verb(cmd)) !in {Add, Remove, Edit} ==> r.user == u
    ensures r.outcome.Raised? ==> r.user == u
    ensures DistinctTitles(u) && ActionOf(Verb(cmd)) != Edit ==> DistinctTitles(r.user)
  {
    Dispatch(u, ActionOf(Verb(cmd)), cmd)
  }

  /** Run the handler of action `a` on the whole command line. */
  function Dispatch(u: User, a: Action, cmd: string): Step {
    match a
    case Add => Continue(AddCommand(u, cmd))
    case View => Continue(ViewCommand(u, cmd))
    case Remove => Continue(RemoveCommand(u, cmd))
    case Edit => Continue(EditCommand(u, cmd))
    case EditCategory => Continue(EditCategoryCommand(u, cmd))
    case Help => Step(u, Ok, false)
    case Quit => Step(u, Ok, true)
    case Invalid => Step(u, Reported(InvalidCommand), false)
  }

  /** The add handler looks only at what follows the command word. */
  lemma AddIgnoresWord(u: User, v: string, w: string, t: string)
    requires v != [] && '"' !in v
    requires w != [] && '"' !in w
    requires t == [] || t[0] != '"'
    ensures AddCommand(u, v + t) == AddCommand(u, w + t)
  {
    SplitIgnoresWord(v, w, t, '"');
    assert GetName(v + t) == GetName(w + t);
    if GetName(v + t).Success? {
      var name := GetName(v + t).value;
      IndexOfAfter(v, t, '"');
      IndexOfAfter(w, t, '"');
      CategoryTextIgnoresWord(v, w, t, name);
    }
  }

  /** The category text is found at the same place in what follows the command word,
      when the first quote of the whole line is the first quote of that text. */
  lemma CategoryTextIgnoresWord(v: string, w: string, t: string, name: string)
    requires 0 <= IndexOf(t, '"')
    requires IndexOf(v + t, '"') == |v| + IndexOf(t, '"')
    requires IndexOf(w + t, '"') == |w| + IndexOf(t, '"')
    ensures CategoryText(v + t, name) == CategoryText(w + t, name)
  {
    CategoryTextAfter(v, t, name);
    CategoryTextAfter(w, t, name);
  }

  /** Behind a prefix without quotes, the category text is taken from the rest alone. */
  lemma CategoryTextAfter(v: string, t: string, name: string)
    requires 0 <= IndexOf(t, '"')
    requires IndexOf(v + t, '"') == |v| + IndexOf(t, '"')
    ensures CategoryText(v + t, name) == TailFrom(t, IndexOf(t, '"') + (|name| + 3))
  {
    TailFromAfter(v, t, IndexOf(v + t, '"') + (|name| + 3), IndexOf(t, '"') + (|name| + 3));
  }

  /** The remove handler looks only at what follows the command word. */
  lemma RemoveIgnoresWord(u: User, v: string, w: string, t: string)
    requires v != [] && '"' !in v
    requires w != [] && '"' !in w
    requires t == [] || t[0] != '"'
    ensures RemoveCommand(u, v + t) == RemoveCommand(u, w + t)
  {
    SplitIgnoresWord(v, w, t, '"');
    assert GetName(v + t) == GetName(w + t);
  }

  /** The edit handler looks only at what follows the command word. */
  lemma EditIgnoresWord(u: User, v: string, w: string, t: string)
    requires v != [] && '"' !in v
    requires w != [] && '"' !in w
    requires t == [] || t[0] != '"'
    ensures EditCommand(u, v + t) == EditCommand(u, w + t)
  {
    SplitIgnoresWord(v, w, t, '"');
  }

  /** Two lower-case command words that select the same action behave alike,
      whatever follows them after a space. */
  lemma SameActionSameStep(u: User, v: string, w: string, t: string)
    requires v != [] && ' ' !in v && '"' !in v && IsLowerCase(v)
    requires w != [] && ' ' !in w && '"' !in w && IsLowerCase(w)
    requires ActionOf(v) == ActionOf(w)
    requires t == [] || t[0] == ' '
    ensures ParseCommand(u, v + t) == ParseCommand(u, w + t)
  {
    VerbOf(v, t);
    VerbOf(w, t);
    var a := ActionOf(v);
    assert t == [] || t[0] != '"';
    match a
    case Add => AddIgnoresWord(u, v, w, t);
    case Remove => RemoveIgnoresWord(u, v, w, t);
    case Edit => EditIgnoresWord(u, v, w, t);
    case _ =>
  }

  /** Every long command word behaves exactly like its one-letter short form. */
  lemma LongFormsAgree(u: User, long: string, short: string, t: string)
    requires (long, short) in {("add", "a"), ("view", "v"), ("remove", "r"), ("edit", "e"),
                               ("editc", "c"), ("help", "h"), ("quit", "q")}
    requires t == [] || t[0] == ' '
    ensures ParseCommand(u, long + t) == ParseCommand(u, short + t)
  {
    SameActionSameStep(u, long, short, t);
  }

  /** The add command as documented, `word "name" cat1;cat2...`, appends one new
      note with that name and the upper-cased, non-empty pieces of the category text. */
  lemma AddWithCategories(u: User, word: string, name: string, cats: string)
    requires '"' !in word
    requires name != [] && '"' !in name
    requires NoteIndex(u, name) == -1
    ensures AddCommand(u, word + " \"" + name + "\" " + cats) ==
      Reply(AddNote(u, Note(NextId(u.notes), name, Split(Upper(cats), ';'))), Ok)
  {
    var cmd := word + " \"" + name + "\" " + cats;
    assert cmd == word + " \"" + name + "\"" + (" " + cats);
    QuotedLine(word, name, " " + cats);
    var v := word + " \"" + name + "\" ";
    assert cmd == v + cats;
    CategoryTextAt(cmd, name, v, cats);
  }

  /** An add command that stops right after the closing quote puts the offset past
      the end of the text, so the note gets no categories. */
  lemma AddWithoutCategories(u: User, word: string, name: string)
    requires '"' !in word
    requires name != [] && '"' !in name
    requires NoteIndex(u, name) == -1
    ensures AddCommand(u, word + " \"" + name + "\"") ==
      Reply(AddNote(u, Note(NextId(u.notes), name, [])), Ok)
  {
    var cmd := word + " \"" + name + "\"";
    assert cmd == word + " \"" + name + "\"" + [];
    QuotedLine(word, name, []);
    assert CategoryText(cmd, name) == [];
    SplitWhole([], ';');
  }

  /** In a line `word "name"rest`, the name is the one GetName reads and the
      first quote sits right after the word and its space. */
  lemma QuotedLine(word: string, name: string, rest: string)
    requires '"' !in word
    requires name != [] && '"' !in name
    ensures var cmd := word + " \"" + name + "\"" + rest;
      GetName(cmd) == Success(name) && IndexOf(cmd, '"') == |word| + 1
  {
    var cmd := word + " \"" + name + "\"" + rest;
    GetNameOf(word + " ", name, rest);
    assert cmd == (word + " ") + "\"" + name + "\"" + rest;
    assert cmd == (word + " ") + ['"'] + (name + "\"" + rest);
    IndexOfAt(word + " ", '"', name + "\"" + rest);
  }

  /** When the category offset lands exactly at the end of `v`, the category text is what follows `v`. */
  lemma CategoryTextAt(cmd: string, name: string, v: string, cats: string)
    requires cmd == v + cats
    requires IndexOf(cmd, '"') + (|name| + 3) == |v|
    ensures CategoryText(cmd, name) == cats
  {
    TailFromAfter(v, cats, |v|, 0);
    assert cats[0..] == cats;
  }

  /** Adding a note under a name no note has, and then removing by a line that
      names it, restores the store, whatever categories the add line gave. */
  lemma RemoveUndoesAddCommand(u: User, addCmd: string, removeCmd: string)
    requires GetName(addCmd).Success? && NoteIndex(u, GetName(addCmd).value) == -1
    requires GetName(removeCmd) == GetName(addCmd)
    ensures RemoveCommand(AddCommand(u, addCmd).user, removeCmd) == Reply(u, Ok)
  {
    var name := GetName(addCmd).value;
    var v := AddCommand(u, addCmd).user;
    var n := v.notes[|u.notes|];
    assert v.notes == v.notes[..|u.notes|] + [n];
    assert v == AddNote(u, n);
    NoteIndexAfterAdd(u, n, name);
    RemoveUndoesAdd(u, n);
  }

  /** A remove command `word "name"` takes out the note NoteIndex finds under `name`. */
  lemma RemoveFinds(u: User, word: string, name: string)
    requires '"' !in word
    requires name != [] && '"' !in name
    requires NoteIndex(u, name) != -1
    ensures RemoveCommand(u, word + " \"" + name + "\"") == Reply(RemoveNote(u, u.notes[NoteIndex(u, name)]), Ok)
  {
    var w := word + " ";
    GetNameOf(w, name, []);
    assert w + "\"" + name + "\"" + [] == word + " \"" + name + "\"";
  }

  /** The edit command as documented, `word "oldTitle" "newTitle"`, renames the first note
      titled `oldTitle`, or reports that there is none. */
  lemma EditRenames(u: User, word: string, oldTitle: string, newTitle: string)
    requires '"' !in word
    requires oldTitle != [] && '"' !in oldTitle
    requires newTitle != [] && '"' !in newTitle
    ensures var r := EditCommand(u, word + " \"" + oldTitle + "\" \"" + newTitle + "\"");
      var i := NoteIndex(u, oldTitle);
      if i == -1 then r == Reply(u, Reported(EditNotFound))
      else r == Reply(User(u.notes[i := u.notes[i].(title := newTitle)]), Ok)
  {
    var cmd := word + " \"" + oldTitle + "\" \"" + newTitle + "\"";
    var pieces := [word + " ", oldTitle, " ", newTitle];
    var p2, p3 := [" ", newTitle], [oldTitle, " ", newTitle];
    assert p2[1..] == [newTitle] && p3[1..] == p2 && pieces[1..] == p3;
    assert Join(p2, '"') == " " + ['"'] + newTitle;
    assert Join(p3, '"') == oldTitle + ['"'] + Join(p2, '"');
    assert Join(pieces, '"') == word + " " + ['"'] + Join(p3, '"');
    assert cmd == Join(pieces, '"') + ['"'];
    SplitJoin(pieces, '"');
    SplitTrailing(Join(pieces, '"'), '"');
  }

  /** Edit keeps titles distinct when the new title is not already another note's. */
  lemma EditKeepsTitlesDistinct(u: User, cmd: string)
    requires DistinctTitles(u)
    requires var pieces := Split(cmd, '"');
      |pieces| >= 4 ==> pieces[3] == pieces[1] || NoteIndex(u, pieces[3]) == -1
    ensures DistinctTitles(EditCommand(u, cmd).user)
  {
  }

  /** Because Edit does not check the new title, it can give two notes the same title. */
  lemma EditMayDuplicateTitles()
    ensures exists u: User, cmd: string ::
      DistinctTitles(u) && !DistinctTitles(EditCommand(u, cmd).user)
  {
    var u := User([Note(0, "x", []), Note(1, "y", [])]);
    EditRenames(u, "e", "y", "x");
    assert NoteIndex(u, "y") == 1;
    var cmd := "e" + " \"" + "y" + "\" \"" + "x" + "\"";
    var r := EditCommand(u, cmd);
    assert r.user.notes[0].title == r.user.notes[1].title;
  }
}
