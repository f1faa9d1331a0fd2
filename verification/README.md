# Todo-List note store in Dafny

This project models the core of a small console to-do list program. It has two parts.

- **The note store (`User.cs`).** This is one user's ordered list of notes. A note has a title and a list of category tags. The store can append a note and remove a note. It can find the first note with a given title. It can give every note that has no category the tag `UNCATEGORISED`. It answers an intersection query over several categories. It builds a category index: every category once, in first-seen order, with the notes that carry it.
- **The command layer (`Program.cs`).** A command line is dispatched on its lower-cased first word. `a(dd)`, `v(iew)`, `r(emove)`, `e(dit)`, `(edit)c`, `h(elp)` and `q(uit)` are the verbs. Note titles are read as the pieces between double quotes. An add command's categories are the upper-cased tail of the line, split on `;`.

The model is purely functional.

- **The store.** `Notes.User` wraps a `seq<Note>`.
- **Identity.** Every `Note` carries an `id`. The id stands for the identity of the note object, so two notes made separately stay distinct even when their title and categories agree. This matters for `List.Remove`. The add command gives a new note an id no stored note has (`NextId`).
- **Commands.** Each command handler is a function from a store and a command line to a new store and an outcome.
  - An exception a handler throws becomes `Raised(message)`, and the store stays as it was.
  - A message a handler prints itself becomes `Reported(message)`.
  - The static store the program uses is passed in explicitly.
- **The session.** `Main`'s read–parse loop is `Session.Run`. It takes the list of lines the user types. Each line goes to `ParseCommand`. A raised exception is shown, and the loop continues. The loop stops after the first `q`/`quit`.
- **Text.** `Text` holds the string handling the program relies on:
  - ASCII upper/lower case;
  - `String.Split` with `RemoveEmptyEntries` (`Split`);
  - `cmd.Split(' ')[0]` (`FirstToken`);
  - `Substring` with an out-of-range offset answered by the empty string (`TailFrom`).
- **Sequences.** `Seqs` holds the generic sequence operations:
  - first-occurrence search (`List.IndexOf`);
  - removal of the first occurrence (`List.Remove`);
  - first-seen de-duplication;
  - the subsequence relation.

Some behaviours of the source are modelled as written:

- **Category offset in `Add`.** The category text of an add command starts `|name| + 3` characters after the first quote. For the documented form `word "name" cat1;cat2` this is exactly the text after the space that follows the closing quote (`AddWithCategories`). When the line ends at the closing quote, the offset lies past the end of the line. `Substring` then throws, and the note gets no categories (`AddWithoutCategories`).
- **`NoteIndex`.** It filters the notes by title and asks the list for the position of the first match (`IndexOf`). With the note identity above, this is always the first position holding the title.
- **Edit and distinct titles.** `Edit` renames without checking that the new title is free. Add refuses duplicate titles and Remove only deletes, so sessions without edit commands keep titles pairwise distinct (`Session.RunKeepsTitlesDistinct`). An edit can give two notes the same title (`Commands.EditMayDuplicateTitles`). Titles stay distinct under edit only when the new title is unused (`Commands.EditKeepsTitlesDistinct`).
- **Remove's empty-name guard.** Remove refuses an empty name. That guard can never fire, because `Split` with `RemoveEmptyEntries` never yields an empty piece. The model keeps the guard.
- **`View` and `EditCategory`.** Their bodies are empty, so they change nothing and report nothing.

## Model

| member | source | states |
|---|---|---|
| `Seqs.IndexOf` | Todo-List/Todo-List/User.cs:127 | `List.IndexOf`: -1 exactly when the element is absent; otherwise a position holding it with no earlier occurrence |
| `Seqs.RemoveFirst` | Todo-List/Todo-List/User.cs:111-114 | `List.Remove`: an absent element leaves the list as it is; otherwise exactly the first occurrence is cut out and the rest keep their order |
| `Seqs.RemoveFirstMultiset` | Todo-List/Todo-List/User.cs:113 | removing a present element takes away exactly one copy of it and shortens the list by one |
| `Seqs.RemoveFirstOfAppended` | Todo-List/Todo-List/User.cs:102-114 | removing an element that was just appended, and was absent before, gives back the original list |
| `Seqs.FirstSeen` | Todo-List/Todo-List/User.cs:75-85 | the category-collection loop yields distinct elements, holds every element of the input and nothing else, and orders them by first occurrence |
| `Seqs.FirstSeenUnique` | Todo-List/Todo-List/User.cs:75-85 | those properties pin the result down: any distinct listing of the elements in first-occurrence order equals it |
| `Text.Upper` | Todo-List/Todo-List/User.cs:62 | `ToUpper`: same length, no lower-case letter left, non-letters kept, each lower-case letter replaced by its upper-case partner |
| `Text.Lower` | Todo-List/Todo-List/Program.cs:54 | `ToLower`: same length, no upper-case letter left, non-letters kept, each upper-case letter replaced by its lower-case partner |
| `Text.UpperIdempotent` | Todo-List/Todo-List/Program.cs:135 | upper-casing text that is already upper-cased changes nothing |
| `Text.Split` | Todo-List/Todo-List/Program.cs:143 | `Split(sep, RemoveEmptyEntries)`: every piece is non-empty and free of the separator |
| `Text.SplitKeepsText` | Todo-List/Todo-List/Program.cs:143 | the pieces laid end to end are the input with its separators deleted, so nothing else is lost |
| `Text.SplitJoin` | Todo-List/Todo-List/Program.cs:220 | splitting undoes joining for non-empty, separator-free pieces |
| `Text.SplitTrailing` | Todo-List/Todo-List/Program.cs:182-183 | a trailing separator adds no piece |
| `Text.SplitUpperCase` | Todo-List/Todo-List/Program.cs:135-143 | the pieces of upper-case text are upper-case |
| `Text.FirstToken` | Todo-List/Todo-List/Program.cs:54 | `cmd.Split(' ')[0]`: a space-free prefix of the line that ends at the first space or at the end |
| `Text.TailFrom` | Todo-List/Todo-List/Program.cs:133-140 | `Substring(off)` with the out-of-range exception caught: in range, the part of `s` that follows its first `off` characters; out of range, the empty string |
| `Notes.NewUser` | Todo-List/Todo-List/User.cs:16-21 | a new user has no notes, finds no title and has an empty category index |
| `Notes.NextId` | Todo-List/Todo-List/Program.cs:146 | the freshly constructed note is a new object: its identity differs from every stored note's |
| `Notes.AddNote` | Todo-List/Todo-List/User.cs:102-105 | the note goes to the end; the length grows by one and every earlier note stays |
| `Notes.RemoveNote` | Todo-List/Todo-List/User.cs:111-114 | the first note equal to the argument is deleted and the rest keep their order; without one nothing changes |
| `Notes.RemoveUndoesAdd` | Todo-List/Todo-List/User.cs:102-114 | removing a note that was just appended, and was not there before, restores the store |
| `Notes.NoteIndex` | Todo-List/Todo-List/User.cs:121-128 | -1 exactly when no note has the title; otherwise a position with that title and none before it |
| `Notes.NoteIndexAfterAdd` | Todo-List/Todo-List/User.cs:102-128 | after an append, earlier matches still win, and the new note is found at the end exactly when it carries the title |
| `Notes.NoteIndexFindsEach` | Todo-List/Todo-List/User.cs:121-128 | with distinct titles, every note is found at its own position under its own title |
| `Notes.RemoveFound` | Todo-List/Todo-List/Program.cs:171 | removing the note found under a title deletes exactly that position; with distinct titles the title is gone afterwards and titles stay distinct |
| `Notes.CheckCategorys` | Todo-List/Todo-List/User.cs:41-50 | every note ends with a category; empty lists become exactly `["UNCATEGORISED"]`; other notes, all titles, identities and the count are unchanged |
| `Notes.CheckCategorysIdempotent` | Todo-List/Todo-List/User.cs:41-50 | running it twice is running it once |
| `Notes.CheckCategorysFixes` | Todo-List/Todo-List/User.cs:41-50 | it leaves a store unchanged exactly when every note already has a category |
| `Notes.WithCategory` | Todo-List/Todo-List/User.cs:91 | the notes carrying one category form a subsequence of the store; each note occurs in it exactly as often as in the store if it carries the category, and not at all otherwise |
| `Notes.CarryingAll` | Todo-List/Todo-List/User.cs:57-66 | reference definition of the query in one pass: a subsequence of the store in which each note carrying every upper-cased name occurs as often as in the store, and no other note occurs |
| `Notes.NarrowIsCarryingAll` | Todo-List/Todo-List/User.cs:59-63 | the source's one-name-at-a-time narrowing computes exactly the one-pass intersection |
| `Notes.GetNotesByCategory` | Todo-List/Todo-List/User.cs:57-66 | a subsequence of the notes in store order; a note is in it, as often as the store holds it, exactly when it carries the upper-cased form of every name; no names select every note |
| `Notes.IntersectionExample` | Todo-List/Todo-List/User.cs:57-66 | a lower-case name matches the upper-case tag; two names select only the notes carrying both |
| `Notes.Flat` | Todo-List/Todo-List/User.cs:76-78 | the scan of notes then categories holds every carried category and nothing else |
| `Notes.Buckets` | Todo-List/Todo-List/User.cs:88-93 | one bucket per key in key order; each bucket is a subsequence of the store holding every note that carries its key, as often as the store holds it, and no other note |
| `Notes.GetAllCategories` | Todo-List/Todo-List/User.cs:72-96 | keys are distinct, cover every carried category and follow first appearance; each bucket is non-empty, in store order, and holds exactly the notes carrying its key, each as often as the store holds it |
| `Notes.IndexExample` | Todo-List/Todo-List/User.cs:72-96 | two notes tagged `WORK` and `HOME, WORK` give the keys `WORK`, `HOME` with buckets `[a, b]` and `[b]` |
| `Notes.IndexCoversCheckedNotes` | Todo-List/Todo-List/User.cs:41-96 | after `CheckCategorys`, every note appears in some bucket of the index |
| `Commands.ActionOf` | Todo-List/Todo-List/Program.cs:54-94 | each action is selected by exactly its short and long verb and by nothing else |
| `Commands.VerbOf` | Todo-List/Todo-List/Program.cs:54 | a lower-case, space-free word followed by nothing or a space is the command word |
| `Commands.GetName` | Todo-List/Todo-List/Program.cs:215-228 | succeeds exactly when the quote split has two pieces, with the second one, which is non-empty and quote-free; otherwise fails with "No name provided!" |
| `Commands.GetNameOf` | Todo-List/Todo-List/Program.cs:220 | in `word"name"rest` with a quote-free word, the name read is `name` |
| `Commands.CategoryList` | Todo-List/Todo-List/Program.cs:131-143 | every category is non-empty, `;`-free and upper-case; laid end to end they are the upper-cased category text with its `;` deleted; an offset past the line gives no category |
| `Commands.AddCommand` | Todo-List/Todo-List/Program.cs:121-147 | no name and duplicate title are raised exactly in their cases, no other outcome is possible, and errors leave the store alone; otherwise exactly one new note with that title and category list is appended; distinct titles are preserved |
| `Commands.AddWithCategories` | Todo-List/Todo-List/Program.cs:131-146 | the documented form `word "name" cats` appends a note with `name` and the upper-cased `;`-pieces of `cats` |
| `Commands.AddWithoutCategories` | Todo-List/Todo-List/Program.cs:133-140 | a line ending at the closing quote appends a note with no categories |
| `Commands.AddIgnoresWord` | Todo-List/Todo-List/Program.cs:123-143 | the add handler's result does not depend on which quote-free command word precedes the arguments |
| `Commands.RemoveIgnoresWord` | Todo-List/Todo-List/Program.cs:161-171 | the remove handler's result does not depend on which quote-free command word precedes the arguments |
| `Commands.EditIgnoresWord` | Todo-List/Todo-List/Program.cs:178-199 | the edit handler's result does not depend on which quote-free command word precedes the arguments |
| `Commands.RemoveCommand` | Todo-List/Todo-List/Program.cs:161-172 | no name and unknown name are raised exactly in their cases, no other outcome is possible, and errors leave the store alone; otherwise exactly the note at `NoteIndex(name)` is cut out; with distinct titles the name is gone and titles stay distinct |
| `Commands.RemoveFinds` | Todo-List/Todo-List/Program.cs:163-171 | a remove line `word "name"` for a stored name removes the note `NoteIndex` finds |
| `Commands.RemoveUndoesAddCommand` | Todo-List/Todo-List/Program.cs:121-172 | an add line whose name no note has, whatever categories it gives, followed by a remove line naming the same note, restores the store |
| `Commands.EditCommand` | Todo-List/Todo-List/Program.cs:178-199 | fewer than four quote pieces report the missing argument; an unknown old title reports "no note"; both leave the store alone; otherwise only the first note with the old title is renamed |
| `Commands.EditRenames` | Todo-List/Todo-List/Program.cs:180-193 | the documented form `word "old" "new"` renames the first note titled `old` to `new`, or reports that there is none |
| `Commands.EditKeepsTitlesDistinct` | Todo-List/Todo-List/Program.cs:185-189 | renaming to a title nobody else has keeps titles distinct |
| `Commands.EditMayDuplicateTitles` | Todo-List/Todo-List/Program.cs:185-189 | the new title is not checked, so some edit makes two titles equal |
| `Commands.ViewCommand` | Todo-List/Todo-List/Program.cs:153-155 | viewing leaves the store unchanged and succeeds |
| `Commands.EditCategoryCommand` | Todo-List/Todo-List/Program.cs:205-208 | editing categories leaves the store unchanged and succeeds |
| `Commands.ParseCommand` | Todo-List/Todo-List/Program.cs:50-97 | add, remove and edit words run their handler on the whole line and do not exit; view, editc, help and quit succeed; exit exactly on `q`/`quit`; an unknown verb reports "Invalid command!" and changes nothing; only add, remove and edit change the store; a raised error changes nothing; titles stay distinct except through edit |
| `Commands.SameActionSameStep` | Todo-List/Todo-List/Program.cs:54-90 | two command words that select the same action behave identically on the same arguments |
| `Commands.LongFormsAgree` | Todo-List/Todo-List/Program.cs:77-90 | every long verb behaves exactly like its one-letter short form |
| `Session.Loop` | Todo-List/Todo-List/Program.cs:23-42 | the loop reads at most every line, and every line when it does not stop on an exit request |
| `Session.LoopConcat` | Todo-List/Todo-List/Program.cs:23-42 | running two batches one after the other is running them together, when the first does not exit |
| `Session.LoopOne` | Todo-List/Todo-List/Program.cs:29-41 | a single line runs the handler on the starting store, records its outcome, and the loop exits exactly when that step asks to |
| `Session.Run` | Todo-List/Todo-List/Program.cs:20-43 | the session exits exactly when some line is `q`/`quit`, and it reads up to and including the first such line |
| `Session.RunOne` | Todo-List/Todo-List/Program.cs:26-41 | a one-line session runs `ParseCommand` on the starting store and exits exactly on `q`/`quit`; with `RunConcat`, every line of a longer session runs on the store the previous line left |
| `Session.RunFirstOutcome` | Todo-List/Todo-List/Program.cs:29-36 | the first outcome of a session is that of its first line |
| `Session.RunStopsAtQuit` | Todo-List/Todo-List/Program.cs:38-41 | lines after a quit line are never read |
| `Session.RunConcat` | Todo-List/Todo-List/Program.cs:23-42 | a session is the concatenation of its parts, each starting from the store the previous one left, when the first part has no quit line |
| `Session.RunKeepsTitlesDistinct` | Todo-List/Todo-List/Program.cs:23-42 | a session without edit commands keeps titles pairwise distinct |

## Left out

- Console output. This covers the prompt, the messages `Main` prints for exceptions, the `Help` text and the welcome banner. Printing is the only thing `Help` does, so it is modelled as a step that succeeds and changes nothing.
- Character counting. .NET strings count UTF-16 code units, so a character outside the Basic Multilingual Plane counts as two in `Length`, `IndexOf` and `Substring`, and `Substring` can start in the middle of a surrogate pair. The model's `string` counts Unicode scalar values.
- Commands.CategoryList: agrees with the source only on command lines without characters outside the Basic Multilingual Plane, because offsets count Unicode scalar values rather than UTF-16 code units.
- Text.TailFrom: the offset counts Unicode scalar values, not UTF-16 code units, so it cannot start inside a surrogate pair as `Substring` can.
- Case mapping. `ToUpper`/`ToLower` are culture-sensitive in .NET; the model uses ASCII case mapping, with every other character kept.
- `User.Name` and `User.Password`. Nothing reads or checks them.
- The code of the `Note` class is not modelled. A note is represented as a title, a category list and an identity (`id`). Its constructor is taken to store its arguments and nothing else.
- `Dictionary` enumeration order. .NET does not guarantee it. `GetAllCategories` returns the buckets as a sequence in first-seen key order.
- The static `NoteSorter` store. It has the same interface as `User`, and the model passes the store explicitly.
- A `null` line from `ReadLine` at end of input. The model's session is a finite list of lines instead.
- Commands.EditCommand: when one note object is stored twice, renaming it in .NET renames both entries, while the model renames only the entry `NoteIndex` finds. Only code outside the command layer can store a note object twice, through `AddNote` or the public `Notes` list; the add command always constructs a new note.
- Session.Run: its own contract states only when it exits and how many lines it reads; how each line acts on the store follows from `Session.RunOne` and `Session.RunConcat` together, not from a single clause.
