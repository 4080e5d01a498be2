# compile-commander, modelled in Dafny

compile-commander rewrites a clang compilation database (`compile_commands.json`).
Its `main` works in four steps:

1. It stops at once when no edit is requested.
2. It accepts a top-level JSON array of compile units, or a single bare object treated as a one-unit database.
3. It checks that every unit is an object with a string `file` and a string `command`.
4. It edits each `command` string in four fixed phases, then writes the units back out as an array:
   - add include: insert ` -I<path> ` in front of the first `-I`;
   - delete include: cut the first ` -I<path>`;
   - add arg: append ` -<arg>`;
   - delete arg: cut the first ` -<arg>`.

The first unit that fails the check aborts the whole run, and nothing is written.

This project models that core on values and proves what it promises.

The modules are:

- `Text` — leftmost substring search (Rust's `str::find`) and deletion of the first match, over `seq<char>`.
- `Json` — the decoded JSON document as a datatype. An object is its sequence of `(key, value)` members; key lookup returns the first member with that key.
- `CommandEdit` —
  - the request (`EditRequest`, four sequences of strings);
  - the four edit kinds as pure functions;
  - their fold `ApplyAll`, which is the specification, and `EditedCommand`, the fold of every requested edit in phase order, against which `PhaseOrder` and `EditCommand` are stated;
  - the four edit loops of `main` as imperative methods, each proved equal to that fold by its loop invariants.
- `EditProperties` — what the edits do, stated against the leftmost-match predicates of `Text` rather than against an index returned by `find`:
  - the exact result of each edit;
  - how several add-includes stack;
  - add-args accumulating;
  - bounds on repeated deletions;
  - worked examples.
- `Database` —
  - the top-level shape normaliser;
  - the `let … else` validation chain with its error kinds;
  - the per-unit rewrite and its "only `command` changes" guarantee;
  - the rewrite of all units with abort on the first bad unit, as a function and as the `iter_mut` loop;
  - the whole run: `Pipeline` is its specification (guard, normalisation, rewrite, reassembly) and `Run` is proved equal to it.
- `DatabaseProperties` — end-to-end properties of a run, all stated about `Pipeline`.

Add include finds `-I` and inserts ` -I<path> ` at that offset, so the inserted text comes after the blank already in front of the old `-I`. Two blanks then precede the new flag: add include `baz` on `clang -c -Ifoo/bar file.c` gives `clang -c  -Ibaz -Ifoo/bar file.c`. The model follows the code, and `EditProperties.ExampleAddInclude` proves the code's result.

## Model

| member | source | states |
|---|---|---|
| Text.Find | src/main.rs:106 | `find` returns an index exactly when the pattern occurs, and that index is the leftmost occurrence |
| Text.DeleteFirst | src/main.rs:113-114 | a pattern that does not occur leaves the string unchanged; otherwise the string shrinks by exactly the pattern's length |
| Text.DeleteFirstAt | src/main.rs:113-114 | with the leftmost occurrence at `k`, `replace_range(k..k+len, "")` gives `s[..k] + s[k+len..]`, and re-inserting the pattern at `k` gives back `s` |
| Json.Lookup | src/main.rs:74-75 | `get(key)` is absent exactly when no member has the key; otherwise it finds the first member with that key |
| CommandEdit.InsertInclude | src/main.rs:106-107 | without a `-I` the command is unchanged; with one, it grows by `len(path) + 4` |
| CommandEdit.Apply | src/main.rs:105-127 | add arg keeps the old command as a prefix and grows it by `len(arg) + 2`; the two deletions never lengthen the command |
| CommandEdit.ApplyAllAppend | src/main.rs:105-127 | running edits `a` and then edits `b` is running `a + b` |
| CommandEdit.PhaseOrder | src/main.rs:105-127 | the edited command is all add-includes, then all delete-includes, then all add-args, then all delete-args, each phase on the previous phase's output |
| CommandEdit.EmptyRequestIdentity | src/main.rs:37-44 | an empty request leaves every command unchanged |
| CommandEdit.AddIncludes | src/main.rs:105-109 | the add-include loop computes the fold of one add-include edit per path, in request order |
| CommandEdit.DeleteIncludes | src/main.rs:111-116 | the delete-include loop computes the fold of one delete-include edit per path, in request order |
| CommandEdit.AddArgs | src/main.rs:118-120 | the add-arg loop computes the fold of one add-arg edit per argument, in request order |
| CommandEdit.DeleteArgs | src/main.rs:122-127 | the delete-arg loop computes the fold of one delete-arg edit per argument, in request order |
| CommandEdit.EditCommand | src/main.rs:104-127 | the four loops in sequence compute the edited command for the whole request |
| EditProperties.AnchorAt | src/main.rs:106 | `-I` occurs at `j` exactly when `s[j]` is `-` and `s[j+1]` is `I` |
| EditProperties.InsertIncludeAt | src/main.rs:106-107 | with the first `-I` at `i`, add include gives `s[..i] + " -I" + p + " " + s[i..]`, and the first `-I` of the result is the inserted one, at `i + 1` |
| EditProperties.AddIncludesStack | src/main.rs:105-109 | with the first `-I` of `x + y` at `len(x)`, adding paths `p1..pn` gives `x`, then `n` blanks, then `-Ipn ` … `-Ip1 `, then `y`: later paths land first |
| EditProperties.AddIncludesAnchor | src/main.rs:105-109 | after `n` add-includes the first `-I` is `n` places further right, at the last inserted flag |
| EditProperties.AddIncludesNoAnchor | src/main.rs:105-109 | on a command without `-I` the whole add-include phase changes nothing |
| EditProperties.DeleteIncludeAt | src/main.rs:111-116 | with ` -I<p>` first occurring at `k`, exactly that occurrence is cut, the length drops by `len(p) + 3`, and re-inserting it at `k` gives back the command |
| EditProperties.DeleteArgAt | src/main.rs:122-127 | with ` -<a>` first occurring at `k`, exactly that occurrence is cut, the length drops by `len(a) + 2`, and re-inserting it at `k` gives back the command |
| EditProperties.AddArgsAppend | src/main.rs:118-120 | the add-arg phase appends ` -a1 -a2 …` to the command in request order, repeats included |
| EditProperties.OnlyAddArgs | src/main.rs:104-127 | a request made only of add-args appends their flags, in order, to the command |
| EditProperties.AddArgRunsAccumulate | src/main.rs:118-120 | running the same add-arg request in two separate runs leaves each flag in the command twice: there is no deduplication |
| EditProperties.RepeatedDeletion | src/main.rs:111-127 | requesting the same deletion `n` times shortens the command by `m` copies of its target for some `m <= n` |
| EditProperties.DeletionsAbsent | src/main.rs:111-127 | deletions whose targets do not occur leave the command unchanged |
| EditProperties.ExampleAnchor | src/main.rs:106 | in `clang -c -Ifoo/bar file.c` the first `-I` is at offset 9 |
| EditProperties.ExampleAddInclude | src/main.rs:106-107 | add include `baz` on `clang -c -Ifoo/bar file.c` gives `clang -c  -Ibaz -Ifoo/bar file.c` |
| EditProperties.ExampleDeleteInclude | src/main.rs:111-116 | delete include `foo/bar` on `clang -c -Ifoo/bar file.c` gives `clang -c file.c` |
| EditProperties.ExampleSubstringMatch | src/main.rs:111-116 | matching is on substrings: delete include `foo` on `x -Ifoo/bar` gives `x/bar` |
| EditProperties.ExampleNoAnchor | src/main.rs:106 | add include on `clang -c file.c`, which has no `-I`, changes nothing |
| EditProperties.ExampleAddArgTwice | src/main.rs:118-120 | add arg `Wall` requested twice appends ` -Wall -Wall` |
| Database.Normalise | src/main.rs:55-64 | an array gives its elements and an object the one-element list of itself; any other value is `MalformedDatabase`; re-wrapping the result as an array gives back an array document unchanged |
| Database.Validate | src/main.rs:69-102 | it succeeds exactly on objects with a string `file` and a string `command`; otherwise it fails with the error of the first check in the chain that fails (`NotAnObject`, `MissingField("file")`, `WrongType("file")`, `MissingField("command")`, `WrongType("command")`); on success it returns the `file` string and the position and string of the `command` member |
| Database.RewriteUnit | src/main.rs:69-127 | it succeeds exactly on valid units, fails with the validation error otherwise, and on success changes only the value of the `command` member, to the edited command |
| Database.RewriteAll | src/main.rs:66-128 | it succeeds exactly when every unit is valid, giving one rewritten unit per input unit in order; otherwise it fails with the error of the first invalid unit |
| Database.FirstBadShift | src/main.rs:66-102 | after a valid first unit, the first invalid unit of the rest is the first invalid unit of the whole |
| Database.RewriteAllFailsAt | src/main.rs:66-102 | when unit `i` is the first invalid one, the rewrite fails with unit `i`'s validation error |
| Database.RewriteAllSucceeds | src/main.rs:66-128 | when every unit rewrites successfully, the rewrite yields exactly the rewritten units |
| Database.RewriteUnits | src/main.rs:66-128 | the `iter_mut` loop, editing each unit in place, computes `RewriteAll` |
| Database.Run | src/main.rs:37-135 | a run is the empty-request guard, normalisation, the rewrite of every unit and reassembly as an array; an empty request does nothing |
| DatabaseProperties.WritesIff | src/main.rs:55-134 | a non-empty request writes output exactly when the document is an array or object all of whose units are valid |
| DatabaseProperties.OutputUnits | src/main.rs:66-134 | the output is an array with one unit per input unit, in order, each differing from its input only in the value of `command` |
| DatabaseProperties.BareObjectBecomesSingleton | src/main.rs:57 | a valid bare object is written back as a one-element array holding its rewrite |
| DatabaseProperties.MalformedTopLevelAborts | src/main.rs:58-63 | a top-level string, number, boolean or null aborts the run with `MalformedDatabase` |
| DatabaseProperties.AbortNamesFirstBadUnit | src/main.rs:66-102 | an aborted run over an array or object reports the error of the first invalid unit |
| DatabaseProperties.MissingCommandAborts | src/main.rs:91-96 | in an array whose earlier units are all valid, a unit with a string `file` but no `command` aborts the run with `MissingField("command")` |
| DatabaseProperties.EditedUnitStillValid | src/main.rs:91-127 | editing only the command keeps a unit valid |
| DatabaseProperties.OutputReadsBack | src/main.rs:55-134 | the written database is accepted again: it normalises to its own units and every one of them is valid |

## Left out

- Command-line parsing (the `clap` derive on `Args`, its short and long option names and file-name defaults): the request is the `EditRequest` value handed to `Run`.
- Opening, reading, creating and writing files: `Run` takes the decoded document and returns the document to be written, or the error.
- JSON decoding and pretty encoding: the model starts from the decoded value and ends with the value to encode. A document that fails to decode, and a failure to open a file or encode the output, are errors of that I/O and are not modelled.
- JSON numbers are kept as opaque literal text; no arithmetic is done on them.
- Object member order and key uniqueness belong to the JSON library's map type. The model keeps members in decoded order and looks up the first member with a key, which is the only one once keys are unique; the order in which the library writes members out is not modelled.
- The text of the error messages and their context strings are not modelled. This includes the message for a missing `file` member, which speaks of a `command` field. Errors are modelled as kinds (`MalformedDatabase`, `NotAnObject`, `MissingField(name)`, `WrongType(name)`).
- The notice printed for an empty request, and the process exit status, are not modelled; both are I/O.
- Offsets are counted in characters (`seq<char>`), not in UTF-8 bytes. `find` always returns a character boundary and every inserted or deleted text is whole characters, so the results are the same strings.
- Units are edited in place one after the other, and a later unit can abort the run after earlier ones were edited. `RewriteUnits` models that loop, but the run then writes nothing, so only the all-or-nothing result is stated.
- EditProperties.RepeatedDeletion: states "at most `n` removals" through the command's length, not by counting occurrences of the target.
