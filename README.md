# fix_filenames in Dafny

A model of the rename engine of `fix_filenames.py`, a script that walks a
directory tree and renames every regular file and symbolic link whose name
holds a character outside a fixed "safe" ASCII alphabet. It asks the user
for substring replacement rules ("é" -> "e") until each name is clean. The
model has five modules:

- `Alphabet` (alphabet.dfy): the `ALLOWED` alphabet and `resolved`, the
  check that a name uses only permitted characters.
- `Substitute` (replace.dfy): literal substring replacement with the meaning
  of Python's `str.replace`: leftmost, non-overlapping, every occurrence.
- `Rules` (rules.dfy): the value-level meaning of the replacement table
  `REPL`, of storing one rule (`enter_rule`), and of `get_new_filename`.
  This covers the first pass, then the loop that asks for one more rule and
  re-applies the whole table to the already substituted name.
- `Tree` (walk.dfy): the value-level meaning of `fix_non_ascii_name`, a
  pre-order walk over a tree of `Dir | File | Link | Other` entries. It
  returns the moves it logs and the renames it performs.
- `Engine` (engine.dfy): the script's imperative form. The class `Renamer`
  holds `REPL` and the console. Its methods `EnterRule`, `ApplyRules`,
  `GetNewFilename` and `FixNonAsciiName` update that state with loops and
  recursion. Each is proved equal to the value-level function above.

The console is an explicit sequence of answers. Each answer is the pair of
strings typed at the two prompts of `enter_rule`. The answers are read
from the front, one pair per prompt round. An answer with an empty original
is rejected and the next one is read. When the answers run out, the
source's `raw_input` raises an end-of-file error. Nothing catches it, so the
whole run stops. In the model this is a missing name (`Outcome.name ==
None`), and in the walk it is `ok == false`, after which no further entry is
visited.

The rules are applied in the order in which each original was first
entered. Overwriting a rule keeps its place. Python 2 dictionaries promise
no order at all, so this is one of the orders the source may use. The
properties proved below that quantify over all tables do not depend on it.

A directory path is carried explicitly (`dir: seq<string>`, the names from
the starting directory down). The source changes the working directory
instead. A move `Move(dir, from, to)` stands for the `os.rename(from, to)`
that runs inside `dir`.

## Model

| member | source | states |
|---|---|---|
| Alphabet.InAllowed | fix_filenames.py:16-20 | a character is in `ALLOWED` exactly when it is an ASCII letter, a digit, or one of ``_-[]*(){}.,;+^!&#$=@'~``, space, `%`, CR and LF (the class test used throughout agrees with the listed string) |
| Alphabet.IsResolved | fix_filenames.py:25-31 | the loop's flag ends true exactly when no character of the name is forbidden |
| Alphabet.ResolvedIffAllInAllowed | fix_filenames.py:25-31 | a name is resolved if and only if every one of its characters is in `ALLOWED` |
| Alphabet.EmptyIsResolved | fix_filenames.py:25-31 | the empty name is resolved |
| Alphabet.ResolvedConcat | fix_filenames.py:25-31 | a concatenation is resolved exactly when both parts are |
| Substitute.ReplaceAbsent | fix_filenames.py:64-65 | replacing an original that does not occur leaves the string unchanged |
| Substitute.ReplaceChars | fix_filenames.py:64-65 | every character of a replacement result comes from the string or from the replacement |
| Substitute.ReplaceKeepsResolved | fix_filenames.py:64-65 | a resolved string stays resolved under a rule whose replacement is resolved |
| Substitute.ReplaceRemovesChar | fix_filenames.py:64-65 | a one-character original that its replacement does not contain is gone after the replacement |
| Rules.Table.Store | fix_filenames.py:54 | `REPL[orig] = repl` maps `orig` to the new replacement, keeps every other key and value, removes nothing, keeps the order of the old keys and keeps every original non-empty |
| Rules.NextRule | fix_filenames.py:41-49 | the answer `enter_rule` accepts is the first with a non-empty original; every answer before it has an empty original; with none, all remaining answers are empty |
| Rules.ApplyAllAbsent | fix_filenames.py:64-65 | a pass in which no original occurs leaves the name unchanged |
| Rules.ApplyAllChars | fix_filenames.py:64-65 | every character after a pass comes from the name or from some rule's replacement |
| Rules.ForbiddenKeyAbsent | fix_filenames.py:25-31 | an original with a forbidden character never occurs in a resolved name |
| Rules.ApplyFixesResolved | fix_filenames.py:64-65 | when every original holds a forbidden character, a pass leaves a resolved name alone |
| Rules.Resolve | fix_filenames.py:66-71 | the loop keeps the table valid and only grows it |
| Rules.ResolveReadsFromFront | fix_filenames.py:41-43 | the loop consumes answers only from the front: what remains is a suffix of the answers |
| Rules.ResolveSound | fix_filenames.py:66-72 | a name that is returned is resolved |
| Rules.ResolveFailsOnlyAtEnd | fix_filenames.py:66-71 | no name is returned only when the name was unresolved and every answer has been read |
| Rules.NoRequestWhenFirstPassResolves | fix_filenames.py:63-66 | if the first pass already resolves the name, no rule is asked for and the table and answers are untouched |
| Rules.ResolvedIsFixedPoint | fix_filenames.py:57-72 | when every original holds a forbidden character, a resolved name comes back unchanged and nothing is asked |
| Rules.PermittedRuleRewritesResolvedName | fix_filenames.py:54-65 | without that proviso a resolved name can still change: the stored rule "a" -> "b" turns "a" into "b" |
| Rules.TwoRulesScenario | fix_filenames.py:57-72 | with the answers "é" -> "e" and "ï" -> "i", the name "naïvé" becomes "naive"; both rules are asked for in turn, and the second pass works on "naïve" |
| Tree.Decide | fix_filenames.py:92-97 | given the computed outcome: the walk goes on exactly when a name was computed; nothing is logged exactly when that name equals the old one, and otherwise the single move from the old name to the computed name is logged; it is performed unless this is a dry run; table and answers are those the computation left |
| Tree.Rename | fix_filenames.py:91-97 | for a file or link: the walk goes on exactly when `NewFilename` returns a name; nothing is logged exactly when that name equals the old one, otherwise the one move to it; the table stays valid and only grows; the renames are the logged moves, or none in a dry run |
| Tree.RewrittenResolvedNameIsMoved | fix_filenames.py:91-97 | the decision compares the computed name with the old one, not the alphabet test: with the rule "a" -> "b" the resolved file name "a" is moved to "b" |
| Tree.Visit | fix_filenames.py:75-99 | the walk keeps the table valid and growing, and performs exactly its logged moves, or none in a dry run |
| Tree.VisitAll | fix_filenames.py:84-87 | the loop over a listing keeps the table valid and growing, and performs exactly its logged moves, or none in a dry run |
| Tree.VisitAllAppend | fix_filenames.py:84-87 | the listing is handled in order and the loop stops at the first aborted entry: walking `nodes + more` is walking `nodes`, then `more` from the state it left only if it was not aborted; after an abort the later entries log nothing and read no answer |
| Tree.VisitSound | fix_filenames.py:75-99 | every logged move renames a file or link the walk reaches, to a different and resolved name |
| Tree.VisitComplete | fix_filenames.py:75-99 | a walk that is not aborted logs a move for every reached file or link whose name is unresolved |
| Tree.LeavesInside | fix_filenames.py:80-90 | everything reached from a directory lies inside it |
| Tree.DirNeverRenamed | fix_filenames.py:80-90 | no move of a directory's walk renames the directory itself; every move lies inside it |
| Tree.VisitFailsOnlyAtEnd | fix_filenames.py:75-99 | a walk is aborted only after every answer has been read |
| Tree.VisitReadsFromFront | fix_filenames.py:75-99 | a walk consumes answers only from the front |
| Tree.DryRunLogsTheSame | fix_filenames.py:93-97 | a dry run logs the same moves, asks the same rules and ends in the same state as a live run, and performs no rename |
| Tree.CleanTreeUnchanged | fix_filenames.py:75-99 | when every original holds a forbidden character, walking a tree whose reached names are all resolved moves nothing and reads no answer |
| Engine.Renamer.constructor | fix_filenames.py:22 | the table starts empty |
| Engine.Renamer.EnterRule | fix_filenames.py:34-54 | reads answers until one has a non-empty original and stores it (`Table.Store`); with none left, the table is unchanged and every answer is consumed |
| Engine.Renamer.ApplyRules | fix_filenames.py:64-65 | the `for` loop over `REPL` computes one pass of the table over the name |
| Engine.Renamer.GetNewFilename | fix_filenames.py:57-72 | returns the name, and leaves the table and answers, that `NewFilename` (`Resolve` after one pass) gives |
| Engine.Renamer.FixNonAsciiName | fix_filenames.py:75-99 | logs, performs and leaves state exactly as `Tree.Visit` |
| Engine.Renamer.VisitChildren | fix_filenames.py:84-87 | the loop over a directory's listing gives exactly `Tree.VisitAll` |
| Engine.Renamer.MoveIfChanged | fix_filenames.py:91-97 | the file-or-link branch gives exactly `Tree.Rename` |

## Left out

- Console output and the prompts of `enter_rule` (fix_filenames.py:37-40, 47, 51, 53) are not modelled. The `unicode-escape` decoding of the typed original is also left out. An answer is taken as already decoded. A decoding error is taken as one more rejected answer: it reads the next pair, as an empty original does.
- The replacement is typed as a byte string and is not decoded (fix_filenames.py:43). The model takes it as characters. In Python 2, `unicode.replace` with a byte-string replacement that holds a non-ASCII byte raises a decoding error on the next pass that uses it (fix_filenames.py:65, 71), so the source aborts as soon as such a rule is stored, while the model goes on applying it as characters.
- The codec calls `unicode(old_filename, encoding)` and `.encode(encoding, 'replace')` (fix_filenames.py:62, 72) are left out. Names are character sequences. A resolved name is pure ASCII, so re-encoding it changes nothing for the usual encodings.
- Printing and `logging` are not modelled. They are replaced by the returned list of logged moves.
- `main` is not modelled: option parsing, log setup, and splitting each argument into a directory and a name (fix_filenames.py:102-128).
- The file system is a `Node` tree given up front. The `os.path` probes become its constructors. A symbolic link is a leaf, so it is never followed. `glob` order is the order of `children`. `os.rename` becomes a logged `Move`, and the tree is not updated after a rename.
- Rename collisions are not modelled: a move onto a name that already exists in the directory is logged like any other, as the source does no check.
- The interactive loop can run for ever in the source when the user never enters a rule that resolves the name. The model has a finite answer sequence instead, and running out of it is the end-of-file abort.
- Rules.Resolve: a run that ends at end-of-file returns no name; the source instead propagates the exception out of `main`, which the model represents by stopping the walk.
- Substitute.Replace: defined only for a non-empty original. `str.replace` with an empty original inserts the replacement between characters, but `enter_rule` never stores one, which `Table.Valid` records.
- Rules.ResolvedIsFixedPoint: states that a resolved name is returned unchanged only under the proviso that every rule's original holds a forbidden character. Without it the property fails (`Rules.PermittedRuleRewritesResolvedName`).
- The rule application order is fixed to first-insertion order. Python 2 dictionary order is unspecified (fix_filenames.py:64, 70).
- Directory renames, bottom-up ordering and name-conflict handling are not modelled, because the code has none of them: directories are never renamed and entries are handled in pre-order.
