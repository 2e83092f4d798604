# xpra window damage handling and content-type guessing, in Dafny

This project models two pieces of the xpra server.

**`WindowDamageHandler`** (`xpra/x11/gtk_x11/window_damage.py`) holds the capture state of
one X11 client window:

- its XDamage handle;
- its XShm image wrapper;
- the named backing pixmap (the "contents handle");
- the border width.

The handler creates and releases these handles on setup, on destroy, when damage is
acknowledged and on reparent, unmap and configure events. `get_image` captures an image,
first through XShm, then by reading the pixmap clamped to its size. XShm can be switched
off for one window (`_use_xshm`) or for every window at once (the class attribute
`XShmEnabled`, modelled as a shared `XShmLatch` object). Once either switch is off, it
never comes back on.

In the model, the X server's answers are parameters of each method: geometry, the damage
handle, the wrapper `get_XShmWrapper` creates and its `setup()` flags, the named pixmap, and
the outcome of the image reads. Every request the handler sends (create, subtract, destroy,
allocate, set up, discard, clean up, read) is appended to a ghost trace `effects`. For
these answers, each contract states the new fields and the whole sequence of requests
sent. `get_xshm_handle` is also given as a pure function, `XShmStepOf`, which maps the old
state and the answers to the result, the new state and the requests. `get_image` and its
XShm attempt are specified through that function.

**The content guesser** (`xpra/server/window/content_guesser.py`) guesses a window's content
type in three steps:

1. It tries the `content-type` rules, `<property>:<regex>=<content type>`. These are read
   from configuration files and from `XPRA_CONTENT_TYPE_DEFS`. The first property (in
   table order) that the window has, and whose first matched value (in list order) matches
   a rule (in insertion order), gives the type.
2. It tries the window's command, looked up in a table built from the XDG menu. The menu
   entries' categories are resolved to content types through the
   `content-categories` files, by exact key first and then by the first key the category
   contains.
3. It falls back to `XPRA_DEFAULT_CONTENT_TYPE`.

Both tables are module globals that are computed once. They are modelled as the fields of a
`ContentTables` object that go from `None` to a value and then stay unchanged.

The parsers, the lookups and the table builders are functions. Their loops are methods
proved equal to those functions. The lemmas state what the functions mean in terms of the
input lines:

- which lines are skipped;
- how a rule line is cut;
- that the last definition of a category or command wins;
- that the properties of the table are exactly those some accepted rule names;
- that the first match in table order is the answer.

Python's `str` and `dict` operations the source relies on are modelled in two small
modules. `PyStrings` covers strip, split, rsplit, find, lower, basename, encode and the
`str()` of bytes. `PyDicts` covers an insertion-ordered dict as a sequence of pairs: get,
assignment, `update`, and the dict a loop of assignments builds.

Three behaviours of the source are modelled as written:

- **The user category directories.** The user-directory loop of `load_categories_to_type`
  (`content_guesser.py:140-143`) discards what it loads and merges `v` again. `v` is the
  last system directory's dict, and it is unbound when there is no system directory. The
  model keeps both effects: `UserCategoryDirsIgnored` proves that the user directories
  never change the result, and that loading one with no system directory raises
  `UnboundLocalError`.
- **The content type is cut at `:`, not at `#`.** The comment at `content_guesser.py:88-89`
  speaks of dropping `#` comments after the content type, but the code at line 90 cuts the
  text at its first `:`. The model follows the code (`ParseEntry`), so `text #note` keeps
  its `#note`.
- **Bytes command keys.** The command table stores bytes keys (`.encode()`), while a str
  `command` property is looked up as a str. `TextCommandNeverFound` and
  `TextCommandPropertyNeverMatches` prove that such a lookup never finds a type.

## Model

| member | source | states |
|---|---|---|
| PyStrings.RStrip | xpra/server/window/content_guesser.py:71 | the result is the longest prefix of the string not ending in a dropped character: every removed character is a dropped one |
| PyStrings.LStrip | xpra/server/window/content_guesser.py:179 | the result is the longest suffix not starting with a dropped character: every removed character is a dropped one |
| PyStrings.Strip | xpra/server/window/content_guesser.py:72 | `strip()`: right- then left-strip. `StripSpec` states its meaning: empty exactly when every character is stripped, otherwise neither end is a stripped character |
| PyStrings.StripSpec | xpra/server/window/content_guesser.py:72 | `strip()` gives the empty string exactly when every character is stripped; otherwise the result neither starts nor ends with a stripped character |
| PyStrings.RStripAppend | xpra/server/window/content_guesser.py:71 | right-stripping `a + b`, where `a` ends in a kept character, strips only `b` |
| PyStrings.RStripDropped | xpra/server/window/content_guesser.py:90 | characters that would be stripped anyway, appended to a string, do not change its right-strip |
| PyStrings.BeforeFirstAppend | xpra/server/window/content_guesser.py:90 | text appended after a string that already holds the separator does not change what comes before the first separator |
| PyStrings.SplitFirst | xpra/server/window/content_guesser.py:82 | `split(sep, 1)` has two parts exactly when `sep` occurs; the parts rejoin with `sep` to the string and the first holds no `sep` |
| PyStrings.SplitLast | xpra/server/window/content_guesser.py:74 | `rsplit(sep, 1)` has two parts exactly when `sep` occurs; the parts rejoin to the string and the second holds no `sep` |
| PyStrings.SplitFirstUnique | xpra/server/window/content_guesser.py:82 | a string `a + sep + b` with no `sep` in `a` splits into exactly `a` and `b` |
| PyStrings.SplitLastUnique | xpra/server/window/content_guesser.py:74 | a string `a + sep + b` with no `sep` in `b` rsplits into exactly `a` and `b` |
| PyStrings.SplitAll | xpra/server/window/content_guesser.py:41 | `split(",")` yields at least one field and no field holds the separator |
| PyStrings.JoinSplitAll | xpra/server/window/content_guesser.py:41 | joining the fields of a split with the separator gives back the string |
| PyStrings.SplitAllJoin | xpra/server/window/content_guesser.py:41 | splitting a join of separator-free fields gives back the fields |
| PyStrings.BeforeFirst | xpra/server/window/content_guesser.py:90 | `split(":")[0]` is a prefix without `:` that is the whole string or stops at a `:` |
| PyStrings.BeforeFirstIsFirstField | xpra/server/window/content_guesser.py:90 | the text before the first separator is the first field of the full split |
| PyStrings.Lower | xpra/server/window/content_guesser.py:202 | `lower()` keeps the length, maps every character through the ASCII case mapping and leaves no ASCII capital |
| PyStrings.LowerIdempotent | xpra/server/window/content_guesser.py:179 | lowering a lowered string changes nothing, so category keys stay as stored |
| PyStrings.Find | xpra/server/window/content_guesser.py:206 | `find` is non-negative exactly when the needle occurs, and then it is the first position where it does |
| PyStrings.Basename | xpra/server/window/content_guesser.py:222 | `os.path.basename` is a suffix of the path with no `/`, either the whole path or the part after its last `/` |
| PyStrings.Encode | xpra/server/window/content_guesser.py:210 | UTF-8 encoding never shortens the text and leaves ASCII text unchanged |
| PyStrings.EscapeBytes | xpra/server/window/content_guesser.py:128 | the part of `repr(b)` between the quotes; when every byte is printable ASCII other than a backslash and the quote, it is the bytes themselves |
| PyStrings.BytesRepr | xpra/server/window/content_guesser.py:128 | `str()` of a bytes value has the form `b'…'` or `b"…"`; bytes of printable ASCII without a backslash show as themselves, between single quotes, or between double quotes when they hold a single quote |
| PyDicts.Keys | xpra/server/window/content_guesser.py:109 | `keys()` lists one key per pair, in insertion order |
| PyDicts.Get | xpra/server/window/content_guesser.py:202 | `get(k)` is `None` exactly when `k` is not a key, and otherwise a value stored with `k` |
| PyDicts.Put | xpra/server/window/content_guesser.py:179 | assignment keeps a present key in its place and appends a new key at the end |
| PyDicts.PutGet | xpra/server/window/content_guesser.py:212 | after `d[k] = v`, `k` gives `v` and every other key gives what it gave before |
| PyDicts.PutDistinct | xpra/server/window/content_guesser.py:94 | assignment keeps the keys distinct |
| PyDicts.Update | xpra/server/window/content_guesser.py:139 | `d.update(e)`: the pairs of `e` assigned into `d` in order. `UpdateGet`, `UpdateDistinct`, `UpdateIdempotent`, `UpdateSameKeys`, `UpdateKeysGrow` and `UpdateKeysPresent` state what it gives |
| PyDicts.UpdateGet | xpra/server/window/content_guesser.py:155 | after `d.update(e)`, a key of `e` gives its value in `e` and any other key its value in `d` |
| PyDicts.UpdateDistinct | xpra/server/window/content_guesser.py:139 | `update` keeps the keys distinct |
| PyDicts.UpdateIdempotent | xpra/server/window/content_guesser.py:143 | updating twice with the same dict gives the same dict as updating once |
| PyDicts.UpdateEachLastWins | xpra/server/window/content_guesser.py:150-155 | when dicts with distinct keys are merged in order, a key is in the merge exactly when one of them holds it, and its value is the one the last such dict gives |
| PyDicts.CollectLastWins | xpra/server/window/content_guesser.py:166-179 | in the dict a loop of assignments builds, a key is present exactly when some element assigns it, and its value is the one the last such element gives |
| PyDicts.CollectDistinct | xpra/server/window/content_guesser.py:163-181 | a dict built by assignments has distinct keys |
| ContentGuesser.StrOf | xpra/server/window/content_guesser.py:128 | `str(value)`: a str is itself, bytes give their `b'...'` repr (`PyStrings.BytesRepr`), any other value its own text. `SearchedTexts` states that the search sees exactly these texts |
| ContentGuesser.SearchedTexts | xpra/server/window/content_guesser.py:122-125 | a list or tuple gives `str()` of each element, in order and one per element; any other value gives its own `str()` |
| ContentGuesser.CommentOrBlankSpec | xpra/server/window/content_guesser.py:72 | a line is skipped exactly when it starts with `#` or is all whitespace; a line with a `:` that does not start with `#` is never skipped |
| ContentGuesser.ParseEntry | xpra/server/window/content_guesser.py:69-91 | the parsing half of `process_content_type_entry` (line end removed, comment and blank test, split at the last `=` and the first `:`, type cut at `:` and stripped); `ParseEntrySpec`, `CommentEntryIgnored` and `ParseEntryOfRule` state what it gives |
| ContentGuesser.ParseEntrySpec | xpra/server/window/content_guesser.py:69-91 | an entry is ignored exactly when it is a comment or blank, and lacks `=` exactly when it is neither and has no `=`; a definition is the line cut at its first `:` and its last `=`, with the type cut at its first `:` and stripped |
| ContentGuesser.CommentEntryIgnored | xpra/server/window/content_guesser.py:72-73 | a line starting with `#` is ignored even in the rule format |
| ContentGuesser.ContentTypeIgnoresLineEnd | xpra/server/window/content_guesser.py:71-90 | removing the line end first never changes the content type: it is cut off at the `:` or stripped as whitespace |
| ContentGuesser.ParseEntryOfRule | xpra/server/window/content_guesser.py:71-91 | every line in the rule format, with or without a line end, parses to its property, regex and stripped content type |
| ContentGuesser.AddDefinition | xpra/server/window/content_guesser.py:94 | `setdefault(prop, {})[regex] = …` on the table; `AddDefinitionSpec`, `AddDefinitionValue` and `AddDefinitionWellFormed` state its effect |
| ContentGuesser.AddDefinitionWellFormed | xpra/server/window/content_guesser.py:94 | adding a rule keeps the table's properties and each property's regexes distinct |
| ContentGuesser.AddDefinitionSpec | xpra/server/window/content_guesser.py:94 | `setdefault(prop, {})[regex] = …` keeps every property's place, appends a new property, leaves other properties' rules unchanged and makes the regex give the content type |
| ContentGuesser.ApplyEntry | xpra/server/window/content_guesser.py:64-65 | what one line does to the rule table: only a definition whose regex compiles adds a rule. `ApplyEntryKeys` and `ApplyEntryKeepsKey` state its effect on the properties |
| ContentGuesser.ApplyEntries | xpra/server/window/content_guesser.py:64-67 | the lines of a file processed in order. `ApplyEntriesWellFormed`, `ApplyEntriesKeys`, `ApplyEntriesKeepsKeys`, `ApplyEntriesAddsKeys` and `ApplyEntriesConcat` state what it gives |
| ContentGuesser.ApplyEntriesWellFormed | xpra/server/window/content_guesser.py:61-67 | processing entries in order keeps the table well formed |
| ContentGuesser.ApplyEntryKeys | xpra/server/window/content_guesser.py:69-101 | after one entry, a property is in the table exactly when it was before or the entry is a definition for it whose regex compiles |
| ContentGuesser.ApplyEntriesKeepsKeys | xpra/server/window/content_guesser.py:61-67 | processing more entries never removes a property |
| ContentGuesser.ApplyEntriesAddsKeys | xpra/server/window/content_guesser.py:61-67 | an accepted definition's property is in the table after all entries |
| ContentGuesser.ApplyEntriesKeysOrigin | xpra/server/window/content_guesser.py:61-67 | a new property of the table was defined by some accepted entry |
| ContentGuesser.ApplyEntriesKeys | xpra/server/window/content_guesser.py:104-109 | the properties of the table are exactly those it had and those some accepted entry defines |
| ContentGuesser.FirstSomeSpec | xpra/server/window/content_guesser.py:115-133 | a first-match loop finds nothing exactly when no element matches, and otherwise returns the first match |
| ContentGuesser.MatchRulesSpec | xpra/server/window/content_guesser.py:127-132 | a value is unmatched exactly when no regex searches it successfully; otherwise the type is the first matching rule's, in insertion order |
| ContentGuesser.MatchTextsSpec | xpra/server/window/content_guesser.py:122-132 | for a list, the match of the first element that matches wins |
| ContentGuesser.FirstMatch | xpra/server/window/content_guesser.py:112-133 | the type `guess_content_type_from_defs` gives: the first property's first matched value's first matching rule; `FirstMatchSpec` states it against every property, value and rule |
| ContentGuesser.FirstMatchSpec | xpra/server/window/content_guesser.py:112-133 | no type exactly when no property of the table is on the window with a matched value; otherwise the match of the first such property in table order |
| ContentGuesser.FindContentType | xpra/server/window/content_guesser.py:115-133 | the three nested loops with their early return compute the first match |
| ContentGuesser.ParseCategoryLine | xpra/server/window/content_guesser.py:166-179 | one line of `load_content_categories_file` (skip test, split at the last `:`, key stripped and lowercased, value stripped); `ParseCategoryLineSpec` and `ParseCategoryLineOf` state what it gives |
| ContentGuesser.ParseCategoryLineSpec | xpra/server/window/content_guesser.py:166-179 | a category line is skipped exactly when it is a comment, blank or has no `:`; every key is lowercase |
| ContentGuesser.ParseCategoryLineOf | xpra/server/window/content_guesser.py:168-179 | a line `category:type` with no `:` in the type, with or without a line end, gives the stripped, lowercased category and the type without its line end, stripped |
| ContentGuesser.CategoriesOf | xpra/server/window/content_guesser.py:162-181 | the dict of one `content-categories` file: each parsed line assigned in order. `CategoriesOfLastWins` and `LoadContentCategoriesFile` state its contents |
| ContentGuesser.CategoriesOfLastWins | xpra/server/window/content_guesser.py:162-181 | a category is in a file's dict exactly when some line defines it; its type is the last such line's, and the key is lowercase |
| ContentGuesser.LoadContentCategoriesFile | xpra/server/window/content_guesser.py:162-181 | the line loop builds the file's dict, with distinct keys |
| ContentGuesser.CategoriesOfDir | xpra/server/window/content_guesser.py:149-155 | the dict of one directory: the files' dicts merged in sorted order. `CategoriesOfDirDistinct`, `CategoriesOfDirLaterFileWins` and `CategoriesOfDirLastWins` state its contents |
| ContentGuesser.CategoriesOfDirDistinct | xpra/server/window/content_guesser.py:145-161 | a directory's dict has distinct keys |
| ContentGuesser.CategoriesOfDirLaterFileWins | xpra/server/window/content_guesser.py:150-155 | a category defined in the last file (in sorted order) takes that file's type |
| ContentGuesser.CategoriesOfDirLastWins | xpra/server/window/content_guesser.py:145-161 | a category is in a directory's dict exactly when some file defines it; its type is the one the last file defining it gives |
| ContentGuesser.LoadContentCategoriesDir | xpra/server/window/content_guesser.py:145-161 | the file loop merges the files' dicts in order |
| ContentGuesser.MergeDirs | xpra/server/window/content_guesser.py:136-139 | the system directories' dicts merged in order. `MergeDirsDistinct`, `UserCategoryDirsIgnored` and `LoadCategoriesToType` state what it gives |
| ContentGuesser.MergeDirsDistinct | xpra/server/window/content_guesser.py:137-139 | the merge of the system directories has distinct keys |
| ContentGuesser.CategoriesToTypeOf | xpra/server/window/content_guesser.py:135-144 | `load_categories_to_type` as written; `UserCategoryDirsIgnored` and `MergeDirsDistinct` state what it gives |
| ContentGuesser.UserCategoryDirsIgnored | xpra/server/window/content_guesser.py:135-144 | with a system directory, the result is the merge of the system directories alone; it raises exactly when user directories are loaded and there is no system directory |
| ContentGuesser.LoadCategoriesToType | xpra/server/window/content_guesser.py:135-144 | the two directory loops, with `v` unbound until the first system directory is loaded, compute the table or raise `UnboundLocalError` |
| ContentGuesser.FuzzyMatchSpec | xpra/server/window/content_guesser.py:204-208 | the fuzzy loop finds nothing exactly when no key occurs in the lowercased category; otherwise it gives the value of the first key that does |
| ContentGuesser.ExactKeyContained | xpra/server/window/content_guesser.py:202-206 | a key equal to the lowercased category occurs in it |
| ContentGuesser.CategoryType | xpra/server/window/content_guesser.py:201-208 | the type one category resolves to: the exact lookup, else the fuzzy loop; `CategoryTypeSpec` states its meaning |
| ContentGuesser.CategoryTypeSpec | xpra/server/window/content_guesser.py:201-208 | a non-empty exact lookup wins; a category resolves to nothing exactly when no key occurs in it; a resolved type is the value of a key occurring in it |
| ContentGuesser.ResolveCategory | xpra/server/window/content_guesser.py:201-208 | the exact lookup and the fuzzy loop with its `break` compute the category's type |
| ContentGuesser.FirstResolvedSpec | xpra/server/window/content_guesser.py:200-213 | an entry's type is that of its first category resolving to a non-empty type, and is never empty |
| ContentGuesser.EntryCommand | xpra/server/window/content_guesser.py:197 | `TryExec` when it is truthy, else `Exec`. `EntryMappingSpec` states how it decides what an entry stores |
| ContentGuesser.CommandName | xpra/server/window/content_guesser.py:210 | the encoded basename of the first space-separated word of the command. `EntryMappingSpec` and `StoreEntriesLastWins` state that it is the stored key and that an empty one stores nothing |
| ContentGuesser.EntryMapping | xpra/server/window/content_guesser.py:196-213 | the pair one menu entry stores, if any; `EntryMappingSpec` states when it stores one and what |
| ContentGuesser.EntryMappingSpec | xpra/server/window/content_guesser.py:196-213 | an entry stores nothing exactly when it has no command, no categories, an empty command name or no resolving category; otherwise it stores a non-empty type under the non-empty encoded base name of its command's first word |
| ContentGuesser.EntryCommandType | xpra/server/window/content_guesser.py:196-213 | the category loop of one entry, with its `break`, computes what the entry stores |
| ContentGuesser.CommandToTypeOf | xpra/server/window/content_guesser.py:192-213 | the command table built from the menu and the category table; `StoreEntriesLastWins`, `TextCommandNeverFound` and `BuildCommandToType` state its contents |
| ContentGuesser.StoreEntriesLastWins | xpra/server/window/content_guesser.py:193-213 | a command is in the table exactly when some entry stores it; it is a non-empty bytes key, and its non-empty type is the one the last such entry gives |
| ContentGuesser.TextCommandNeverFound | xpra/server/window/content_guesser.py:210-223 | a str key is never in the command table, because every stored key is bytes |
| ContentGuesser.BuildCommandToType | xpra/server/window/content_guesser.py:192-213 | the nested loops over categories and entries build the command table, which is empty unless both the menu and the category table are non-empty |
| ContentGuesser.StoreEntry | xpra/server/window/content_guesser.py:209-213 | one entry assigns its pair to the table, if it has one |
| ContentGuesser.StoreCategoryEntries | xpra/server/window/content_guesser.py:196-213 | the entry loop of one category continues the table built from the earlier entries |
| ContentGuesser.LoadedDefs | xpra/server/window/content_guesser.py:32-44 | the rule table the first load builds: system lines, then user lines when they are loaded, then the environment variable's entries; `LoadContentTypeDefs` is proved to build it |
| ContentGuesser.ApplyEntriesConcat | xpra/server/window/content_guesser.py:36-40 | processing two runs of lines one after the other is processing their concatenation |
| ContentGuesser.CommandLookupKey | xpra/server/window/content_guesser.py:222 | the key `os.path.basename(command)` gives: str and bytes keep their kind, any other value raises. `CommandMatch` and `TextCommandPropertyNeverMatches` state what the lookup then finds |
| ContentGuesser.CommandTruthy | xpra/server/window/content_guesser.py:219-220 | the `if command:` test. `CommandMatch` and `CommandGuess` state that a falsy command gives no type and leaves the table alone |
| ContentGuesser.CommandMatch | xpra/server/window/content_guesser.py:217-226 | outside POSIX-but-not-macOS or for a falsy command, no type; otherwise a `TypeError` exactly when `basename` refuses the value (a truthy list, tuple or non-string); else a type exactly when the command's base name is a key of the table, and then the type stored with it |
| ContentGuesser.CommandGuess | xpra/server/window/content_guesser.py:184-226 | the command guess for a loaded or not-yet-loaded table: no type without the platform or a truthy command; it raises exactly when `basename` refuses the value, or when the first load raises |
| ContentGuesser.TextCommandPropertyNeverMatches | xpra/server/window/content_guesser.py:219-225 | a str `command` property never finds a type in the table built from the menu |
| ContentGuesser.FirstTruthy | xpra/server/window/content_guesser.py:230 | `a or b or default`: the first non-empty of the two results, else the default |
| ContentGuesser.ContentTables.constructor | xpra/server/window/content_guesser.py:31 | both module tables start unloaded |
| ContentGuesser.ContentTables.ProcessContentTypeEntry | xpra/server/window/content_guesser.py:69-101 | returns whether the entry is acceptable (ignored, or a definition whose regex compiles); the table gains that definition and nothing else, and a rejected entry leaves it unchanged |
| ContentGuesser.ContentTables.ProcessEntries | xpra/server/window/content_guesser.py:64-67 | the table after processing each line in order |
| ContentGuesser.ContentTables.LoadContentTypeDir | xpra/server/window/content_guesser.py:46-59 | the table after processing every line of every file of the directory, in order |
| ContentGuesser.ContentTables.LoadContentTypeDirs | xpra/server/window/content_guesser.py:36-40 | the table after processing every directory, in order |
| ContentGuesser.ContentTables.LoadContentTypeDefs | xpra/server/window/content_guesser.py:32-44 | the first call builds the table from system lines, user lines (when the user is not root) and the environment variable's entries; later calls return the same table |
| ContentGuesser.ContentTables.GetContentTypeProperties | xpra/server/window/content_guesser.py:104-109 | returns the properties of the loaded table, loading it first if needed |
| ContentGuesser.ContentTables.LoadCommandToType | xpra/server/window/content_guesser.py:184-215 | the first call sets the table to `{}` and then fills it from the menu, or raises with the table left `{}`; later calls return the same table |
| ContentGuesser.ContentTables.GuessContentTypeFromDefs | xpra/server/window/content_guesser.py:112-133 | loads the rules if needed and returns the first match |
| ContentGuesser.ContentTables.GuessContentTypeFromCommand | xpra/server/window/content_guesser.py:217-226 | without POSIX, on macOS or with a falsy command, returns `None` and loads nothing. Otherwise a first call builds the table from the menu and the category table, or raises that load's error with the table left `{}`, and the lookup runs on the table; the result is always `CommandGuess` of the table as it was before |
| ContentGuesser.ContentTables.GuessContentType | xpra/server/window/content_guesser.py:229-230 | a non-empty rule match wins without touching the command table; otherwise `CommandGuess` of the table before the call: its error escapes, else its type, else the default. The command table is untouched off POSIX-but-not-macOS, for a falsy command and once loaded; its first load stores `CommandToTypeOf` of the menu and the category table, or an empty table when loading the categories raised |
| WindowDamage.Clamp | xpra/x11/gtk_x11/window_damage.py:191-192 | the read size is at most both the pixmap's and the requested size, and is the requested size when the pixmap is large enough |
| WindowDamage.TeardownReleasesAll | xpra/x11/gtk_x11/window_damage.py:84-100 | teardown releases every held handle exactly once, the XShm wrapper by `cleanup()`, and never discards or subtracts |
| WindowDamage.AckKeepsHandles | xpra/x11/gtk_x11/window_damage.py:102-112 | acknowledging first discards the XShm image, never cleans up the wrapper or destroys the damage handle, and subtracts damage exactly when there is a window |
| WindowDamage.StaleCleanedBeforeAllocation | xpra/x11/gtk_x11/window_damage.py:128-138 | a wrapper of the wrong size is cleaned up before the new one is allocated |
| WindowDamage.XShmStepOf | xpra/x11/gtk_x11/window_damage.py:125-152 | `get_xshm_handle` from a state: no switch turns on; no XShm means no change; it fails exactly when a wrapper is held without a window; a held wrapper of the window's size is returned alone. Otherwise (`Negotiates`) the requests are exactly the stale wrapper's cleanup (first), the allocation and the new wrapper's setup; no new wrapper gives `None` and drops the stale one; for a new wrapper, the result and the kept wrapper are it when `init_ok` and `None` otherwise, `_use_xshm` stays on exactly when `retry_window` and `XShmEnabled` exactly when not `xshm_failed`; a stale wrapper is neither returned nor kept when the new one has the window's size; the pixmap is never read |
| WindowDamage.XShmHandleReused | xpra/x11/gtk_x11/window_damage.py:128-131 | a wrapper just obtained for the window's size is returned again by the next call, with no request, while XShm stays on |
| WindowDamage.ShmImageOf | xpra/x11/gtk_x11/window_damage.py:177-183 | the XShm attempt yields an image exactly when a wrapper is obtained and its read gives an image without error |
| WindowDamage.XShmLatch.constructor | xpra/x11/gtk_x11/window_damage.py:34 | the shared XShm switch starts at `USE_XSHM` |
| WindowDamage.WindowDamageHandler.constructor | xpra/x11/gtk_x11/window_damage.py:45-53 | remembers the window and its id; no handle is held, the border width is 0, nothing is sent |
| WindowDamage.WindowDamageHandler.HasXShm | xpra/x11/gtk_x11/window_damage.py:122-123 | XShm is used only while this handler's switch, the shared switch and the server's support are all on. It is the condition `XShmOn` that `XShmStepOf` tests first |
| WindowDamage.WindowDamageHandler.Valid | xpra/x11/gtk_x11/window_damage.py:157-165 | a pixmap is held only while there is a client window: `get_contents_handle` names none without one, and `destroy` drops the window before it releases the pixmap. Every method that changes the handler keeps it (their `ensures Valid()`) |
| WindowDamage.WindowDamageHandler.InvalidatePixmap | xpra/x11/gtk_x11/window_damage.py:114-120 | afterwards no pixmap is held; a held one is cleaned up, and without one nothing is sent |
| WindowDamage.WindowDamageHandler.Setup | xpra/x11/gtk_x11/window_damage.py:58-69 | invalidates the pixmap; a vanished window raises `Unmanageable` with nothing else changed; otherwise records the border width, creates the damage handle (its `XError` escapes) and adds the receiver |
| WindowDamage.WindowDamageHandler.Destroy | xpra/x11/gtk_x11/window_damage.py:71-78 | a second call changes nothing; the first drops the window, removes the receiver and releases every handle |
| WindowDamage.WindowDamageHandler.DoDestroy | xpra/x11/gtk_x11/window_damage.py:80-82 | removes the receiver, then tears down |
| WindowDamage.WindowDamageHandler.DestroyDamageHandle | xpra/x11/gtk_x11/window_damage.py:84-100 | afterwards no handle is held; the pixmap, damage handle and XShm wrapper are released in that order |
| WindowDamage.WindowDamageHandler.AcknowledgeChanges | xpra/x11/gtk_x11/window_damage.py:102-112 | discards the XShm image and keeps the wrapper; with a damage handle and a window, subtracts damage and invalidates the pixmap, otherwise the pixmap stays |
| WindowDamage.WindowDamageHandler.GetXShmHandle | xpra/x11/gtk_x11/window_damage.py:125-152 | the result, the held wrapper, both switches and the requests sent are exactly `XShmStepOf` of the state before the call; neither switch turns on; after a negotiation with a new wrapper, the held wrapper is it exactly when `init_ok`, `_use_xshm` is `retry_window` and `XShmEnabled` is not `xshm_failed`; a stale wrapper is cleaned up by the first request |
| WindowDamage.WindowDamageHandler.GetContentsHandle | xpra/x11/gtk_x11/window_damage.py:154-165 | without a window, no pixmap and nothing happens; a held pixmap is reused; otherwise one is named, an `XError` leaving none; the result is the pixmap now held |
| WindowDamage.WindowDamageHandler.GetImage | xpra/x11/gtk_x11/window_damage.py:168-202 | without a window nothing happens. The pixmap afterwards is the held one or the newly named one, and without it there is no image and XShm is untouched. With it, the XShm state follows `XShmStepOf`. The XShm image is returned, with no pixmap read, exactly when `ShmImageOf` gives one; otherwise the pixmap is read at the origin with the clamped size and a read error gives no image. The whole request sequence is stated |
| WindowDamage.WindowDamageHandler.TryXShmImage | xpra/x11/gtk_x11/window_damage.py:174-188 | the XShm state follows `XShmStepOf`; the image is `ShmImageOf`; the requests are the step's, then one XShm read of the pixmap at the requested geometry when a wrapper was obtained; the pixmap is never read |
| WindowDamage.WindowDamageHandler.ReadPixmapImage | xpra/x11/gtk_x11/window_damage.py:190-202 | reads the pixmap clamped to its size; an error gives no image |
| WindowDamage.WindowDamageHandler.ReparentEvent | xpra/x11/gtk_x11/window_damage.py:208-209 | only the pixmap is invalidated |
| WindowDamage.WindowDamageHandler.UnmapEvent | xpra/x11/gtk_x11/window_damage.py:211-212 | only the pixmap is invalidated |
| WindowDamage.WindowDamageHandler.ConfigureEvent | xpra/x11/gtk_x11/window_damage.py:214-216 | records the event's border width, then invalidates the pixmap |

## Left out

- File and directory I/O: each configuration directory is given as the lines of its
  `*.conf` files in sorted order (`ConfDir`). A missing directory and a non-file entry
  contribute no lines.
- The per-file exception handlers of `load_content_type_dir` and
  `load_content_categories_dir`: loading a file is modelled as never raising. A
  `content-categories` file that fails to load adds nothing, because its dict is merged
  only after the whole file is read; it is modelled as a file with no lines. A
  `content-type` file that fails part way has already added the rules of the lines before
  the failure; it is modelled as a file holding just those lines.
- Logging and warnings: `log`, `log.warn` and `log.error` have no effect on the state.
- `re.compile` and `search`: a regex engine is a parameter (`RegexEngine`), and the regex
  text stands for the compiled pattern as the inner dict's key.
- `get_menu_provider().get_menu_data()`: the XDG menu is an input (`Environment.menu`).
- The platform: `POSIX`, `OSX`, `getuid()`, the configuration directory lists and the
  values of `XPRA_CONTENT_TYPE_DEFS` and `XPRA_DEFAULT_CONTENT_TYPE` are fields of
  `Environment`, an input of each call. The source reads the two variables once, at
  import (`content_guesser.py:17-18`). The model does not force every call to receive the
  same `Environment`; a caller stands for the source by passing the values read at import.
- `getprop`'s `TypeError` handler: a window is modelled as a map of its properties, which
  cannot raise.
- Errors from most X requests. An `XError` is modelled only for `XDamageCreate`, pixmap
  naming and the two image reads. The other requests are modelled as never raising:
  `get_size`, `get_geometry`, `get_XShmWrapper`, `setup`, `cleanup`, `discard`,
  `XDamageSubtract` and `XDamageDestroy`.
  - For the pixmap `cleanup`, the teardown `cleanup` of the XShm wrapper, `XDamageSubtract`
    and `XDamageDestroy`, nothing is lost: each runs under `xlog`, which swallows the error.
  - Errors that are lost: `discard()` in `acknowledge_changes` and every request of
    `get_xshm_handle` run outside `xlog`. An error from them would escape
    `acknowledge_changes` or a direct `get_xshm_handle` call. Inside `get_image`, it would
    be caught and the pixmap read instead.
- `xsync`: it only affects synchronisation.
- `add_event_receiver` and `remove_event_receiver` appear as trace entries only, so
  `MAX_RECEIVERS` is not modelled.
- `get_xid` raising in `__init__`: the window's id is an input.
- `do_xpra_damage_event`: it only raises `NotImplementedError`.
- The gobject signal table and `__repr__`.
- Pixels: an `Image` is an opaque id.
- Wrapper internals: the XShm and pixmap wrapper objects are values (id and size), so their
  own state, such as the XShm image buffer, is not modelled.
- Concurrency: all calls are modelled as sequential.
- WindowDamage.XShmStepOf: wrappers are values, not objects, so "the stale wrapper is not returned" is stated only for a new wrapper of the window's size. A new wrapper of another size may equal the stale one by value, but the result is always the new wrapper that `get_XShmWrapper` gave.
- PyStrings.Lower: it lowers only the ASCII capitals. Python's `str.lower()` also lowers
  other letters (such as `É`), so a category name with non-ASCII capitals is stored and
  looked up less lowered than in the source. The Unicode case tables are not modelled.
- Window property values other than str and bytes: an int, a bool or `None` is modelled
  by its `str()` text and its truthiness (`Scalar.Other`). The text that `str()` gives for
  them is an input, not computed.
