# extras, modelled in Dafny

`extras` is a grab-bag of Node.js helpers exported from one object in
`index.js`. This project models its deterministic core:

- `format`: positional `%s` substitution into a running string.
- `trim`: trims every string leaf of a nested object, in place.
- `transform`: trims every string leaf and revives it as a `Date`
  (`regexp.date` plus a truthy `Date.parse`) or as a `RegExp` (a
  `%r/pattern/flags` literal, `regexp.reg`).
- The validators `isEmail`, `isId`, `isRegExp`, `isDate` and `isBoolean`.
- `convert`, its string, id and boolean branches.
- `abs`: POSIX `path.join(cwd, name)`.
- `split`: `path.basename(p).split('.')`.
- `dir`: a listing sorted by leading number and joined onto the directory.
- `tree`: every non-directory beneath a root, as a flat list.

The project has eight modules:

- `Values`: the JSON-like values and the host facilities the helpers call.
- `Text`: `String.prototype.trim`, `String()`, split and join.
- `Patterns`: the four regular expressions, as predicates and scans.
- `Walkers`: `trim` and `transform`.
- `Format`: `format`.
- `Coerce`: the validators and `convert`.
- `Paths`: `path.normalize`, `path.join`, `path.basename`, `abs` and `split`.
- `Files`: `dir` and `tree`.

The helpers that work step by step are methods with loops proved against
specification functions:

- `Format.Format` runs the substitution loop.
- `Walkers.TrimWalk` and `Walkers.TransformWalk` run the `for…in` slot loops.
- `Files.Collector` holds the `files` array that `glob` shares across its
  recursive calls.

The pure helpers are functions, with lemmas that state what they promise.

A few facts about the code (the model follows the code in each case):

- `transform` returns nothing; it only rewrites the node it is given. The
  repository's own test expects `transform('hello')` to give `'hello'`;
  the model gives no result and leaves the string as it was
  (`Walkers.TransformScalar`).
- `regexp.date` requires a zone (`Z` or `±hh:mm`). A test in the
  repository expects zone-less timestamps to become dates; the model
  rejects `2022-03-18T08:24:34` and `2024-07-21T13:59:15.307`
  (`Patterns.ZonelessNotDate`), so `transform` keeps both as strings
  (`Walkers.TransformExamplesZoneless`).
- In `regexp.date`, alternation binds loosest. `^` anchors only the first
  alternative and `$` only the third, so the second may match anywhere in
  the text.
- `String()` of a RegExp prints its `source`, which puts a `\` in front of
  a `/` in the pattern, so `%r/a/b/` converts back to `/a\/b/`
  (`Text.Source`).
- `tree` calls `abs` (`path.join`), not `path.resolve`. An absolute root is
  therefore placed under the working directory (`Paths.AbsReroots`).

## Model

| member | source | states |
|---|---|---|
| Text.TrimStart | index.js:93 | The result is a suffix of the input; everything dropped is whitespace; it does not start with whitespace. |
| Text.TrimEnd | index.js:93 | The result is a prefix of the input; everything dropped is whitespace; it does not end with whitespace. |
| Text.Trim | index.js:93 | The trimmed text has no whitespace at either end. |
| Text.TrimSlice | index.js:93 | The trimmed text is a slice of the input, and only whitespace lies outside that slice. |
| Text.TrimOfTrimmed | index.js:93 | Text without whitespace at either end is left unchanged. |
| Text.TrimIdempotent | index.js:93 | Trimming twice is trimming once. |
| Text.IndexOf | index.js:134 | Finds the first occurrence of a character, or reports that none occurs. |
| Text.SplitOn | index.js:134 | `split` gives at least one part, and no part holds the separator. |
| Text.SplitJoin | index.js:134 | Joining the parts of a split with the separator gives back the text. |
| Text.SplitCount | index.js:134 | A split has one part more than the text has separators. |
| Text.JoinSplit | index.js:134 | Splitting a join of separator-free parts gives back those parts. |
| Text.SplitPartsWithout | index.js:134 | A character absent from the text is absent from every part of its split. |
| Text.SplitAround | index.js:129 | Splitting at a separator placed between two texts splits each text separately. |
| Text.JoinAppend | index.js:129 | Joining two lists end to end is joining each list and putting the separator between them. |
| Text.NatText | index.js:117 | The text of a natural number is non-empty, all digits, and has no leading zero. |
| Text.NatTextRoundTrip | index.js:117 | Reading back the digits of a number's text gives the number. |
| Text.NumberTextRoundTrip | index.js:117 | Reading back `String(n)` of any integer, negative ones included, gives `n`. |
| Text.NumberText | index.js:117 | `String(n)` for an integer: non-empty, starting with `-` exactly when the number is negative, with only digits after that; a non-negative number's text starts with a digit. |
| Text.Escape | index.js:108 | The `source` text of a pattern contains no line terminator, so `/source/flags` fits on one line. |
| Text.SlashEscaped | index.js:108 | A text with a `\` in front of every `/`: every `/` in it follows a `\`. |
| Text.EscapeSlashes | index.js:108 | Outside a `[...]` class, in a pattern without `\`, `[` or line terminators, every `/` gets a `\` in front of it and every other character is kept. |
| Text.Source | index.js:108 | The `source` of `new RegExp(p)`: `(?:)` for an empty pattern, else the escaped pattern. The properties are those of `Text.Escape`, `Text.EscapeSlashes`, `Text.EscapePlain` and `Text.SourceExample`. |
| Text.EscapePlain | index.js:108 | A pattern without `/`, `\` or line terminators is its own source. |
| Text.SourceExample | index.js:108 | The source of the pattern `a/b` is `a\/b`. |
| Text.ToStr | index.js:117 | `String(v)`: `null`, `undefined`, `true`/`false`, the number's digits, the string itself, array elements joined with `,` (null and undefined as empty text), `[object Object]`, the host's date text, and `/source/flags` for a RegExp. Its properties are stated by `Text.NumberText`, `Coerce.NumberTextWord`, `Coerce.IsBooleanOfText` and `Coerce.ConvertRegexSlash`. |
| Patterns.IsIdText | index.js:14 | An id has no `@`, no `.` and no whitespace, since it is made only of lower-case ASCII letters and digits. The 24-character minimum is checked in the body but not stated in the contract. |
| Patterns.IsEmailText | index.js:13 | `regexp.email.test` written as a scan. `Patterns.EmailShapeIff` proves that it accepts exactly the texts the regular expression describes. |
| Patterns.EmailScanHasShape | index.js:13 | A text the scan accepts has the form local `@` domain `.` last, with non-empty parts free of whitespace and `@`. |
| Patterns.EmailShapeIsScanned | index.js:13 | A text of that form passes the scan. |
| Patterns.EmailShapeIff | index.js:13 | The scan accepts exactly the texts the regular expression describes. |
| Patterns.DigitRun | index.js:16 | The digit run starting at a position is maximal. |
| Patterns.DateAIff | index.js:16 | The first alternative, read with a maximal fraction, matches exactly when some split into fraction digits and zone matches. |
| Patterns.IsDate | index.js:16 | `regexp.date.test`: alternative A matched at the start, B anywhere, C at the end. `Patterns.DateAIff`, `Patterns.DateLength` and `Patterns.DateExamples` state its properties. |
| Patterns.DateLength | index.js:16 | Every alternative holds a full timestamp, so a matching text has at least 17 characters. |
| Patterns.DateExamples | index.js:16 | `2020-11-02T08:22:31.017Z` and `2020-11-02T08:22:31Z` both match. |
| Patterns.NoZoneNotDate | index.js:16 | A timestamp with seconds, followed by nothing or by a fraction running to the end, does not match. |
| Patterns.ZonelessNotDate | index.js:16 | `2022-03-18T08:24:34` and `2024-07-21T13:59:15.307` do not match. |
| Patterns.LineEnd | index.js:15 | The end of the current line: no line terminator before it, and one at it unless the text ends there. |
| Patterns.LastSlash | index.js:15 | The last `/` in a range, or reports that none occurs. |
| Patterns.FlagsAt | index.js:15 | The flags capture is at most two `i`/`g` characters, and as long as the text allows. |
| Patterns.MatchReg | index.js:15 | A match gives captures with the shape `%r/` + pattern + `/` + flags at the start of the text. |
| Patterns.MatchRegIsGreedy | index.js:15 | Every text with that shape matches, and the captures are the longest pattern, then the longest flags. |
| Patterns.NoRegLiteral | index.js:15 | Text that does not start with `%` does not match. |
| Patterns.MatchRegExample | index.js:15 | `%r/hello/` captures the pattern `hello` and no flags. |
| Coerce.IsRegExpShape | index.js:42-44 | `isRegExp` holds exactly when the `String()` text starts with a `%r` literal. |
| Coerce.IsEmail | index.js:34-36 | `isEmail`: the `String()` text passes the email scan. `Coerce.IdIsNotEmail` relates it to `isId`. |
| Coerce.IsId | index.js:38-40 | `isId`: the `String()` text matches `regexp.id`. |
| Coerce.IsRegExp | index.js:42-44 | `isRegExp`: the `String()` text starts with a `%r` literal. `Coerce.IsRegExpShape` states its shape in both directions. |
| Coerce.IsDateValue | index.js:46-48 | `isDate`: the `String()` text matches `regexp.date`. |
| Coerce.IsBoolean | index.js:54-56 | Whatever `isBoolean` accepts is truthy, and it rejects the five false words. |
| Coerce.IsBooleanCases | index.js:54-56 | A string is boolean-true iff it is non-empty and not one of the five false words; any other value iff it is truthy. |
| Coerce.NumberTextWord | index.js:54-56 | The text of a number is one of the five false words exactly when the number is 0. |
| Coerce.IsBooleanOfText | index.js:54-56 | A primitive value and its `String()` text agree on `isBoolean`. |
| Coerce.IdIsNotEmail | index.js:34-40 | No value is both an id and an email address. |
| Coerce.Convert | index.js:115-125 | 'string' and 'id' give the value's `String()` text; 'boolean' gives `isBoolean` of the value; an unknown type gives the value itself. |
| Coerce.ConvertTwice | index.js:117-122 | Converting twice to 'string', 'id' or 'boolean' is converting once. |
| Coerce.ConvertStringThenBoolean | index.js:117-122 | For a primitive, converting to 'string' and then to 'boolean' is converting to 'boolean'. |
| Coerce.ConvertRegexSlash | index.js:117 | Converting the RegExp built from `%r/a/b/` to a string gives `/a\/b/`, with the inner `/` escaped. |
| Walkers.TrimWalk | index.js:88-96 | The walk over the slots returns the node with every string leaf, at any depth, trimmed. |
| Walkers.TrimKeepsShape | index.js:88-96 | `trim` keeps keys, order and structure, and leaves every string leaf trimmed. |
| Walkers.TrimTwice | index.js:88-96 | Trimming a node twice is trimming it once. |
| Walkers.MapLeaves | index.js:89-95 | A value with every string leaf, at any depth, replaced through a function, keeping keys and order. Its laws are `Walkers.MapLeavesCompose`, `Walkers.MapLeavesShape` and `Walkers.MapLeavesTwice`. |
| Walkers.TrimNode | index.js:88-96 | What `trim` leaves in a node: every string leaf trimmed. `Walkers.TrimWalk`, `Walkers.TrimKeepsShape` and `Walkers.TrimTwice` state its properties. |
| Walkers.WalkSlot | index.js:101-110 | One slot after the walk: truthy objects are walked, strings rewritten, anything else kept. `Walkers.WalkSlotIsMap` states what it computes. |
| Walkers.WalkNode | index.js:99-112 | A node after the walk: a container gets its slots walked in order. |
| Walkers.WalkPrefix | index.js:100-111 | The slots once the first `k` have been visited: one result per slot of the node. `Walkers.WalkPrefixOk` and `Walkers.WalkPrefixStops` state the rest. |
| Walkers.WalkPrefixOk | index.js:100-111 | The walk of the first slots succeeds iff each slot's walk does; it then rewrites those slots and leaves the rest. |
| Walkers.WalkPrefixStops | index.js:100-111 | After a slot throws, no further slot is visited. |
| Walkers.WalkSlotIsMap | index.js:100-111 | A slot's walk succeeds iff every string leaf beneath it does; it then maps each leaf by itself. |
| Walkers.TransformStringCases | index.js:103-109 | A string slot becomes a Date iff it is a date that parses to a truthy time, else a RegExp iff it is an accepted `%r` literal, else its trimmed text; only a rejected literal throws. |
| Walkers.TransformString | index.js:104-109 | A string slot after lines 104-109. `Walkers.TransformStringCases` states its outcomes. |
| Walkers.Revive | index.js:105-109 | The date or RegExp revival of the trimmed text. |
| Walkers.TransformSlot | index.js:101-110 | One slot: truthy objects are walked, strings are rewritten, anything else is kept. |
| Walkers.TransformWalk | index.js:99-112 | The loop leaves the node as the walk specification says, including the partial state when a RegExp constructor throws. |
| Walkers.TransformNodeIsMap | index.js:99-112 | `transform` completes iff no leaf is a rejected `%r` literal; it then rewrites each leaf by itself, keeping keys and order. |
| Walkers.TransformStringOfTrim | index.js:104 | Trimming first does not change a leaf's outcome. |
| Walkers.TransformStringStable | index.js:104-109 | A revived leaf has only trimmed text and revives to itself. |
| Walkers.OkLeavesStable | index.js:99-112 | After a successful walk, every leaf is trimmed and a second walk would succeed and change nothing. |
| Walkers.TransformTwice | index.js:99-112 | `transform` applied to its own completed output changes nothing. |
| Walkers.WalkOneField | index.js:99-112 | In an object with one slot, the walk rewrites that slot alone. |
| Walkers.TransformOneField | index.js:99-112 | In an object with one string slot, the slot becomes the rewrite of its string, and `transform` completes exactly when that rewrite does. |
| Walkers.TransformKeepsText | index.js:104-109 | A trimmed string that is no date and no `%r` literal stays as it is. |
| Walkers.TransformKeepsPlain | index.js:104-109 | A trimmed string shorter than a timestamp and not starting with `%r/` stays as it is. |
| Walkers.TransformKeepsDate | index.js:105-106 | A trimmed date that `Date.parse` gives a truthy time becomes a Date of that time. |
| Walkers.TransformKeepsRegex | index.js:107-108 | A trimmed `%r` literal that is no date and that the constructor accepts becomes a RegExp with the captured pattern and flags. |
| Walkers.TransformExamplesPlain | index.js:99-112 | `something`, `Hello! 2`, `5`, `null`, `true` and `false` stay strings. |
| Walkers.TransformExamplesDate | index.js:99-112 | `2020-11-02T08:22:31.017Z` and `2020-11-02T08:22:31Z` become Dates when `Date.parse` gives them a truthy time. |
| Walkers.TransformExampleRegex | index.js:99-112 | `%r/hello/` becomes the RegExp `/hello/` with no flags when the compiler accepts `hello`. |
| Walkers.TransformExamplesZoneless | index.js:99-112 | `2022-03-18T08:24:34` and `2024-07-21T13:59:15.307` stay strings. |
| Walkers.TransformScalar | index.js:99-112 | On anything but an array or object the walk completes and changes nothing. |
| Format.FindPlaceholder | index.js:67 | Finds the first `%s` at or after a position, or reports that none occurs. |
| Format.Expand | index.js:67 | The replacement text with its `$` patterns expanded. `Format.ExpandPlain` and `Format.ExpandSpecials` state what it does. |
| Format.ReplaceFirst | index.js:67 | `str.replace('%s', val)`. `Format.ReplaceNoPlaceholder`, `Format.ReplaceAfter` and `Format.ReplaceAfterPlain` state what it does. |
| Format.ArgText | index.js:61-66 | The text spliced in for one argument: an array's elements joined with `, `, a plain object's entries as `key: value`, anything else through `String()`. `Format.ArrayTextExample` and `Format.ObjectTextExample` show it. |
| Format.ExpandPlain | index.js:67 | Replacement text without `$` is inserted as it is. |
| Format.ReplaceNoPlaceholder | index.js:67 | `replace` leaves a string without `%s` unchanged. |
| Format.ReplaceAfter | index.js:67 | With no `%` before the first `%s`, that `%s` is replaced, and `$` patterns are expanded against the text on either side. |
| Format.ReplaceAfterPlain | index.js:67 | There, replacement text without `$` is simply swapped in. |
| Format.ExpandSpecials | index.js:67 | `$&` inserts the matched `%s`; `` $` `` and `$'` insert the text before and after it. |
| Format.Format | index.js:59-70 | The loop returns the result of substituting the arguments one at a time, in order. |
| Format.FormatSpec | index.js:59-70 | Each argument in turn replaces the first `%s` still in the string. `Format.FormatFills` and `Format.FormatNoPlaceholder` state what it returns. |
| Format.FormatNoPlaceholder | index.js:59-70 | A string without `%s` comes back unchanged, whatever the arguments. |
| Format.FormatFills | index.js:59-70 | With `%`-free pieces and arguments, the i-th argument fills the i-th `%s`; spare placeholders stay and spare arguments are ignored. |
| Format.FormatFillsFrom | index.js:59-70 | The same, after a `%`-free prefix. |
| Format.FormatOne | index.js:59-70 | One argument fills the first `%s`. |
| Format.FormatTwo | index.js:59-70 | Two arguments fill two `%s` in order. |
| Format.FormatExamplesPlain | index.js:59-70 | Without `%s`, the string is returned with or without arguments. |
| Format.FormatExampleNumber | index.js:59-70 | `format('hello %s', 5)` is `'hello 5'`. |
| Format.FormatExampleSpare | index.js:59-70 | A spare `%s` stays in the result. |
| Format.FormatExampleTwo | index.js:59-70 | Two arguments fill two placeholders. |
| Format.ArrayTextExample | index.js:62-63 | `[1, 2, 3]` renders as `1, 2, 3`. |
| Format.FormatExampleArray | index.js:59-70 | An array argument is spliced in as its joined text. |
| Format.ObjectTextExample | index.js:64-65 | `{name: 'hello', key: 'a'}` renders as `name: hello, key: a`. |
| Format.FormatExampleObject | index.js:59-70 | A plain-object argument is spliced in as its entries. |
| Format.FormatExampleBoolean | index.js:59-70 | A boolean argument is spliced in as `true` or `false`. |
| Format.FormatQuirkNested | index.js:67 | An argument `'%s'` re-creates the placeholder, so the next argument fills the same place. |
| Format.FormatQuirkDollar | index.js:67 | Arguments holding `$&` or `` $` ``/`$'` are expanded by `replace`, not inserted literally. |
| Paths.ResolveAppend | index.js:129 | Normalising segments one list after another is normalising their concatenation. |
| Paths.PushNormal | index.js:129 | Reading one segment keeps a normal stack normal. |
| Paths.ResolveNormal | index.js:129 | Reading any `/`-free segments yields a normal stack. |
| Paths.ResolveKeeps | index.js:129 | Segments that already form a normal stack are kept as they are. |
| Paths.RenderSplit | index.js:129 | Splitting a rendered stack at `/` gives its segments, with the empty edges for the root and a trailing slash. |
| Paths.EmptyIsNormal | index.js:129 | `/`, `./` and `.` are already normal. |
| Paths.Normalize | index.js:129 | `path.normalize`: `Paths.NormalizeStack`, `Paths.RenderIsNormal` and `Paths.NormalizeTwice` state that it yields a normal path and is idempotent. |
| Paths.ResolveParts | index.js:129 | Reading back a rendered normal stack gives that stack. |
| Paths.RenderIsNormal | index.js:129 | A rendered normal stack is a fixed point of `normalize`. |
| Paths.NormalizeStack | index.js:129 | `normalize` always produces a normal stack. |
| Paths.NormalizeTwice | index.js:129 | `normalize` is idempotent. |
| Paths.PathJoin | index.js:129 | `path.join` of two parts: the parts joined with `/` and then normalised. |
| Paths.Abs | index.js:128-130 | `abs(name)` under a working directory. `Paths.AbsIsNormal` and `Paths.AbsReroots` state its properties. |
| Paths.AbsIsNormal | index.js:128-130 | Under an absolute working directory, `abs` is absolute, normal, and free of `.` and `..` segments. |
| Paths.RootedParts | index.js:128-130 | A rendered rooted stack starts with `/` and has no `.` or `..` segment. |
| Paths.AbsReroots | index.js:128-130 | A leading `/` on the name makes no difference: the name stays under the working directory. |
| Paths.RenderedStack | index.js:129 | Splitting and reading a normal rooted path gives back its stack. |
| Paths.JoinSegment | index.js:175 | Joining a plain name onto a normal rooted path appends one segment and drops any trailing slash. |
| Paths.StripEnd | index.js:134 | Finds where the trailing slashes start. |
| Paths.SegmentStart | index.js:134 | Finds where the last segment starts. |
| Paths.Basename | index.js:134 | The basename holds no `/`. |
| Paths.BasenameOfSegment | index.js:134 | The basename of `dir/name`, and of `name` itself, is `name`. |
| Paths.SplitParts | index.js:133-135 | The parts join back to the basename with `.`, none holds `.` or `/`, and there is one more part than there are dots. |
| Paths.Split | index.js:133-135 | `split(p)`: the basename split at `.`. `Paths.SplitParts` and `Paths.SplitNoDot` state what it returns. |
| Paths.SplitNoDot | index.js:133-135 | A basename without a dot splits into itself alone. |
| Files.LeadingDigits | index.js:160 | The leading-digit match is a maximal run of digits at the start of the name. |
| Files.SortKey | index.js:160 | The number the comparator subtracts for a name, or none when the difference is `NaN`. |
| Files.SortKeyCases | index.js:160 | A name has a key exactly when it starts with a digit. |
| Files.InOrder | index.js:160 | Whether the comparator lets one name stay in front of another: keyed names by key, and any `NaN` difference counts as equal. |
| Files.SortNames | index.js:160 | The listing after the sort. `Files.SortPerm`, `Files.SortAscending` and `Files.SortStable` state its properties. |
| Files.SortPerm | index.js:160 | Sorting permutes the listing. |
| Files.SortAscending | index.js:160 | When every name starts with digits, the sorted names ascend by leading number. |
| Files.SortStable | index.js:160 | Names with equal leading numbers keep their listing order. |
| Files.DirEntries | index.js:158-162 | `dir` gives one path per listed name: the directory joined with the sorted listing. The sort is a permutation, and it is ascending when all names are numbered. |
| Files.Dir | index.js:158-162 | `dir(path)` for a given listing. `Files.DirEntries` states what it returns. |
| Files.FindEntry | index.js:172 | The entry found has the name looked up; no entry has that name when none is found. |
| Files.Lookup | index.js:172 | A path names something only if it is absolute. A leaf named with a trailing `/` is not found. |
| Files.LeafPaths | index.js:173-182 | What `glob` pushes for a directory. `Files.LeafPathSound` and `Files.LeafPathsComplete` state that this is exactly its leaves. |
| Files.Collector.constructor | index.js:183 | The accumulator starts empty. |
| Files.Collector.Glob | index.js:173-182 | `glob` appends to the shared accumulator what the specification lists for the directory. |
| Files.Collector.Visit | index.js:174-181 | One callback appends the joined path of a leaf, or everything beneath a subdirectory. |
| Files.EntriesPrefix | index.js:174-181 | What is pushed for earlier entries comes before what is pushed for later ones. |
| Files.EntryBlock | index.js:174-181 | A subdirectory's files form one contiguous block, at that directory's place in listing order. |
| Files.EntriesPick | index.js:174-181 | A pushed path was pushed for one particular entry. |
| Files.EntriesContain | index.js:174-181 | A path pushed for an entry is in the result. |
| Files.EntrySound | index.js:174-181 | A path pushed for an entry is the normal path of a leaf beneath it. |
| Files.LeafPathSound | index.js:173-182 | Every path `glob` pushes is the normal path of a leaf beneath the directory. |
| Files.LeafPathsComplete | index.js:173-182 | The path of every leaf beneath the directory is pushed. |
| Files.WalkLeaf | index.js:176 | In a well-formed listing, following names reaches a leaf iff the names lead there entry by entry. |
| Files.LookupRendered | index.js:172 | A normal rooted path names what its segments reach. |
| Files.TreeIsLeaves | index.js:170-186 | Every path `tree` returns names a leaf, never a directory, and every leaf below the root is returned. |
| Files.TreeSpec | index.js:170-186 | What `tree(root)` returns, or `None` when it throws. `Files.TreeIsLeaves` states its properties. |
| Files.Tree | index.js:170-186 | `tree` returns `[]` for a root that does not exist and throws (`None`) for a root that is a leaf; otherwise it returns the collected paths. |

## Left out

- `hash`, `md5`, `compare`, `uuid`, `cuid`: hashing and random identifiers come from libraries outside the file.
- `inspect`: formatting for the console.
- `read`, `write`, `yaml`, `isURL`: file I/O, YAML parsing, and a URL pattern outside the helpers above.
- `exist`, `isDir`: `existsSync` and `lstat` are not modelled as such. Inside `tree` they are modelled as `Files.Lookup` and the node's kind.
- `convert`: the 'integer', 'float' and 'date' branches call `parseInt`, `parseFloat` and `new Date`. These are parameters of `Values.Host`, not computed.
- `Date.parse`, `String(date)` and the RegExp compiler's acceptance of a pattern are host parameters. A date's text depends on the time zone.
- `Values.Value`: numbers are integers. Floating point, `NaN`, `Infinity` and `-0` are not modelled.
- `Files.SortKey`: a name without leading digits counts as `NaN`. This includes names such as `-5`, ` 5`, `.5` or `Infinity`, which JavaScript converts to a number. Keys are also compared as exact integers, while JavaScript subtracts doubles. Two keys above 2^53 may differ by 0 there (`9007199254740993-a` and `9007199254740992-b`), and a run of more than about 309 digits becomes `Infinity`, so that `Infinity - Infinity` is `NaN`.
- `Text.NumberText`: prints every digit. `String()` switches to exponent form from 1e21 on (`1e+21`), and that form is not modelled.
- `Files.SortNames`: a stable insertion sort. When some names have no leading digits, the comparator is not consistent, and the order the engine's sort then produces is not modelled. When every name has leading digits, any stable sort gives this order.
- `Walkers.TrimWalk`, `Walkers.TransformWalk`: these return the rewritten node instead of writing into it. Aliasing, meaning one object reachable along two paths, is not modelled.
- `Walkers.TransformWalk`: only own enumerable properties are walked. Inherited properties and cyclic structures are not modelled.
- `Files.Tree`: symbolic links are not modelled anywhere: every link is a leaf. The source follows a link on the root's own path, such as a linked ancestor of the working directory or `tree('link/sub')`, and lists the directory behind it. For such a root the model returns `[]` (nothing lies beneath a leaf) or throws (the root itself is the link), where the source lists the entries. A dangling link as the root gives `[]` in the source, since `existsSync` is false, but `None` (a throw) in the model.
- `Files.Tree`: errors other than a root that is not a directory are not modelled, such as permissions, or entries that change during the walk.
- `Format.Expand`: the `$<name>` and `$n` replacement patterns do not apply to a string search pattern and are kept literally.
- `lib/` and the helpers that tests exercise but `index.js` does not define are not part of this model.
