# tswidgets extractor and packager, in Dafny

tswidgets turns TypeScript custom-element classes into Python proxies in two
stages.

- **The extractor** (`extractor.ts`) walks the declarations of the parsed
  source files. It builds a nested dictionary: each exported module or class
  (after the include filters) maps to `{docs, members}`. A module's body
  usually sits in a block that `visit` does not enter, so its `members` stay
  empty. The exception is a dotted `namespace A.B`: `A`'s only child is the
  declaration `B`, which the compiler marks exported, so `A.members` holds
  `B`. For a class, `members` holds a
  `methods` list, with one entry per public method and one signature per call
  signature. It also holds a `properties` list, with one entry per public
  property name. A getter and a setter of the same name are merged into one
  entry. The entry records `set` and `get` flags and pushes the documentation
  fragment it selects.
- **The packager** (`packager.ts`) maps each top-level key of that dictionary to
  one output file, `<key>.py`. It gives the templates four helpers: the
  snake-case and tag-name transforms, the parameter list and the doc string.

The model keeps the source's form:

- `Extractor.Dict` is the mutable dictionary. It holds the keys in insertion
  order plus a map.
- `Extractor.Visit`, `Extractor.VisitEach` and `Extractor.Extractor.Extract`
  are imperative methods. Each is proved against a function of the old state:
  `VisitSpec`, `VisitAllSpec` or `VisitFilesSpec`.
- The packager's two loops, `ToSnakeCase` and `ToTagName`, are methods proved
  against `SnakeCase` and `TagName`.
- The packager's pure helpers are functions.
- The properties the code promises are lemmas about the specification
  functions.

A `TypeError` the source can raise is modelled as the `threw` flag, with the
state reached when it was raised. It is raised when a dictionary holds an
entity under `methods` or `properties` where a list is expected. The compiler
does not produce that shape. Entities go only into the top-level dictionary or
a module's `members`, and method and property lists only into a class's
`members`. The branch covers child shapes that the model's `Node` allows
beyond what the compiler gives.

## Model

| member | source | states |
|---|---|---|
| Extractor.WithKey | extractor.ts:110 | Assigning `o[k]` stores the value under `k`. A new key goes last in the key order; an existing key keeps its place. Every other key keeps its value, and keys stay distinct. |
| Extractor.AnyMatches | extractor.ts:98-104 | `includeFilters.some(...)` holds exactly when some filter matches the name: equal to a string filter, or accepted by a pattern. |
| Extractor.Dict.constructor | extractor.ts:40 | A new dictionary is valid and empty (`info = {}`). |
| Extractor.Dict.Assign | extractor.ts:110 | The dictionary's new value is the old one with `k` assigned, as `WithKey` describes. Validity is kept. |
| Extractor.TextDocs | extractor.ts:147 | The kept fragments are exactly the fragments of kind `text`. There are never more of them than fragments. |
| Extractor.FindByName | extractor.ts:150 | Gives the first index whose entry carries the name. Gives none exactly when no entry carries it. |
| Extractor.VisitSpec | extractor.ts:89-175 | One visit, as a function of the old target: every branch of `visit`. Its result is always a dictionary whose keys are distinct and are exactly the stored keys. |
| Extractor.VisitAllSpec | extractor.ts:111-113 | A walk over a list of declarations, stopping at the first TypeError. The result is always a well-formed dictionary. |
| Extractor.VisitFilesSpec | extractor.ts:42-50 | The file loop of `extract`, skipping declaration files and stopping at the first TypeError. The result is always a well-formed dictionary. |
| Extractor.Visit | extractor.ts:89-175 | One `visit` call leaves the dictionary valid. It reaches exactly the state and TypeError outcome `VisitSpec` gives for the old state. |
| Extractor.PushMethod | extractor.ts:120-134 | Creates `methods` when absent, then pushes the method's record. If `methods` holds an entity, the push throws. The result is what `VisitMethod` gives. |
| Extractor.MergeProperty | extractor.ts:142-173 | Creates `properties` when absent, then finds the entry by name or appends a new one, selecting doc fragment 1 or 0. The result is what `VisitProperty` gives. |
| Extractor.UpdateEntry | extractor.ts:161-173 | The in-place flag and doc updates produce `Accessed(p, n, doc)`. |
| Extractor.VisitEach | extractor.ts:111-113 | `forEachChild` over a list of declarations is the walk `VisitAllSpec`. It stops at the first TypeError. |
| Extractor.Extractor.constructor | extractor.ts:40 | The extractor starts with an empty, valid dictionary. |
| Extractor.Extractor.Extract | extractor.ts:34-53 | Resets the dictionary to empty, then visits the top-level statements of every non-declaration file. The result is the dictionary `VisitFilesSpec` gives from `{}`, or the TypeError. |
| ExtractorProperties.ModifierTests | extractor.ts:55-68 | `isExported`'s comparison of the masked flags with 1 is the test of the export bit, since that flag is bit 0. `isPublic` holds exactly when neither the private nor the protected bit is set. `isWritable` holds exactly when the readonly bit is clear. Each test is unaffected by the other tested bits. |
| ExtractorProperties.EntityVisit | extractor.ts:90-113 | A module or class that is exported and included has a fresh entity stored under its name: its docs, plus its children walked into `{}`. The key order and every other key are kept. If it is not exported or not included, the target is untouched. |
| ExtractorProperties.ModuleBodyGivesNoMembers | extractor.ts:90-113 | A module whose children the compiler presents as one body block, a kind `visit` ignores, is stored with its docs and an empty `members`. |
| ExtractorProperties.ClassFilterPolicy | extractor.ts:91-108 | An unexported class is never kept. With no filters, an exported class always is. With filters, it is dropped when none matches its name. |
| ExtractorProperties.HiddenMemberIgnored | extractor.ts:115-117 | A private or protected method leaves the target unchanged, and so does a property or accessor (lines 138-140). Not even an empty list is created. |
| ExtractorProperties.PublicMethodAppends | extractor.ts:119-134 | A public method appends exactly one entry. It holds one signature per call signature, in order, each with the method's name and docs and that signature's return type and parameters. Earlier entries and other keys are unchanged. If `methods` holds an entity, the visit throws. |
| ExtractorProperties.AccessedEffect | extractor.ts:161-173 | A plain property or setter sets `set` to the writability and pushes the doc onto `docs.set`. A plain property or getter sets `get` to true and pushes onto `docs.get`. A missing fragment pushes nothing. Name and type never change. |
| ExtractorProperties.TextDocsAppend | extractor.ts:147 | Filtering keeps order and repeats: filtering `a + b` is filtering `a`, then filtering `b`. |
| ExtractorProperties.TextDocsSelects | extractor.ts:147-157 | Text fragment `j` of a symbol's docs is the fragment with exactly `j` text fragments before it, so fragments 0 and 1 are the first two comments in order. |
| ExtractorProperties.PropertyVisitMerges | extractor.ts:142-159 | A public property or accessor updates the entry that has its name in place, with fragment 1, and leaves every other entry alone. If there is no such entry, it appends `{name, type, docs: {set: [], get: []}}`, updated with fragment 0. Other keys are unchanged. If `properties` holds an entity, the visit throws and the target is as it was. |
| ExtractorProperties.VisitKeepsNamesUnique | extractor.ts:150-159 | Any visit keeps at most one property entry per name, at every level of the dictionary. |
| ExtractorProperties.VisitAllKeepsNamesUnique | extractor.ts:111-113 | A walk over a list keeps at most one property entry per name at every level. |
| ExtractorProperties.ExtractKeepsNamesUnique | extractor.ts:42-50 | The dictionary `extract` builds has at most one property entry per name at every level. |
| ExtractorProperties.IgnoredLeaveNoTrace | extractor.ts:91-117 | Unexported, filtered-out or non-public declarations, and the subtrees under them, leave no trace. Walking a list equals walking only the kept declarations. |
| ExtractorProperties.VisitAllAppend | extractor.ts:111-113 | Walking `a + b` is walking `a`, then walking `b` from there, unless `a` threw. |
| ExtractorProperties.FilesAreOneWalk | extractor.ts:42-50 | The file loop is one walk over the statements of the non-declaration files, in file order. |
| ExtractorProperties.MemberWalkCounts | extractor.ts:114-173 | Over member declarations, a walk never throws on a well-formed target. It adds one method entry per public method, and exactly the public property names. |
| ExtractorProperties.ClassMemberCounts | extractor.ts:110-113 | An included class with only member children gets one method entry per public method. It gets one property entry per distinct public property name, since getter and setter merge. |
| ExtractorProperties.AccessorPairMerges | extractor.ts:150-173 | A public getter followed by a public setter of the same new name gives one entry. `get` is true, `set` is the setter's writability, `docs.get` holds text fragment 0 and `docs.set` holds text fragment 1. Methods are untouched. |
| SampleScenarios.PrivateNumberPair | examples/sample.ts:42-54 | The `privateNumber` accessor pair merges into one readable, writable entry. It carries the getter's comment under `get` and the setter's under `set`. |
| SampleScenarios.LogXEntry | examples/sample.ts:71-77 | `logX(x: number)` gives one signature: returns `void`, one parameter `x: number`, docs `logs x.`. |
| SampleScenarios.XFooMembers | examples/sample.ts:42-85 | The members `privateNumber` (get and set), `logX` and private `logY` give one method entry (`logX`) and one property entry. |
| SampleScenarios.SampleClass | examples/sample.ts:19-86 | `XFoo`, with those members, is the only top-level key. Its members hold the `logX` method entry and the merged `privateNumber` entry. |
| Text.CountsAsUpperExactly | packager.ts:54 | `c === c.toUpperCase()` holds exactly for characters other than `a`-`z`. A lowered character is never an ASCII capital. Upper-casing undoes lower-casing on such characters. |
| Text.Split | packager.ts:93 | `split` gives at least one part, and no part contains the separator. |
| Text.JoinSplit | packager.ts:93 | Joining the parts of a split with the separator gives back the string. |
| Text.Spaces | packager.ts:92 | `' '.repeat(k)` is `k` spaces. |
| Text.IndentReplacesNewlines | packager.ts:93 | `split('\n').join('\n' + spaces)` is the text with each newline followed by `k` spaces, and nothing else changed. |
| Text.NewlineFollowedBySpaces | packager.ts:93 | After indenting, each newline is followed by exactly `k` spaces. |
| Text.NoNewlineUnchanged | packager.ts:93 | A text without a newline is left as it is by indenting. |
| Text.TrimStart | packager.ts:93 | Removing leading whitespace gives a suffix that does not start with whitespace. |
| Text.TrimEnd | packager.ts:93 | Removing trailing whitespace gives a prefix that does not end with whitespace. |
| Text.TrimStartCutsWhitespace | packager.ts:93 | What leading trimming removes is all whitespace. |
| Text.TrimEndCutsWhitespace | packager.ts:93 | What trailing trimming removes is all whitespace. |
| Text.Trim | packager.ts:93 | `trim()` gives a text that neither starts nor ends with whitespace. |
| Text.TrimAllWhitespace | packager.ts:93 | Trimming an all-whitespace text gives `""`. |
| Text.TrimEmptyExactly | packager.ts:93 | `trim()` gives `""` exactly when the text is all whitespace. |
| Text.TrimCutsOnlyWhitespace | packager.ts:93 | The trimmed text is a slice of the original. What lies before and after it is all whitespace. |
| Text.TrimKeepsIndent | packager.ts:93 | If every newline is followed by `k` spaces, trimming keeps that true. |
| Packager.TagName | packager.ts:75-77 | The tag name always contains a `-`. |
| Packager.ToSnakeCase | packager.ts:50-62 | The loop returns `SnakeCase(name)`: each character that equals its upper case becomes `_` plus its lower case; every other character is kept. |
| Packager.ToTagName | packager.ts:64-80 | The loop returns `TagName(name)`: the first character lowered, then each later character lowered, with `-` before each one that equals its upper case. `x-` goes in front when no `-` resulted. |
| Packager.SeparatedLength | packager.ts:53-59 | The transformed name is one character longer per character that equals its upper case. |
| Packager.RestoreSeparated | packager.ts:53-59 | With a separator that is not a lower-case letter, the transform can be read back: every character is recovered. |
| Packager.SeparatorOccurs | packager.ts:53-59 | The separator appears in the result exactly when some character equals its upper case. |
| Packager.SnakeCaseProperties | packager.ts:50-62 | The snake-case name has no ASCII capital. It has one extra character per character counted as upper case, and reading it back gives the name. |
| Packager.SnakeXFoo | packager.ts:53-59 | The first character is not special-cased: `XFoo` becomes `_x_foo`. |
| Packager.TagNamePrefix | packager.ts:66-77 | The tag name is the loop's result when that contains a `-`, and is `x-` followed by it otherwise. |
| Packager.TagNameLowercase | packager.ts:66-77 | A tag name has no ASCII capital. |
| Packager.TagBodyRestores | packager.ts:66-73 | The loop's result starts with the first character lowered. The rest reads back to the rest of the name. |
| Packager.SampleTagNames | packager.ts:64-80 | `XFoo` and `Foo` both give `x-foo`; the empty name gives `x-`. |
| Packager.ParamsList | packager.ts:82-88 | The parameter list is empty exactly when there are no parameters. |
| Packager.ParamsListEach | packager.ts:82-88 | The parameter list is `, name` for each parameter, in order. |
| Packager.DocStr | packager.ts:96-106 | A doc string is never empty. |
| Packager.DocStrFormat | packager.ts:91-94 | When the indented text is not empty, the doc string neither starts nor ends with whitespace. Each newline in it is followed by the indent: 5 spaces for a member, 7 for a fragment. |
| Packager.DocStrFallback | packager.ts:96-106 | An all-whitespace text falls back. A fragment gives `<name>.` and a member gives `<name> method.`, with an absent name printed as `undefined`. |
| Packager.FallbackExactly | packager.ts:96-106 | The fallback is taken exactly when the source text is all whitespace. Otherwise the doc string is the indented, trimmed text. |
| Packager.DocSourceJoins | packager.ts:104 | A member's doc texts are joined with `,`, in order: no docs give `""`, one gives its text, and one more adds `,` and its text at the end. |
| Packager.IndentedWhitespace | packager.ts:93 | Indenting an all-whitespace text gives an all-whitespace text, so the fallback still applies. |
| Packager.OneLineDoc | packager.ts:104-106 | A single one-line comment with no surrounding whitespace is its own doc string. |
| Packager.NoDocs | packager.ts:104-106 | A member with an empty `docs` list gets `<name> method.`. |
| Packager.PackOnePerKey | packager.ts:45-47 | There is one output per top-level key. Output `i` belongs to key `i`: it is named `<key>.py` and its content is `render` of the key, its value and the file doc string `<key> proxy.`. Every key has a file, no two files share a name, and removing `.py` gives the key back. |

## Left out

- The TypeScript compiler API is not part of this model. Each declaration arrives as a `Node` already carrying what the type checker resolves: name, kind, modifier flags, type string, documentation fragments, call signatures and children.
  - The modifier flags are the word `getCombinedModifierFlags` returns. The model uses the bit values of `ts.ModifierFlags` in the TypeScript 2.x and 3.x API: export 1, private 8, protected 16, readonly 64. Under a compiler whose export flag is not 1, `isExported`'s `=== 1` would never hold; that case is not modelled.
  - For a module with a braced body, the compiler presents the body as one block child, a kind `visit` ignores. So that module's entry gets an empty `members` (`ModuleBodyGivesNoMembers`). For a dotted `namespace A.B`, `A`'s child is the module declaration `B`, which the compiler flags as exported, so `B` is stored in `A.members`. The model's `children` is a plain list of declarations, so it covers both cases and also shapes the compiler never produces.
  - `extractNodeInfo` returning `null` for a symbol that does not resolve is not modelled; resolution is total.
- `rawType`, the compiler object kept in each parameter's info, is dropped.
- Filters are `Exact(name)` or an opaque `Pattern(test)` predicate. A regular expression's `lastIndex` state, which the `g` or `y` flags would make matching depend on, is not modelled.
- `opts.asJsonString`, `JSON.stringify`, and `pack`'s `JSON.parse` of a string with `process.exit` on failure are I/O. `Pack` takes the dictionary itself.
- Template reading (`getTemplates`, `readFileSync`) and `mustache`'s `render` are left out. `Pack` takes the renderer as a parameter. The `render(name)` step that `toSnakeCase`/`toTagName` apply to their argument is also left out, so the transforms take the rendered name.
- The `console.log` and `console.error` calls are left out.
- Case mapping is ASCII only: `Upper`/`Lower` change only `a`-`z`/`A`-`Z`. Unicode case mapping, including characters whose upper case is longer, is not modelled.
  - `toSnakeCase` iterates code points, while `toTagName` and `charAt` index UTF-16 units. Both are modelled as iteration over `char`.
- JavaScript orders integer-like object keys before the others. The dictionary keeps plain insertion order, for top-level keys and for `pack`'s `Object.keys`.
- Keys with special meaning on JavaScript objects, such as `__proto__`, are treated as ordinary keys.
- The command line in `tswidgets.ts` is not part of this model.
- SampleScenarios.XFooMembers and SampleScenarios.SampleClass: these cover only `privateNumber`, `logX` and `logY` of the sample `XFoo` element. The readonly fields, the static method, the constructor and the `protectedString` accessors are not in the scenario.
