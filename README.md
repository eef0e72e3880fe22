# Closure JS directory configuration, in Dafny

This project models the per-directory configuration step of the Gazelle
language extension for Closure JS (`gazelle/closure_js/config.go`).

For each directory, Gazelle calls `Configure` with the configuration inherited
from the parent directory and the directives of the directory's build file.
`Configure` starts from a new, empty configuration when none is registered yet.
Otherwise it starts from a clone of the parent's. It then processes the
directives in file order:

- `js_grep_extern <token> <label>` appends a grep-extern rule. A source file
  that contains `token`, with a character outside `[a-zA-Z0-9]` on each side,
  then gets `label` added to its deps.
- `js_rule_per_file [bool]` switches between one rule per file and one rule
  per directory.

Malformed directives are logged and skipped. Unknown keys are ignored.

Files:

- `Wrappers.dfy`: `Option`.
- `GoText.dfy`: the Go library functions the directive loop relies on.
  - `unicode.IsSpace` as `IsSpace`.
  - `strings.Fields` as `Fields`, with `strings.Join(_, " ")`, of which `Fields` is a left inverse on lists of fields.
  - `strconv.ParseBool` and `strconv.FormatBool`.
- `ClosureJs.dfy`: the core.
  - The matching rule: `GrepExtern` and its `Matches`.
  - The configuration value `Settings` and the directives.
  - One loop step as the pure `ApplyDirective`, with the logged diagnostic as `Check`.
  - The loop as the left fold `ApplyAll`.
  - The mutable `jsConfig` object as class `JsConfig`.
  - The imperative `Configure` method, proved equal to the fold.
- `ClosureJsProperties.dfy`: what the processor promises.
  - These lemmas are stated against reference definitions that do not follow the loop's shape.
  - `GrepRules` gives the rules the well-formed `js_grep_extern` directives describe.
  - `LastFlag` gives the value set by the last flag-setting directive.
  - There are also lemmas about the matching rule.

The source's behaviour differs from a plain "word boundary" reading of the
matching rule. The pattern is `[^a-zA-Z0-9]` + token + `[^a-zA-Z0-9]`, so a
character must exist on each side. A token at the very start or the very end
of a file is therefore never found. The model follows the code here
(`DelimitedAt`, `NeverAtEdges`).

## Model

| member | source | states |
|---|---|---|
| `ClosureJs.GrepExtern.Matches` | gazelle/closure_js/config.go:19-29 | the rule matches a file iff the token occurs at some index i > 0 with i + \|token\| < \|file\|, and the characters right before and right after are both outside `[a-zA-Z0-9]` |
| `ClosureJs.SearchFrom` | gazelle/closure_js/config.go:27-29 | the leftmost-first search from index i succeeds iff a delimited occurrence starts at i or later |
| `ClosureJsProperties.MatchNeedsNeighbours` | gazelle/closure_js/config.go:19-29 | a matching file is at least two characters longer than the token |
| `ClosureJsProperties.NeverAtEdges` | gazelle/closure_js/config.go:19-29 | the token alone never matches; an occurrence at index 0 or ending at the end of the file is not delimited |
| `ClosureJsProperties.MatchesSurrounded` | gazelle/closure_js/config.go:19-29 | the token between characters a and b matches iff neither a nor b is alphanumeric |
| `ClosureJsProperties.MatchesExtend` | gazelle/closure_js/config.go:27-29 | a match is kept when text is added before or after the file |
| `ClosureJsProperties.DelimitedShift` | gazelle/closure_js/config.go:27-29 | a delimited occurrence at i in a file is a delimited occurrence at \|pre\| + i in pre + file + post |
| `ClosureJsProperties.MatchExamples` | gazelle/closure_js/config.go:19-29 | token `foo` matches "use foo now" and does not match "xfoox" |
| `GoText.Fields` | gazelle/closure_js/config.go:83 | every field that `strings.Fields` returns is non-empty and holds no white space |
| `GoText.IsSpaceTable` | gazelle/closure_js/config.go:83 | `unicode.IsSpace`, which `strings.Fields` splits on: on ASCII it holds exactly for tab, newline, vertical tab, form feed, carriage return and space; no white-space character lies above U+3000 |
| `GoText.FieldsAppendSpaced` | gazelle/closure_js/config.go:83 | for text t starting with white space, the fields of a + t are the fields of a followed by those of t |
| `GoText.FieldsSplitAtSpace` | gazelle/closure_js/config.go:83 | every white-space character separates fields: Fields(a + [c] + b) == Fields(a) + Fields(b) when c is white space |
| `GoText.FieldsOfField` | gazelle/closure_js/config.go:83 | a non-empty string without white space splits into exactly itself |
| `GoText.ConcatFields` | gazelle/closure_js/config.go:83 | the fields, concatenated, are exactly the non-space characters of the value, in order |
| `GoText.FieldsOfJoin` | gazelle/closure_js/config.go:83-88 | splitting fields joined by single spaces gives the same fields back |
| `GoText.FieldsEmptyIffAllSpace` | gazelle/closure_js/config.go:90-93 | a value has no fields iff it is all white space |
| `GoText.ParseBool` | gazelle/closure_js/config.go:95-100 | ParseBool succeeds iff the argument is one of the twelve accepted spellings; true spellings start with 1/t/T, false ones with 0/f/F |
| `GoText.ParseFormatBool` | gazelle/closure_js/config.go:95 | ParseBool reads back what FormatBool writes, and FormatBool's output is one field |
| `ClosureJs.ApplyDirective` | gazelle/closure_js/config.go:81-104 | only `js_grep_extern` touches the rules and only `js_rule_per_file` touches the flag; the rules keep their prefix and grow by at most one; well-formed rules stay well formed |
| `ClosureJs.Check` | gazelle/closure_js/config.go:84-102 | a directive is logged only when its key is one of the two known keys, and the field-count diagnostic for `js_grep_extern` is given exactly for that key |
| `ClosureJs.KnownDirectives` | gazelle/closure_js/config.go:55-60 | a directive whose key is not in the list is never logged and changes no setting |
| `ClosureJs.Diagnostics` | gazelle/closure_js/config.go:80-105 | the loop logs at most one line per directive |
| `ClosureJs.ApplyAll` | gazelle/closure_js/config.go:80-105 | the fold keeps the starting rules as a prefix and keeps rules well formed |
| `ClosureJs.ApplyAllAppend` | gazelle/closure_js/config.go:80-105 | processing a + b is processing a, then b from the result |
| `ClosureJs.DiagnosticsAppend` | gazelle/closure_js/config.go:80-105 | the diagnostics of a + b are those of a followed by those of b |
| `ClosureJs.FoldStep` | gazelle/closure_js/config.go:80-105 | the fold over the first i + 1 directives is one more step on the fold over the first i, and logs that directive's diagnostic after the earlier ones |
| `ClosureJs.JsConfig.Apply` | gazelle/closure_js/config.go:81-104 | one pass of the loop body changes the object's value exactly as ApplyDirective says and returns the diagnostic Check gives |
| `ClosureJs.JsConfig.constructor` | gazelle/closure_js/config.go:41-44 | a new configuration has no rules and the per-file flag off |
| `ClosureJs.JsConfig.Clone` | gazelle/closure_js/config.go:50-53 | the clone is a new object with equal rules and flag |
| `ClosureJs.Configure` | gazelle/closure_js/config.go:70-107 | returns a new object (the parent is not modified) whose value is the fold of the directives over a new configuration or the parent's copy; returns the diagnostics logged, in order |
| `ClosureJsProperties.ConfigureWithoutDirectives` | gazelle/closure_js/config.go:70-79 | with no build file or no directives, the result is empty with the flag off at the root, and equals the parent's value otherwise |
| `ClosureJsProperties.GrepExternWritten` | gazelle/closure_js/config.go:82-88 | `js_grep_extern tok label` for any two fields appends exactly (tok, label), keeps the flag and logs nothing |
| `ClosureJsProperties.RulePerFileBlank` | gazelle/closure_js/config.go:89-93 | `js_rule_per_file` with an empty or all-space value turns the flag on and logs nothing |
| `ClosureJsProperties.RulePerFileWritten` | gazelle/closure_js/config.go:94-100 | `js_rule_per_file true`/`false` sets the flag to that value and logs nothing |
| `ClosureJsProperties.UnknownKeyIgnored` | gazelle/closure_js/config.go:55-60 | a directive whose key is not in KnownDirectives changes nothing and logs nothing |
| `ClosureJsProperties.LoggedIffSkipped` | gazelle/closure_js/config.go:81-104 | a logged directive changes nothing; a `js_grep_extern` is unlogged iff it adds a rule; a `js_rule_per_file` is unlogged iff it sets the flag |
| `ClosureJsProperties.SingleDirective` | gazelle/closure_js/config.go:81-104 | one directive appends the rules GrepRules gives for it at the end and sets the flag as LastFlag gives for it, and changes nothing else |
| `ClosureJsProperties.RulePerFileInvalidArgument` | gazelle/closure_js/config.go:94-98 | `js_rule_per_file x` with one field that ParseBool rejects logs the invalid-argument diagnostic and leaves the settings unchanged |
| `ClosureJsProperties.OnlyUnknownKeysLogNothing` | gazelle/closure_js/config.go:80-105 | directives with keys other than the two known ones produce no log lines |
| `ClosureJsProperties.TwoDirectives` | gazelle/closure_js/config.go:80-105 | two directives in a row are two fold steps, and their log lines come in order |
| `ClosureJsProperties.GrepRules` | gazelle/closure_js/config.go:83-88 | the rules described by the well-formed `js_grep_extern` directives are all well formed |
| `ClosureJsProperties.FoldRules` | gazelle/closure_js/config.go:80-105 | the final rules are the starting rules followed by the well-formed `js_grep_extern` directives' rules, in order |
| `ClosureJsProperties.FoldFlag` | gazelle/closure_js/config.go:80-105 | the final flag is the one set by the last flag-setting `js_rule_per_file`, or the starting flag if none sets it |
| `ClosureJsProperties.ConfigureRulesWellFormed` | gazelle/closure_js/config.go:83-88 | every rule Configure adds has a non-empty, whitespace-free token and label; at the root all rules are such |
| `ClosureJsProperties.InheritsParentRules` | gazelle/closure_js/config.go:70-79 | a directory's rules are its parent's, unchanged and in order, followed by its own |
| `ClosureJsProperties.NestedDirectories` | gazelle/closure_js/config.go:70-107 | configuring a child from its parent's result equals applying both directive lists, the parent's first |
| `ClosureJsProperties.InvalidBoolKeepsEarlierSetting` | gazelle/closure_js/config.go:89-103 | `js_rule_per_file false` then `js_rule_per_file bogus` leaves the flag false and logs one invalid-argument diagnostic |

## Left out

- `getJsConfig`, `RegisterFlags`, `CheckFlags` and the `c.Exts` registry are not modelled. They are host plumbing. `Configure` takes the parent configuration as a nullable argument, where null means no configuration is registered. It returns the new configuration instead of storing it in the registry.
- `Configure` receives the build file as an `Option` of its directive list; `None` stands for `f == nil`. Parsing comments into directives happens in Gazelle and is not part of this model.
- `log.Println` is modelled as the returned list of diagnostics. Each diagnostic carries the offending value instead of the printed text.
- Go's `regexp` engine and `regexp.QuoteMeta` are not modelled. The compiled pattern is represented by the literal token, and matching is the substring predicate `DelimitedAt`. The negated class also matches a newline, because Go compiles with `ClassNL`, so no case is lost.
- Strings are sequences of Unicode scalar values. Go strings and file contents are UTF-8 bytes, and invalid UTF-8 is not modelled. `IsSpace` follows `unicode.IsSpace` over scalar values.
- Invalid UTF-8 in scanned file contents: the regular expression reads each bad byte as U+FFFD, which is outside `[a-zA-Z0-9]`. The model cannot represent such contents.
- Invalid UTF-8 in a `js_grep_extern` token: `regexp.QuoteMeta` passes the bytes through and `regexp.MustCompile` (gazelle/closure_js/config.go:22) panics, so `Configure` crashes instead of logging and skipping the directive. The model cannot represent such a token, and its `Configure` never panics.
- `ClosureJs.JsConfig.Clone`: rules are a value sequence. Go's `clone` copies the struct shallowly, so two clones appending into the same spare capacity of a shared backing array can overwrite each other's new element. That aliasing is not modelled. The model gives the intended semantics, where a clone is independent of its original.
- The empty-token degenerate case (`[^a-zA-Z0-9][^a-zA-Z0-9]`) is covered by `Matches` as written. `Configure` never creates such a rule, because every token it records is a field (`ConfigureRulesWellFormed`).
