# entrys: the value-resolution engine, modelled in Dafny

`entrys` resolves configuration values. A dotted key such as `database.host`
is looked up in a YAML mapping. A terminal scalar of the form `${NAME}` or
`${NAME:DEFAULT}` is interpolated from the process environment. A terminal
sequence is rendered as its items joined with `;`. A profile named under
`entrys.profile` redirects the lookup to a profile-specific file. All of this
is built from small failable "entry" computations: `ESafe` (the null-safety
boundary), `EFork`, `EContains`, `ESplit`, `EUnwrap` and `EEnv`.

The model works on values:

- An entry is modelled by what one evaluation of it yields.
  - `Outcome<T>` is what an entry body produces before a null check: a value,
    `null`, a NullPointerException, or a thrown error.
  - `Result<T>` is what a caller of a null-checked entry sees.
- Errors are `Failure(message)` for the library's own `EntryException`, and
  `Unchecked(cause)` for runtime exceptions that no `catch` of the core
  handles.
- The parsed YAML document is `Node = Scalar | Seq | Map | Null`.
- The environment is a `map<string, string>`.
- The file system is a function from a path to the outcome of reading and
  parsing that file.

Modules, one per source component:

| file | module | models |
|---|---|---|
| `entry.dfy` | `Entry` | the `Entry` capability, `Option`, `Outcome`, `Result`, `Error` |
| `text.dfy` | `Text` | the `java.lang.String` operations used: `indexOf`, `trim`, `isBlank`, `replace`, joining |
| `yaml.dfy` | `Yaml` | the parsed document tree and `yamlMapping(key)` |
| `safe.dfy` | `Safe` | `ESafe` |
| `env.dfy` | `Env` | `EEnv` |
| `fork.dfy` | `Fork` | `EFork` |
| `contains.dfy` | `Contains` | `EContains` |
| `unwrap.dfy` | `Unwrap` | `EUnwrap` |
| `split.dfy` | `Split` | `ESplit`, with the limit-0 semantics of Java's `String.split` |
| `val.dfy` | `Val` | `EVal`: the traversal loop, `ejected`, `selectedEnv`, `joined` |
| `profile.dfy` | `Profile` | `EValProf` and `parsePath` |

The two loops of `EVal` are methods proved against specification functions:
- The key traversal is `Val.Lookup`, specified by `Val.EVal`.
- The default-value loop of `joined` is `Val.AppendTail`, specified by
  `Val.JoinTail`; `Val.Joined` feeds it the placeholder's inner tokens.

The model follows the code where it departs from the library's documented
intent:
- `ESafe` converts only `null` results and NullPointerExceptions. Every other
  error propagates unchanged, without being re-wrapped with the message.
- An environment value found for `${NAME:DEFAULT}` is returned untrimmed.
- `${NAME}` without a `:` uses the untrimmed inner text as the variable name.
- `EValProf` probes `entrys.profile` in the file at `path`, not in `content`.
- `EValProf` falls back to the base content in three cases:
  - a blank profile;
  - a profile-document lookup that fails with an `EntryException`;
  - a failed probe.
- `parsePath` appends the profile directly after every occurrence of
  `application`, with no `-`.
- A default that ends with `:` loses its trailing colons, because `joined`
  rebuilds it from the tokens of a limit-0 split.

## Model

| member | source | states |
|---|---|---|
| `Yaml.ChildMapping` | src/main/java/io/github/artemget/entrys/file/EVal.java:105 | `yamlMapping(key)` gives a mapping exactly when the key is present and holds a mapping, and then it is that mapping |
| `Safe.ESafe` | src/main/java/io/github/artemget/ESafe.java:65-76 | a value passes unchanged; a `null` result or a NullPointerException fails with the message; any other error propagates as it is |
| `Safe.DefaultSafe` | src/main/java/io/github/artemget/ESafe.java:49-51 | the one-argument form fails on `null` or an NPE with exactly `Empty entry` |
| `Safe.SafeIdempotent` | src/main/java/io/github/artemget/ESafe.java:65-76 | wrapping a safe entry in another `ESafe` changes nothing |
| `Safe.MessageOnlyOnNull` | src/main/java/io/github/artemget/ESafe.java:58-74 | two messages give the same result exactly when the origin yields a value, throws something else, or the messages agree |
| `Env.EEnv` | src/main/java/io/github/artemget/entrys/file/EVal.java:120-124 | a set variable yields its value and an unset one `null`; a failing name propagates and a `null` name gives an NPE |
| `Fork.EFork` | src/main/java/io/github/artemget/entrys/file/EVal.java:115-127 | `true` yields the primary branch, `false` the fallback, and a failing condition propagates |
| `Fork.ForkIgnoresOtherBranch` | src/test/java/io/github/artemget/entrys/operation/EForkTest.java:38-62 | the branch not taken has no influence on the result |
| `Contains.EContains` | src/main/java/io/github/artemget/entrys/operation/EContains.java:47-59 | `true` exactly when the entry yields a value; `false` exactly on `null`, an NPE or an `EntryException`; only an unchecked exception escapes |
| `Contains.ContainsNeverFailsChecked` | src/main/java/io/github/artemget/entrys/operation/EContains.java:53-59 | the probe never fails with an `EntryException`, and its answer is whether the `ESafe`-wrapped entry succeeds |
| `Text.IndexOfFrom` | src/main/java/io/github/artemget/entrys/operation/EUnwrap.java:64-67 | `indexOf(t, from)` is the first occurrence at or after `from`, or -1 exactly when there is none |
| `Text.Trim` | src/main/java/io/github/artemget/entrys/file/EVal.java:120-121 | `trim()` removes only characters up to U+0020, and only from the two ends |
| `Text.ReplaceFirst` | src/main/java/io/github/artemget/entrys/profile/EValProf.java:89-91 | `replace` rewrites the first occurrence and continues after it |
| `Text.ReplaceAll` | src/main/java/io/github/artemget/entrys/profile/EValProf.java:90 | `replace` leaves a text without the target unchanged, and replacing the target by itself changes nothing |
| `Text.IsBlank` | src/main/java/io/github/artemget/entrys/profile/EValProf.java:75 | `isBlank()` holds for the empty string, and a blank text of characters up to U+0020 trims to nothing |
| `Unwrap.UnwrapStart` | src/main/java/io/github/artemget/entrys/operation/EUnwrap.java:64 | the start is just after the first prefix, or one before the prefix length when the prefix is absent |
| `Unwrap.EUnwrap` | src/main/java/io/github/artemget/entrys/operation/EUnwrap.java:58-84 | fails with the message naming value, prefix and suffix exactly when no suffix occurs at or after the start; otherwise yields the text from the start up to the first such suffix |
| `Unwrap.UnwrappedHasNoSuffix` | src/main/java/io/github/artemget/entrys/operation/EUnwrap.java:65-68 | a successful result contains no whole occurrence of a non-empty suffix |
| `Unwrap.UnwrapRoundTrip` | src/main/java/io/github/artemget/entrys/operation/EUnwrap.java:64-68 | `prefix + x + c` unwraps to `x` when `c` does not occur in `x` |
| `Unwrap.PlaceholderRoundTrip` | src/main/java/io/github/artemget/entrys/file/EVal.java:124-131 | `${x}` unwraps to `x` with the placeholder markers whenever `x` has no `}` |
| `Unwrap.BracesRoundTrip` | src/main/java/io/github/artemget/entrys/operation/EUnwrap.java:47-49 | the one-argument form uses `{` and `}` |
| `Unwrap.AbsentPrefix` | src/main/java/io/github/artemget/entrys/operation/EUnwrap.java:64 | an absent prefix is no error: the text starts one before the prefix length |
| `Unwrap.MissingSuffix` | src/main/java/io/github/artemget/entrys/operation/EUnwrap.java:69-78 | a missing suffix fails with `Failed to unwrap value:'v' with prefix:'p' and suffix:'s'` |
| `Split.Pieces` | src/main/java/io/github/artemget/entrys/operation/ESplit.java:71 | a literal split always yields at least one piece |
| `Split.StripTrailingEmpty` | src/main/java/io/github/artemget/entrys/operation/ESplit.java:71 | limit 0 removes exactly the run of trailing empty tokens |
| `Split.ESplit` | src/main/java/io/github/artemget/entrys/operation/ESplit.java:62-71 | a present text is split on the literal delimiter; `null` fails with `Empty entry`; an origin failure propagates |
| `Split.ESplitDefault` | src/main/java/io/github/artemget/entrys/operation/ESplit.java:53-55 | the default delimiter is `;` |
| `Split.JoinPieces` | src/main/java/io/github/artemget/entrys/operation/ESplit.java:71 | joining the pieces with the delimiter gives back the input |
| `Split.PiecesFree` | src/main/java/io/github/artemget/entrys/operation/ESplit.java:71 | no piece contains the delimiter |
| `Split.FirstToken` | src/main/java/io/github/artemget/entrys/operation/ESplit.java:71 | token 0 is the text before the first delimiter, or the whole input when there is none; a non-empty first piece is never stripped |
| `Split.LastPieceEmpty` | src/main/java/io/github/artemget/entrys/operation/ESplit.java:71 | the last piece is empty only for an empty input or one that ends with the delimiter |
| `Split.SplitText` | src/main/java/io/github/artemget/entrys/operation/ESplit.java:71 | no token of the split contains the delimiter, and a text without the delimiter comes back as its only token |
| `Split.SplitEmpty` | src/main/java/io/github/artemget/entrys/operation/ESplit.java:71 | the split has no token at all exactly when the text is non-empty and made only of the delimiter |
| `Split.ReplacePieces` | src/main/java/io/github/artemget/entrys/profile/EValProf.java:90 | `replace` is the join of the pieces around the target with the replacement: every occurrence is replaced |
| `Split.SplitDropsOnlyTrailingEmpty` | src/main/java/io/github/artemget/entrys/operation/ESplit.java:71 | the tokens are a prefix of the pieces; only empty pieces are dropped, and the last token is not empty |
| `Split.SplitRoundTrip` | src/main/java/io/github/artemget/entrys/operation/ESplit.java:71 | for input not ending in the delimiter, joining the tokens with it reproduces the input |
| `Split.SplitOfJoin` | src/main/java/io/github/artemget/entrys/operation/ESplit.java:71 | splitting parts joined by a character none of them holds gives the parts back, unless the last part is empty |
| `Split.SplitAtFirst` | src/main/java/io/github/artemget/entrys/operation/ESplit.java:71 | the text before the first delimiter is token 0; the remaining tokens rejoin to the rest |
| `Split.LoneDelimiter` | src/main/java/io/github/artemget/entrys/operation/ESplit.java:71 | the delimiter alone splits into no tokens |
| `Split.TrailingDelimiterExample` | src/main/java/io/github/artemget/entrys/operation/ESplit.java:71 | `"a:"` splits into `["a"]` |
| `Split.LeadingDelimiterExample` | src/main/java/io/github/artemget/entrys/operation/ESplit.java:71 | `":a"` splits into `["","a"]` |
| `Split.InteriorEmptyExample` | src/main/java/io/github/artemget/entrys/operation/ESplit.java:71 | `"a::b"` splits into `["a","","b"]` |
| `Split.EmptyInputExample` | src/main/java/io/github/artemget/entrys/operation/ESplit.java:71 | `""` splits into `[""]` |
| `Split.SplitExamples` | src/main/java/io/github/artemget/entrys/operation/ESplit.java:71 | `"a:"` gives `["a"]`, `":"` gives `[]`, `":a"` gives `["","a"]`, `""` gives `[""]`, and `"a::b"` gives `["a","","b"]` |
| `Val.Joined` | src/main/java/io/github/artemget/entrys/file/EVal.java:135-147 | `joined` yields the placeholder's inner tokens from index 1 on, rejoined with `:`; a failed split or unwrap propagates |
| `Val.AppendTail` | src/main/java/io/github/artemget/entrys/file/EVal.java:139-146 | the `StringBuilder` loop appends exactly the tokens from index 1 on, separated by `:`, with no trailing `:` |
| `Val.JoinedStep` | src/main/java/io/github/artemget/entrys/file/EVal.java:140-145 | each iteration appends one token and a `:` unless it is the last, and the final iteration completes the rejoined tail |
| `Val.PlaceholderUnwraps` | src/main/java/io/github/artemget/entrys/file/EVal.java:116-124 | a scalar that starts with `${` and ends with `}` always unwraps |
| `Val.Ejected` | src/main/java/io/github/artemget/entrys/file/EVal.java:113-128 | a non-placeholder scalar is returned unchanged; interpolation never gives an NPE; it throws only the index error, and exactly when the scalar is a placeholder whose whole text has a `:` and whose inner text yields no token |
| `Val.EjectedThrows` | src/main/java/io/github/artemget/entrys/file/EVal.java:113-133 | interpolation throws exactly when the scalar is a placeholder whose inner text is non-empty and made only of `:` |
| `Val.EnvName` | src/main/java/io/github/artemget/entrys/file/EVal.java:120-121 | the variable name is the inner text trimmed when it has no `:`, otherwise the text before its first `:` trimmed (always present when that text is non-empty); the index error is raised exactly when the inner text is made only of `:` |
| `Val.EjectedEnvOnly` | src/main/java/io/github/artemget/entrys/file/EVal.java:118-124 | `${X}` with no `:` and no `}` in `X` reads variable `X`, untrimmed, and yields `null` when it is unset |
| `Val.NoColonTokens` | src/main/java/io/github/artemget/entrys/file/EVal.java:118 | a scalar without `:` takes the no-default branch |
| `Val.ColonTokens` | src/main/java/io/github/artemget/entrys/file/EVal.java:118 | a placeholder with a `:` takes the default branch |
| `Val.InnerOfDefault` | src/main/java/io/github/artemget/entrys/file/EVal.java:130-147 | for inner text `n:rest` with `rest` not ending in `:`, `n` is token 0 and the tokens after it rejoin to `rest` |
| `Val.EjectedWithDefault` | src/main/java/io/github/artemget/entrys/file/EVal.java:117-122 | for a default `D` that does not end in `:`, `${N:D}` yields the untrimmed value of the variable named by `trim(N)` when it is set, and `D` with its colons otherwise |
| `Val.EjectedEmptyDefault` | src/main/java/io/github/artemget/entrys/file/EVal.java:117-122 | `${N:}` yields the variable's value or `""` |
| `Val.DefaultWithColons` | src/main/java/io/github/artemget/entrys/file/EVal.java:135-147 | `${X:https://h:80}` with `X` unset yields `https://h:80` |
| `Val.EjectedDefault` | src/main/java/io/github/artemget/entrys/file/EVal.java:113-147 | for every placeholder with a `:` whose inner text yields a token 0, the variable named by that token trimmed wins untrimmed when set; otherwise the tokens after the first, rejoined with `:`, are the result |
| `Val.TrailingColonDropped` | src/main/java/io/github/artemget/entrys/file/EVal.java:136-146 | a default ending in `:` loses it: `${N:D:}` yields `D` when the variable is unset |
| `Val.TrailingColonExample` | src/main/java/io/github/artemget/entrys/file/EVal.java:136-146 | `${X:a:}` with `X` unset yields `a` |
| `Val.IntendedDefault` | src/main/java/io/github/artemget/entrys/file/EVal.java:117-122 | with the default taken as the text after the first `:`, verbatim, `${N:D}` yields `D` for every `D` when the variable is unset |
| `Val.IntendedAgreesOnDefault` | src/main/java/io/github/artemget/entrys/file/EVal.java:117-122 | the verbatim default and the rejoined tokens agree when `D` does not end in `:` |
| `Val.NoInnerTokens` | src/main/java/io/github/artemget/entrys/file/EVal.java:130-133 | when the inner text splits into no tokens, `get(0)` throws an index error |
| `Val.ColonsOnly` | src/main/java/io/github/artemget/entrys/file/EVal.java:130-133 | `${:}` throws the index error |
| `Val.EVal` | src/main/java/io/github/artemget/entrys/file/EVal.java:78-110 | a checked read failure gives `Failed to read yaml mapping for key: '<key>'`; `null` content fails with `Attribute for key '<key>' is null`; an unchecked error propagates |
| `Val.FileAt` | src/main/java/io/github/artemget/entrys/file/EFile.java:45-61 | a file entry never yields `null`; a `null` path fails with `Empty file for path: 'null'` |
| `Val.EValAt` | src/main/java/io/github/artemget/entrys/file/EVal.java:67-69 | a `null`, missing or unreadable file is a read failure under the key; a readable file is looked up |
| `Val.EValDefault` | src/main/java/io/github/artemget/entrys/file/EVal.java:57-59 | the default file is `src/main/resources/application.yaml` |
| `Val.Lookup` | src/main/java/io/github/artemget/entrys/file/EVal.java:80-109 | the lambda, read failure, `null` content and `null` check included, computes exactly the lookup that `EVal` specifies |
| `Val.Walk` | src/main/java/io/github/artemget/entrys/file/EVal.java:92-107 | the traversal loop over the key's segments yields exactly the walk `Descend` specifies: descend on every segment but the last, render the last, NPE on a missing mapping |
| `Val.SequenceText` | src/main/java/io/github/artemget/entrys/file/EVal.java:98-102 | a sequence renders exactly when every item is a scalar, otherwise the parser's unchecked error; `[]` renders as `""`; splitting the rendering on `;` gives back the item texts when none holds `;` and the last is not empty or is the only one |
| `Val.Terminal` | src/main/java/io/github/artemget/entrys/file/EVal.java:94-104 | the last segment gives an NPE exactly when it is absent or YAML `null`, `null` exactly for a mapping or an interpolation yielding `null`, a plain scalar unchanged, and only unchecked exceptions |
| `Val.DescendFlat` | src/main/java/io/github/artemget/entrys/file/EVal.java:92-106 | the walk reaches the mapping named by all segments but the last, then renders the last segment there |
| `Val.LookupSegments` | src/main/java/io/github/artemget/entrys/file/EVal.java:91-107 | for every key: a key made only of dots fails with the key's message; otherwise the last segment of its split is rendered in the mapping reached through the others |
| `Val.TrailingDotKey` | src/main/java/io/github/artemget/entrys/file/EVal.java:92 | a key `k.` splits into `[k]` and is looked up as `k`, failing under its own text |
| `Val.LookupPath` | src/main/java/io/github/artemget/entrys/file/EVal.java:92-109 | looking up `a.b.c` renders `c` in the mapping at `a.b`; a missing or non-mapping intermediate node fails with the key's message |
| `Val.LookupNothing` | src/main/java/io/github/artemget/entrys/file/EVal.java:91-109 | an absent key, a `null` value, a missing or non-mapping intermediate node, or a terminal mapping all fail with `Attribute for key '<key>' is null` |
| `Val.LookupScalar` | src/main/java/io/github/artemget/entrys/file/EVal.java:95-97 | a terminal scalar is interpolated; a non-placeholder scalar comes back unchanged |
| `Val.LookupSequence` | src/main/java/io/github/artemget/entrys/file/EVal.java:98-103 | a terminal sequence yields its scalar texts joined with `;` in order, and `[]` yields `""`; a non-scalar item raises the parser's exception |
| `Val.LookupUnsetVariable` | src/main/java/io/github/artemget/entrys/file/EVal.java:97-124 | an unset `${X}` fails with the key's message |
| `Val.InnerNodeExample` | src/test/java/io/github/artemget/entrys/file/EValTest.java:117-132 | `person.age` over `{person:{age:"123"}}` yields `"123"` |
| `Val.SequenceExample` | src/test/java/io/github/artemget/entrys/file/EValTest.java:162-178 | `ages: [123, 321]` yields `"123;321"` |
| `Val.EmptySequenceExample` | src/test/java/io/github/artemget/entrys/file/EValTest.java:148-160 | `ages: []` yields `""` |
| `Val.NullExamples` | src/test/java/io/github/artemget/entrys/file/EValTest.java:99-115 | `age: null` and `age2: null` both fail for key `age` |
| `Profile.Select` | src/main/java/io/github/artemget/entrys/profile/EValProf.java:70-84 | a failed probe, a blank profile, or a checked failure of the profile lookup all fall back to the base lookup; otherwise the profile lookup's result is used; unchecked errors propagate |
| `Profile.EValProf` | src/main/java/io/github/artemget/entrys/profile/EValProf.java:68-87 | with a `null` path the result is the base lookup; every checked failure is the base lookup's failure |
| `Profile.SafeSelect` | src/main/java/io/github/artemget/entrys/profile/EValProf.java:68-87 | the outer null check never changes the selected result |
| `Profile.ProfileBody` | src/main/java/io/github/artemget/entrys/profile/EValProf.java:70-84 | the constructor lambda never yields `null`; a checked failure can only be the base lookup's; every result is the base lookup, the lookup in the profile's document, or the probe's unchecked exception |
| `Profile.SelectSources` | src/main/java/io/github/artemget/entrys/profile/EValProf.java:70-84 | the same three facts for any probe, profile lookup and base lookup, once a `null` path has made the probe fail |
| `Profile.ProfileLookup` | src/main/java/io/github/artemget/entrys/profile/EValProf.java:78 | the profile's document is the file at `parsePath(path, profile)`; a path without `application` or an empty profile name reads the file at `path` itself |
| `Profile.EValProfAt` | src/main/java/io/github/artemget/entrys/profile/EValProf.java:57-59 | a `null` path fails as a read failure under the key |
| `Profile.EValProfDefault` | src/main/java/io/github/artemget/entrys/profile/EValProf.java:47-49 | on the default path, a checked failure is that of the plain lookup in the default file |
| `Profile.FallsBackToBase` | src/main/java/io/github/artemget/entrys/profile/EValProf.java:73-82 | a failed probe, a blank profile, or a failing profile-document lookup all give the lookup in the base content |
| `Profile.ProfileSelected` | src/main/java/io/github/artemget/entrys/profile/EValProf.java:74-78 | with a non-blank profile whose document has the key, that document's value wins |
| `Profile.ThreeSources` | src/main/java/io/github/artemget/entrys/profile/EValProf.java:73-83 | every result is the base lookup, the profile-document lookup, or an unchecked error of the probe |
| `Profile.NullPathExample` | src/test/java/io/github/artemget/entrys/profile/EValProfTest.java:55-62 | a failing content with a `null` path fails as a read failure |
| `Profile.ParseSingle` | src/main/java/io/github/artemget/entrys/profile/EValProf.java:89-91 | the only `application` is followed by the profile name |
| `Profile.ParseAbsent` | src/main/java/io/github/artemget/entrys/profile/EValProf.java:89-91 | a path without `application` is unchanged |
| `Profile.ParseAt` | src/main/java/io/github/artemget/entrys/profile/EValProf.java:89-91 | a single occurrence at index `i` is rewritten there, and the rest is unchanged |
| `Profile.ParseOnly` | src/main/java/io/github/artemget/entrys/profile/EValProf.java:89-91 | a path with a single `application` gets the profile name right after it, with no separator, and is otherwise unchanged |
| `Profile.ParseExample` | src/main/java/io/github/artemget/entrys/profile/EValProf.java:89-91 | `a/application.yaml` with profile `P` is `a/applicationP.yaml` |
| `Profile.ParseDefault` | src/main/java/io/github/artemget/entrys/profile/EValProf.java:47-49 | the default path with profile `P` is `src/main/resources/applicationP.yaml` |
| `Profile.ParseTwice` | src/main/java/io/github/artemget/entrys/profile/EValProf.java:89-91 | every occurrence is rewritten, not only the first |
| `Profile.ParsePath` | src/main/java/io/github/artemget/entrys/profile/EValProf.java:89-91 | for every path, the result is the pieces of the path around `application` joined with `application` followed by the profile; a path without `application` is unchanged |
| `Profile.BlankProfileAsWritten` | src/test/java/io/github/artemget/entrys/profile/EValProfTest.java:43-53 | the blank-profile scenario succeeds with `""` as written |
| `Profile.IntendedBlankFails` | src/main/java/io/github/artemget/entrys/profile/EValProf.java:75-76 | in the corrected lookup, a blank profile fails with `Attribute for key 'profile' is empty` |
| `Profile.BlankProfileIntended` | src/test/java/io/github/artemget/entrys/profile/EValProfTest.java:43-53 | the corrected lookup fails on the blank-profile scenario, as the test expects |
| `Profile.IntendedAgrees` | src/main/java/io/github/artemget/entrys/profile/EValProf.java:73-82 | where the content is the file at `path` and the profile is not blank, the corrected lookup agrees with the code |

## Left out

- The YAML parser is not part of this model. The parsed document is a `Node` tree.
  - A YAML `null` value is treated like an absent key.
  - Folded and literal block scalars are parser behaviour.
  - A parse failure and an unreadable file are both a failing content outcome.
- File reading (`EFile`) is a function from a path to the outcome of reading
  and parsing; no I/O is modelled.
- `EEnv` and `EFork` are not part of this model. They are modelled from their
  uses in `EVal`:
  - `EEnv` as a lookup in an environment map that yields `null` for an unset
    variable;
  - `EFork` as a conditional over its evaluated condition.
- `EJsonObj`, `EJsonArr` and `EInt` are thin wrappers over javax.json and
  `Integer.valueOf`, and are not modelled.
- `ESafe`'s message is a string, not a lazily evaluated entry, so a message
  entry that itself fails is not modelled.
- Entries are modelled by the value one evaluation yields. Re-evaluation on
  every call, the absence of caching, and "evaluated exactly once" in
  `EContains` are not expressed; no modelled computation has side effects.
- `EntryException` and `EntryExceptionUnchecked` are one `Failure`. Exception
  causes are not kept.
- `ESplit`'s `PatternSyntaxException` branch is not modelled. The delimiter is
  always passed through `Pattern.quote`, so that branch cannot be reached.
- A `null` key, a `null` value given to `EUnwrap`, and a `null` delimiter are
  not modelled. `null` content and a `null` path are modelled.
- Indices and lengths count code points, while Java's `indexOf`, `length` and
  `substring` count UTF-16 units. The two differ only for text outside the
  Basic Multilingual Plane, for example an absent prefix made of such a
  character shifts where `EUnwrap` starts. The core's own literals are ASCII.
- Profile.EValProf: its contract states the fallback and the null path; the
  full case analysis is stated on `Profile.Select`, `Profile.ProfileBody` and
  `Profile.SafeSelect`.

## Findings

| source | as written | input that shows it | evidently intended | confidence | as-written member | corrected member |
|---|---|---|---|---|---|---|
| src/main/java/io/github/artemget/entrys/profile/EValProf.java:73-82 | the profile is probed in the file at `path`, not in the content; with a `null` path that probe fails, and the `catch` falls back to the base lookup before the blank check is reached | content `entrys: {profile: ""}`, path `null`, key `entrys.profile`: the lookup yields `""` | a blank profile declared in the content fails the lookup, as the blank-profile test expects | high; not executed | `Profile.BlankProfileAsWritten` | `Profile.IntendedBlankFails` |
| src/main/java/io/github/artemget/entrys/file/EVal.java:136-146 | the default is rebuilt from the tokens of a limit-0 split, which drops the empty tokens after trailing colons | `${X:a:}` with `X` unset yields `a` | the default is the text after the first `:`, verbatim, so `a:` | medium; not executed | `Val.TrailingColonDropped` | `Val.IntendedDefault` |
