# Startup secret masking of the Todo API

The Todo API is a small ASP.NET Core web service. Its own logic is limited to
what its startup code writes to the log. There are two masking rules:

- **Connection-string masking** (`MaskPassword`). The connection string is split
  on `;` into segments. A segment that mentions `Password` (ordinal comparison,
  ignoring case) and splits on `=` into exactly a key and a value is rewritten
  as `key=***MASKED***`. The segments are then joined back with `;`. An empty
  string is returned as it is.
- **Configuration dump**. Every configuration entry is logged as its key and a
  shown value. If the key mentions `Password` or `Secret` (ignoring case), the
  shown value is `***MASKED***`. Otherwise it is the value itself, or `(null)`
  when the value is null.

The model has four modules:

- `Text` (`text.dfy`) holds the .NET string operations the rules depend on.
  `Split` is `String.Split(char)`, keeping empty segments. `Join` is
  `String.Join` with a one-character separator. `ContainsIgnoreCase` is
  `String.Contains` with `StringComparison.OrdinalIgnoreCase`, and `FoldAscii`
  is the case folding it uses. The lemmas cover the split/join round trips and
  segment counting. `ContainsIgnoreCase` is proved equal to a plain "there is
  an offset where the needle matches" definition.
- `ConnectionString` (`mask_password.dfy`) has the method `MaskPassword`. As in
  the source, it copies the segments into an array, overwrites the masked ones
  in a `for` loop and joins the array. It is proved equal to the function
  `Masked`, which is built from the per-segment rewrite `MaskedSegment`. The
  properties of the masker are lemmas about these functions: segment count
  and position, untouched segments, the shape of a masked segment, idempotence,
  and that no masked segment still shows a password.
- `ConfigLog` (`config_log.dfy`) has the shown-value rule `ShownValue`. Its loop
  is the method `LogConfiguration`, which returns the (key, shown value) lines
  it would log instead of writing them.
- `Wrappers` (`wrappers.dfy`) has `Option`, which stands for a value that may
  be null.

## Model

| member | source | states |
|---|---|---|
| `Text.FoldAscii` | Program.cs:133 | The ignore-case mapping sends each ASCII lower-case letter to its upper-case letter, 32 code points lower. Every other character maps to itself. `Text.SameIgnoringCase` states which characters it identifies. |
| `Text.SameIgnoringCase` | Program.cs:133 | Two characters compare equal under the ignore-case mapping exactly when they are equal or are the lower-case and upper-case forms of one ASCII letter. |
| `Text.ContainsIgnoreCase` | Program.cs:133 | `Contains(needle, OrdinalIgnoreCase)` is true exactly when some offset of the string matches the needle character by character after case folding. |
| `Text.Split` | Program.cs:130 | `Split(sep)` returns at least one segment. `Text.SplitSegmentsLackSeparator`, `Text.SplitCount` and `Text.JoinSplit` characterise the segments. |
| `Text.SplitSegmentsLackSeparator` | Program.cs:130 | No segment returned by `Split(sep)` contains the separator. |
| `Text.SplitCount` | Program.cs:135-136 | `Split(sep)` returns one more segment than the input has separators. So `keyValue.Length == 2` means exactly one `=`. |
| `Text.Join` | Program.cs:142 | `String.Join` with a one-character separator. It is characterised by `Text.JoinSplit`, `Text.SplitJoin`, `Text.JoinAppend` and `Text.JoinCount`: it undoes a split, a split undoes it, it places one separator between two runs of segments, and it adds exactly one separator per neighbouring pair. |
| `Text.JoinCount` | Program.cs:142 | Joining `n` separator-free segments gives a string with exactly `n - 1` separators. |
| `Text.JoinSplit` | Program.cs:130-142 | Joining the segments of a split with the same separator gives back the original string. |
| `Text.SplitJoin` | Program.cs:130-142 | Splitting the join of separator-free segments gives back exactly those segments. |
| `Text.SplitAround` | Program.cs:130 | Splitting `a + sep + b` gives the segments of `a` followed by the segments of `b`. |
| `Text.JoinAppend` | Program.cs:142 | Joining two non-empty runs of segments places exactly one separator between the two joins. |
| `Text.SplitAtOnlySeparator` | Program.cs:135 | A segment whose only `=` is at offset `i` splits into the text before `i` and the text after it. |
| `Text.NoMatchWithoutLetter` | Program.cs:67-68 | A string that lacks both the upper-case and the lower-case form of some ASCII letter of the needle does not contain the needle, ignoring case. |
| `ConnectionString.MaskedSegment` | Program.cs:133-139 | The loop body's rewrite of one segment. It is characterised by `ConnectionString.MaskedSegmentShape` and `ConnectionString.MaskedSegmentUnchanged`: a segment that mentions `Password` and has exactly one `=` keeps its key and gets `=***MASKED***`, and every other segment is left unchanged. |
| `ConnectionString.Masked` | Program.cs:126-143 | What the helper returns. It is characterised by `ConnectionString.MaskedSegmentwise`: the output has the input's `;`-segments, each rewritten on its own by `MaskedSegment` and kept at its position. |
| `ConnectionString.MaskPassword` | Program.cs:126-143 | The array-and-loop helper returns the empty string unchanged. For every input it returns exactly `Masked(connectionString)`. The loop invariant says that the array slots before `i` are rewritten and the rest are untouched. |
| `ConnectionString.MaskedSegmentShape` | Program.cs:133-139 | Take a segment that mentions `Password` and whose only `=` is at offset `i`. It becomes its first `i` characters, kept verbatim, followed by `=***MASKED***`. |
| `ConnectionString.MaskedSegmentUnchanged` | Program.cs:133-136 | A segment is left unchanged if it does not mention `Password`, or if it has zero `=` or two or more `=`. For example, a password value that contains `=` is not masked. |
| `ConnectionString.MaskedSegmentKeepsSeparatorOut` | Program.cs:138 | Rewriting a segment never introduces a `;`, since neither the kept key nor `=***MASKED***` contains one. |
| `ConnectionString.MaskedSegmentIdempotent` | Program.cs:133-139 | Rewriting an already rewritten segment changes nothing. |
| `ConnectionString.MaskedIsSplitRewriteJoin` | Program.cs:128-142 | The early return for the empty string gives the same result as splitting, rewriting and joining. |
| `ConnectionString.MaskedSegmentwise` | Program.cs:130-142 | The output has exactly as many `;`-segments as the input. Segment `k` of the output is the rewrite of segment `k` of the input alone. |
| `ConnectionString.UnmatchedSegmentUnchanged` | Program.cs:131-133 | An input segment that does not mention `Password` appears unchanged at the same position in the output. |
| `ConnectionString.NothingToMaskIsIdentity` | Program.cs:130-142 | If no segment both mentions `Password` and holds exactly one `=`, the output equals the input. |
| `ConnectionString.MaskedIdempotent` | Program.cs:126-143 | Masking the output of the masker again gives the same string. |
| `ConnectionString.MaskedAround` | Program.cs:130-142 | Masking `a;b` gives the masked `a`, then `;`, then the masked `b`. Whether one part is masked never affects the other part. |
| `ConnectionString.MaskedHidesPasswords` | Program.cs:133-138 | In the output, every segment that mentions `Password` and has exactly one `=` shows `***MASKED***` after that `=`. |
| `ConfigLog.IsSensitiveKey` | Program.cs:67-68 | A key is masked exactly when `Password` or `Secret` matches it at some offset, comparing characters ignoring case. |
| `ConfigLog.ShownValue` | Program.cs:66-72 | A key that mentions `Password` or `Secret` is shown as `***MASKED***`, even when its value is null. Any other key is shown with its value. The shown text is `(null)` exactly when the value is null or is the text `(null)`. |
| `ConfigLog.LogConfiguration` | Program.cs:64-73 | The loop logs one line per entry, in order. Each line holds the entry's key and `ShownValue` of the entry. |
| `ConfigLog.SensitiveValueIndependent` | Program.cs:67-70 | The line logged for a key that mentions `Password` or `Secret` does not depend on the value. |
| `ConfigLog.NonSensitiveShownDeterminesValue` | Program.cs:66-72 | For any other key, two values that are shown alike are equal, unless one is null and the other is the text `(null)`. |
| `ConfigLog.ConnectionStringKeyLacksPassword` | Program.cs:67 | The key `ConnectionStrings:DefaultConnection`, read at line 27, does not mention `Password`. |
| `ConfigLog.ConnectionStringKeyLacksSecret` | Program.cs:68 | The key `ConnectionStrings:DefaultConnection` does not mention `Secret`. |
| `ConfigLog.ConnectionStringLoggedInClear` | Program.cs:64-73 | As written, the configuration dump shows the value under `ConnectionStrings:DefaultConnection` verbatim, password included. |
| `ConfigLog.ShownValueRedacted` | Program.cs:64-73 | The corrected rule keeps the sensitive-key and null cases of `ShownValue`. Every other shown value is passed through the connection-string masker. |
| `ConfigLog.RedactedHidesPasswords` | Program.cs:64-73 | Under the corrected rule, for every key and every value, null or not, every `;`-segment of the shown value that mentions `Password` and has exactly one `=` shows only `***MASKED***` after the `=`. |

## Findings

| source | as written | input that shows it | evidently intended | confidence | as-written member | corrected member |
|---|---|---|---|---|---|---|
| Program.cs:64-73 | The dump masks only keys that mention `Password` or `Secret`. The key `ConnectionStrings:DefaultConnection` mentions neither, so its value, the whole connection string, is logged in clear. | The entry `ConnectionStrings:DefaultConnection` = `Host=db;Password=hunter2` is logged as `Host=db;Password=hunter2`. | The connection string is logged only in masked form, as lines 30-35 take care to do. | medium; not executed | `ConfigLog.ConnectionStringLoggedInClear` | `ConfigLog.RedactedHidesPasswords` |

`ConfigLog.LogConfiguration` still uses the as-written `ShownValue`, because it
models the loop as the source has it. The corrected rule is
`ConfigLog.ShownValueRedacted`, and `ConfigLog.RedactedHidesPasswords` proves
its property.

## Left out

- Host startup is not modelled, because it is framework wiring with no logic of its own. This covers builder creation, service and DbContext registration, OpenAPI, middleware, the `/` liveness route and `app.Run`.
- Writing to the log is left out, because it is I/O. The request-logging middleware is left out too. The configuration dump is modelled as the sequence of lines it would write.
- The startup database steps are left out, because they are asynchronous calls into Entity Framework and Npgsql. These are the connectivity test, the migrations, the migration counts and the fail-fast rethrow.
- Reading `PORT` and the connection string from the environment and configuration is left out, because it is external input. The same goes for the startup abort when the connection string is missing or empty. The configuration entries are a parameter, in the order the configuration enumerates them.
- The controller and the DbContext are left out, because they are thin asynchronous wrappers over the ORM.
- `ConnectionString.MaskPassword` takes a non-null string. The source also returns a null argument unchanged. The only caller passes a non-empty string, so this case is not modelled.
- `Text.ContainsIgnoreCase` folds ASCII letters only. .NET's ordinal ignore-case comparison also upper-cases non-ASCII letters, so `é` and `É` compare equal there. This matters for the ASCII keywords `Password` and `Secret` only if some non-ASCII character upper-cases to an ASCII letter. Such characters are compared exactly here.
- Strings are sequences of Unicode scalar values. .NET strings are UTF-16 code units, so surrogate pairs are not modelled.
