# postgresql-replica-api: output sanitiser, output cleaning and variables template in Dafny

postgresql-replica-api is a small HTTP service. It writes a Terraform
`variables.tf` from a request and runs `terraform init/plan/apply/destroy`,
relaying the tool's output. Almost all of it is glue around external processes.
This project models the parts of `main.py` that compute something:

- **`remove_ansi_escape_codes`** (module `Ansi`, `ansi.dfy`): `re.sub` with the
  pattern `\x1B\[[0-?9;]*[mK]` and an empty replacement.
  - The class `[0-?9;]` is the range U+0030..U+003F: the digits and `: ; < = > ?`.
    The `9` and `;` listed after the range are already inside it.
  - `m` and `K` are outside the class, so the greedy run of class characters
    decides every match. `BacktrackingNeverHelps` proves this against a model
    of a backtracking engine.
  - `Scan` records the substitution's left-to-right decisions as pieces. Each
    piece is a kept character or a removed match. `Sanitize` keeps the kept
    characters.
- **The cleaning expression** `remove_ansi_escape_codes(stdout).strip().split('\n')`
  (module `Cleaning`, `cleaning.dfy`).
  - `str.strip()` removes the characters of `str.isspace()`, which is a
    Unicode-wide set. Every operation takes that set as a parameter `ws`.
  - `PythonSpace` lists Python's set. It is used only in the worked examples.
- **The `variables.tf` template** of `generate_config` (module `Variables`,
  `variables.dfy`): the `ConfigRequest` record and the f-string.
  - The text starts with a newline, because it begins right after the opening
    triple quote.
  - Each declaration line is indented by twelve spaces.
  - The text ends with the twelve spaces before the closing triple quote.
  - `main.py` has CRLF line ends, but Python reads those as `\n` inside the
    literal, so the model uses `\n`.
  - String values are quoted with no escaping. Integers are written as
    `str(int)` writes them.
  - `ReadVariables` reads this layout back and is the partner of `Render`: it
    accepts exactly the renderings of requests without `"` in a string field.
- **Handler results** (module `Handlers`, `handlers.dfy`): what `/init`, `/plan`,
  `/apply` and `/destroy` answer, given the exit code and the captured streams
  of the `terraform` run.

The sanitiser is **not** idempotent, and its result can still contain a sequence
the pattern matches. `Ansi.NotIdempotent` proves this on ESC `[` ESC `[0m` `m`.

`main.py` has one apply handler, the standalone one at lines 92-119, which runs
only `terraform apply`. `Handlers.Apply` models it.

## Model

| member | source | states |
|---|---|---|
| `Ansi.ParamRun` | main.py:16 | the longest prefix made of class characters `[0-?9;]` (U+0030..U+003F): all of it in the class, and the next character (if any) not |
| `Ansi.MatchLength` | main.py:16 | the match anchored at a position: when one is found, that prefix is ESC `[`, class characters, `m`/`K`; when none is found, no prefix of any length is in the pattern's language |
| `Ansi.MatchIsUnique` | main.py:16 | any prefix in the pattern's language is the anchored match, so the match at a position is unique |
| `Ansi.GiveBackFails` | main.py:16 | a backtracking engine that gives back characters of the greedy run never finds `m` or `K` |
| `Ansi.BacktrackingNeverHelps` | main.py:16 | the greedy anchored match equals the match a backtracking regex engine finds for `[0-?9;]*[mK]` |
| `Ansi.Scan` | main.py:16-17 | the kept and removed pieces of the substitution cover the input exactly, in order, without gap or overlap |
| `Ansi.RemovedAreEscapeSequences` | main.py:16 | every deleted span has exactly the form ESC, `[`, zero or more of U+0030..U+003F, then `m` or `K` |
| `Ansi.Sanitize` | main.py:15-17 | `remove_ansi_escape_codes`: its contract is carried by `SanitizeDeletesOnly` (only deletes), `RemovedAreEscapeSequences` and `PieceAt` (exactly the matches, taken left to right, are deleted) and `UnchangedIffNoMatch` (unchanged exactly when nothing matches) |
| `Ansi.SanitizeStep` | main.py:17 | one step of `re.sub`: a match anchored at the start is removed and scanning resumes after it; otherwise one character is kept and scanning resumes at the next |
| `Ansi.ScanSuffix` | main.py:16-17 | after its first `j` pieces the scan continues exactly as the scan of the remaining text: matches are taken left to right |
| `Ansi.PieceAt` | main.py:16-17 | piece `j` lies at the offset given by the pieces before it; it is removed exactly when a match is anchored there, and then it is that match |
| `Ansi.SanitizeDeletesOnly` | main.py:16-17 | the result is a subsequence of the input, so it is never longer |
| `Ansi.FailedIntroducerKept` | main.py:16-17 | ESC `[` plus class characters followed by something other than `m`/`K`, or by the end of the text: the ESC is kept and scanning resumes at the next character |
| `Ansi.UnchangedIffNoMatch` | main.py:16-17 | the input comes back unchanged if and only if none of its substrings matches the pattern |
| `Ansi.NoEscapeUnchanged` | main.py:16-17 | text without U+001B comes back unchanged |
| `Ansi.OrdinaryCharKept` | main.py:16-17 | a leading character other than ESC is kept |
| `Ansi.EscapeSequenceRemoved` | main.py:16-17 | a leading match is removed whole |
| `Ansi.NotIdempotent` | main.py:16-17 | ESC `[` ESC `[0m` `m` sanitises to ESC `[m`, which still matches the pattern, and a second pass removes it |
| `Cleaning.TrimStart` | main.py:59 | removes exactly the leading whitespace: what is dropped is all whitespace, and the result is a suffix of the input that does not start with whitespace |
| `Cleaning.TrimEnd` | main.py:59 | removes exactly the trailing whitespace: what is dropped is all whitespace, and the result is a prefix of the input that does not end with whitespace |
| `Cleaning.Strip` | main.py:59 | `strip()`: the input minus a whitespace prefix and a whitespace suffix, with neither end of the result whitespace |
| `Cleaning.StripEmptyIff` | main.py:59 | stripping gives the empty text if and only if the text is all whitespace |
| `Cleaning.StripUnique` | main.py:59 | for any whitespace `a` and `b`, and any `r` with no whitespace at its ends, `strip(a + r + b) == r` |
| `Cleaning.StripIdempotent` | main.py:59 | the stripped text has no leading or trailing whitespace to remove: stripping again changes nothing |
| `Cleaning.Split` | main.py:59 | `split('\n')` never returns an empty list, and no piece contains the separator |
| `Cleaning.JoinSplit` | main.py:59 | joining the pieces of a split with the separator gives the text back |
| `Cleaning.SplitJoin` | main.py:59 | splitting a join of separator-free pieces gives the pieces back |
| `Cleaning.SplitPrefix` | main.py:59 | a separator-free prefix extends the first piece of the split |
| `Cleaning.SplitCount` | main.py:59 | a text with `k` separators splits into `k + 1` pieces |
| `Cleaning.Clean` | main.py:59 | the cleaned output is never empty, no line contains `\n`, and joining it with `"\n"` gives exactly the stripped, sanitised text |
| `Cleaning.CleanIsSplitOfText` | main.py:59 | a non-empty list of newline-free lines is the cleaned output if and only if its newline-join is the stripped, sanitised text |
| `Cleaning.CleanSingleEmptyLine` | main.py:59 | the cleaned output is `[""]` if and only if the sanitised output is all whitespace |
| `Cleaning.CleanLineCount` | main.py:59 | the cleaned output has one more line than the stripped, sanitised text has newlines |
| `Cleaning.CleanTwoLines` | main.py:59 | with Python's whitespace, output `"a\nb\n"` cleans to `["a", "b"]` |
| `Variables.IntToDecimal` | main.py:36-37 | `str(int)`: a minus sign exactly for negative integers, then digits without a leading zero; `IntRoundTrip` and `ParseIntOnlyDecimals` show that the integer reader inverts it exactly |
| `Variables.NatToDecimal` | main.py:36-37 | the digits of a non-negative integer: non-empty, decimal digits only, no leading zero except for `0` itself |
| `Variables.DecimalRoundTrip` | main.py:36-37 | reading back the digits of `n` gives `n` |
| `Variables.CanonicalDecimalRoundTrip` | main.py:36-37 | every digit string without a leading zero is the rendering of the number it denotes |
| `Variables.IntRoundTrip` | main.py:36-37 | an integer field is rendered as bare decimal that reads back to the same integer, negatives included |
| `Variables.ParseIntOnlyDecimals` | main.py:36-37 | the integer reader accepts exactly the texts `str(int)` produces |
| `Variables.IntToDecimalChars` | main.py:36-37 | a rendered integer contains neither a space nor a double quote |
| `Variables.ReadQuotedDeclaration` | main.py:34-35 | a string-valued declaration line reads back to its value verbatim when the value has no double quote |
| `Variables.ReadIntDeclaration` | main.py:36-37 | an integer-valued declaration line reads back to its bare decimal text |
| `Variables.RenderRoundTrip` | main.py:33-39 | when no string field holds `"`, the rendered text reads back to the request: the five declarations `postgres_version`, `instance_type`, `num_replicas`, `max_connections`, `shared_buffers` appear in that order, string values verbatim between quotes, integers as bare decimal |
| `Variables.Render` | main.py:20-39 | the f-string of `generate_config` over the five `ConfigRequest` fields (lines 20-25): `RenderRoundTrip` and `ReadRendersBack` show that `ReadVariables` inverts it exactly on requests without `"` in a string field; `QuoteBreaksRendering` shows it is not injective otherwise |
| `Variables.ReadRendersBack` | main.py:33-39 | any text the reader accepts is the rendering of the request it returns, and that request has no `"` in a string field: with `RenderRoundTrip`, the reader accepts exactly the renderings of quote-free requests |
| `Variables.QuoteBreaksRendering` | main.py:34-35 | string values are not escaped: moving template text containing `"` from one quoted field to the next gives a different request that renders to the same text |
| `Handlers.CleanedResponse` | main.py:54-63 | a non-zero exit code gives a server error with the given detail; exit code zero gives the status and the cleaned output lines |
| `Handlers.Init` | main.py:54-63 | `/init`: an error carrying the raw stderr if and only if the exit code is non-zero; otherwise its status message and the cleaned stdout lines |
| `Handlers.Plan` | main.py:77-86 | `/plan`: an error carrying the raw stderr if and only if the exit code is non-zero; otherwise its status message and the cleaned stdout lines |
| `Handlers.Apply` | main.py:100-116 | `/apply`: an error carrying the stripped stderr if and only if the exit code is non-zero; otherwise its status message and the cleaned stdout lines |
| `Handlers.Destroy` | main.py:130-140 | `/destroy`: an error carrying the raw stderr if and only if the exit code is non-zero; otherwise its status message and the raw, unsanitised stdout |
| `Handlers.InitTwoLines` | main.py:54-63 | init exiting 0 with stdout `"a\nb\n"` answers the lines `["a", "b"]` |
| `Handlers.DestroyDenied` | main.py:137-138 | destroy exiting 1 with stderr `"denied"` answers an error carrying `"denied"` |

## Left out

- HTTP routing, `HTTPException` and status codes (FastAPI) are left out. A failure is modelled as `ServerError(detail)`.
- The outer `except Exception as e` re-raises every error with `detail=str(e)`. That includes the inner `HTTPException`, so the client receives the framework's string form of it. The model keeps the inner detail, because that string form is library behaviour.
- Running `terraform` is left out: `subprocess.run`, the `os.environ.copy()`/`TF_NO_COLOR` setup, and failures to start the process. These are foreign process calls. Their exit code and captured streams are inputs of `Handlers`.
- Writing `variables.tf` is left out, and so is the file-system error path of `/generate`. This is file I/O; only the rendered text is modelled.
- Pydantic's type coercion of the `ConfigRequest` body is left out. It is library behaviour.
- `ANSIBLE_PLAYBOOK` (main.py:12) is left out: `main.py` defines it but never uses it, and no handler runs Ansible.
- Strings are sequences of Unicode scalar values. Python strings can also hold lone surrogates; the model does not cover them.
