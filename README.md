# mathenvirons: a verified model of the placeholder preprocessor

`mathenvirons` is an mdbook preprocessor that adds LaTeX-like math
environments to a book. It rewrites three literal markers in the text of
every chapter before the book is rendered:

| marker | expansion |
|---|---|
| `{#theorem}` | `<strong>Theorem.</strong>` |
| `{/proof}` | the closing `</details>` fragment with the end-of-proof square |
| `{#proof}` | the opening `<details>` fragment with the "Proof. (Expand to view)" summary |

The passes run in that order. Each pass is Rust's `str::replace`: it replaces
every occurrence, left to right, with no overlaps, and never re-scans the
text it inserted. The preprocessor supports the `html` renderer only.

The model has four modules:

- `Results` (results.dfy): `Option`, `Result`, and mdbook's `Error` reduced
  to its message.
- `StrReplace` (replace.dfy): `ReplaceAll`, a model of `str::replace` over
  any sequence type. Its lemmas cover the left-to-right, non-overlapping and
  no-re-scan semantics. `ReplaceByFind` is a second, find-and-copy
  definition, and `ReplaceAllIsReplaceByFind` proves the two equal. The
  lemmas about `Fenced` replacements say when a pass cannot create or leave
  an occurrence of a pattern.
- `Placeholders` (placeholders.dfy): the marker table, copied character for
  character from the source, and `ReplacePlaceholders`. It proves that no
  marker survives, that text without markers is unchanged, the two worked
  examples, idempotence, and that the three sequential passes equal one
  simultaneous scan (`SingleScan`).
- `Preprocessor` (preprocessor.dfy): the book as `Chapter` / `BookItem` /
  `Book`, with the walk of `run` written as two methods. `WalkItems` is
  a loop over a list of items that overwrites each slot of a sequence value. `WalkItem`
  handles one item: it walks the chapter's sub-items, then overwrites the
  chapter's content. A spec function, `RewriteItems`, describes the result.
  Lemmas prove that only chapter contents change, that the contents after
  the walk are the contents before it, each one expanded, and that no
  marker is left anywhere in the book. The module also holds `SupportsRenderer`.

The two multi-line expansions are written as concatenations of smaller
string literals. Together they give exactly the source literal, including
the embedded newlines, the four-space indents, and the trailing space after
`</summary>` and after `</p>`.

Chained `str::replace` passes can rewrite text an earlier pass inserted
(`StrReplace.SecondPassScansInsertedText`), so for arbitrary literals a
second run need not leave the text unchanged. With the literals the code
uses, no expansion contains or can help form a marker. So a second run
changes nothing (`Placeholders.Idempotent`, `Preprocessor.RewriteIdempotent`),
and the three passes equal one simultaneous scan
(`Placeholders.ExpandIsSingleScan`).

## Model

| member | source | states |
|---|---|---|
| `StrReplace.ReplaceAllEmptyInput` | src/main.rs:115-117 | with a non-empty pattern, replacing in the empty string gives the empty string |
| `StrReplace.ReplaceAllAbsent` | src/main.rs:115-117 | if the pattern does not occur, `replace` returns the text unchanged |
| `StrReplace.ReplaceAllMatchAtStart` | src/main.rs:115-117 | a match at the front becomes `rep`, and the scan resumes after the match; `rep` is never scanned again, whatever it contains |
| `StrReplace.ReplaceAllCopiesFirst` | src/main.rs:115-117 | where no match begins, the first character is copied and the scan moves on one character |
| `StrReplace.ReplaceAllCopiesUntilMatch` | src/main.rs:115-117 | a prefix in which no match begins is copied verbatim |
| `StrReplace.ReplaceAllSkipsForeignText` | src/main.rs:115-117 | a prefix that lacks the pattern's first character is copied verbatim |
| `StrReplace.ReplaceAllCopiesMismatch` | src/main.rs:115-117 | a prefix that differs from the pattern at some index, and holds the pattern's first character only at its front, is copied verbatim |
| `StrReplace.ReplaceAllLeftmost` | src/main.rs:115-117 | when the first match is the one after `a`, `replace(a + pat + b)` is `a + rep + replace(b)`: matches are taken left to right and do not overlap |
| `StrReplace.Find` | src/main.rs:115-117 | returns the leftmost index where the pattern occurs, or `None` exactly when it does not occur |
| `StrReplace.ReplaceAllIsReplaceByFind` | src/main.rs:115-117 | the scanning definition equals the find-leftmost, copy, push-`rep`, continue definition for every input |
| `StrReplace.SecondPassScansInsertedText` | src/main.rs:115-117 | a later pass sees the text an earlier pass inserted: chained passes rewrite inserted text |
| `StrReplace.FencedWindow` | src/main.rs:115-117 | no occurrence of `q` can start inside a copy of a replacement that is fenced against `q` |
| `StrReplace.ReplaceAllPrefix` | src/main.rs:115-117 | every prefix of the output is either a verbatim prefix of the input or contains the first character of `rep` |
| `StrReplace.OccurrenceOrigin` | src/main.rs:115-117 | an occurrence of `q` in the output of a pass whose replacement is fenced against `q` was already in the input, and `q` is not that pass's pattern |
| `StrReplace.ReplaceAllRemovesPattern` | src/main.rs:115-117 | a pass whose replacement is fenced against its own pattern leaves no occurrence of that pattern |
| `StrReplace.ReplaceAllCreatesNoOccurrence` | src/main.rs:115-117 | a pass whose replacement is fenced against `q` creates no new occurrence of `q` |
| `StrReplace.ReplaceAllKeepsNoStart` | src/main.rs:115-117 | a pass whose replacement starts with a character not in `q` does not make the text start with `q` |
| `StrReplace.FencedByMissingElement` | src/main.rs:100-113 | a replacement that lacks some character of `q`, and whose first and last characters are not in `q`, is fenced against `q` |
| `StrReplace.AbsentByMissingElement` | src/main.rs:100-113 | a text that lacks some character of `q` does not contain `q` |
| `Placeholders.MarkerCharacters` | src/main.rs:100-109 | every marker contains `{` and neither `<` nor `>` |
| `Placeholders.MarkerShapes` | src/main.rs:100-109 | every marker holds `{` only at its front; the markers differ at index 1 or 2 |
| `Placeholders.TheoremExpandedCharacters` | src/main.rs:101 | the theorem expansion starts with `<`, ends with `>` and has no `{` |
| `Placeholders.ProofEndExpandedCharacters` | src/main.rs:110-113 | the proof-end expansion starts with `<`, ends with `>` and has no `{` |
| `Placeholders.ProofStartExpandedCharacters` | src/main.rs:103-108 | the proof-start expansion starts with `<`, ends with `>` and has no `{` |
| `Placeholders.ExpansionsFenced` | src/main.rs:100-113 | every expansion is fenced against every marker |
| `Placeholders.ReplacePlaceholders` | src/main.rs:99-119 | `replace_placeholders` always returns `Ok`, and the returned text contains none of the three markers |
| `Placeholders.NoMarkerSurvives` | src/main.rs:100-117 | after the three passes, none of `{#theorem}`, `{/proof}`, `{#proof}` occurs |
| `Placeholders.Identity` | src/main.rs:115-118 | text containing no marker comes back as `Ok` of itself |
| `Placeholders.EmptyInput` | src/main.rs:115-118 | the empty string gives `Ok("")` |
| `Placeholders.Passes` | src/main.rs:115-118 | the result is the proof-start pass applied to the proof-end pass applied to the theorem pass, in that fixed order |
| `Placeholders.SingleTheorem` | src/main.rs:100-118 | `{#theorem}` alone gives exactly `<strong>Theorem.</strong>` |
| `Placeholders.MixedProofBlock` | src/main.rs:102-118 | `{#proof} body {/proof}` gives the opening fragment, then ` body `, then the closing fragment, and nothing else |
| `Placeholders.MixedTheoremPass` | src/main.rs:115 | the theorem pass leaves the mixed example unchanged |
| `Placeholders.MixedProofEndPass` | src/main.rs:116 | the proof-end pass replaces only the trailing `{/proof}` of the mixed example |
| `Placeholders.MixedProofStartPass` | src/main.rs:117 | the proof-start pass replaces only the leading `{#proof}` of the mixed example |
| `Placeholders.ExpandTheoremFirst` | src/main.rs:115-117 | text that starts with `{#theorem}` becomes the theorem expansion followed by the expansion of the rest |
| `Placeholders.ExpandProofEndFirst` | src/main.rs:115-117 | text that starts with `{/proof}` becomes the closing fragment followed by the expansion of the rest |
| `Placeholders.ExpandProofStartFirst` | src/main.rs:115-117 | text that starts with `{#proof}` becomes the opening fragment followed by the expansion of the rest |
| `Placeholders.ExpandCopiesFirst` | src/main.rs:115-117 | a character where no marker begins is copied, followed by the expansion of the rest |
| `Placeholders.ExpandIsSingleScan` | src/main.rs:115-117 | the three sequential passes equal one simultaneous left-to-right scan over the three markers, for every input |
| `Placeholders.Idempotent` | src/main.rs:99-119 | applying `replace_placeholders` to its own output returns that output again |
| `Preprocessor.NewContent` | src/main.rs:81-85 | a chapter's new content is always the expanded text; the `error.to_string()` fallback never fires |
| `Preprocessor.RewriteItem` | src/main.rs:79-88 | a non-chapter item is unchanged; a chapter keeps its kind, its name and its number of sub-items, and its content is the expanded text |
| `Preprocessor.RewriteItems` | src/main.rs:79-88 | the walk keeps the number of items, and each item is rewritten in its own position |
| `Preprocessor.WalkItem` | src/main.rs:79-87 | one step of the walk over an item equals the spec `RewriteItem` |
| `Preprocessor.WalkItems` | src/main.rs:79-88 | the loop that overwrites each slot of an item list leaves exactly `RewriteItems` of the input |
| `Preprocessor.Run` | src/main.rs:78-91 | `run` always returns `Ok`, holding the book with its sections rewritten by the walk |
| `Preprocessor.RewriteItemKeepsShape` | src/main.rs:79-88 | with contents blanked, an item after the walk equals the item before it |
| `Preprocessor.RewriteKeepsShape` | src/main.rs:79-90 | nothing but chapter contents changes: no item is added, dropped or reordered, at any depth, and separators and part titles are identical |
| `Preprocessor.RewriteItemContents` | src/main.rs:79-88 | the contents of an item and its descendants after the walk are the contents before, each one expanded |
| `Preprocessor.RewriteContents` | src/main.rs:79-88 | the list of contents of every chapter at every depth after the walk is the list before it, each one expanded |
| `Preprocessor.ExpandAllAppend` | src/main.rs:79-88 | expanding a concatenated list of contents is the same as expanding each part |
| `Preprocessor.RunLeavesNoMarker` | src/main.rs:78-91 | after `run`, no chapter of the book contains a marker |
| `Preprocessor.RewriteItemIdempotent` | src/main.rs:78-91 | walking an item twice gives the same result as walking it once |
| `Preprocessor.RewriteIdempotent` | src/main.rs:78-91 | running the walk on its own output changes nothing |
| `Preprocessor.OnlyHtmlSupported` | src/main.rs:93-95 | `supports_renderer` is true for `html`, and true only for `html`; the test is case-sensitive |

## Left out

- `main`, `make_app` and `handle_supports` (src/main.rs:9-30, 56-65) are not modelled. They parse command-line arguments with clap and exit the process.
- `handle_preprocessing` (src/main.rs:33-52) is not modelled. It parses JSON from stdin, writes JSON to stdout, and warns on stderr about a version mismatch. All of that is I/O through foreign libraries.
- `name()` (src/main.rs:76) returns a constant string and has no behaviour to verify.
- mdbook's `PreprocessorContext` is not modelled, because `run` never reads it.
- mdbook's `Chapter` has more fields: `number`, `path`, `source_path` and `parent_names`. The model keeps only the name, the content and the sub-items. `run` never touches the other fields.
- mdbook's `for_each_mut` is library code that is not part of this model. The model visits a chapter's sub-items before the chapter and walks lists front to back. Each chapter's new content depends only on its own old content, so the visiting order does not change the result.
- Update in place is modelled on values. The Rust `Book` is owned by value and borrowed exclusively during the walk, so no two chapters can alias. The methods rebuild each item and overwrite its slot in the list, instead of assigning a field through a reference.
- `Error::to_string` is modelled as the error's message. The failure branch is unreachable, so its exact wording does not matter.
- Strings are modelled as sequences of characters. Rust's `str::replace` works on UTF-8 bytes at character boundaries. For the ASCII markers used here, both views find the same matches.
