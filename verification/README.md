# rslug in Dafny

A model of the `Slugifier` of the rslug crate (src/lib.rs). It is a
stateless text transformer with three parts, plus its configuration:

- **Slug scan** (`slugify_ascii`, and `slugify` after transliteration).
  - Keeps the ASCII alphanumeric bytes of the input, lower-cased when `to_lowercase` is set.
  - A run of any other bytes becomes one separator, emitted only between two kept characters.
- **Word-boundary truncation** (`apply_truncation`).
  - Applies only when a limit is set and the slug is longer than it.
  - Looks for the separator only in `slug[..max_len]`, so an occurrence counts only when it lies wholly inside the first `max_len` characters.
  - Cuts just before the last such occurrence; hard-cuts at `max_len` when there is none or when the separator is empty.
- **Filename sanitiser** (`sanitize_filename`).
  - Copies ordinary characters.
  - Collapses each run of whitespace or illegal characters (`/ \ : * ? " < > |`) into one space, or one replacement string, decided by the run's first character.
  - Then trims whitespace from both ends.
- **Configuration**: the immutable `Slugifier` record, its default, and the four builder setters.

Files, one module each:

| file | module | contents |
|---|---|---|
| ascii.dfy | `Ascii` | `byte`, ASCII classes, `to_ascii_lowercase`, `u8 as char`, the bytes of ASCII text |
| config.dfy | `Config` | `Slugifier`, `Default`, the setters |
| slug.dfy | `Slug` | reference description `Render(Words(text))`, the loop `Run`/`ScanLoop`, and the proof that they agree |
| slug_laws.dfy | `SlugLaws` | alphanumeric content, words of a join, idempotence |
| truncation.dfy | `Truncation` | `str::rfind`, `apply_truncation`, and the cut its documentation describes |
| rslug.dfy | `Rslug` | `slugify`, `slugify_ascii`, the macros, what truncation keeps, no doubled separators |
| idempotence.dfy | `Idempotence` | slugs as fixed points of `slugify_ascii` with truncation; the two-character-separator counterexample |
| sanitize.dfy | `Sanitize` | `str::trim`, the sanitiser loop `Pass`/`CollapseLoop`, reference description `CollapseRuns`, properties |
| examples.dfy | `Examples` | the unit tests of src/lib.rs as lemmas |

Each operation has an independent partner:
- The slug loop (`Run`, `ScanLoop`) is proved equal to `Render(cfg, Words(text))`. `Words` cuts the input into its maximal alphanumeric runs, and `Render` case-maps the runs and joins them with the separator.
- The sanitiser loop (`Pass`, `CollapseLoop`) is proved equal to `CollapseRuns`, which describes the output run by run.
- `RFind` and `ApplyTruncation` are specified by quantifiers over the occurrences of the separator.

The model differs from Rust in these ways (each is detailed under "## Left out"):
- The transliteration `any_ascii` is a parameter: any total map whose results are ASCII.
- `char::is_whitespace` is a parameter `isWs`, shared by the sanitiser loop and the trim.
- Lengths and the limit are unbounded `nat`s rather than `usize`.
- When a limit is set, the separator must be ASCII, because Rust's byte slice could panic off a character boundary.

Rust measures slugs in bytes. Slugs and separators that reach a cut are ASCII here, so the model's character indices are Rust's byte indices.

## Model

| member | source | states |
|---|---|---|
| Config.Default | src/lib.rs:54-65 | the default separator is `-`, lower-casing is on, there is no limit, and the replacement is empty |
| Config.WithSeparator | src/lib.rs:89-92 | sets the separator and leaves the other three fields unchanged |
| Config.WithLowercase | src/lib.rs:107-110 | sets `to_lowercase` and leaves the other three fields unchanged |
| Config.WithTruncate | src/lib.rs:130-133 | sets the limit to `Some(max_length)` and leaves the other three fields unchanged |
| Config.WithSanitizeReplacement | src/lib.rs:151-154 | sets the replacement and leaves the other three fields unchanged |
| Config.BuilderReachesEveryConfiguration | src/lib.rs:58-154 | the default has no limit, and every configuration is `new()` followed by setters |
| Config.SettersLastWriteWins | src/lib.rs:89-154 | a repeated setter keeps only its last value, and setters of different fields commute |
| Ascii.IsAlphanumeric | src/lib.rs:270 | `is_ascii_alphanumeric` holds only for ASCII bytes (`[0-9A-Za-z]`) |
| Ascii.ToChar | src/lib.rs:277-281 | `b as char` gives the character whose code point is the byte's value |
| Ascii.Bytes | src/lib.rs:223-227 | `into_bytes` on ASCII text gives one byte per character, with the same code, all below 128 |
| Ascii.ToLower | src/lib.rs:278 | `to_ascii_lowercase` moves `A`..`Z` up by 32 to lower case and keeps every other byte; it keeps alphanumeric bytes alphanumeric and leaves no upper-case letter |
| Slug.Step | src/lib.rs:269-285 | one loop iteration: a non-alphanumeric byte only raises `found_sep` and leaves the slug alone; an alphanumeric byte clears it |
| Slug.EmitByte | src/lib.rs:277-281 | the character pushed for a byte: ASCII exactly when the byte is, alphanumeric when the byte is; the byte itself without lower-casing; with lower-casing an upper-case letter moves up by 32, every other byte is kept, and no ASCII result is upper-case |
| Slug.Run | src/lib.rs:266-287 | the loop state after consuming the input: the slug is empty exactly when no alphanumeric byte was consumed |
| Slug.Words | src/lib.rs:269-287 | the pieces the scan keeps are non-empty alphanumeric runs, and there are none exactly when the input has no alphanumeric byte |
| Slug.Scan | src/lib.rs:265-287 | the untruncated slug is the words, case-mapped and joined by one separator; it is empty iff the input has no alphanumeric byte; a non-empty slug starts and ends with an alphanumeric character (so it never starts or ends with a non-empty separator whose first and last characters are not alphanumeric; with separator `a`, `a b` gives `aab`); it is ASCII when the separator is |
| Slug.ScanLoop | src/lib.rs:266-287 | the `for` loop with `found_sep`, statement by statement, computes the joined, case-mapped words |
| Slug.ScanInvariant | src/lib.rs:269-287 | loop invariant: after each prefix the slug is that prefix's rendering, and `found_sep` holds iff the prefix ends in a non-alphanumeric byte |
| Slug.RenderShape | src/lib.rs:272-274 | joined words are empty iff there are none, start and end alphanumeric, and are ASCII with an ASCII separator |
| Slug.EmitIsAlphanumeric | src/lib.rs:277-281 | the character pushed for an alphanumeric byte is an ASCII alphanumeric character, in either case mode |
| SlugLaws.WordsCoverAlphanumerics | src/lib.rs:269-287 | the words, concatenated, are exactly the input's alphanumeric bytes in order |
| SlugLaws.SlugAlphanumericContent | src/lib.rs:277-281 | with a separator without alphanumerics, the slug's alphanumeric characters are the input's alphanumeric bytes in order, each lower-cased iff `to_lowercase` |
| SlugLaws.WordsOfJoin | src/lib.rs:269-287 | splitting words that were joined by non-empty non-alphanumeric text gives back exactly those words |
| SlugLaws.RenderIsFixedPoint | src/lib.rs:265-287 | any words joined by a non-empty ASCII separator without alphanumerics scan back to themselves |
| SlugLaws.ScanIdempotent | src/lib.rs:265-287 | scanning a slug again with the same configuration returns it unchanged (non-empty ASCII separator without alphanumerics) |
| Truncation.RFind | src/lib.rs:196 | `rfind` returns an occurrence with none after it, or `None` when there is no occurrence |
| Truncation.ApplyTruncation | src/lib.rs:191-205 | the result is a prefix of the slug; it is unchanged without a limit or within it, and never longer than the limit; with a non-empty separator occurring in the first `max_len` characters it ends right where the last such occurrence starts, otherwise it is exactly the first `max_len` characters |
| Truncation.ApplyTruncationIntended | src/lib.rs:114-116 | the cut the documentation of `truncate` describes: never longer than the limit; before the last separator occurrence that starts inside the limit, and a hard cut only when none starts there |
| Truncation.IntendedAgreesOnOneCharSeparator | src/lib.rs:191-205 | with a one-character separator the documented cut and the source's cut give the same result |
| Truncation.CutEndsBeforeSeparator | src/lib.rs:195-199 | a cut at a separator leaves a slug that the separator followed, with the whole separator within the limit |
| Rslug.SlugifyAscii | src/lib.rs:265-292 | the result is the truncation of the joined words; a prefix of them; empty when the input has no alphanumeric byte; starts with an alphanumeric character |
| Rslug.Slugify | src/lib.rs:220-250 | `slugify` is `slugify_ascii` on the transliterated bytes, and agrees with `slugify_ascii` on ASCII text that the transliteration leaves alone |
| Rslug.SlugifyDefault | src/lib.rs:298-303 | the `slugify!` macro never truncates: the result is the default rendering of the transliterated text's words |
| Rslug.SlugifyAsciiDefault | src/lib.rs:305-310 | the `slugify_ascii!` macro never truncates: the result is the default rendering of the input's words |
| Rslug.SeparatorOnlyBetweenWords | src/lib.rs:272-274 | in a join of alphanumeric words, each occurrence of a non-alphanumeric separator is one the join inserted: the text before it is the join of the first k words, and an alphanumeric character follows it |
| Rslug.TruncationKeepsWholeWords | src/lib.rs:195-199 | a cut at a separator yields the slug of the first k words, for some k short of all of them |
| Rslug.TruncatedSlugEndsInWord | src/lib.rs:191-205 | with a one-character non-alphanumeric separator, a truncated slug still ends alphanumeric, after a cut at a separator or a hard cut |
| Rslug.NoDoubledSeparators | src/lib.rs:265-292 | the result, truncated or not, neither starts nor ends with the separator, and no separator occurrence directly follows another |
| Rslug.NoDoubledEmDash | src/lib.rs:265-292 | without a limit a non-ASCII separator such as `—` needs no cut, and the result has no doubled separators either |
| Idempotence.CutAtOccurrenceIsRendering | src/lib.rs:195-199 | the slug cut before any separator occurrence is the slug of its first k words |
| Idempotence.HardCutIsRendering | src/lib.rs:202-203 | a hard cut at `m` before which no separator starts keeps the first `m` bytes of the first word, case-mapped: the slug of that one (non-empty) word |
| Idempotence.SlugifyAsciiIdempotent | src/lib.rs:265-292 | slugifying a slug again returns it unchanged, truncation included, for a non-empty ASCII separator without alphanumerics that has one character whenever a limit is set |
| Idempotence.SlugifyIdempotent | src/lib.rs:220-250 | `slugify` applied to its own result returns it unchanged, for a transliteration that leaves ASCII text alone and the separator conditions of `SlugifyAsciiIdempotent` |
| Idempotence.TwoCharSeparatorNotIdempotent | src/lib.rs:191-205 | with separator `--` and limit 3, `ab cd` gives `ab-`, and `ab-` gives `ab`: the source's result is not a fixed point; the documented cut gives `ab` |
| Idempotence.SlugifyAsciiIntended | src/lib.rs:265-292 | `slugify_ascii` with the documented cut agrees with the source for every one-character separator |
| Idempotence.SlugifyAsciiIntendedIdempotent | src/lib.rs:114-116 | with the documented cut, slugifying a slug again returns it unchanged for every non-empty ASCII separator without alphanumerics, whatever its length |
| Sanitize.IsIllegal | src/lib.rs:166 | the nine illegal characters are printable ASCII and none of them is the space |
| Sanitize.IsBoundary | src/lib.rs:171 | illegal and whitespace characters are boundaries; a boundary that is not whitespace is printable ASCII |
| Sanitize.Emission | src/lib.rs:172-177 | whitespace emits one space (whitespace is tested first); an illegal non-whitespace character emits the replacement; the emission has no illegal character when the replacement has none |
| Sanitize.Emitted | src/lib.rs:170-183 | one loop iteration: a boundary character after a boundary emits nothing, an ordinary character is copied, and nothing illegal is emitted unless the replacement holds it |
| Sanitize.Pass | src/lib.rs:169-184 | the loop's output holds no illegal character when the replacement holds none, and starts with the first character when that one is ordinary |
| Sanitize.TrimBounds | src/lib.rs:187 | `trim` keeps one contiguous part; everything before and after it is whitespace, and the part neither starts nor ends with whitespace |
| Sanitize.Trim | src/lib.rs:187 | the trimmed text is the kept part and has no whitespace at either end |
| Sanitize.TrimKeepsCleanEdges | src/lib.rs:187 | text without whitespace at either end is not trimmed |
| Sanitize.PassMatchesRuns | src/lib.rs:168-184 | the one-flag loop emits exactly one space or one replacement per maximal boundary run (chosen by the run's first character) and copies every other character |
| Sanitize.CollapseLoop | src/lib.rs:167-184 | the `for` loop with `last_char_was_boundary`, statement by statement, computes the run-by-run description |
| Sanitize.SanitizeFilename | src/lib.rs:165-188 | the result is the collapsed text, trimmed; it never starts or ends with whitespace; the empty name gives the empty result |
| Sanitize.SanitizeFilenameLoop | src/lib.rs:165-188 | the loop followed by the trim computes `sanitize_filename` |
| Sanitize.CollapseRunsAppend | src/lib.rs:170-184 | the scan works piecewise on two parts, unless the split falls inside a boundary run |
| Sanitize.SanitizeIsSafe | src/lib.rs:166-176 | with a replacement free of illegal characters, the result contains none of `/ \ : * ? " < > |` |
| Sanitize.SanitizeKeepsCleanName | src/lib.rs:165-188 | a name without illegal characters, whose only whitespace is single spaces between ordinary characters, is returned unchanged |
| Sanitize.SanitizeKeepsOrdinaryCharacters | src/lib.rs:180-182 | the ordinary characters of the result are those of the name, unchanged and in order (replacement made of boundary characters) |
| Sanitize.SanitizeKeepsLeadingReplacement | src/lib.rs:186-187 | a replacement without whitespace that a leading illegal run emits is not removed by the trim |
| Sanitize.SanitizeKeepsTrailingReplacement | src/lib.rs:170-187 | a replacement without whitespace that a trailing illegal run emits is not removed by the trim (`what?` with `_` gives a name ending in `_`) |
| Examples.BasicSlug | src/lib.rs:317-320 | `slugify!("Hello World")` is `hello-world` |
| Examples.LeadingAndTrailing | src/lib.rs:336-342 | `slugify!` and `slugify_ascii!` both turn `--leading and trailing--` into `leading-and-trailing` |
| Examples.HelloWorld | src/lib.rs:369 | `slugify_ascii(b"Hello, World!")` is `hello-world` |
| Examples.KeepCase | src/lib.rs:379 | with `to_lowercase(false)`, `slugify_ascii(b"Keep-Case")` is `Keep-Case` |
| Examples.ChineseText | src/lib.rs:332 | for a transliteration that romanises it as `NiHaoShiJie & Rust`, `slugify!("你好世界 & Rust")` is `nihaoshijie-rust` |
| Examples.MultipleHyphens | src/lib.rs:346 | `slugify!("multiple---hyphens")` is `multiple-hyphens` |
| Examples.CustomSeparator | src/lib.rs:350-353 | with separator `_`, `slugify("custom separator")` is `custom_separator` |
| Examples.NoLowercase | src/lib.rs:356-359 | with `to_lowercase(false)`, `slugify("No Lowercase")` is `No-Lowercase` |
| Examples.EmptyText | src/lib.rs:363 | `slugify!("")` is the empty slug |
| Examples.CutAtSeparator | src/lib.rs:195-199 | with limit 8, `Hello, World!` gives `hello` (cut before the last `-` in `hello-wo`) |
| Examples.HardCut | src/lib.rs:202-203 | with limit 4, `Hello, World!` gives `hell` (no `-` in the window) |
| Examples.ReportSanitized | src/lib.rs:411-418 | `Report / Section <2>?.docx` sanitises to `Report Section 2.docx` |
| Examples.DocsSanitized | src/lib.rs:421-428 | with replacement `_`, `My Docs/Report:Final?.pdf` sanitises to `My Docs_Report_Final_.pdf` |
| Examples.ValidNameUnchanged | src/lib.rs:431-435 | `A perfectly valid filename.txt` is returned unchanged |

## Left out

- src/main.rs: a demo binary that prints examples; it has no logic of its own.
- The `any_ascii` table: an external crate, modelled as the parameter `translit` of type `Transliteration` (total, ASCII results).
- The Unicode White_Space table behind `char::is_whitespace`: modelled as the parameter `isWs`. The sanitiser examples assume only that the space is whitespace and `!`..`~` are not.
- A non-ASCII separator together with a truncation limit: Rust's `slug[..max_len]` can panic off a character boundary, so `SlugifyAscii`, `Slugify` and `ApplyTruncation` require an ASCII separator when a limit is set.
- `String::with_capacity` and other allocation details: they have no effect on the result.
- `usize` bounds: lengths and the limit are unbounded `nat`s. The source does no arithmetic on lengths or on the limit, only comparisons and slicing, so nothing can wrap around and nothing is lost.
- Sanitize.SanitizeKeepsOrdinaryCharacters: stated only for a replacement made of boundary characters (such as the default empty one), because an ordinary character in the replacement adds ordinary characters to the output.
- SlugLaws.ScanIdempotent: stated for the untruncated scan with a non-empty ASCII separator that holds no alphanumeric character; an alphanumeric separator becomes part of the words on a second scan. Idempotence.SlugifyAsciiIdempotent adds truncation.
- Idempotence.SlugifyAsciiIdempotent: stated for a one-character separator whenever a limit is set, because with a longer separator the source's hard cut can leave part of a separator behind (see Findings); the separator must be ASCII because `Bytes` reads the slug back as ASCII bytes.
- Idempotence.SlugifyIdempotent: stated for a transliteration that leaves ASCII text unchanged, as `any_ascii` does; the `Transliteration` parameter alone does not promise this. The separator conditions are those of `SlugifyAsciiIdempotent`.
- Rslug.NoDoubledSeparators: stated for a non-empty separator without alphanumeric characters; an alphanumeric separator cannot be told apart from the words.
- Rslug.TruncatedSlugEndsInWord: stated for a one-character separator. A hard cut with a longer separator can stop inside one (separator `--`, slug `ab--cd`, limit 3 gives `ab-`), as recorded under Findings.
- The truncation unit tests (src/lib.rs:383-408), `test_with_punctuation` (src/lib.rs:323-327) and the second assertion of `test_ascii_only` (src/lib.rs:370-373, `Slugs are slow, but cool`): these inputs are not restated; the general contracts of `ApplyTruncation` and `Scan` cover them, and `CutAtSeparator`/`HardCut` show both truncation branches on a short input.

## Findings

| source | as written | input that shows it | evidently intended | confidence | as-written member | corrected member |
|---|---|---|---|---|---|---|
| src/lib.rs:195-203 | the separator is looked for only in `slug[..max_len]`, so an occurrence that starts inside the limit but ends past it is missed, and the hard cut keeps part of it | separator `--`, limit 3, text `ab cd`: slug `ab--cd`, result `ab-`; slugifying `ab-` again gives `ab` | cut before the last occurrence that starts inside the limit, and hard-cut only when the first word is longer than the limit, as the documentation of `truncate` (src/lib.rs:114-116) says; results are then fixed points of `slugify_ascii` | medium, not executed | Idempotence.TwoCharSeparatorNotIdempotent | Idempotence.SlugifyAsciiIntendedIdempotent |

The corrected cut is `Truncation.ApplyTruncationIntended`. It gives the same result as the source's cut for every one-character separator (`Truncation.IntendedAgreesOnOneCharSeparator`), and `Idempotence.SlugifyAsciiIdempotent` is derived from it. The rest of the model keeps the source's cut, so that `SlugifyAscii` and `Slugify` stay the code as written.
