# Argument tokenizer — a Dafny model

This project models the argument parser of `parser.go`. The parser is a configurable,
shell-style tokenizer. It splits one line of text into arguments and honours quote runes,
splitter runes and one escape rune. It is configured by `NewArgParser(quotes, splitors,
escaper, lenient)`. `Parse(text)` returns the argument list or one of two errors.

The model follows the code's structure:

- `classify.dfy` (module `Classify`) holds the configuration record `ArgParser`. It also
  holds `NewArgParser`, the general-purpose preset `GeneralArgParser` and `check`,
  modelled as `Check`. `Check` sorts one rune into `Escaper`, `QuoteMark`, `Splitor` or
  `Plain`.
- `scan.dfy` (module `Scan`) holds the scanning engine. `Scope = Spl | Quote(q) | Esc`
  and `State` holds the scope stack, the text buffer and the finished arguments. The
  stack is a `seq<Scope>` whose last element is the top. `Fin`, `Acc` and `Escape` are
  the three closures of `Parse`. `Step` is one iteration of the loop; it is given the
  rune's `Kind`, just as the loop computes `t := ap.check(c)` before its `switch`.
  `Run` folds `Step` over the input. `Finish` is the end-of-input finalisation.
  `Parse` is `Finish` after `Run` from the initial state, which holds a single `Spl`
  scope.
- `scan_properties.dfy` (module `ScanProperties`) holds properties that span many steps.
  They cover quoted spans, pending escapes, plain splitting against an independent
  reference splitter (`Fields`), strict versus lenient finalisation, and a round trip
  through an escaping encoder (`Join`).
- `byte_offsets.dfy` (module `ByteOffsets`) holds the classifier exactly as written,
  with UTF-8 byte offsets, and the parser driven by it. See "Findings" below.

The doc comment of `NewArgParser` says the escaper "can escape a following rune"
(parser.go:27-28). In the code, an ordinary rune typed while an escape is pending is
appended and `esc` stays on top (parser.go:133-134); only the next escaper, quote or
splitter rune consumes the escape. The model does the same: `\a\ b` gives `a\` and `b`,
because the second `\` is the escaped rune.

## Model

| member | source | states |
|---|---|---|
| `Classify.IndexOf` | parser.go:53 | The rune index of the first occurrence of a rune, or -1 exactly when the rune does not occur. |
| `Classify.NewArgParser` | parser.go:33-60 | The built configuration classifies the escaper as `Escaper` even when it is also a quote or splitter rune. Any other quote rune is `QuoteMark`, even when it is also a splitter. Any other splitter rune is `Splitor`, and every remaining rune is `Plain`. |
| `Classify.Check` | parser.go:48-60 | The escaper is `Escaper`. Any other rune that occurs among the first `boundary` runes of `symbols` (the quote runes) is `QuoteMark`, even when it also occurs later. Any other rune of `symbols` is `Splitor`, and a rune outside `symbols` is `Plain`. Each case holds in both directions. |
| `Classify.GeneralArgParser` | parser.go:43-45 | The preset is lenient. `\` escapes, `"` and `'` quote, space and tab split, and every other rune is text. |
| `Scan.Fin` | parser.go:69-75 | `fin` pops one scope and empties the buffer. The arguments keep their old prefix and grow by at most one, and no empty argument is added. |
| `Scan.Step` | parser.go:95-135 | One loop iteration keeps the stack as one base scope (`Spl` or a quote) with at most one `Esc` on top. The finished arguments only grow, by at most one argument, which is the non-empty pending buffer. |
| `Scan.Run` | parser.go:93-136 | The whole loop keeps the stack shape, never removes a finished argument and never adds an empty one. |
| `Scan.Finish` | parser.go:138-154 | Lenient mode never fails and flushes the pending buffer. Strict mode succeeds exactly on a bare `Spl` scope and then flushes. It fails with `UnfinishedEscape` exactly when `Esc` is on top, and with `UnfinishedQuote` exactly when a quote is the only scope. An error carries no arguments. |
| `Scan.Parse` | parser.go:63-155 | No argument is empty, lenient parsing never fails, and empty input gives the empty list in both modes. |
| `ScanProperties.RunAppend` | parser.go:94-136 | Scanning `a + b` equals scanning `a` and then scanning `b` from the resulting state. |
| `ScanProperties.ClosuresKeepRunes` | parser.go:69-90 | No closure loses text. Counting the finished arguments followed by the buffer, `fin` keeps every rune, and `acc` and `escape` add exactly their rune. |
| `ScanProperties.StepKeepsRunes` | parser.go:94-135 | One iteration keeps its rune exactly when it is ordinary text, is escaped, or is a splitter or a non-closing quote rune inside a quote. Otherwise it adds nothing to the text: an escaper that opens an escape, a quote rune that opens or closes a quote, and a splitter outside a quote are dropped. |
| `ScanProperties.RunIgnoresLeniency` | parser.go:94-136 | The loop's result does not depend on the leniency flag. |
| `ScanProperties.StrictSuccessAgreesWithLenient` | parser.go:139-151 | Strict parsing fails exactly when the scan does not end in a bare `Spl` scope. When it succeeds, it returns the same arguments as lenient parsing. |
| `ScanProperties.InsideQuote` | parser.go:103-134 | While `Quote(q)` is the scope, every rune other than the escaper and `q` is appended. That includes splitters and other quote runes. The quote stays open. |
| `ScanProperties.QuotedSpan` | parser.go:116-130 | A quote rune typed in `Spl` context finishes the pending buffer as its own argument. Only the identical rune closes the span. Closing makes the quoted text one argument, or none when the quotes are empty, and returns to `Spl`. So `ab"cd"` gives `ab` and `cd`. |
| `ScanProperties.OrdinaryTextAppends` | parser.go:133-134 | Ordinary runes are appended under any scope and never change the stack. In particular they leave a pending escape on top. |
| `ScanProperties.EscapeTakesNextSpecial` | parser.go:83-102 | An escaper in `Spl` or quote context pushes `Esc`. Ordinary runes after it are appended. The next escaper, quote or splitter rune is then appended literally and `Esc` is popped. |
| `ScanProperties.PlainSplitting` | parser.go:103-115 | For input with no quote rune and no escaper, both modes return `Fields`. These are the maximal runs of non-splitter runes, in order, with no empty pieces. |
| `ScanProperties.RoundTrip` | parser.go:83-115 | Take non-empty words, put the escaper before every rune that is not `Plain`, and join them with one splitter rune. Parsing the result gives the same words back in either mode. |
| `ByteOffsets.ByteIndexOfIsByteLenOfPrefix` | parser.go:53 | The byte offset that the search reports is the UTF-8 length of the runes before the rune's first occurrence. |
| `ByteOffsets.AsWrittenOnlyDemotesQuotes` | parser.go:48-60 | The as-written and rune-index classifiers agree on the escaper and on ordinary text. Wherever they differ, the rune is a quote that the as-written classifier calls a splitter. |
| `ByteOffsets.AsWrittenAgreesOnAsciiQuotes` | parser.go:33-59 | When every quote rune is one byte long, the as-written classifier agrees with `Check` on every rune. |
| `ByteOffsets.CheckAsWritten` | parser.go:48-60 | The classifier as written agrees with `Check` on the escaper and on runes outside `symbols`. It calls a rune a quote exactly when the runes of `symbols` before its first occurrence take fewer than `boundary` UTF-8 bytes. |
| `ByteOffsets.ParseAsWritten` | parser.go:63-155 | `Parse` with the classifier as written still never yields an empty argument, and never fails in lenient mode. |
| `ByteOffsets.AsciiQuotesParseAlike` | parser.go:33-155 | When every quote rune is one byte long, `Parse` as written returns exactly what the model's `Parse` returns, on every input and in both modes. |
| `ByteOffsets.MultiByteQuoteTakenForSplitter` | parser.go:53-59 | With quotes `«»`, the as-written classifier calls `»` a splitter; `Check` calls it a quote. |

## Left out

- The `stk` stack library (parser.go:7, parser.go:65) is not part of this model. The
  stack is a `seq<Scope>` with push, pop and peek. Popping an empty stack is taken as a
  no-op; this matters only for strict mode's `fin()` after its own `Pop`
  (parser.go:143-145).
- `Finish` keeps the strict branch that the code reaches with an `spl` on top of a
  non-empty rest (parser.go:144-151, falling through to `return args, nil`). There it
  returns the arguments without flushing. The stack shape proved for `Run` makes this
  branch unreachable from `Parse`.
- Dynamic typing with `interface{}` and type switches (parser.go:48, parser.go:104,
  parser.go:117) becomes the `Scope` datatype and the `Kind` enumeration.
- UTF-8 decoding of the input (`[]rune(text)`, parser.go:94) is left out. The input is a
  sequence of `char`, so invalid bytes and their replacement by U+FFFD are not modelled.
- The two error messages (parser.go:147, parser.go:149) become the values
  `UnfinishedQuote` and `UnfinishedEscape`.
- The configuration is narrowed to well-formed Unicode. The escaper is a `char`, a Unicode
  scalar value. Go's `rune` is an `int32` (parser.go:22, parser.go:33), so a caller may pass
  -1, a surrogate or a value above U+10FFFF; such an escaper never equals a decoded input
  rune and so turns escaping off, which the model cannot express. `quotes` and `splitors`
  are sequences of `char` too. Invalid UTF-8 in them is not modelled: there
  `strings.IndexRune` (parser.go:53) matches U+FFFD against the first bad byte, and
  `len([]rune(quotes))` (parser.go:36) counts each bad byte as one rune.
- Go's distinction between a nil and an empty slice is not modelled; both are the empty
  sequence.
- `GeneralArgParser` is modelled only as a fixed configuration.
- `Parse` is modelled as a pure function. Nothing in it performs I/O or shares state
  between calls.

## Findings

| source | as written | input that shows it | evidently intended | confidence | as-written member | corrected member |
|---|---|---|---|---|---|---|
| parser.go:36-59 | `check` compares the BYTE offset from `strings.IndexRune(ap.symbols, c)` with `boundary`, which counts the RUNES of `quotes`. | quotes `«»`, splitors a space: `»` is at rune index 1 but byte offset 2, and 2 is not below `boundary` 2, so `»` is classified as a splitter. | A rune among the quotes is a quote: compare the rune index with the rune count. | high; not executed | `ByteOffsets.CheckAsWritten`, shown by `ByteOffsets.MultiByteQuoteTakenForSplitter` | `Classify.Check`, with the precedence proved in `Classify.NewArgParser` |

The parser model uses the corrected `Check`. `ByteOffsets.ParseAsWritten` is the whole
parser with the classifier as written. `ByteOffsets.AsciiQuotesParseAlike` proves it
returns the same result as `Scan.Parse` on every input whenever all quote runes are
ASCII. So for such configurations, every property above about `Parse` holds for the code
as written too.
