# Cover-letter generator: the text transformations

This project models the pure text processing of `CoverLetterGenerator`.
The generator turns a résumé written in TeX, a job offer and earlier cover
letters into the prompt it sends to a chat model. Three transformations
are modelled, each proved against properties stated independently of its
body:

- **TeX cleaning** (`read_tex_file`, module `TexCleaner`). Pass 1 is a
  regular-expression substitution that replaces every braced command
  `\name{arg}` by `arg`. Pass 2 replaces every remaining bare command
  `\name` by one space. Then `strip()` trims the result. Each `re.sub` is a
  left-to-right scanner, as Python's is: it takes the leftmost match,
  resumes after it and never overlaps matches. A command name is a maximal
  run of ASCII letters, and the argument runs to the first `}`.
- **Letter-structure summary** (`extract_cover_letter_structure`, module
  `LetterStructure`). It starts from the fixed header. Each letter gets a
  numbered `Lettre i:` block. Each paragraph of a letter (its pieces under
  `str.split('\n\n')`) gets a numbered line with its first 100 characters
  and `...`. The source builds the summary with nested loops and `+=`, so
  the model is a method with nested `while` loops. It is proved equal to
  the recursive specification `Structure`.
- **Prompt assembly** (the second `generate_cover_letter`, module `Prompt`).
  The f-string puts the CV, the job offer and the summary, each verbatim,
  between fixed French labels. The labels are named constants. The
  assembly is proved invertible: given the CV and job-offer lengths, the
  three parts can be read back from the prompt.

The supporting module `Strings` covers the Python string built-ins used:
`str.isspace` and `str.strip()`, `str(i)` for the numbering, and `+=`
concatenation. `Wrappers` holds `Option`.

Cleaning removes a backslash only when it starts an ASCII-letter run. Any
other backslash is kept (`LoneBackslashKept`), so the no-residue property
proved is "no backslash followed by an ASCII letter" (`CommandFree`).

## Model

| member | source | states |
|---|---|---|
| Strings.IsSpace | src/services/cover_letter_generator.py:71 | the code points `strip()` removes: every ASCII whitespace character is one, and no ASCII letter or decimal digit is |
| Strings.LeadingSpace | src/services/cover_letter_generator.py:71 | the count covers only whitespace characters and stops at the first non-whitespace one |
| Strings.TrailingSpace | src/services/cover_letter_generator.py:71 | the same from the end of the string |
| Strings.Strip | src/services/cover_letter_generator.py:71 | `strip()` returns the slice that starts after the leading whitespace; everything cut off on either side is whitespace; the result neither starts nor ends with whitespace |
| Strings.StripTrimmed | src/services/cover_letter_generator.py:71 | a string without surrounding whitespace strips to itself |
| Strings.StripIdempotent | src/services/cover_letter_generator.py:71 | stripping twice is stripping once |
| Strings.StripAllSpace | src/services/cover_letter_generator.py:71 | an all-whitespace string strips to the empty string |
| Strings.NatToString | src/services/cover_letter_generator.py:83-85 | `{i}` renders a number as a nonempty string of decimal digits with no leading zero |
| Strings.DecimalRoundTrip | src/services/cover_letter_generator.py:83-85 | reading the rendered digits back gives the number |
| Strings.NatToStringInjective | src/services/cover_letter_generator.py:83-85 | different letter or paragraph numbers are rendered differently |
| Strings.ConcatSnoc | src/services/cover_letter_generator.py:83-85 | one more `+=` appends its piece at the end |
| TexCleaner.LetterRun | src/services/cover_letter_generator.py:68 | `[a-zA-Z]+` is greedy: the run is all letters and ends at a non-letter or the end |
| TexCleaner.FirstClose | src/services/cover_letter_generator.py:68 | `[^}]*}` ends at the first `}` and no earlier |
| TexCleaner.MatchBraced | src/services/cover_letter_generator.py:68 | a match found by the scanner is a braced command with a letter name and an argument without `}` |
| TexCleaner.MatchBracedComplete | src/services/cover_letter_generator.py:68 | whenever the pattern matches at a position, the scanner finds that match |
| TexCleaner.BracedCommandUnique | src/services/cover_letter_generator.py:68 | the pattern matches in at most one way at a position |
| TexCleaner.LetterRunOfName | src/services/cover_letter_generator.py:68 | the run of a command name followed by a non-letter is exactly the name |
| TexCleaner.FirstCloseAfterGroup | src/services/cover_letter_generator.py:68 | the `}` after an argument without `}` is the one found |
| TexCleaner.StripBracedCommands | src/services/cover_letter_generator.py:68 | pass 1 never lengthens the text |
| TexCleaner.BracedCommandReplaced | src/services/cover_letter_generator.py:68 | a braced command is replaced by exactly its brace contents, and the scan resumes after its `}` |
| TexCleaner.BracedNoMatchCopied | src/services/cover_letter_generator.py:68 | where no braced command starts, the character is copied unchanged |
| TexCleaner.BracedPlainPrefixCopied | src/services/cover_letter_generator.py:68 | text without a backslash is copied unchanged by pass 1 |
| TexCleaner.BracedNoCloseUnchanged | src/services/cover_letter_generator.py:68 | text without any `}` is left unchanged by pass 1 |
| TexCleaner.BracedCommandAlone | src/services/cover_letter_generator.py:68 | a lone braced command becomes its contents |
| TexCleaner.StripTwoBracedCommands | src/services/cover_letter_generator.py:68 | two braced commands with plain text between them give both contents and the text between, in order |
| TexCleaner.ReplaceBareCommands | src/services/cover_letter_generator.py:70 | pass 2 never lengthens the text, and an output starts with a letter exactly when its input does |
| TexCleaner.ReplaceBareCommandsCommandFree | src/services/cover_letter_generator.py:70 | no residue: after pass 2 no backslash is followed by an ASCII letter |
| TexCleaner.BareCommandReplaced | src/services/cover_letter_generator.py:70 | a bare command is replaced by exactly one space, and the scan resumes after its last letter |
| TexCleaner.LoneBackslashKept | src/services/cover_letter_generator.py:70 | a backslash not followed by a letter is kept |
| TexCleaner.BarePlainPrefixCopied | src/services/cover_letter_generator.py:70 | text without a backslash is copied unchanged by pass 2 |
| TexCleaner.UnclosedBraceKeptByPassOne | src/services/cover_letter_generator.py:68 | a command whose brace is never closed is not touched by pass 1 |
| TexCleaner.UnclosedBraceCommandSpaced | src/services/cover_letter_generator.py:70 | pass 2 turns the name of such a command into one space and keeps the `{` |
| TexCleaner.UnclosedBraceCommand | src/services/cover_letter_generator.py:68-70 | both passes together turn `\name{tail` with no `}` into ` {tail` |
| TexCleaner.CleanTex | src/services/cover_letter_generator.py:68-71 | the cleaned text has no backslash followed by a letter, no surrounding whitespace, and is no longer than the input |
| TexCleaner.CommandFreeSlice | src/services/cover_letter_generator.py:71 | the final `strip()` keeps the no-residue property |
| TexCleaner.CleanPlainText | src/services/cover_letter_generator.py:68-71 | for text without a backslash, cleaning is exactly `strip()` |
| TexCleaner.CleanTwoBracedCommands | src/services/cover_letter_generator.py:68-71 | cleaning two braced commands with plain text between them gives the stripped contents and gap, in order |
| LetterStructure.FindSeparator | src/services/cover_letter_generator.py:82 | finds the leftmost `"\n\n"`, or reports that there is none |
| LetterStructure.Split | src/services/cover_letter_generator.py:82 | `letter.split('\n\n')` always yields at least one piece, and the empty letter yields exactly one empty piece; its other properties are the lemmas below |
| LetterStructure.JoinSplit | src/services/cover_letter_generator.py:82 | joining the paragraphs with `"\n\n"` gives back the letter |
| LetterStructure.SplitPiecesHaveNoSeparator | src/services/cover_letter_generator.py:82 | no paragraph contains `"\n\n"` |
| LetterStructure.SplitPiecesLeftmost | src/services/cover_letter_generator.py:82 | no paragraph but the last ends with a newline, since separators are taken leftmost |
| LetterStructure.SplitJoin | src/services/cover_letter_generator.py:82 | any pieces with those two properties are what splitting their join gives, so the split is unique |
| LetterStructure.CountSkip | src/services/cover_letter_generator.py:82 | skipping text where no separator starts leaves the count of separators unchanged |
| LetterStructure.SplitCount | src/services/cover_letter_generator.py:82 | a letter has exactly one paragraph more than it has non-overlapping `"\n\n"` separators |
| LetterStructure.Preview | src/services/cover_letter_generator.py:85 | `para[:100]` is a prefix of the paragraph, at most 100 characters long, the whole paragraph when it is short and exactly 100 characters otherwise |
| LetterStructure.ParagraphLine | src/services/cover_letter_generator.py:85 | the f-string of one paragraph line; its layout is `ParagraphLineLayout` |
| LetterStructure.ParagraphLineLayout | src/services/cover_letter_generator.py:85 | a paragraph line is `- Paragraphe `, the decimal paragraph number, `: `, the preview verbatim and `...\n`, each at its offset |
| LetterStructure.LetterHeading | src/services/cover_letter_generator.py:83 | the f-string that opens a letter's block; its layout is `LetterHeadingLayout` |
| LetterStructure.LetterHeadingLayout | src/services/cover_letter_generator.py:83 | a letter heading is a newline, `Lettre `, the decimal letter number and `:\n`, each at its offset |
| LetterStructure.ShortParagraphsKeptWhole | src/services/cover_letter_generator.py:82-85 | when no paragraph exceeds 100 characters, the previews joined by `"\n\n"` give back the letter |
| LetterStructure.Structure | src/services/cover_letter_generator.py:80-86 | the summary starts with `Structure commune observée:\n`, and with no letters it is exactly that header |
| LetterStructure.ExtractCoverLetterStructure | src/services/cover_letter_generator.py:78-86 | the nested loops build exactly the specified summary |
| LetterStructure.ParagraphLinesStep | src/services/cover_letter_generator.py:84-85 | one more inner iteration appends the next paragraph's line |
| LetterStructure.LetterBlocksStep | src/services/cover_letter_generator.py:81-85 | one more outer iteration appends the next letter's heading and its paragraph lines |
| LetterStructure.ParagraphLinesEnumerate | src/services/cover_letter_generator.py:84-85 | the paragraph lines are line 1, 2, … of the paragraphs, in order |
| LetterStructure.LetterBlocksEnumerate | src/services/cover_letter_generator.py:81-83 | the letter blocks are block 1, 2, … of the letters, in input order |
| LetterStructure.StructureShape | src/services/cover_letter_generator.py:80-86 | the summary is the header followed by one block per letter, numbered 1..N in input order; each block has one line per paragraph, numbered 1..P, where P is the number of separators plus one |
| LetterStructure.StructureSnoc | src/services/cover_letter_generator.py:81-83 | adding a letter at the end appends exactly its block and leaves the earlier summary unchanged |
| LetterStructure.EmptyLetterBlock | src/services/cover_letter_generator.py:82-85 | an empty letter still yields one line, `- Paragraphe 1: ...`, with an empty preview |
| Prompt.Assemble | src/services/cover_letter_generator.py:93-109 | the CV, the job offer and the summary each appear verbatim, in that order, right after their fixed labels; the prompt opens with the introduction and closes with the instructions |
| Prompt.BuildPrompt | src/services/cover_letter_generator.py:93-109 | the prompt built with the source's own literal chunks, from which the CV, the job offer and the summary read back unchanged |
| Prompt.Parse | src/services/cover_letter_generator.py:93-109 | reading a prompt back yields a CV and a job offer of the given lengths |
| Prompt.ParseAssemble | src/services/cover_letter_generator.py:93-109 | the three inputs can be read back from the prompt unchanged |
| Prompt.AssembleParse | src/services/cover_letter_generator.py:93-109 | any text the reader accepts is the prompt built from what it reads |
| Prompt.AssembleInjective | src/services/cover_letter_generator.py:93-109 | for a CV and a job offer of given lengths, different inputs give different prompts |
| Prompt.GenerateCoverLetterPrompt | src/services/cover_letter_generator.py:91-109 | the prompt sent is the fixed template around the CV, the job offer and the summary of the existing letters |
| Prompt.SummaryHeaderInPrompt | src/services/cover_letter_generator.py:80 | in the prompt, the summary's header comes right after the structure label |

## Left out

- File reading in `read_tex_file` and `read_txt_file` (src/services/cover_letter_generator.py:65-66, 75-76) is I/O. `CleanTex` takes the file content as a parameter. The text-mode `open` also translates `\r\n` (and a lone `\r`) into `\n` before any of the modelled code sees the text; the split on `"\n\n"` relies on that translation, which is not modelled. `read_txt_file` is `Strings.Strip` applied to the content.
- The chat-completion call and the extraction of its reply (src/services/cover_letter_generator.py:111-125, and 35-48 in the first definition) are a network call into the `openai` library. `GenerateCoverLetterPrompt` stops at the prompt. The system message, temperature 0.7, `max_tokens` 1000, and the hard-coded `gpt-3.5-turbo` at line 113 are therefore not modelled.
- The first, retry-decorated `generate_cover_letter` (src/services/cover_letter_generator.py:21-60) is not part of this model. The second definition at line 88 rebinds the name in the class body, so the first never runs. Its back-off policy lives in the `tenacity` library.
- The constructor (src/services/cover_letter_generator.py:16-19) is not modelled. It only stores `gpt_model`, which the effective method never reads, and sets the global `openai.api_key`. The class has no other state, so the model has no class.
- The `print` diagnostics (src/services/cover_letter_generator.py:51, 55, 59) are logging in the unreachable definition.
- `main.py` (argument parsing, environment check, file naming, logging, writing the output file) is not part of this model. It is command-line plumbing.
- Encoding: strings are sequences of Unicode code points, as Python's `str` is, and UTF-8 decoding of the files is left out. `re.sub`'s `[a-zA-Z]` is ASCII, as modelled. `strip()` uses Python's `str.isspace` set of code points.
- The prompt's properties are proved for any four fixed chunks (`Prompt.Labels`), and `BuildPrompt` instantiates them with the source's constants. No property is stated about the words of the instructions beyond their place at the end of the prompt.
