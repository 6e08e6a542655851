# Section ordering and LaTeX clean-up of the mixture-figure PDF report

The report generator collects figure files into sections. Two parts of it are
pure logic, and those are what this project models in Dafny:

- **Section ordering** (`plot_files_in_order` with its nested `file_keys`).
  - Every figure file name is parsed into a key `(date, fly number, panel)`,
    where the panel is one of the two tokens `kiwi` and `control`.
  - Every fly (a date and a fly number) must come with both panels.
  - The files are sorted by key and then, in reverse-chronological mode,
    reversed as a whole. The `control_last` flag is flipped before the sort,
    so after the reversal `kiwi` still comes before `control` within a fly.
- **LaTeX clean-up** (`clean_generated_latex`). A line is dropped when it and
  the line after it are both empty, so every run of empty lines shrinks to one.

## Modules

- `results.dfy` (`Results`): `Option` and `Result`.
- `strings.dfy` (`Strings`): the string primitives the key extraction uses.
  - `str.replace(pat, '')` is `RemoveAll`.
  - `str.split('_')` is `Split`, with its inverse `Join`.
  - `int()` on a token is `ParseInt`: an optional sign followed by ASCII digits.
- `latex_cleanup.dfy` (`LatexCleanup`): the clean-up pass over a sequence of lines.
- `file_keys.dfy` (`FileKeys`): parsing a file name into a key.
  - `Classify` turns each `_`-separated token into a `Token`. The token kinds
    are tried in the program's order: panel literal, then integer, then date.
  - `Scan` is the loop over the tokens.
  - `Finish` runs the missing-part checks.
  - `ExtractKey` is `file_keys`.
  - A declarative account (token counts, the last panel, the last date, the fly
    number still standing) characterises the loop completely.
- `pairing.dfy` (`Pairing`): the completeness check. It fills a map from fly to
  the set of panels seen, takes the first fly's set as the reference, and
  reports the first fly whose set has not two elements or differs from the
  reference.
- `key_sort.dfy` (`KeySort`): Python's stable `sorted`. Each file is tagged
  with its input position, and the model sorts strictly on (key, position).
- `section_order.dfy` (`SectionOrder`): `plot_files_in_order` with the file
  list as a parameter.
- `iso_dates.dfy` (`IsoDates`): a strict `YYYY-MM-DD` reader. It is used only
  by the worked examples.
- `worked_examples.dfy` (`WorkedExamples`): concrete file names of one section,
  worked out by lemmas.

The date format is defined outside this program (`hong2p.util` is not part of
this model). Date recognition is therefore a parameter
`parseDate: string -> Option<Date>`, and every property holds for any parser.
`Date` is a (year, month, day) triple ordered lexicographically, as
`datetime` values are.

Three consequences of the code are worth stating, because a reader of the
docstrings alone might expect otherwise:

- The text shared by the glob pattern is deleted at every occurrence, not
  only the first, because `str.replace` replaces all of them
  (generate_pdf_report.py:46).
- In reverse-chronological mode `kiwi` is panel 1 and `control` is panel 0,
  because `control_last` is flipped to false before the keys are built
  (generate_pdf_report.py:37-41, 51-71). The final reversal then puts kiwi
  before control, as `WorkedExamples.SectionExample` shows.
- In reverse-chronological mode the result is the ascending stable sort
  reversed (generate_pdf_report.py:131-133). Files with identical keys
  therefore come out in reverse listing order.

## Model

| member | source | states |
|---|---|---|
| `LatexCleanup.CleanGeneratedLatex` | generate_pdf_report.py:15-24 | The pass fails (the source's `lines[-1]` on no lines) exactly when there are no lines. Otherwise it returns `Collapse` of the lines, proved through the loop invariant "kept so far + collapse of the rest = collapse of all". |
| `LatexCleanup.Collapse` | generate_pdf_report.py:20-23 | The cleaned text is never empty and ends with the input's last line. It starts with an empty line exactly when the input does. |
| `LatexCleanup.CollapseNoAdjacentEmpty` | generate_pdf_report.py:16-23 | The cleaned text never has two empty lines next to each other. |
| `LatexCleanup.CollapseIsSubsequence` | generate_pdf_report.py:19-23 | The cleaned text is an order-preserving subsequence of the input. |
| `LatexCleanup.CollapseKeepsNonEmpty` | generate_pdf_report.py:21-22 | Cleaned text and input have the same non-empty lines in the same order: every non-empty line survives, and only empty lines are lost. |
| `LatexCleanup.CollapseFixesClean` | generate_pdf_report.py:16-23 | Text without doubled empty lines is returned unchanged. |
| `LatexCleanup.CollapseIdempotent` | generate_pdf_report.py:15-24 | Cleaning twice equals cleaning once. |
| `LatexCleanup.CollapseAbsorbsBlank` | generate_pdf_report.py:20-22 | Two empty lines anywhere clean to the same text as one empty line in their place. |
| `Strings.RemoveAllSkipsOccurrence` | generate_pdf_report.py:46 | Deleting a pattern keeps the text before its first occurrence, drops that occurrence, and carries on with the rest. Later occurrences go too. |
| `Strings.RemoveAllRepeated` | generate_pdf_report.py:46 | Any number of back-to-back copies of the pattern are all deleted, not only the first. |
| `Strings.RemoveAllAbsent` | generate_pdf_report.py:46 | A text without the pattern is left unchanged. |
| `Strings.SplitJoin` | generate_pdf_report.py:46 | Splitting on `_` gives back exactly the pieces joined with `_`, for pieces without `_`. |
| `Strings.JoinSplit` | generate_pdf_report.py:46 | Joining the pieces of a split with `_` gives back the text. |
| `Strings.RemoveAll` | generate_pdf_report.py:46 | `str.replace(pat, '')` never lengthens the text. Its meaning is carried by `RemoveAllAbsent`, `RemoveAllSkipsOccurrence`, `RemoveAllRepeated` and `RemoveAllChar`. |
| `Strings.RemoveAllChar` | generate_pdf_report.py:43 | Deleting a one-character pattern leaves no copy of it, and every other character keeps its number of occurrences. |
| `Strings.Split` | generate_pdf_report.py:46 | `split('_')` gives at least one piece, and no piece contains the separator. `JoinSplit` and `SplitJoin` make it the inverse of `Join`. |
| `Strings.ParseInt` | generate_pdf_report.py:77 | `int()` on a token. Its contract is carried by `ParseShowNat` (canonical text reads back as its number) and `ZerosAreZero` (all-zero text is 0). |
| `Strings.ParseShowNat` | generate_pdf_report.py:77 | `int()` reads a natural number's canonical decimal text back as that number. |
| `FileKeys.Tokens` | generate_pdf_report.py:45-46 | The tokens of a name contain no `_`, and joined with `_` they give back the stem with the shared text deleted. |
| `FileKeys.Classify` | generate_pdf_report.py:50-102 | A token is a panel exactly when it is `kiwi` or `control`. A token taken as a fly number parses as that integer, and it is `0` or does not start with `0`. |
| `FileKeys.ClassifyCharacterized` | generate_pdf_report.py:73-102 | The remaining outcomes of `Classify`, in terms of the token text. An integer that is 0 or has no leading `0` is taken as that fly number. A token becomes a date exactly when it is no panel literal, no integer, and the date parser accepts it. A token is ignored exactly when it is none of panel literal, integer and date. |
| `FileKeys.SignedTokenIsFly` | generate_pdf_report.py:77-89 | A signed integer token such as `+07` or `-07` is accepted as a fly number, because only a leading `0` is refused. |
| `FileKeys.PanelTokenPositions` | generate_pdf_report.py:51-71 | `kiwi` and `control` map to the two panel positions the flag selects, and those positions are {0, 1}. |
| `FileKeys.ExtractKey` | generate_pdf_report.py:44-111 | An accepted name's panel is the kiwi position exactly when the name has a `kiwi` token, and the control position exactly when it has a `control` token. |
| `FileKeys.PanelMatchesToken` | generate_pdf_report.py:51-71 | With exactly one panel literal among the tokens, the panel left standing is the kiwi position exactly when that literal is `kiwi`, and the control position exactly when it is `control`. |
| `FileKeys.Step` | generate_pdf_report.py:51-102 | One pass of the loop body. Its contract is carried by `ScanCharacterized`. |
| `FileKeys.Scan` | generate_pdf_report.py:50-102 | The loop over the tokens. Its contract is carried by `ScanCharacterized`, `ScanErrorSticks` and `FirstDuplicationDecides`. |
| `FileKeys.Finish` | generate_pdf_report.py:104-111 | The missing-part checks. Their contract is carried by `KeyOfTokensCharacterized`. |
| `FileKeys.ScanCharacterized` | generate_pdf_report.py:50-102 | The loop succeeds exactly when no panel, date or fly number is duplicated. It then holds the last date, the fly number still standing and the last panel. A failure names a duplication present in the tokens, and it occurs at the first prefix that contains one. |
| `FileKeys.KeyOfTokensCharacterized` | generate_pdf_report.py:44-111 | Complete outcome of `file_keys`. A key results exactly when there are no duplicates, one date, a standing fly number and one panel. The missing-part errors are checked in the order date, fly, panel, each with its exact condition. A duplicate always wins over a missing part. |
| `FileKeys.FirstDuplicationDecides` | generate_pdf_report.py:50-100 | The first token that completes a duplication decides the error, whatever follows it. |
| `FileKeys.ScanErrorSticks` | generate_pdf_report.py:53-99 | Once the loop has raised, later tokens change nothing. |
| `FileKeys.IgnoredTokenIrrelevant` | generate_pdf_report.py:90-102 | A token that is neither a panel, an integer nor a date changes nothing. The not-an-int and not-a-date fall-throughs raise no error. |
| `FileKeys.CanonicalFlyToken` | generate_pdf_report.py:77-89 | A natural number's canonical decimal token is taken as that fly number. |
| `FileKeys.ZerosAreFlyZero` | generate_pdf_report.py:77-89 | `0`, `00` and any all-zero token are fly 0. |
| `FileKeys.ZeroPaddedIsNotFly` | generate_pdf_report.py:77-82 | Any token that `int()` reads as a nonzero number and that starts with `0` (`07`, `007`, `0012`, ...) is never a fly number. It only clears the fly and is then tried as a date. |
| `FileKeys.OneZeroPaddedIsNotFly` | generate_pdf_report.py:77-82 | In particular `0` followed by the canonical text of a positive number is such a token. |
| `FileKeys.ZeroPaddedClearsFly` | generate_pdf_report.py:77-82 | A zero-padded token erases any fly number before it. Unless another integer token follows, the name has no key. |
| `FileKeys.FlyFromAcceptedToken` | generate_pdf_report.py:73-89 | An accepted key's fly number comes from a token of the name that parses as it and has no leading zero (or is zero). |
| `Pairing.SeenPanels` | generate_pdf_report.py:116-123 | The map holds exactly the flies of the keys. Each fly's entry is the set of panels its files carry. |
| `Pairing.PanelSetOfFile` | generate_pdf_report.py:117-123 | A fly's panel set has two elements exactly when a file of that fly has a partner file with the other panel. The set is then {0, 1}. |
| `Pairing.FirstUnpaired` | generate_pdf_report.py:125-128 | The completeness check with the first fly's set as reference. Its contract is carried by `FirstUnpairedCharacterized`. |
| `Pairing.CheckFrom` | generate_pdf_report.py:126-128 | The loop of the completeness check. Its contract is carried by `CheckFromCharacterized`. |
| `Pairing.CheckFromCharacterized` | generate_pdf_report.py:125-128 | From any position, the scan passes exactly when every later file has a partner. Otherwise it reports the fly of the first file without one. |
| `Pairing.FirstUnpairedCharacterized` | generate_pdf_report.py:116-128 | The check passes exactly when every file has a partner. Otherwise it names the fly of the first file without one. Comparing with the first fly's set adds nothing to the size test. |
| `Pairing.RepeatedKeyAccepted` | generate_pdf_report.py:118-128 | Adding a file whose key repeats one already present leaves a complete section complete. |
| `KeySort.KeyOrder` | generate_pdf_report.py:131 | The tuple order on keys is irreflexive, and any two distinct keys compare exactly one way. |
| `KeySort.Insert` | generate_pdf_report.py:131 | Insertion keeps the sequence ascending and adds exactly the inserted entry. |
| `KeySort.Sort` | generate_pdf_report.py:131 | The result is ascending and a permutation of the input. Entries with equal keys keep their input order, which is the stability `sorted` guarantees. |
| `KeySort.SortNames` | generate_pdf_report.py:131 | Sorting rearranges the file names without adding or losing any. |
| `KeySort.AscendingUnique` | generate_pdf_report.py:131 | Two ascending arrangements of the same entries are equal, so the sorted order is determined. |
| `SectionOrder.ExcludeText` | generate_pdf_report.py:43 | The shared text has no `*` left, and every other character of the glob pattern keeps its number of occurrences. |
| `SectionOrder.EffectiveControlLast` | generate_pdf_report.py:37-41 | The flag flip. Its contract is carried by `KiwiBeforeControl` and `PlotFilesOrdered`: after the flip and the reversal, kiwi precedes control. |
| `SectionOrder.FirstBadName` | generate_pdf_report.py:116 | Keys are produced for all files exactly when every name parses, in input order. Otherwise the error is the first failing name with its reason. |
| `SectionOrder.KeysOf` | generate_pdf_report.py:116 | The same for `file_keys` applied to each file of the section. |
| `SectionOrder.Reverse` | generate_pdf_report.py:132-133 | `files[::-1]`: the same multiset, position `i` taken from position `n-1-i`. |
| `SectionOrder.OrderFiles` | generate_pdf_report.py:33-35 | An empty section gives the empty list before any name is parsed. A successful ordering is a permutation of the input names. |
| `SectionOrder.OrderFilesOutcome` | generate_pdf_report.py:113-128 | A name that does not parse is reported first, as the key map is built. Otherwise the ordering succeeds exactly when every file has a partner of the same fly with the other panel, and fails naming the first fly without one. |
| `SectionOrder.OrderFilesSorted` | generate_pdf_report.py:131-134 | Along the result the keys never increase in reverse-chronological mode and never decrease otherwise. |
| `SectionOrder.KiwiBeforeControl` | generate_pdf_report.py:37-41 | Within a fly the kiwi file comes first exactly when `control_last` is set, in both directions. Flipping the flag before the reversal compensates for it. |
| `SectionOrder.PlotFilesInOrder` | generate_pdf_report.py:28-35 | The report's call: empty gives empty, and a result is a permutation of the names in report order. |
| `SectionOrder.PlotFilesOrdered` | generate_pdf_report.py:29-31 | Report order: keys never increase, and no control file precedes the kiwi file of its fly. |
| `WorkedExamples.OneFlySection` | generate_pdf_report.py:131-134 | A section holding one fly's two files comes out kiwi first, for both listing orders: control first and kiwi first. |
| `WorkedExamples.SectionExample` | generate_pdf_report.py:28-134 | `resp_frac_2021-01-01_1_control.pdf` and `resp_frac_2021-01-01_1_kiwi.pdf` come out kiwi first. |
| `WorkedExamples.MissingFlyExample` | generate_pdf_report.py:77-107 | A name whose only integer is `007` has no fly number. |
| `WorkedExamples.DuplicatePanelExample` | generate_pdf_report.py:51-54 | The tokens `2021-01-01`, `1`, `kiwi`, `kiwi` are refused for the second `kiwi`, even though it repeats the same panel. |
| `WorkedExamples.UnpairedExample` | generate_pdf_report.py:125-128 | Two kiwi files of one fly fail the completeness check, naming that fly. |

## Left out

- `main`, Jinja template rendering, LaTeX `build_pdf`, file writing and printing: I/O and foreign libraries.
- The `glob.glob`/`split` call and the `pdfdir` path: the base names of a section are an input sequence instead.
- `datetime.strptime` with the format from `hong2p.util`: that library is not part of this model. Date recognition is the parameter `parseDate`. `IsoDates.ParseIsoDate` is a strict zero-padded reader used only for the worked examples, whereas `strptime` also accepts fields without padding.
- `int()` corner cases are not modelled: surrounding whitespace, underscores between digits and non-ASCII digits. A sign is modelled. Because only the first character is compared with `0`, the tokens `+07` and `-07` are accepted as fly numbers 7 and -7 (`FileKeys.SignedTokenIsFly`).
- Exception message texts and Python exception classes: only the error kind is kept. The duplicate-panel errors (`ValueError`, generate_pdf_report.py:53-54, 64-65), the duplicate fly and date errors (`RuntimeError`, generate_pdf_report.py:87, 99) and the missing-part errors (`ValueError`) are distinct variants. The not-an-int and not-a-date `ValueError`s are caught and never surface.
- The `assert fname[-4] == '.'`: it is the precondition `HasExtension`, not an error result.
- `splitlines` and `'\n'.join`: the clean-up works on the sequence of lines. Converting between text and lines is the boundary of the model.
- The key map of the source is keyed by file name. The comprehension parses every element of the list, repeated names included, and `sorted` keeps every copy; only the map holds one entry per name. The model parses and sorts the list as given, so the order and the errors agree. A repeated name has the same key, so the panel sets and the completeness check are unchanged (`Pairing.RepeatedKeyAccepted`).
- The pairing loop walks the fly map in insertion order. The model walks the files in listing order; a fly's first file is where the map inserts it, so the first failing fly is the same.
