# PII detection, redaction and the rules engine of ai-safety-toolkit, in Dafny

This project models the core of the ai-safety-toolkit library:

- the PII pattern table (`src/constants/pii-patterns.ts`);
- `PIIDetector` (`src/core/PIIDetector.ts`): `detect`, `redact`, `filterOverlaps`,
  `getReplacement`, `getPlaceholder`, `maskString` and `generateFakeData`;
- `RulesEngine` (`src/core/RulesEngine.ts`): `addBlockedWords`, `addPattern` and `check`.

It proves properties of the model.

Files:

- `wrappers.dfy` holds `Option`.
- `text.dfy` holds character classes, `\b`, ASCII `toLowerCase` and `includes`.
- `pii_patterns.dfy` holds the six regular expressions the detector uses, each as a
  recogniser `XAt(text, i)`. A recogniser gives the end of the match that the backtracking
  engine reports when it tries start index `i`.
  - Beside each recogniser stands a predicate `XShape` that states the pattern's language
    directly.
  - Soundness and completeness lemmas tie the two together. Where the engine has a choice,
    they also state which match it picks.
  - The file also holds the `REDACTION_MASKS` strings.
- `pii_scanner.dfy` holds `detect`: the `exec` loop of each global regex, the
  collection in pattern-table order and the stable sort by start.
  - The scan is stated for any pattern table. `MatchAt` is this library's table.
  - `DetectSpec` is `detect` on that table. `Detect` is the imperative method proved equal
    to it.
- `pii_redactor.dfy` holds the replacements, `filterOverlaps`, the rebuilding loop and
  `redact`.
- `rules_engine.dfy` holds the `RulesEngine` class.
  - Its word set and pattern map are fields that the methods update.
  - JavaScript `Set` and `Map` iterate in insertion order. So the blocked words are a
    sequence without repeats, and the pattern names are a sequence of the map's keys in
    insertion order.

Behaviour worth knowing, proved below:

- `filterOverlaps` keeps the first match by start, not the longest. When several patterns
  match at the same start, the sort is stable, so the one earlier in the pattern table
  wins.
  - The sixteen-digit card number `1234567890123456` is therefore kept as a ten-digit
    phone number. The card match covering all sixteen digits is dropped
    (`CardNumberKeptAsPhone`).
- In `fake` mode the sample values for email, credit card, IP address and date are
  themselves detected as PII by the same patterns.
- The SSN sample `000-00-0000` is rejected by the SSN pattern, because of the area number 000.
- The placeholders contain no digit and no `@`, so they are never detected.

Two behaviours of the code worth knowing:

- `getReplacement`'s `default:` branch gives the placeholder, as in `replace` mode, for any
  other mode string. The model has a `Mode.Unrecognised` value for it.
- `maskString` keeps up to three characters of an email's name, despite its
  `j***@gmail.com` comment (`MaskEmailExample`).

## Model

| member | source | states |
|---|---|---|
| Text.IndexOf | src/core/PIIDetector.ts:145-148 | the split point of `value.split('@')` is the first `@`: every earlier character is not `@` |
| Text.IndexOfCount | src/core/PIIDetector.ts:145-146 | an `@` is found exactly when the value holds at least one |
| PiiPatterns.SsnAt | src/constants/pii-patterns.ts:5 | an SSN match ends after its start and inside the text |
| PiiPatterns.SsnAtSound | src/constants/pii-patterns.ts:5 | every SSN match belongs to the SSN language: `\b`, 3-2-4 digits with optional `-`/space separators, area not 000, 666 or 9xx, group not 00, serial not 0000, `\b` |
| PiiPatterns.SsnAtComplete | src/constants/pii-patterns.ts:5 | every string of the SSN language at i is the match reported there (the match is unique) |
| PiiPatterns.SsnExamples | src/constants/pii-patterns.ts:5 | `000-00-0000` is rejected by the area exclusion; `123-45-6789` is matched whole |
| PiiPatterns.CreditCardAt | src/constants/pii-patterns.ts:6 | a card match ends after its start and inside the text |
| PiiPatterns.CreditCardAtSound | src/constants/pii-patterns.ts:6 | every card match is four groups of four digits, each of the first three followed by an optional `-` or space, between word boundaries |
| PiiPatterns.CreditCardAtComplete | src/constants/pii-patterns.ts:6 | every string of the card language at i is the match reported there |
| PiiPatterns.IpAddressAt | src/constants/pii-patterns.ts:7 | an IP match ends after its start and inside the text |
| PiiPatterns.IpAddressAtSound | src/constants/pii-patterns.ts:7 | every IP match is four groups of one to three digits joined by dots, between word boundaries |
| PiiPatterns.IpAddressAtComplete | src/constants/pii-patterns.ts:7 | any such four groups form the match at i: there is no octet range check |
| PiiPatterns.DateAt | src/constants/pii-patterns.ts:9 | a date match ends after its start and inside the text |
| PiiPatterns.DateAtSound | src/constants/pii-patterns.ts:9 | every date match is fields of 1-2 and 1-2 digits, each followed by `/`, `-` or `.`, then four digits, between word boundaries |
| PiiPatterns.DateAtComplete | src/constants/pii-patterns.ts:9 | any such string is the match at i: no month or day check, and the separators are chosen independently |
| PiiPatterns.EmailAt | src/constants/pii-patterns.ts:2 | an email match ends after its start and inside the text |
| PiiPatterns.EmailAtSound | src/constants/pii-patterns.ts:2 | every email match is a local part from `[a-zA-Z0-9._%+-]`, `@`, domain characters from `[a-zA-Z0-9.-]`, a dot and at least two letters |
| PiiPatterns.EmailAtLongest | src/constants/pii-patterns.ts:2 | when the email language has a string at i, the engine reports a match at i ending no earlier than it (greedy domain, backtracking to the last top-level dot) |
| PiiPatterns.EmailShapeOneAt | src/constants/pii-patterns.ts:2 | an email match holds exactly one `@`, and it is the one after the local part |
| PiiPatterns.PhoneGenericAt | src/constants/pii-patterns.ts:4 | a phone match ends after its start and inside the text |
| PiiPatterns.PhoneGenericAtSound | src/constants/pii-patterns.ts:4 | every phone match is an optional `+` or `00` country code `[1-9]\d{0,2}`, then 3, 3 and 4 digits with runs of the allowed separators between them |
| PiiPatterns.PhoneGenericAtComplete | src/constants/pii-patterns.ts:4 | whenever the phone language has a string at i, the engine reports a match at i |
| PiiPatterns.PhoneGenericAtChoice | src/constants/pii-patterns.ts:4 | the engine takes the country code when one fits, with the most code digits that let the rest match; otherwise it matches without one |
| PiiPatterns.PhoneAfterCodeChoice | src/constants/pii-patterns.ts:4 | the greedy `\d{0,2}` of the country code gives back digits only until the rest of the number matches |
| PiiPatterns.PhoneTailSound | src/constants/pii-patterns.ts:4 | the part after the country code is `(\d{3})`, separators, `(\d{3})`, separators, `(\d{4})` |
| PiiPatterns.PhoneTailComplete | src/constants/pii-patterns.ts:4 | no separator is a digit, so that part is matched in exactly one way |
| PiiPatterns.PhoneGenericAtHasDigit | src/constants/pii-patterns.ts:4 | a phone match needs a digit in the text |
| PiiPatterns.InertHasNoMatch | src/constants/pii-patterns.ts:2-9 | text with neither a digit nor an `@` has no match of any of the six detector patterns at any start |
| PiiScanner.Rank | src/core/PIIDetector.ts:23-30 | each type's place in the pattern record, iterated in that order |
| PiiScanner.MatchAt | src/core/PIIDetector.ts:23-30 | the record maps email to EMAIL, phone to PHONE_GENERIC, and so on; every match is non-empty and inside the text |
| PiiScanner.FirstMatchFrom | src/core/PIIDetector.ts:44 | one `exec` from `lastIndex` reports a real match that starts at or after `lastIndex` |
| PiiScanner.FirstMatchFromLeftmost | src/core/PIIDetector.ts:44 | that match has the leftmost start; no match means no start at or after `lastIndex` matches |
| PiiScanner.Exec | src/core/PIIDetector.ts:44 | the imperative search over start positions returns exactly `FirstMatchFrom` |
| PiiScanner.ExecAll | src/core/PIIDetector.ts:42-50 | the `while (exec)` loop, with `lastIndex` reset to 0, pushes exactly the scan of that pattern |
| PiiScanner.Push | src/core/PIIDetector.ts:44-49 | the loop body appends exactly the record of the match found and moves `lastIndex` to its end, or stops when there is none; either way the pushed records plus the rest of the scan stay the whole scan |
| PiiScanner.Detect | src/core/PIIDetector.ts:36-55 | `detect` returns exactly `DetectSpec`: every pattern's hits in table order, then sorted by start |
| PiiScanner.ScanFromSpec | src/core/PIIDetector.ts:44-50 | each record of one pattern's loop is a real match of that pattern, and consecutive matches do not overlap |
| PiiScanner.ScanFromAscending | src/core/PIIDetector.ts:44-50 | one pattern's records have strictly increasing starts |
| PiiScanner.ScanFromCovers | src/core/PIIDetector.ts:44-50 | no match is missed: every start where the pattern matches lies inside a record of it |
| PiiScanner.CollectSpec | src/core/PIIDetector.ts:40-51 | every unsorted result is a real match of one of the patterns iterated |
| PiiScanner.CollectCovers | src/core/PIIDetector.ts:40-51 | every match of every iterated pattern lies inside an unsorted result of its type |
| PiiScanner.CollectRanks | src/core/PIIDetector.ts:40-51 | the results of the first n patterns have types among the first n of the table |
| PiiScanner.CollectTies | src/core/PIIDetector.ts:40-51 | in the unsorted results, hits with the same start come in table order, at most one per type |
| PiiScanner.InsertByStartMultiset | src/core/PIIDetector.ts:54 | one insertion step of the sort keeps every element |
| PiiScanner.InsertByStartSorted | src/core/PIIDetector.ts:54 | one insertion step keeps the list sorted by start |
| PiiScanner.InsertByStartTies | src/core/PIIDetector.ts:54 | one insertion step keeps ties in table order when the inserted element comes last among its own start |
| PiiScanner.SortByStartSpec | src/core/PIIDetector.ts:54 | the sort orders by start and is a permutation |
| PiiScanner.SortByStartStable | src/core/PIIDetector.ts:54 | the sort is stable: ties that came in table order still do |
| PiiScanner.DetectSorted | src/core/PIIDetector.ts:36-55 | `detect`'s results are sorted by start, are a permutation of the collected hits and are each a real match |
| PiiScanner.DetectCovers | src/core/PIIDetector.ts:36-55 | every match of every pattern lies inside a result of its type |
| PiiScanner.DetectTies | src/core/PIIDetector.ts:36-55 | results with equal starts come in table order, at most one per type |
| PiiScanner.CollectEmpty | src/core/PIIDetector.ts:40-51 | with no match anywhere, nothing is collected |
| PiiScanner.DetectInert | src/core/PIIDetector.ts:36-55 | text with no digit and no `@` yields no results |
| PiiRedactor.GetPlaceholder | src/core/PIIDetector.ts:130-140 | each type's placeholder comes from REDACTION_MASKS and holds no digit and no `@` |
| PiiRedactor.PlaceholderProperties | src/core/PIIDetector.ts:130-140 | distinct types get distinct placeholders, and no placeholder is detected as PII |
| PiiRedactor.MaskStringHides | src/core/PIIDetector.ts:153-155 | outside the email rule the mask keeps the length, shows the two characters at each end when longer than four, and stars the rest |
| PiiRedactor.MaskStringEmail | src/core/PIIDetector.ts:144-151 | a value with exactly one `@` becomes at most three characters of the name, `***`, and the `@` and domain unchanged, with exactly one `@` |
| PiiRedactor.DetectedEmailMasked | src/core/PIIDetector.ts:144-151 | a detected email always has exactly one `@`, so the email rule applies to it |
| PiiRedactor.MaskEmailAddress | src/core/PIIDetector.ts:144-151 | a name of three or more characters keeps its first three, then `***@` and the whole domain |
| PiiRedactor.MaskEmailExample | src/core/PIIDetector.ts:143-150 | `john.doe@example.com` masks to `joh***@example.com` |
| PiiRedactor.MaskSsnExample | src/core/PIIDetector.ts:153-155 | `123-45-6789` masks to `12*******89` |
| PiiRedactor.FakeEmailRedetected | src/core/PIIDetector.ts:161 | the sample email is itself matched whole by EMAIL |
| PiiRedactor.FakeCardRedetected | src/core/PIIDetector.ts:164 | the sample card number is itself matched whole by CREDIT_CARD |
| PiiRedactor.FakeIpRedetected | src/core/PIIDetector.ts:165 | the sample address is itself matched whole by IP_ADDRESS |
| PiiRedactor.FakeDateRedetected | src/core/PIIDetector.ts:166 | the sample date is itself matched whole by DATE |
| PiiRedactor.FakeSsnNotRedetected | src/core/PIIDetector.ts:163 | the sample SSN `000-00-0000` is rejected by SSN |
| PiiRedactor.GetReplacement | src/core/PIIDetector.ts:118-128 | `replace` and any unrecognised mode give the placeholder, which holds no digit and no `@` |
| PiiRedactor.FilterOverlaps | src/core/PIIDetector.ts:98-116 | the loop returns exactly the greedy pass `Resolve` from `lastEnd = -1` |
| PiiRedactor.ResolveSubseq | src/core/PIIDetector.ts:98-116 | the kept matches are some of the input, in input order |
| PiiRedactor.ResolveOrdered | src/core/PIIDetector.ts:98-116 | the kept matches are pairwise disjoint and in order |
| PiiRedactor.ResolveDropsOnlyOverlaps | src/core/PIIDetector.ts:105-113 | on input sorted by start, a match is dropped only when it starts inside a kept match |
| PiiRedactor.ResolveAfter | src/core/PIIDetector.ts:106 | nothing kept starts before `lastEnd` |
| PiiRedactor.SpliceRoundTrip | src/core/PIIDetector.ts:77-89 | rebuilding with each match's own value gives back the text: only matched spans are rewritten |
| PiiRedactor.SpliceLength | src/core/PIIDetector.ts:77-89 | the result's length is the text's, less the matched spans, plus the replacements |
| PiiRedactor.SpliceKeepsGaps | src/core/PIIDetector.ts:80-89 | the result is the untouched stretches and the replacements, alternating, each at its computed offset |
| PiiRedactor.DetectedOrdered | src/core/PIIDetector.ts:75 | the matches kept from `detect`'s results can be spliced into the text |
| PiiRedactor.Render | src/core/PIIDetector.ts:77-89 | the rebuilding loop returns exactly `Splice` of the kept matches and their replacements |
| PiiRedactor.Redact | src/core/PIIDetector.ts:60-96 | `redact` returns exactly `RedactSpec`, and `detected` holds exactly when something is kept |
| PiiRedactor.RedactInert | src/core/PIIDetector.ts:61-64 | text with no digit and no `@` comes back unchanged and not flagged |
| PiiRedactor.RedactKeepsFirst | src/core/PIIDetector.ts:75 | when something is detected, the first result by start is always kept |
| PiiRedactor.DetectHasMatchAt0 | src/core/PIIDetector.ts:36-55 | a pattern's match at the start of the text is among `detect`'s results |
| PiiRedactor.DetectHeadAt0 | src/core/PIIDetector.ts:36-55 | when no earlier pattern in the table matches at 0, that match heads `detect`'s results |
| PiiRedactor.HeadLowestRank | src/core/PIIDetector.ts:54 | in a sorted list with ties in table order, the head has the lowest table place among those starting at 0 |
| PiiRedactor.TieAt0KeepsTableOrder | src/core/PIIDetector.ts:98-116 | of two patterns matching at 0, the earlier one in the table is kept (if none before it matches) and the other is dropped, however long it is |
| PiiRedactor.CardNumberMatches | src/constants/pii-patterns.ts:4-6 | on `1234567890123456`, PHONE_GENERIC matches 10 digits and CREDIT_CARD all 16 at 0, and EMAIL does not match there |
| PiiRedactor.CardNumberKeptAsPhone | src/core/PIIDetector.ts:98-116 | that card number is redacted as a ten-digit phone number, and the card match is dropped |
| Rules.ToLowerIdempotent | src/core/RulesEngine.ts:11 | a lower-cased word is in lower case |
| Rules.AddAllHas | src/core/RulesEngine.ts:10-12 | after adding, a word is stored exactly when it was stored before or is one of the added words lower-cased |
| Rules.AddAllKeeps | src/core/RulesEngine.ts:10-12 | adding keeps the words stored before in place and never stores a word twice |
| Rules.AddAllLower | src/core/RulesEngine.ts:10-12 | every stored word is in lower case |
| Rules.AddAllPresent | src/core/RulesEngine.ts:10-12 | adding words that are all already stored changes nothing |
| Rules.AddAllIdempotent | src/core/RulesEngine.ts:10-12 | adding the same words twice is the same as adding them once |
| Rules.TagInjective | src/core/RulesEngine.ts:25 | two findings with the same tag are equal exactly when their items are |
| Rules.ReportHas | src/core/RulesEngine.ts:23-34 | `tag + x` is pushed exactly when x is an item whose test succeeds |
| Rules.ReportTagged | src/core/RulesEngine.ts:23-34 | every finding is the tag followed by an item whose test succeeds |
| Rules.ReportCount | src/core/RulesEngine.ts:23-34 | with no repeated items, there is one finding per item whose test succeeds |
| Rules.ReportEmpty | src/core/RulesEngine.ts:23-34 | nothing is pushed exactly when no item's test succeeds |
| Rules.IncludesLower | src/core/RulesEngine.ts:22-24 | a word occurring in the text in any case occurs lower-cased in the lower-cased text |
| Rules.FindingsHas | src/core/RulesEngine.ts:18-40 | a blocked-word finding names a stored word found in the lower-cased text; a pattern finding names a stored pattern that accepts the text |
| Rules.FindingsOrder | src/core/RulesEngine.ts:18-40 | the findings are one per word found, then one per pattern that fires, with all blocked-word findings first |
| Rules.FindingsFlagged | src/core/RulesEngine.ts:36-39 | the text is flagged exactly when a stored word occurs in its lower-cased form or a pattern fires |
| Rules.AddedWordReported | src/core/RulesEngine.ts:10-27 | a word added in any case is reported for a text that contains it in any case |
| Rules.RulesEngine.constructor | src/core/RulesEngine.ts:5-8 | the engine starts with no words and no patterns |
| Rules.RulesEngine.AddBlockedWords | src/core/RulesEngine.ts:10-12 | stores each word lower-cased, once, after the words already stored, and leaves the patterns alone |
| Rules.RulesEngine.AddPattern | src/core/RulesEngine.ts:14-16 | stores the pattern under its name, replacing any old one; a new name goes last in the iteration order, and a known name keeps its place |
| Rules.RulesEngine.Check | src/core/RulesEngine.ts:18-40 | returns exactly `Findings` of the stored words and patterns, and `flagged` holds exactly when there is a finding |

## Left out

- The regular-expression engine itself. Each pattern is a hand-written recogniser that
  is proved against a direct statement of its language. Capture groups are not modelled,
  because only `match[0]` is used.
- PHONE_US: it is in the pattern file, but the detector does not use it.
- The regex objects' `lastIndex` as shared mutable state. `detect` resets it before every
  loop, so each loop is modelled from 0. In `RulesEngine.check`, a pattern with the `g`
  flag makes `test` stateful across calls. The model takes a pattern's `test` as a pure
  predicate on the text (`Rules.Pattern`).
- `toLowerCase` beyond ASCII: letters outside `A`-`Z` are left unchanged.
- UTF-16: a Dafny `char` is a Unicode scalar value, while JavaScript strings are UTF-16
  code units. After any character outside the Basic Multilingual Plane, a JavaScript
  position is one larger per such character than the model's. Lone surrogates cannot be
  represented at all.
- The default argument `mode = 'replace'` of `redact`: the caller passes `Replace`
  explicitly.
- `Array.prototype.sort`: it is modelled by a stable insertion sort as a specification
  function. The ES2019 stability guarantee is what the model relies on.
- The `default:` branches of `getPlaceholder` and `generateFakeData`. The closed type
  union makes them unreachable, so `[REDACTED]` and `[FAKE_DATA]` are never produced.
  `DefaultMask` is kept only as the table constant.
- The `PIIDetector` object: it holds only the pattern record, which never changes. Its
  operations are therefore module-level functions and methods over `MatchAt`.
- TextModerator, the moderation providers, `src/index.ts`, and the example and build
  scripts. They are outside the core.
