# DailySOC-Digest core, modelled in Dafny

DailySOC-Digest turns Windows Security log events into a daily digest for a
security operations centre (SOC). Each event whose ID is 4625 (failed logon),
4624 (successful logon) or 4672 (special privileges) becomes an alert. The
alerts are de-duplicated by `(source, description)`, ordered by severity
(high, then medium, then low) and written into a digest. Each alert in the
digest gets an explanation generated by an AI model. The dashboard then parses
each explanation into three parts: "what happened", "why it matters" and a
list of "what to do" steps.

This project models three pieces of the repository:

- The explanation parser `parse_ai_explanation` and its sentence splitter, in
  `src/dashboard.py`. Modules `Text`, `Sentences` and `Dashboard`.
- The digest pipeline in `src/main.py`: event conversion, de-duplication, the
  priority sort and digest assembly. Modules `SocTypes` and `SocMain`.
- The stand-alone converter in `src/windows_to_alerts.py`. Module
  `WindowsToAlerts`.

## How the model reads the source

- **Text helpers (`text.dfy`).** Python's string operations are modelled on
  ASCII:
  - `isspace`, `strip`, `lower` and `capitalize`.
  - `splitlines`, whose line breaks are characters 10-13 and 28-30.
  - The markup removal `re.sub(r"[*#]+", "", …)`.
- **Sentence splitting (`sentences.dfy`).** `split_sentences` is `Fragments`
  (the `re.split(r'(?<=[.!?])\s+', …)` cut) followed by `Keep`, which trims,
  drops pieces of three characters or fewer, and capitalises.
- **The parser (`dashboard.dfy`).**
  - `ParseExplanation` is the imperative line loop. It has the same `current`,
    `buffer` and `sections` state and the same `continue` branches as the
    source.
  - It is proved equal to `Explain`, a fold of `Step` over the lines followed
    by `Finalize`.
  - `ScanShape` and `ParseLinesShape` give a closed-form description of what
    the loop writes. Each narrative field comes from the body text between its
    two delimiting headers.
- **The digest pipeline (`main.dfy`).**
  - `WindowsEventsToAlerts`, `Deduplicate` and `BuildDigest` are the source's
    loops. Each is proved against a function (`AlertsOf`, `Dedup`) or against
    field-by-field postconditions.
  - `list.sort` with a key is modelled by the result its stable sort
    guarantees: `PrioritySort`, which concatenates the high, medium and low
    alerts, each group kept in input order. Lemmas prove that this result is
    sorted, stable and a permutation of the input. They also prove it is the
    only sequence with those properties.
- **Converters.** The converter in `src/windows_to_alerts.py` is the same
  classification as the one in `src/main.py`, with two differences:
  - The 4672 description is "Special privileges assigned to new logon"
    instead of "Special privileges assigned to logon".
  - Its timestamp is rendered with an explicit UTC offset (`+00:00`).

  `ConvertMatchesMain` proves that these are the only differences.

## Behaviours of the source worth knowing

- A "what happened" header does not write the buffer into any field. It only
  empties the buffer (`src/dashboard.py:38-41`, `TextBeforeWhatHappenedIsLost`).
- Text before the first header is not always discarded
  (`src/dashboard.py:43-53`, `ScanShape`, `OrphanTextBecomesWhatHappened`):
  - If the first header is "why it matters", that text becomes
    `what_happened`.
  - If the first header is "what to do", that text becomes `why_it_matters`.
  - If the first header is "what happened", that text is dropped.
- A header line is dropped whole, including any text after the phrase on the
  same line (`src/dashboard.py:38-53`, `HeaderLineTextDiscarded`). For example,
  the one-line input "This is noise. What happened: a breach occurred. Why it
  matters: data exposed." is a single "what happened" header. It parses to
  three empty fields.
- `str.capitalize` lower-cases everything after the first character, so "VPN"
  becomes "Vpn" (`src/dashboard.py:29`, `CapitalizeLowersRest`).
- A trailing "what happened" section is never written
  (`src/dashboard.py:57-61`, `TrailingWhatHappenedDropped`).

## Model

| member | source | states |
|---|---|---|
| Dashboard.ParseExplanation | src/dashboard.py:13-63 | The imperative parser returns exactly `Explain(text)`: empty input gives the empty record; otherwise the markup-stripped, non-blank, trimmed lines are run through the section machine and finalised |
| Dashboard.ExplainEmpty | src/dashboard.py:20-21 | Empty text yields empty `what_happened`, empty `why_it_matters` and no steps |
| Dashboard.HeaderOf | src/dashboard.py:36-53 | A line is a "what happened" header exactly when its lower-cased text holds that phrase at some index; "why it matters" only when it holds that phrase and not "what happened"; "what to do" only when it holds "what to do" or "what should be done" and neither earlier phrase; otherwise it is body text |
| Dashboard.StepFrame | src/dashboard.py:35-55 | One iteration: a header line moves to its section and empties the buffer; a body line is appended with one space and changes nothing else; the loop never writes the steps, writes `what_happened` only at a "why it matters" header and `why_it_matters` only at a "what to do" header |
| Dashboard.Finalize | src/dashboard.py:57-61 | The final flush never writes `what_happened`, writes `why_it_matters` only when the last section is "why it matters" and the steps only when it is "what to do" |
| Dashboard.HeaderNumbered | src/dashboard.py:36-38 | Headers are matched case-insensitively anywhere in a line, so "1. What happened:" opens the what-happened section |
| Dashboard.HeaderLineTextDiscarded | src/dashboard.py:38-53 | Two lines that trigger the same header have the same effect, whatever else they contain, and a header always leaves an empty buffer |
| Dashboard.ScanShape | src/dashboard.py:35-55 | After any sequence of lines, the state is the last header seen, the buffer holds the body lines after it, `what_happened` is the narrative of the body before the last "why it matters" header, `why_it_matters` is the narrative of the body before the last "what to do" header, and no steps are written |
| Dashboard.ParseLinesShape | src/dashboard.py:35-61 | Closed form of the whole parse: the loop's fields, plus the trailing why-it-matters narrative or the trailing what-to-do sentences according to the last header |
| Dashboard.CanonicalDocument | src/dashboard.py:35-61 | A document with the three headers in order puts each block's normalised text into its own field, with the steps as a list of sentences |
| Dashboard.MissingTrailingSection | src/dashboard.py:35-61 | With only "what happened" and "why it matters" sections, both narratives are filled and the step list is empty |
| Dashboard.OrphanTextBecomesWhatHappened | src/dashboard.py:43-47 | Body text before a first "why it matters" header becomes `what_happened` |
| Dashboard.TextBeforeWhatHappenedIsLost | src/dashboard.py:38-41 | Lines before a "what happened" header that hold no "why it matters" or "what to do" header have no effect on the result |
| Dashboard.TrailingWhatHappenedDropped | src/dashboard.py:57-61 | A document ending in a what-happened section gives the fields written before it; that section's text is dropped |
| Dashboard.NoNarrativeHeaderYieldsEmpty | src/dashboard.py:35-61 | Without a "why it matters" or "what to do" header, every field stays empty |
| Dashboard.ExplainOfBlank | src/dashboard.py:24-31 | Text that is all markup yields the empty record |
| Dashboard.MarkupInsensitive | src/dashboard.py:24 | Two texts that agree once `*` and `#` are removed parse identically |
| Dashboard.MarkupInsertionInvisible | src/dashboard.py:24 | Inserting a run of `*`/`#` anywhere (e.g. `**What happened:**`) does not change the parse |
| Dashboard.ExplainNormalised | src/dashboard.py:27-29 | Every field the parser produces is already normalised (re-normalising it is a no-op), and every step is a trimmed, capitalised sentence longer than three characters |
| Sentences.SplitSentences | src/dashboard.py:27-29 | Every sentence produced is trimmed, longer than three characters and capitalised; which sentences they are, in which order, is stated piece by piece by `KeepSingle` and `KeepAppend` over the pieces of the stripped block |
| Sentences.Fragments | src/dashboard.py:28 | `re.split` returns at least one piece, and text with no split point comes back whole |
| Sentences.Keep | src/dashboard.py:29 | The comprehension returns no more sentences than there are pieces, and every sentence it keeps is trimmed, longer than three characters and capitalised |
| Sentences.KeepSingle | src/dashboard.py:29 | A piece yields `Capitalize(Trim(piece))` exactly when its stripped text is longer than three characters, and nothing otherwise |
| Sentences.KeepAppend | src/dashboard.py:29 | The comprehension distributes over concatenation, so the kept sentences come out in the pieces' order |
| Sentences.JoinSpacesLength | src/dashboard.py:44 | `" ".join` of a non-empty list is as long as the sentences plus one character for each gap between two of them; the empty list gives the empty string |
| Sentences.JoinSpacesCons | src/dashboard.py:44 | A single sentence joins to itself; otherwise the join is the first sentence, one space, then the join of the rest |
| Sentences.JoinSpacesKeepsText | src/dashboard.py:44 | Joining adds whitespace only: the visible characters of the result are those of the sentences, in order |
| Sentences.Capitalize | src/dashboard.py:29 | `capitalize` keeps the length, leaves no lower-case first letter and no upper-case letter after it, and keeps whitespace and terminal punctuation in place |
| Sentences.CapitalizeSameText | src/dashboard.py:29 | `capitalize` changes letter case only: the lower-cased result equals the lower-cased input |
| Sentences.CapitalizeOfCapitalized | src/dashboard.py:29 | Capitalising an already capitalised string changes nothing |
| Sentences.CapitalizeLowersRest | src/dashboard.py:29 | `capitalize` lower-cases the rest of the sentence, acronyms included: "VPN" becomes "Vpn" |
| Sentences.FragmentsKeepText | src/dashboard.py:28 | The splitter removes only whitespace: the visible characters of the pieces, in order, are those of the block |
| Sentences.FragmentsShape | src/dashboard.py:28 | Splitting a trimmed block gives trimmed pieces with no remaining split point, every piece but the last ending in `.`, `!` or `?` |
| Sentences.FragmentsCut | src/dashboard.py:28 | A split-free sentence ending in `.`, `!` or `?`, followed by any non-empty run of whitespace and more text, is cut exactly after the sentence, and the whole run is dropped |
| Sentences.FragmentsOfJoin | src/dashboard.py:28 | Joining well-formed sentences with spaces and splitting again gives back exactly those sentences |
| Sentences.SplitSentencesChain | src/dashboard.py:27-29 | The sentences produced are split-free and all but the last end in terminal punctuation |
| Sentences.SplitSentencesIdempotent | src/dashboard.py:27-29 | Normalising the space-joined output of the normaliser gives the same sentences back |
| Sentences.NarrativeStable | src/dashboard.py:44 | A narrative field re-normalises to itself and to the same sentences as its source block |
| Text.StripMarkup | src/dashboard.py:24 | The cleaned text is no longer than the input and holds no `*` or `#` |
| Text.StripMarkupKeeps | src/dashboard.py:24 | The cleaned text is a subsequence of the input with every other character kept as often as it occurred |
| Text.StripMarkupAppend | src/dashboard.py:24 | Markup removal distributes over concatenation |
| Text.Lower | src/dashboard.py:36 | `lower` keeps the length and maps each character on its own: upper-case ASCII letters to lower case, everything else unchanged |
| Text.ContainsIff | src/dashboard.py:38-49 | The `in` test holds exactly when the phrase occurs at some index of the line |
| Text.Trim | src/dashboard.py:28-31 | `strip` gives a string with no leading or trailing whitespace, no longer than its input |
| Text.TrimKeepsText | src/dashboard.py:28-31 | `strip` removes only the leading and trailing whitespace: the result is a slice of the input with only whitespace outside it, so interior whitespace is kept, and no visible character is lost |
| Text.TrimEmptyIffBlank | src/dashboard.py:29-31 | A string strips to empty exactly when it is all whitespace (the `if l.strip()` filter) |
| Text.TrimOfTrimmed | src/dashboard.py:29 | Stripping an already stripped string changes nothing |
| Text.RawLines | src/dashboard.py:31 | The line splitter gives at least one piece, and no piece holds a line break |
| Text.RawLinesCut | src/dashboard.py:31 | The text is the lines glued back together with one line-break character between each two, so it is cut at its line breaks and nowhere else |
| Text.RawLinesUnique | src/dashboard.py:31 | Any cut of a text into break-free pieces at line-break characters is the one the splitter makes, so the lines are determined by the text |
| Text.NonEmptyLines | src/dashboard.py:31 | Every kept line is non-empty and stripped |
| Text.KeepNonBlankSingle | src/dashboard.py:31 | A raw line yields its stripped text exactly when that is not empty, and nothing otherwise |
| Text.KeepNonBlankAppend | src/dashboard.py:31 | The filter distributes over concatenation, so kept lines stay in order and are never merged |
| Text.NonEmptyLinesHaveNoBreaks | src/dashboard.py:31 | No kept line contains a line break |
| Text.NonEmptyLinesKeepText | src/dashboard.py:31 | Splitting into stripped non-blank lines removes only whitespace |
| SocTypes.MaskedId | src/main.py:47 | `EventID & 0xFFFF` is in 0..65535 and differs from the ID by a multiple of 65536 |
| SocTypes.MaskedIdPeriodic | src/main.py:47 | Adding a multiple of 65536 to an ID does not change its masked value |
| SocMain.AlertFor | src/main.py:46-71 | An event yields an alert exactly when its masked ID is 4625, 4624 or 4672; the alert's source is the Security log and its timestamp the event time |
| SocMain.AlertForTable | src/main.py:49-71 | 4625 gives a high "Failed login attempt detected", 4624 a low "Successful login detected", 4672 a medium "Special privileges assigned to logon" |
| SocMain.AlertForLow16Bits | src/main.py:47 | Classification looks only at the low 16 bits of the ID |
| SocMain.WindowsEventsToAlerts | src/main.py:43-73 | The loop returns `AlertsOf(events)`: the recognised events' alerts, in event order |
| SocMain.AlertsOfAppend | src/main.py:43-73 | Conversion distributes over concatenation of event batches |
| SocMain.AlertsOfShape | src/main.py:43-73 | There are no more alerts than events, and every alert key is one of the three known (source, description) pairs |
| SocMain.KeySetMembers | src/main.py:88 | The key set is exactly the set of keys of the list's alerts |
| SocMain.Deduplicate | src/main.py:84-91 | The loop with its `seen` set returns `Dedup(alerts)` |
| SocMain.DedupKeys | src/main.py:84-91 | The de-duplicated list has the same key set as the input and no two alerts with the same key |
| SocMain.DedupFirstOccurrences | src/main.py:84-91 | The de-duplicated list is the subsequence of first occurrences: kept alerts appear at strictly increasing input positions, and no earlier alert has the same key |
| SocMain.OfSeverityShape | src/main.py:93-94 | Selecting one severity gives only alerts of that severity, no more than the input |
| SocMain.OfSeverityAppend | src/main.py:94 | Selecting a severity distributes over concatenation |
| SocMain.Rank | src/main.py:93 | The sort key is 1 to 3, 1 exactly for high and 3 exactly for low |
| SocMain.PrioritySortSorted | src/main.py:93-94 | The sorted list is ordered high, medium, low |
| SocMain.PrioritySortStable | src/main.py:94 | Within each severity the sorted list keeps the input order |
| SocMain.PrioritySortPermutation | src/main.py:94 | The sorted list is a permutation of the input |
| SocMain.SortedSplits | src/main.py:93-94 | A list already ordered by severity is unchanged by the sort |
| SocMain.PrioritySortUnique | src/main.py:94 | Any list ordered by severity that keeps each severity's alerts in input order is the sorted list, so the stable sort's result is determined |
| SocMain.BuildDigest | src/main.py:140-155 | The summary counts the de-duplicated alerts, and entry k copies alert k's severity name, source and description with the explanation of that alert |
| SocMain.GenerateDigest | src/main.py:78-155 | The digest lists the converted, de-duplicated, sorted alerts in order, each with its explanation; its summary holds the given date and their number |
| SocMain.DigestAtMostThree | src/main.py:84-94 | The digest holds exactly one alert per distinct key among the converted alerts, hence at most three |
| WindowsToAlerts.ConvertToAlert | src/windows_to_alerts.py:14-41 | An event yields an alert exactly when its masked ID is 4625, 4624 or 4672; source is the Security log and the timestamp the event time with a UTC offset |
| WindowsToAlerts.UtcStamp | src/windows_to_alerts.py:22 | The timestamp is the event time followed by the six characters `+00:00` |
| WindowsToAlerts.ConvertTable | src/windows_to_alerts.py:15-39 | The three classifications of this converter, including "Special privileges assigned to new logon" for 4672 |
| WindowsToAlerts.ConvertLow16Bits | src/windows_to_alerts.py:15 | Classification looks only at the low 16 bits of the ID |
| WindowsToAlerts.ConvertMatchesMain | src/windows_to_alerts.py:14-41 | The two converters recognise the same events and agree on source and severity; this one adds `+00:00` to the timestamp, and the descriptions differ exactly for 4672 |
| WindowsToAlerts.ConvertEvents | src/windows_to_alerts.py:46-51 | The driver loop keeps the non-`None` conversions in event order |
| WindowsToAlerts.ConvertedAlertsMatchMain | src/windows_to_alerts.py:46-51 | Over a batch both converters give equally long lists that match alert by alert up to the offset and the medium-severity description |

## Left out

- The Flask application, the HTML template and report loading in `src/dashboard.py`: web and file I/O.
- `ai_explain` and the Gemini client: a network call. The digest methods take the explanation as a function parameter.
- `read_security_events` and `win32evtlog`: operating-system I/O. Events are given as a sequence.
- `datetime.now`: the clock. The digest date is a parameter.
- Writing the JSON report and the `print` calls in `src/main.py` and `src/windows_to_alerts.py`: file and console output.
- `run_soc.py` and `src/windows_logs.py`: process launching and log reading, not part of this model.
- `TimeGenerated.isoformat()`: the time is kept as an opaque string. The model assumes it has no offset of its own, so re-labelling it as UTC appends `+00:00`.
- The `None` argument to `parse_ai_explanation`: Dafny strings cannot be `None`. The empty string takes the same early-return path.
- Non-ASCII text: `isspace`, `splitlines`, `lower`, `capitalize` and `\s` are modelled on ASCII characters only. Non-ASCII characters count as ordinary letters that case mapping leaves unchanged.
- Text.RawLines: unlike `splitlines`, it reads `\r\n` as two breaks, yields an empty piece after a final line break, and yields `[""]` for the empty text where `splitlines` gives `[]`. Every such extra piece is empty, and the filter at `src/dashboard.py:31` drops empty pieces, so the parser sees the same lines.
- SocMain.PrioritySort: `list.sort` (Timsort) is not modelled as an algorithm. It is modelled by its specified result, the unique stable ordering by priority.
