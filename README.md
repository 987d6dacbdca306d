# Bi-weekly Jira report: the comment classifier

`jira-biweekly.py` builds a report of the Jira issues that saw activity
recently. For every issue it:

- collects the participants: reporter, assignee, watchers and the authors of
  comments from the last two weeks;
- scans each recent comment for `Highlight:` / `Highlights:` and
  `Lowlight:` / `Lowlights:` sections;
- cleans every section: removes its labels and trims it;
- emits one row per issue that yielded at least one snippet.

This project models that classifier in Dafny and proves what it does.

- `Recency` (recency.dfy): `is_recent` on integer timestamps in microseconds,
  with the clock passed in as `now`.
- `Ascii` (ascii.dfy): the character classes the two patterns rely on. These
  are word characters (for `\b`), whitespace (for `\s` and `str.strip`) and
  the case folding of `re.IGNORECASE`, all fixed to ASCII.
- `Labels` (labels.dfy): a hand-written scanner for the two `re.finditer`
  patterns. `Sections` yields the match spans. `MatchesFrom` describes what
  `re.finditer` yields: each match starts at the leftmost word-boundary label,
  runs to the first label of the other kind or the end of the text, and no
  label is skipped. `SectionsCharacterized` proves that `Sections` is the one
  sequence of spans with that description.
- `Cleanup` (cleanup.dfy): the `re.sub(...).strip()` applied to each match, and
  the filter that keeps only non-empty results.
- `Report` (report.dfy): `process_issues` as imperative methods with loops
  (`ProcessIssues`, `IssueRow`, `AppendSnippets`). Each is proved equal to a
  functional specification (`Rows`, `RowFor`, `Kept`), and lemmas state the
  properties of those functions. The issue list, and the watcher and comment
  lists that the script fetches for each issue, arrive as a `Ticket` value.
- `WorkedExample` (worked_example.dfy): the body `Highlight: A Lowlight: B`
  traced through the scanner and the cleanup. It yields the highlight `A` and
  the lowlight `B`.

The section patterns end a highlight only at a lowlight label or the end of
the text. A later label of the same kind does not end a section: a second
`Highlight:` label does not start a new section. It stays inside the current
one and is deleted by the cleanup, so the text around it becomes a single
snippet (`Cleanup.RemoveTwoLabels`). Lowlights behave the same way in mirror
image. The model follows the code here.

## Model

| member | source | states |
|---|---|---|
| Recency.IsRecent | jira-biweekly.py:29-31 | `is_recent`: at most two weeks separate the comment's creation from `now` |
| Recency.RecentWindow | jira-biweekly.py:29-31 | a comment is recent exactly when it was created no earlier than two weeks before now |
| Recency.BoundaryIsInclusive | jira-biweekly.py:31 | a comment exactly two weeks old is recent (`<=`); one a microsecond older is not |
| Recency.FutureIsRecent | jira-biweekly.py:31 | a timestamp later than now counts as recent |
| Recency.RecencyIsMonotone | jira-biweekly.py:31 | if a comment is recent, every later one is too |
| Ascii.IsWordChar | jira-biweekly.py:66-67 | `\w` on ASCII, which `\b` consults: letters, digits and underscore |
| Ascii.IsSpace | jira-biweekly.py:66-70 | `\s` and the whitespace `str.strip()` removes, on ASCII: tab to carriage return, the separators 0x1C to 0x1F, and space |
| Ascii.Lower | jira-biweekly.py:66-67 | IGNORECASE folding maps each upper-case letter to its own lower-case letter (32 code points on), keeps every other character, and keeps the word-character class |
| Ascii.StripStart | jira-biweekly.py:70 | the leading half of `strip()` returns a suffix of its input that does not start with whitespace |
| Ascii.StripEnd | jira-biweekly.py:70 | the trailing half of `strip()` returns a prefix of its input that does not end with whitespace |
| Ascii.Strip | jira-biweekly.py:70 | `str.strip()` leaves text that neither starts nor ends with whitespace, and is never longer than its input |
| Ascii.StripStartDropsSpace | jira-biweekly.py:70 | everything the leading half of `strip()` drops is whitespace |
| Ascii.StripEndDropsSpace | jira-biweekly.py:70 | everything the trailing half of `strip()` drops is whitespace |
| Ascii.StripIsInfix | jira-biweekly.py:70 | stripping cuts the text into leading whitespace, the result and trailing whitespace |
| Ascii.StripEmptyIff | jira-biweekly.py:70-71 | `strip()` gives the empty string, which `if clean_body` rejects, exactly for all-whitespace text |
| Ascii.StripSkipsSpace | jira-biweekly.py:70 | leading whitespace makes no difference to `strip()` |
| Ascii.StripBetween | jira-biweekly.py:70 | when only whitespace lies outside `[a, b)` and neither end of that range is whitespace, `strip()` returns exactly that range |
| Labels.LabelLength | jira-biweekly.py:66 | a `highlight:` / `highlights:` label (any case) ends with its colon and is longer than the bare word; `LabelLengthIff` says exactly which texts are labels |
| Labels.FoldedPrefix | jira-biweekly.py:66-67 | the IGNORECASE comparison of the label word: the text begins with the word when its first characters fold to the word's letters (`FoldedPrefixAt`, `FoldedPrefixFrom`) |
| Labels.LabelLengthIff | jira-biweekly.py:66-67 | a label is exactly the label word in any case, an optional `s` in any case, and a colon; its length says which form it is |
| Labels.AtBoundary | jira-biweekly.py:66-67 | `\b` in front of a label: the start of the text or a non-word character before it |
| Labels.LabelEndIff | jira-biweekly.py:66-67 | a label of a kind ends at `a` exactly when `\b` holds at its start and the text up to `a` is `highlight:` / `highlights:` (or `lowlight:` / `lowlights:`) in any case |
| Labels.PluralLabelAt | jira-biweekly.py:66-67 | the plural `highlights:` / `lowlights:`, in any case, is recognised as a label and ends after its colon |
| Labels.LabelIsWordChars | jira-biweekly.py:66 | everything in a label before its colon is a word character, so `\b` in front of it means a non-word character or the start of the text |
| Labels.LabelLengthPrefix | jira-biweekly.py:66 | a label is recognised from its own characters alone |
| Labels.OwnLabelIsNoStop | jira-biweekly.py:66-67 | no position starts labels of both kinds, so a later label of the same kind never ends a match |
| Labels.LabelEnd | jira-biweekly.py:66-67 | a label found at a position ends after that position, within the text, at a colon; `LabelEndIff` says exactly where labels are |
| Labels.IsStop | jira-biweekly.py:66-67 | the lookahead's targets: the end of the text (`\Z`) or a label of the other kind |
| Labels.FirstStop | jira-biweekly.py:66-67 | the lazy body and the lookahead end a match at the first label of the other kind, or at the end of the text, at or after the label |
| Labels.FirstStopUnique | jira-biweekly.py:66-67 | the first such stop is the only stop with no stop before it |
| Labels.MatchesFrom | jira-biweekly.py:66-67 | what `re.finditer` yields from a position: every span is a match, each searched for after the previous one, with no label of the kind in the gaps |
| Labels.Sections | jira-biweekly.py:66-67 | the scanner behind `re.finditer`: every span it yields lies within the text |
| Labels.SectionsSkip | jira-biweekly.py:66-67 | the scan passes over a stretch without labels of its kind: it yields the same matches from either end of it |
| Labels.MatchHead | jira-biweekly.py:66-67 | the first match starts at the leftmost label and ends at the first stop after it; there is no match exactly when no label follows |
| Labels.SectionsMatch | jira-biweekly.py:66-67 | the scanner's spans are matches found left to right without overlap, and no label is skipped between them |
| Labels.MatchesFromUnique | jira-biweekly.py:66-67 | only one sequence of spans from a given position satisfies that description |
| Labels.SectionsCharacterized | jira-biweekly.py:66-67 | the scanner's spans are exactly what `re.finditer` yields |
| Labels.SectionsEmptyIff | jira-biweekly.py:66-67 | a body yields no match of a kind exactly when it holds no label of that kind |
| Cleanup.SkipSpace | jira-biweekly.py:70 | the `\s*` after a label consumes the whole run of whitespace that follows it |
| Cleanup.RemoveLabelsFrom | jira-biweekly.py:70 | the `re.sub` from a position on never lengthens the rest of the text |
| Cleanup.RemoveLabels | jira-biweekly.py:70 | the `re.sub` over a whole match never lengthens it |
| Cleanup.CopiesStretch | jira-biweekly.py:70 | over a stretch where no label of the kind begins, the `re.sub` copies the whole stretch verbatim |
| Cleanup.DropsNextLabel | jira-biweekly.py:70 | the `re.sub` copies the text up to the next label, drops that label and the whitespace after it, and goes on after them |
| Cleanup.RemoveLabelsFromIdentity | jira-biweekly.py:70 | text without labels passes through the `re.sub` unchanged |
| Cleanup.RemovedLeavesNoLabel | jira-biweekly.py:70 | after the `re.sub`, no label of the kind is left; removing one cannot join the text around it into a new one |
| Cleanup.CopiedPrefix | jira-biweekly.py:70 | while the output consists of word characters, it copies the input verbatim |
| Cleanup.NoLabelAtCopiedStart | jira-biweekly.py:70 | where the input has no label at a boundary, the output has none either |
| Cleanup.StripKeepsLabelFree | jira-biweekly.py:70 | `strip()` of label-free text stays label-free |
| Cleanup.Clean | jira-biweekly.py:70-75 | a cleaned match neither starts nor ends with whitespace |
| Cleanup.CleanIsLabelFree | jira-biweekly.py:70-75 | a cleaned match holds no label of its kind |
| Cleanup.CleanSingleLabel | jira-biweekly.py:70-75 | a match whose only label is its leading one cleans to the text after that label, stripped |
| Cleanup.RemoveSingleLabel | jira-biweekly.py:70 | for such a match the `re.sub` drops the label and the whitespace after it and keeps the rest |
| Cleanup.RemoveTwoLabels | jira-biweekly.py:70-75 | a match with a second label of its own kind loses both labels and their trailing whitespace; the text before and after the second label is joined into one snippet |
| Cleanup.CleanOnlyLabel | jira-biweekly.py:66-75 | a match whose label is the only one of its kind after its start cleans to the stripped text after that label |
| Cleanup.Kept | jira-biweekly.py:69-77 | the loop over the matches keeps at most one snippet per match |
| Cleanup.Snippets | jira-biweekly.py:66-77 | a comment body contributes at most one snippet per match of the kind |
| Cleanup.KeptAreSnippets | jira-biweekly.py:69-77 | every kept snippet is non-empty, trimmed and free of labels of its kind |
| Cleanup.SnippetsAreSnippets | jira-biweekly.py:66-77 | the same holds for every snippet a comment body contributes |
| Cleanup.NoLabelNoSnippets | jira-biweekly.py:66-77 | a body without a label of a kind contributes no snippet of that kind |
| Cleanup.SingleLabelSnippets | jira-biweekly.py:66-77 | a body with exactly one label of a kind contributes the text from that label to the first label of the other kind (or the end), stripped, when it is not empty, and nothing otherwise |
| WorkedExample.UpperPluralLabel | jira-biweekly.py:66 | `HIGHLIGHTS:` in upper case at the start of a body is a highlight label |
| WorkedExample.HighlightSnippet | jira-biweekly.py:66-72 | the body `Highlight: A Lowlight: B` yields the single highlight `A` |
| WorkedExample.LowlightSnippet | jira-biweekly.py:67-77 | the body `Highlight: A Lowlight: B` yields the single lowlight `B` |
| Report.DescriptionText | jira-biweekly.py:38 | an absent or empty description becomes `No description available`; any other is kept |
| Report.Join | jira-biweekly.py:86-87 | `' \| '.join`: no parts give the empty string, and one part is returned unchanged |
| Report.JoinEmptyIff | jira-biweekly.py:86-87 | joining non-empty snippets with `' \| '` is empty exactly when there are none |
| Report.JoinSnoc | jira-biweekly.py:86-87 | one more snippet is joined after the separator |
| Report.RecentAuthors | jira-biweekly.py:62-63 | the names added from the comments are among the comments' authors |
| Report.RecentAuthorsIff | jira-biweekly.py:62-63 | a name is added from the comments exactly when some recent comment is by it |
| Report.Participants | jira-biweekly.py:39-63 | the reporter is always a participant, and every participant is the reporter, the assignee, a watcher or a comment author |
| Report.ParticipantsIff | jira-biweekly.py:39-63 | participants are the reporter, the assignee when present, every watcher and the authors of recent comments, and nobody else |
| Report.Collected | jira-biweekly.py:62-77 | when no comment is recent, nothing is collected |
| Report.CollectedAreSnippets | jira-biweekly.py:69-77 | every collected highlight or lowlight is non-empty, trimmed and label-free |
| Report.CollectedAppend | jira-biweekly.py:62-77 | snippets keep comment order: those of the earlier comments come first |
| Report.CollectedEmptyIff | jira-biweekly.py:62-77 | nothing of a kind is collected exactly when no comment is recent and yields a snippet of that kind |
| Report.StaleCommentIgnored | jira-biweekly.py:62-64 | a comment older than two weeks adds neither its author nor any snippet |
| Report.UnlabelledCommentAddsOnlyAuthor | jira-biweekly.py:62-67 | a recent comment without labels adds its author and no snippet |
| Report.RowFor | jira-biweekly.py:80-88 | a row carries its issue's key and always lists the reporter among the participants |
| Report.RowForIff | jira-biweekly.py:80-88 | an issue gets a row exactly when some recent comment yields a highlight or lowlight; the row holds the key, summary, description, participants and joined snippets |
| Report.Rows | jira-biweekly.py:33-89 | `process_issues` emits at most one row per issue |
| Report.RowsAppend | jira-biweekly.py:35-81 | rows keep issue order |
| Report.RowsHaveSnippets | jira-biweekly.py:80-81 | every row has a non-empty highlights or lowlights field |
| Report.AddWatchers | jira-biweekly.py:53-54 | the loop over the watchers adds exactly their names to the participants |
| Report.ScanComments | jira-biweekly.py:61-77 | the loop over the comments adds exactly the authors of recent comments to the participants and collects exactly their highlights and lowlights, in comment order |
| Report.AppendSnippets | jira-biweekly.py:69-77 | the loop over one comment's matches appends exactly the cleaned non-empty matches, in order |
| Report.IssueRow | jira-biweekly.py:36-88 | the body of the issue loop computes exactly the row, or the absence of one, that `RowFor` specifies |
| Report.ProcessIssues | jira-biweekly.py:33-89 | the report equals `Rows` of the issues, and every row carries a snippet |

## Left out

- Fetching issues, watchers and comments over HTTP, and JSON decoding, are left out (jira-biweekly.py:14-26, 48-61). This is network I/O, so the fetched values are inputs.
- Reading the personal access token from `config.json` and building the Authorization header are left out. This is file I/O and credentials.
- Command-line parsing and the main script are left out. They are glue.
- `output_report` is left out: its CSV writing and console output are file and terminal I/O.
- Parsing comment dates with `strptime` and reading `datetime.now` are left out. Timestamps are integer microseconds, and `now` is a parameter. The JQL date string depends on the wall clock.
- Report.ScanComments, Report.ProcessIssues: the script reads `datetime.now` afresh for every comment (jira-biweekly.py:31, called at line 62), so a run that straddles a boundary may judge two comments against slightly different clocks. The model judges every comment of a run against one `now`.
- Report.Issue: a reporter that is null in the tracker's data makes the script raise `TypeError` at jira-biweekly.py:43. The model's reporter is always a string, so that failure is not modelled.
- Report.Row: participants are a set, not the `', '.join` string. Python's set iteration order is unspecified.
- Ascii.IsWordChar, Ascii.IsSpace, Ascii.Lower: Python's `re` uses Unicode `\w`, `\s` and case folding on `str`. The model fixes them to ASCII, so non-ASCII word characters next to a label are not modelled. Neither are characters that fold onto ASCII letters under IGNORECASE, such as U+0130, U+0131 or U+017F, nor Unicode whitespace.
- Report.Ticket: a missing `displayName` (a `KeyError` in the script) is not modelled. Names arrive as strings.
- Report.Issue: an assignee that is present but falsy (an empty object) counts as no assignee, which is what the truth test does. The model has just `None` for that case.
- The order in which the script issues its HTTP requests, and any failure of them, are not modelled.
