# Meeting organizer: the session tables and their handlers

The meeting organizer is a single-page form application. It keeps two tables
for the length of a session:

- the **availability** table, rows of `(Date, Name)`, filled by the
  "Submit Availability" button;
- the **topic** table, rows of `(Topic, Votes)`, filled by the "Add Topic"
  button and changed by the per-row "Vote for …" buttons.

From these it renders two derived views. The availability summary groups the
rows by date, with the list of names and a count for each date. The topic
view sorts the topic rows by votes, highest first.

This project models that state and those operations in Dafny.

- `meeting_organizer.dfy`, module `MeetingOrganizer`:
  - class `Organizer<D>` holds the two tables as `seq` fields. Its three
    handler methods change those fields in place, as the source's button
    handlers replace or update `st.session_state[...]`.
  - `Organizer.Valid()` is the session invariant that every handler keeps.
    Every name is non-empty. Every topic is non-empty. Topics are pairwise
    distinct. Votes are never negative.
  - Each handler states its whole new state in terms of the old one. It
    also returns the branch it took: `SubmitOutcome` (success or error
    banner) or `AddOutcome` (success, error or warning banner).
  - The two views are pure functions, `Summarize` and `Ranked`. Lemmas state
    what they promise: one row per distinct date, the names of exactly that
    date in table order, counts that add up to the table's length, and a
    ranking that is a permutation and non-increasing in votes. Any two such
    orderings of the same rows differ only in the order of tied rows, so
    ranking the ranked view again shows the same rows with the same votes.
- `scenarios.dfy`, module `Scenarios`: four short sessions driven through
  the handlers. They show what a caller can conclude from the handlers'
  contracts, the view lemmas and the definition of a date's name list
  (`NamesOn`): a duplicate topic is refused, two names on one date make one
  summary row of count 2, incomplete submissions change nothing, and a vote
  reorders the ranking. The last of these uses only `Ranked`'s contract.

Dates are a type parameter `D` with equality and nothing else. The calendar
selection is an `Option<D>`, and `None` stands for a selection that is
absent or falsy. Text inputs are plain `string` arguments, and "present"
means non-empty.

The model follows the code on three points where one might expect otherwise:

- Voting goes by row position, not by topic name. The source builds one
  button per row while iterating the table, and the clicked row's `Votes` is
  incremented at its index. Every insertion uses `ignore_index=True`, so the
  index is the position.
- The ranked view's order among equal vote counts is not promised. The
  source sorts with `sort_values(by='Votes', ascending=False)`, whose default
  algorithm is not stable. `Ranked` happens to be an insertion sort, but
  its contract claims only sortedness and permutation.
- The summary's row order is not promised. The source's `groupby` orders
  groups by key, and the model cannot order opaque dates. `Summarize` lists
  dates in order of first appearance, and no contract depends on that order.

## Model

| member | source | states |
|---|---|---|
| `MeetingOrganizer.Organizer.constructor` | fs_reading_web.py:8-14 | The session starts with both tables empty, which satisfies the session invariant `Valid()`: non-empty names, non-empty and pairwise distinct topics, non-negative votes. |
| `MeetingOrganizer.Organizer.SubmitAvailability` | fs_reading_web.py:38-48 | Succeeds exactly when the name is non-empty and a date is selected. Then exactly `(date, name)` is appended at the end, even when an identical row already exists. Otherwise (the error branch) the availability table is unchanged. The topic table is never touched, and the invariant is kept. |
| `MeetingOrganizer.Organizer.AddTopic` | fs_reading_web.py:80-94 | Reports the error branch exactly when the topic is empty. Reports the warning branch exactly when the topic is non-empty and already in the Topic column (exact match). Otherwise it appends exactly `(topic, 0)` at the end. Both refusals leave the table unchanged, availability is never touched, and topics stay distinct, non-empty and non-negative in votes. |
| `MeetingOrganizer.Organizer.Vote` | fs_reading_web.py:100-104 | The clicked row gets exactly one more vote. Every other row's votes, every Topic string and the number of rows stay the same. It reports a vote exactly when the clicked index is a row. Votes therefore only go up, and the invariant is kept. |
| `MeetingOrganizer.TopicNames` | fs_reading_web.py:83 | The Topic column has one entry per row, the k-th being row k's topic. |
| `MeetingOrganizer.Dates` | fs_reading_web.py:57 | The group keys: pairwise distinct, each the date of some row, and every row's date among them. |
| `MeetingOrganizer.Summarize` | fs_reading_web.py:57-58 | Summary rows have pairwise distinct dates. Each is the date of some availability row, and every availability row's date has a summary row. Each row's names are `NamesOn(rows, date)`, the model of one date's `.Name.agg(list)`: the names of that date's rows, in table order. Its Count is the length of that list and is positive. |
| `MeetingOrganizer.NamesOnCounts` | fs_reading_web.py:57 | A date's name list holds each name exactly as many times as the table holds that `(date, name)` row. |
| `MeetingOrganizer.NamesOnNonEmpty` | fs_reading_web.py:57-58 | A date's name list is non-empty exactly when some row is on that date. |
| `MeetingOrganizer.SummaryOneRowPerDate` | fs_reading_web.py:57 | The summary has exactly as many rows as the table has distinct dates. |
| `MeetingOrganizer.SummaryCountsTotal` | fs_reading_web.py:57-58 | The Count column of the summary adds up to the number of availability rows. |
| `MeetingOrganizer.Insert` | fs_reading_web.py:107 | Inserting a row into a table ordered by votes (highest first) keeps it ordered and adds exactly that row. |
| `MeetingOrganizer.Ranked` | fs_reading_web.py:107 | The ranked view is non-increasing in votes and is a permutation (same multiset) of the topic rows. |
| `MeetingOrganizer.SortedPermutationsSameVotes` | fs_reading_web.py:107 | Two orderings of the same rows, each non-increasing in votes, have the same Votes column row by row: they can differ only in the order of tied rows. |
| `MeetingOrganizer.RankedUniqueUpToTies` | fs_reading_web.py:107 | Any ordering of the topic rows by votes, highest first, has the same Votes column as the ranked view, whichever order the sort gives tied rows. |
| `MeetingOrganizer.RankedOfSorted` | fs_reading_web.py:107 | Ranking a table already ordered by votes leaves its Votes column as it is. The order of tied rows may change. |
| `MeetingOrganizer.RankedIdempotent` | fs_reading_web.py:107 | Ranking the ranked view again shows the same rows (same multiset) with the same Votes column. |
| `Scenarios.RankedPairFromContract` | fs_reading_web.py:107 | With two rows whose votes differ, any ordering by votes, highest first, puts the row with more votes first. |
| `MeetingOrganizer.RankedWellFormed` | fs_reading_web.py:107 | The ranked view of a well-formed topic table is well-formed: distinct non-empty topics and non-negative votes. |

Computing either view does not change the store. Both are functions of the
table, so no separate contract is needed.

## Left out

- Rendering: the title, tabs, headers, the raw-table `st.write`, the banner texts, and the "nothing submitted yet" branches (fs_reading_web.py:16-27, 50-54, 69-70, 96-98, 108-109). Each handler returns which banner branch it took instead.
- The calendar component (fs_reading_web.py:28-32) is a foreign call. The model does not capture the shape of the value it returns, or the fact that the availability table is passed to it as `events`. Its selection is an opaque `Option<D>`.
- The Plotly bar chart (fs_reading_web.py:61-68) is presentation only.
- Streamlit's rerun-per-interaction execution. Widget values and button clicks are method arguments. `Vote` takes the index of the clicked row button, since at most one button is clicked per run.
- pandas mechanics: column dtypes, `concat`, `reset_index`. The group order of `groupby`, and the order of tied rows in `sort_values`, are not pinned (see above).
- Python truthiness of the calendar's return value. The model reduces it to a selection that is present (`Some`) or absent or falsy (`None`).
- Persistence and multiple users. The source has neither.
- Votes are an unbounded `int`. pandas keeps them as 64-bit integers, and the model does not capture overflow past 2^63 - 1 votes.
