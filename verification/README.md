# Phonebook record store, modelled in Dafny

This project models the record store of a console phonebook (`main.py`) with
the console and the file system taken out. A phonebook is an ordered list of
entries with six text fields: surname, name, fathername, organization, job
phone and phone. The file stores one entry per line as the fields joined by
`|`. The model covers:

- reading the file back (`load_data`);
- writing the whole list (`save_data`);
- the page arithmetic of `display_entries`;
- appending an entry (`add_entry`);
- overwriting one entry after confirmation (`edit_entry`);
- the keyword filter of `search_entry`.

Modules follow the parts of the program:

- `results.dfy`, module `Results`: the `Result` and `Option` types.
- `text.dfy`, module `Text`: the Python string operations the program uses.
  These are `str.strip()`, `str.split('|')`, `'|'.join`, `str.lower()` and the
  substring test `a in b`, plus the lines that `for line in file` yields.
- `entry.dfy`, module `Entries`: the `Entry` datatype and its line format.
- `paging.dfy`, module `Paging`: page count and page bounds.
- `phonebook.dfy`, module `Phonebook`: load, save, add, confirm and edit.
- `search.dfy`, module `Search`: the keyword filter.

The file is an `Option<string>`. `None` stands for a file that does not
exist. A Python exception becomes the `Err` case of a `Result`:

- `IndexError` on a short line becomes `Phonebook.LoadError`.
- `ZeroDivisionError` from a page size of 0 becomes `Paging.PagingError`.

Behaviours of `main.py` worth noting:

- `add_entry` stores the values it is given without checking them.
- Edit overwrites all six fields with the values entered, empty ones included.
- Edit does not save. Only `add_entry` and the exit command call `save_data`.
- A blank line in the file strips to `""`, splits into one piece, and raises
  `IndexError` at `entry[1]`.
- A line with more than six pieces loads; the pieces after the sixth are
  ignored.
- Search takes a single keyword and compares it with every field.
- An empty keyword matches every entry that has an empty field.
- The view command always uses pages of 5 entries.

## Model

| member | source | states |
|---|---|---|
| Text.Strip | main.py:20 | the result is a slice of the line with only whitespace (Python's `isspace` set) before and after it, it neither starts nor ends with whitespace, and a line already free of such ends is returned unchanged |
| Text.StripTerminated | main.py:20 | stripping a line whose body has no outer whitespace removes exactly the trailing line break |
| Text.Split | main.py:20 | `split('|')` yields at least one piece, no piece contains the separator, and joining the pieces with `|` gives the input back |
| Text.SplitJoin | main.py:35 | splitting a `|`-join of separator-free parts returns exactly those parts |
| Text.SplitCount | main.py:20-28 | a string splits into one more piece than it has separators |
| Text.Lines | main.py:18-19 | the lines a file yields concatenate to its text; each is non-empty, only its last character can be a line break, and every line but the last ends with one |
| Text.LinesConcat | main.py:19 | text made of terminated lines reads back as exactly those lines, in order |
| Text.LowerIdempotent | main.py:97-100 | lowering a lowered string changes nothing |
| Entries.ParseLine | main.py:20-28 | a line parses iff its stripped form has at least five separators; a shorter one raises at index (pieces); parsed fields hold no separator and rejoin to all of the stripped line when there are exactly five separators, and otherwise to the part before its sixth separator, so the pieces past the sixth are ignored |
| Entries.ParseSerialize | main.py:20-35 | for separator-free fields, parsing the written line returns the same entry if and only if the surname does not start and the phone does not end with whitespace |
| Phonebook.ParseEach | main.py:19-28 | lines are parsed in file order, one entry per line; a failure reports the first failing line, and all lines before it parsed |
| Phonebook.Load | main.py:15-29 | a missing file loads as the empty phonebook; otherwise the result has one entry per file line in file order, each the parse of its line, or the error names the first short line |
| Phonebook.SaveLines | main.py:32-35 | when no field holds `\n` or `\r`, the saved text reads back as one line per entry, in phonebook order, each the fields in stored order joined by `|` |
| Phonebook.LoadSave | main.py:15-35 | loading what was saved gives the same phonebook, entry for entry and in order, when no field holds `|`, `\n` or `\r` and the line ends carry no whitespace |
| Phonebook.AddEntry | main.py:52-67 | the list grows by one, earlier entries are unchanged, the new entry is last with the six supplied values, and the file text afterwards is what `save_data` writes for the new list |
| Phonebook.AddEntryLoadsBack | main.py:52-67 | when the old entries and the new one are storable (no `|`, `\n` or `\r` in a field, no whitespace at the line ends), the file written by the add loads back as the new list |
| Phonebook.ConfirmingAnswers | main.py:84-85 | an answer confirms iff it is one of the eleven substrings of `YyДд`, the empty answer included |
| Phonebook.EditEntry | main.py:71-93 | an empty phonebook raises; otherwise the length and every entry other than `choice - 1` are unchanged, a confirmed edit of an in-range choice puts the supplied entry there, and an out-of-range choice or a rejected answer leaves the list as it was |
| Phonebook.EditEmptyBookRaises | main.py:73 | editing an empty phonebook ends in `ZeroDivisionError` |
| Phonebook.EditEntryGuarded | main.py:71-93 | the corrected edit never raises, keeps the frame conditions of the edit, and agrees with the code on every non-empty phonebook |
| Paging.PageCount | main.py:38-39 | the page count is the least count whose pages hold all entries: `total <= count * size` and `(count - 1) * size < total` |
| Paging.NoPagesIffEmpty | main.py:39 | there are no pages exactly when there are no entries |
| Paging.Paginate | main.py:37-46 | page size 0 raises; otherwise there are ceil(total / size) pages, each holding 1 to `size` entries, page `p` holds indices `[p*size, min(p*size + size, total))`, and the pages read in order give back the whole list |
| Paging.PageOfIndex | main.py:41-45 | every index lies on page `i / size`, that page exists, and no other page holds it |
| Paging.OnePage | main.py:73 | listing a non-empty phonebook with page size equal to its length gives one page holding the whole list |
| Search.SearchEntry | main.py:96-101 | the result equals the reference filter, is no longer than the phonebook, and holds only entries of the phonebook that match the keyword |
| Search.FilterIsSubsequence | main.py:98-101 | the search result is a subsequence of the phonebook, so the order is kept |
| Search.FilterCounts | main.py:99-101 | each matching entry occurs in the result as often as in the phonebook; a non-matching one does not occur |
| Search.FilterSound | main.py:100-101 | every entry in the result has a field equal to the keyword up to case |
| Search.CaseInsensitive | main.py:97-100 | searching for the lowered keyword finds the same entries as searching for the keyword |
| Search.EmptyKeyword | main.py:97-100 | the empty keyword matches an entry iff one of its fields is empty |

## Left out

- Console I/O is left out: `print_info`, the `input` prompts, the `pprint`
  output and the "Press enter" pauses. The supplied field values, the edit
  choice and the confirmation answer are parameters.
- The command loop of `main` is left out: command parsing, the bare `except`
  and the dispatch. Its exit command only calls `save_data`, which is `Save`.
- File-system access is left out: `os.path.exists`, `open`, reading and
  writing. The file is its text, or `None` when it does not exist.
- Text-mode decoding is left out. This covers the character encoding and the
  translation of `\r\n` and `\r` to `\n`. The model takes the file text as it
  looks after that translation. The save and load lemmas require fields free
  of `\r` as well as `\n`: for such text the translation changes nothing, while
  a field holding `\r` would be split into two lines on reading.
- Text.LowerIdempotent: `str.lower` is modelled for the ASCII capitals `A` to
  `Z` and the basic Cyrillic capitals U+0400 to U+042F only. Latin-1 and other
  capitals such as `À` or `Ö` are not lowered, so a search that Python matches
  through their case is not matched in the model. Python's one-to-two
  character mapping of U+0130 is not modelled.
- Search.SearchEntry: compares through the restricted lowering above, so a
  keyword such as "émile" does not find "Émile" in the model, though it does
  in the program.
- Phonebook.EditEntry: models one attempt of the confirmation loop. A rejected
  answer leaves the list unchanged, while the code prompts again.
- Phonebook.EditEntry: the edit choice is an integer. The `ValueError` that
  `int()` raises on a non-number, which ends the program, is not modelled.
- Paging.Paginate: page sizes are natural numbers. The code only ever passes
  5 or the length of the list.

## Findings

| source | as written | input that shows it | evidently intended | confidence | as-written member | corrected member |
|---|---|---|---|---|---|---|
| main.py:73 | the edit command first lists the entries with the page size set to the number of entries, and the page count divides by that page size | an empty phonebook and command 3 | editing an empty phonebook has nothing to list or change and returns, leaving the phonebook as it is | high; not executed | Phonebook.EditEmptyBookRaises | Phonebook.EditEntryGuarded |
