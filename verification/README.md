# Contact book store — Dafny model

A model of the in-memory core of a console contact manager written in Python
(`domashka_web_2.py`). It covers the phone validator, a contact record's
ordered phone list (`add_phone`, `delete_phone`, `change_phones`), the
`AddressBook` store (`add_record`, `has_record`, `get_record`,
`remove_record`, `search`, `iterator`), and the three command handlers that
hold logic: module-level `add_record`, `change_func` and `search_func`.

Layout:

- `wrappers.dfy`: `Option` (Python's `None`) and `Result` (a raised exception).
- `seqs.dfy`: generic helpers. `FirstIndex` gives the first occurrence of an element. `RemoveAt` drops one position. `Flatten` joins batches. `Filter` keeps the elements that pass a test, in order.
- `text.dfy`: `str.lower` on ASCII letters, and string containment (`needle in hay`).
- `fields.dfy`: `Phone.validate_value`.
- `records.dfy`: the `Record` datatype and its phone-list operations.
- `addressbooks.dfy`: the store. It is the sequence of records in dict key order, keyed by record name. `Valid` says the names are unique. `ToMap` gives the plain dict view.
- `handlers.dfy`: the command handlers.

Everything is immutable. An operation that mutates in Python returns the new
record or book here. A Python dict keeps insertion order, and assigning to an
existing key keeps that key's position. The model keeps both behaviours,
because `search` and `iterator` depend on key order.

The model follows the code as written, including where stricter behaviour might be expected:

- Phones are stored even when the validator rejects them. The add command accepts a 12-character phone (`AddStoresInvalidPhone`). A phone list may therefore hold empty or overlong values.
- `change_phones` toggles each value rather than replacing the list.
- `has_record` is plain key membership. A `Record` defines neither `__bool__` nor `__len__`, so it is always truthy.

## Model

| member | source | states |
|---|---|---|
| Fields.ValidatePhone | domashka_web_2.py:97-102 | a phone value is valid exactly when it is present and has 1 to 11 characters |
| Records.NewRecord | domashka_web_2.py:106-109 | a new record keeps its name and birthday and starts with no phones |
| Records.AddPhone | domashka_web_2.py:132-133 | the phone is appended whether valid or not: length grows by one, the old list is a prefix, the last element is the phone, name and birthday unchanged |
| Records.DeletePhone | domashka_web_2.py:135-140 | reports removal exactly when the phone is present; if absent the record is unchanged; if present exactly the first occurrence is removed and the rest keep their order |
| Records.Toggle | domashka_web_2.py:143-145 | one step of `change_phones`: an absent phone is appended; a present one loses its first occurrence and nothing else changes |
| Records.ToggleCounts | domashka_web_2.py:143-145 | toggling lowers the toggled value's count by one when present, makes it one when absent, and leaves every other count unchanged |
| Records.ChangePhones | domashka_web_2.py:142-145 | name and birthday are kept, and the count of every value not in the argument list is unchanged |
| Records.ChangeSinglePhone | domashka_web_2.py:142-145 | `change_phones([p])` appends `p` when absent and removes its first occurrence when present |
| Records.DeleteAfterAdd | domashka_web_2.py:132-140 | adding an absent phone and then deleting it reports a removal and restores the record |
| Records.ToggleAbsentTwice | domashka_web_2.py:142-145 | toggling an absent phone twice restores the original record |
| Records.ChangePhonesConcat | domashka_web_2.py:142-145 | changing with `a + b` equals changing with `a` and then with `b` |
| AddressBooks.GetRecord | domashka_web_2.py:159-160 | returns a record exactly when the name is a key, and that record is in the book under that name |
| AddressBooks.GetRecordOfEntry | domashka_web_2.py:159-160 | in a book with unique names, each entry is what its own name looks up |
| AddressBooks.HasRecord | domashka_web_2.py:156-157 | true exactly when some entry has the name |
| AddressBooks.AddRecord | domashka_web_2.py:150-151 | afterwards the name maps to the new record; every other name looks up as before; an existing name keeps its position, a new name goes last; unique names stay unique |
| AddressBooks.AddRecordRefinesMap | domashka_web_2.py:150-151 | on the dict view, adding a record is the assignment `d[name] = record` |
| AddressBooks.RemoveRecord | domashka_web_2.py:162-163 | `KeyError(name)` exactly when the name is absent; otherwise only the first entry with that name is removed and the others keep their order |
| AddressBooks.RemoveRecordKeepsValid | domashka_web_2.py:162-163 | removing from a book with unique names keeps them unique, and the removed name is no longer a key |
| AddressBooks.RemoveRecordRefinesMap | domashka_web_2.py:162-163 | on the dict view of a book with unique names, removal deletes exactly that key |
| AddressBooks.AddThenRemove | domashka_web_2.py:150-163 | adding a record under a new name and then removing that name restores the book |
| AddressBooks.FirstWithPhone | domashka_web_2.py:169-172 | gives the position of the first record in key order holding the exact phone, or the length when none does |
| AddressBooks.Search | domashka_web_2.py:165-174 | a name match wins; otherwise the first record in key order with an exactly equal phone; `ValueError` exactly when neither exists |
| AddressBooks.CeilDivBounds | domashka_web_2.py:183-187 | the batch count is the least number of `N`-blocks covering all records |
| AddressBooks.Iterator | domashka_web_2.py:179-187 | the batches joined give the records in key order, each once; every batch has 1 to N records and all but the last have N; there are ceil(n/N) batches, and none for an empty book |
| Handlers.AddRecordCommand | domashka_web_2.py:209-213 | the name maps to a fresh record with just the given phone and birthday, replacing any old one; other names are unaffected; the confirmation text is returned |
| Handlers.AddStoresInvalidPhone | domashka_web_2.py:92-95 | a phone the validator rejects is still stored by the add command |
| Handlers.ChangeFunc | domashka_web_2.py:216-222 | for an unknown name the book is unchanged and "Record not found" is returned; otherwise that record's phone is toggled in place and no other name or position changes |
| Handlers.ChangeFuncInPlace | domashka_web_2.py:216-219 | for a known name, the book afterwards is the same sequence with only that name's entry replaced by its toggled record |
| Handlers.ChangeTwiceRestores | domashka_web_2.py:216-222 | running `change_func` twice with a phone the contact does not hold restores the whole book |
| Handlers.ScanPhones | domashka_web_2.py:240-243 | the inner loop finds a hit exactly when some phone, lower-cased, contains the lower-cased query |
| Text.Lower | domashka_web_2.py:241-246 | `str.lower()` as used on the query, the phones and the names: the result has the input's length, each letter A-Z at a position becomes the matching a-z, and every other character stays as it is |
| Text.Contains | domashka_web_2.py:241-246 | the `in` test on strings: a needle longer than the haystack is never found, and one at the start or at the end of the haystack is always found |
| Handlers.PhonePass | domashka_web_2.py:239-243 | the phone pass reports, at most once each and in key order, exactly the records one of whose phones contains the query, ignoring case |
| Handlers.NamePass | domashka_web_2.py:245-247 | the name pass reports, in key order, exactly the records whose name contains the query, ignoring case |
| Handlers.JoinLines | domashka_web_2.py:249-250 | `"\n".join`: no lines give the empty text, one line comes back unchanged, the text starts with the first line and ends with the last, and a newline follows the first line when there are more |
| Handlers.SearchFunc | domashka_web_2.py:236-252 | the reported records are the phone-pass matches followed by the name-pass matches, each pass in key order; the reply is the no-match text when nothing matched |
| Handlers.SearchMembership | domashka_web_2.py:236-247 | a record is reported exactly when one of its phones or its name contains the query, ignoring case; a record matching both is reported twice |
| Handlers.SearchIgnoresQueryCase | domashka_web_2.py:241-246 | lower-casing the query does not change what is reported |
| Handlers.EmptyQueryReportsAll | domashka_web_2.py:239-247 | an empty query reports every record with a phone in the phone pass and every record in the name pass |

## Left out

- `UserInterface` and `ConsoleInterface` (lines 7-40): text rendering only.
- `main`, the REPL, `input` and `print` (lines 255-290): interactive I/O.
- `save_to_file` and `load_from_file` (lines 191-198): file I/O through `json`. As written, `json.dump` cannot serialise `Record` objects, and the loader installs raw dicts instead of records. There is no round trip to state.
- `Birthday.validate_birthday` (lines 74-81): it delegates to `datetime.strptime` and prints. The birthday is stored verbatim as an optional string; the setter stores the value whatever `validate_birthday` returns.
- `Record.days_to_birthday` (lines 111-120): it reads the system clock. As written it calls `.month` on a string, and its `if self.birthday` test is always true.
- `Record.get_info` and `show_func` (lines 122-130, 225-230): string formatting. `SearchFunc` takes a caller-supplied `info` function in place of `get_info`.
- `hello_func` and `exit_func`: constant strings.
- `get_all_record` (lines 153-154): it returns the book itself, which here is the record sequence.
- Text.Lower: maps only the ASCII letters A-Z. Python's `str.lower` also maps other scripts, and can change a string's length for a few characters.
- AddressBooks.Iterator: returns all batches at once. The generator's laziness is not modelled: its key snapshot is taken at the first `next()`, not at the call, and each batch's records are looked up when that batch is produced, so a book changed during iteration is not covered. `N <= 0` is excluded because the source loops forever there. The default `N = 1` used by `__iter__` is an ordinary call with `n = 1`.
- Handlers.SearchFunc: the reply is only pinned down to the extent of `"\n".join` over the caller's `info` lines. The Python code appends each `get_info` string as it goes. The model collects the records first and renders them afterwards, which gives the same lines.
