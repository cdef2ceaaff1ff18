# Telephone directory: a Dafny model

This project models the in-memory telephone directory of the Flask service
in `app.py`. The service keeps one module-level dict, `telephone_directory`.
The dict maps an integer id to a contact record `{id, name, phone}`. Six
request handlers work on it:

- `get_contacts` lists the directory.
- `get_contact` looks up one id.
- `add_contact` validates and inserts.
- `update_contact` merges fields into a stored record in place.
- `delete_contact` pops an id.
- `search_contact` filters by a lower-cased query.

The model has four modules:

- `Text` (text.dfy): `str.lower()` on ASCII letters, and Python's substring
  test `q in s`. The test is defined by scanning and proved equal to "q
  occurs at some index of s".
- `Contacts` (contacts.dfy): the directory as a value. It holds the map and
  the dict's iteration order (`Directory`). There is one function per
  handler. Each gives the handler's outcome (`Ok`, or `Err(NotFound)` /
  `Err(ValidationFailed)`) and the directory the handler leaves. `Valid`
  states the invariant every reachable directory keeps:
  - the order lists each key once;
  - every record's `id` equals its key;
  - ids are at least 1.
- `Properties` (properties.dfy): lemmas that relate handlers. They cover
  read-your-writes, the partial merge of update, delete finality, search
  completeness and case handling, and the id collision.
- `App` (app.dfy): the class `TelephoneDirectory`. Its fields are the map and
  the key order. `AddContact`, `UpdateContact` and `DeleteContact` change
  those fields in place, as the handlers change the dict. Each method is
  proved to leave exactly the state the matching `Contacts` function
  describes. The read-only handlers are the functions `List`, `Get` and
  `Search` applied to `State()`.

The id rule is modelled as written: a new record gets `len(directory) + 1`.
After a deletion that id can belong to a record that is still stored, and
the insert then silently replaces that record. `DeleteThenAddOverwrites`
proves this for every directory whose keys are 1..n when a key below n is
deleted. `IdCollisionExample` and `App.CollisionSession` show it from
start-up: add Ann, add Bob, delete 1, add Cid. Cid gets id 2, the same id
Bob got, and the listing afterwards holds Cid alone. While no key has been
deleted out of the middle, `DenseAddIsFresh` proves the assigned id is fresh.

The model follows `app.py` as written:
- ids come from `len + 1`, not from a monotonic counter, so they can be reused;
- there is no authentication;
- update accepts an empty string and stores it.

## Model

| member | source | states |
|---|---|---|
| `Contacts.Get` | app.py:14-19 | answers the stored record exactly when the id is a key, else NotFound; in a valid directory the answered record carries the requested id |
| `Contacts.List` | app.py:9-11 | answers one record per key in the dict's iteration order, the i-th record being the one stored under the i-th key, whose id is that key |
| `Properties.ListIsComplete` | app.py:9-11 | the listing has as many records as the directory, and a record is listed exactly when it is the one stored under its own id |
| `Properties.EmptyIsValid` | app.py:6 | the empty start-up directory satisfies the invariant and lists nothing |
| `Contacts.Add` | app.py:22-35 | fails with ValidationFailed, changing nothing, exactly when name or phone is absent or empty; otherwise answers the record with id equal to the old size plus 1 and the given name and phone; preserves the invariant |
| `Properties.AddThenGet` | app.py:29-35 | read-your-writes: after a successful add, get on the answered id answers that same record and the listing contains it |
| `Properties.AddChangesOneKey` | app.py:29-34 | a successful add touches only key size+1: all other records are kept, the size grows by one exactly when that key was free, and an overwritten key keeps its place in the order |
| `Contacts.Update` | app.py:38-48 | fails with NotFound, changing nothing, exactly when the id is absent; otherwise keeps the record's id, the set of keys and the order, and preserves the invariant |
| `Properties.UpdateMerges` | app.py:41-48 | on a stored id, the answer is the old record with each given field replaced and each absent field kept; get then answers it; every other record and the order are unchanged |
| `Properties.UpdateAcceptsEmpty` | app.py:46-47 | an empty string given for the name overwrites the stored name, and the absent phone is kept |
| `Contacts.Delete` | app.py:51-56 | fails with NotFound, changing nothing, exactly when the id is absent; otherwise removes exactly that key, keeps the other keys in their relative order, answers the confirmation message and preserves the invariant |
| `Properties.DeleteIsFinal` | app.py:53-56 | after a successful delete, get, update and a second delete of that id all answer NotFound; the size drops by one; the remaining records are unchanged, are exactly the other listed records, and are listed in their old relative order |
| `Contacts.Without` | app.py:53 | removing a key from the order keeps every other key, in the same relative order, and no duplicates |
| `Contacts.Filter` | app.py:65-68 | the comprehension keeps exactly the records that match, in their original relative order |
| `Contacts.FilterKeepsCount` | app.py:65-68 | each matching record is kept as many times as it occurs, and every other record is dropped |
| `Contacts.Matches` | app.py:67 | the filter condition: the lowered query occurs in the lowered name, or in the phone as stored |
| `Contacts.Present` | app.py:25 | the truthiness test on a field or query, as at app.py:25 and 62: present and not the empty string |
| `Contacts.Merge` | app.py:46-47 | `data.get(key, default)`: the given value when the field is present, the default when it is absent |
| `Contacts.Valid` | app.py:6 | the invariant of the dict: each key appears once in the order, the order and the map have the same keys, and every record's id is its key, at least 1 |
| `Contacts.Error.Status` | app.py:18 | NotFound is answered with 404 and ValidationFailed with 400, as at app.py:18, 26, 43, 55 and 63 |
| `Text.Contains` | app.py:67 | Python's `q in s`: q is a prefix of s or of one of its suffixes |
| `Contacts.Search` | app.py:59-69 | fails with ValidationFailed exactly when the query is absent or empty; otherwise answers exactly the listed records that match the lowered query, as a subsequence of the listing |
| `Properties.SearchIsExact` | app.py:65-68 | a stored record is answered exactly when the lowered query occurs in its lowered name or in its phone as stored |
| `Properties.SearchFindsName` | app.py:61-67 | a stored record whose name contains the query as typed is always found, whatever the case of the letters |
| `Properties.SearchExample` | app.py:61-68 | over Smith and Jones, the query "smi" answers Smith alone |
| `Properties.SearchIgnoresCaseExample` | app.py:61-67 | the query "SMITH" finds a record named "smith" |
| `Properties.PhoneIsCaseSensitive` | app.py:61-67 | the phone is not lowered, so the query "X1" does not find a stored phone "X1" |
| `Text.Lower` | app.py:61 | lowering keeps the length, maps each character by the ASCII letter map, and leaves no upper-case letter |
| `Text.ContainsIffOccurs` | app.py:67 | the scanning definition of `q in s` holds exactly when q occurs in s at some index |
| `Text.ContainsLower` | app.py:67 | if q occurs in s, then lower(q) occurs in lower(s) |
| `Text.MissingChar` | app.py:67 | a query holding a character that s lacks does not occur in s |
| `Properties.DenseAddIsFresh` | app.py:29-30 | while the keys are exactly 1..size, add assigns a fresh id, grows the directory by one, appends the id to the order, and keeps the keys 1..size |
| `Properties.DeleteThenAddOverwrites` | app.py:29-30 | with keys 1..n, deleting a key k < n and then adding assigns id n. Key n is still stored, so its record is replaced and the size stays n-1. The old record n survives only if it equals the new one |
| `Properties.IdCollisionExample` | app.py:29-30 | from start-up, add Ann, add Bob, delete 1, add Cid: Bob and Cid are both given id 2, and only Cid remains |
| `App.TelephoneDirectory.constructor` | app.py:6 | the directory starts empty and valid |
| `App.TelephoneDirectory.AddContact` | app.py:22-35 | keeps the invariant, fails with ValidationFailed on a missing or empty field, and otherwise stores the answered record under old size plus 1; the new state is exactly the one `Contacts.Add` gives |
| `App.TelephoneDirectory.UpdateContact` | app.py:38-48 | keeps the invariant, fails with NotFound on an absent id, and otherwise answers the stored record after assigning the name and then the phone; the new state is exactly the one `Contacts.Update` gives |
| `App.TelephoneDirectory.DeleteContact` | app.py:51-56 | keeps the invariant, pops the key, and fails with NotFound when it was absent; the new state is exactly the one `Contacts.Delete` gives |
| `App.CollisionSession` | app.py:29-30 | one directory object driven through add, add, delete 1, add hands out id 2 twice, and afterwards lists only the last record, not Bob's |

## Left out

- Flask itself is not modelled: app construction, routes, `request.json` and `request.args` parsing, `jsonify`, and `app.run`. Inputs are optional strings. Outcomes are a result datatype. Only the error statuses are recorded, by `Error.Status` (404 and 400).
- `get_contacts` answers the dict as a JSON object. The key conversion to strings and any key ordering by the JSON encoder are not modelled; `List` gives the records in the dict's iteration order.
- The exact error and success message bodies are not modelled, except the delete confirmation "Contact deleted".
- A request body that is not a JSON object makes `data.get` raise, and the server answers 500. That path is not modelled.
- JSON values that are not strings are not modelled, including `null` given for a field to update. Truthiness is modelled only for optional strings.
- `str.lower()` is modelled on ASCII letters only; full Unicode case mapping is left out.
- Flask's `int` route converter only accepts non-negative ids. The model accepts any integer id; a negative id is never a key, so it answers NotFound.
- Concurrency is not modelled. `app.run(debug=True)` starts Flask's development server, which handles each request on its own thread, and `app.py` has no locking. The model treats each handler as one atomic step. The race in which two concurrent `add_contact` calls both read `len` before either inserts, get the same id, and the second overwrites the first, is not modelled.
- Authentication, persistence and a monotonic id counter are not modelled because `app.py` has none of them.
