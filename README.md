# Balance wheel: snapshot store and colour rule

A model of the two pieces of logic inside the balance wheel app
(`balance_wheel.py`), a form where a user rates six life categories
(Physical, Emotional, Professional, Creativity, Financial, Adventures) from 0
to 10, writes a note for each, and saves the result as a timestamped snapshot.

- **Snapshot store** (`store.dfy`, module `Store`). The history is a
  dictionary from timestamp string to snapshot that keeps insertion order.
  The class `History` holds that order as `keys: seq<string>` and the
  contents as `snapshots: map<string, Snapshot>`. `Save`, `Delete` and
  `Reset` change them in place. `CollectInput` is the per-category loop that
  fills the form: it starts each slider and note box from the last-inserted
  snapshot, falling back field by field to rating 5 and the empty note.
  `SaveCurrentInput` is the save button: it collects the form and saves it.
  `SelectorOptions` and `History.NewestFirst` are the two newest-first key
  listings.
- **Colour rule** (`chart.dfy`, module `Chart`). From the six ratings, every
  category at the maximum is green. Otherwise, every category at the minimum
  is red. Every other category keeps its fixed base colour (`Wheel.BaseColor`).
  `ChooseColors` builds the list with the source's append loop and is proved
  equal to the specification function `Colors`. The lemmas state the rule's
  properties about `Colors`.
- **Listings** (`listing.dfy`, module `Listing`). Reversal, and Python's
  string order as lexicographic order on code points (`LexLe`). The
  descending sort is insertion sort (`SortDescending`). It is proved to be a
  permutation, to be descending, and to be the only descending arrangement
  of a set of distinct keys. So it agrees with `sorted(keys, reverse=True)`
  whatever algorithm that uses.
- **Vocabulary** (`wheel.dfy`, module `Wheel`). The categories in declared
  order, the colours, and the snapshot shape. Each entry's rating and note
  are `Option`s: a history read back from an imported file is not checked
  against the schema, and the form's look-ups fall back per field.

The clock is a parameter: `Save` takes the timestamp. The widgets are
parameters too. `CollectInput` takes the values the user entered, as maps; a
category missing from a map means its widget was left at its default. An
entered rating lies within 0..10, the slider's range.

Two points where the code decides behaviour that a quick reading could take otherwise:

- Ties in the colour rule. The comments "highlight highest" and "highlight
  lowest" (balance_wheel.py:145, 147) suggest a single slice each, but the
  code tests "equals the maximum" before "equals the minimum" for every
  category. So EVERY category tied at the maximum is
  green and EVERY category tied at the minimum is red, not only the first
  one. For ratings 10, 2, 2, 5, 5, 5 both 2s are red (`Chart.TiedMinimumExample`).
  When all ratings are equal, everything is green and nothing is red. The
  model follows the code.
- Overwriting a key. `history[ts] = ...` on an existing timestamp keeps that
  key's original insertion position; it does not move to the end. The
  latest snapshot therefore changes only when the overwritten key was already
  the last one (`Store.LatestAfterOverwrite`).

## Model

| member | source | states |
|---|---|---|
| `Wheel.BaseColor` | balance_wheel.py:80-87 | no category's base colour is one of the highlights, green or red |
| `Wheel.IndexOf` | balance_wheel.py:77 | each category has exactly one position in the declared order |
| `Wheel.AllCategoriesListed` | balance_wheel.py:77 | the declared order lists every category |
| `Chart.MaxOf` | balance_wheel.py:139 | the maximum is one of the ratings and no rating exceeds it |
| `Chart.MinOf` | balance_wheel.py:140 | the minimum is one of the ratings and no rating is below it |
| `Chart.ColorFor` | balance_wheel.py:144-149 | one category's colour: green exactly at the maximum, red exactly at the minimum below the maximum, its base colour exactly otherwise |
| `Chart.Colors` | balance_wheel.py:142-149 | the colour list has one entry per category, each green, red or that category's own base colour |
| `Chart.ChooseColors` | balance_wheel.py:142-149 | the append loop yields exactly the specified colour list: one colour per category, in declared order |
| `Chart.GreenIffMax` | balance_wheel.py:144-145 | a category is green if and only if its rating equals the maximum, for every tied category |
| `Chart.RedIffMinBelowMax` | balance_wheel.py:146-147 | a category is red if and only if its rating equals the minimum and differs from the maximum |
| `Chart.BaseIffStrictlyBetween` | balance_wheel.py:148-149 | a category has its base colour if and only if its rating lies strictly between minimum and maximum |
| `Chart.SomeGreen` | balance_wheel.py:139-145 | at least one category is green |
| `Chart.SomeRedIffSpread` | balance_wheel.py:139-147 | some category is red if and only if the minimum is below the maximum |
| `Chart.UniformAllGreen` | balance_wheel.py:144-145 | when all ratings are equal, every category is green (hence none red) |
| `Chart.TiedMinimumExample` | balance_wheel.py:142-149 | ratings 10,2,2,5,5,5 give green, red, red, teal, grey, orange |
| `Listing.Reversed` | balance_wheel.py:102 | the reversed list has the same length and holds the k-th key from the end at position k |
| `Listing.ReversedPermutes` | balance_wheel.py:102 | reversing neither adds nor drops a key |
| `Listing.LexLe` | balance_wheel.py:183 | Python's string order: a prefix comes first and a string never precedes its own proper prefix, otherwise the first differing character decides by code point |
| `Listing.LexTotal` | balance_wheel.py:183 | any two strings are comparable |
| `Listing.LexAntisymmetric` | balance_wheel.py:183 | two strings each at most the other are equal |
| `Listing.LexTransitive` | balance_wheel.py:183 | string order is transitive |
| `Listing.Insert` | balance_wheel.py:183 | inserting adds exactly the one key to the multiset of keys |
| `Listing.SortDescending` | balance_wheel.py:183 | the sorted listing is a permutation of the keys |
| `Listing.SortDescendingIsDescending` | balance_wheel.py:183 | the sorted listing is in descending string order |
| `Listing.DescendingUnique` | balance_wheel.py:227 | two descending arrangements of the same distinct keys are equal |
| `Store.LatestSnapshot` | balance_wheel.py:116 | nothing for an empty history, otherwise the snapshot under the last-inserted key |
| `Store.DefaultRating` | balance_wheel.py:120 | 5 for an empty history or a missing field, otherwise the latest snapshot's rating; within 0..10 when that snapshot is well formed |
| `Store.DefaultNote` | balance_wheel.py:121 | the empty note for an empty history or a missing field, otherwise the latest snapshot's note |
| `Store.ViewSnapshot` | balance_wheel.py:110-112 | succeeds exactly when every category has both fields (a missing one raises `KeyError` in the source), and then returns each category's rating in declared order and its note |
| `Store.SelectorOptions` | balance_wheel.py:102 | "(Current Input)" first, then the keys in reverse insertion order |
| `Store.BuildSnapshot` | balance_wheel.py:172-175 | the saved snapshot has every category, with the i-th rating and that category's note |
| `Store.RemoveKey` | balance_wheel.py:233 | removing a key leaves exactly the other keys |
| `Store.RemoveKeyAt` | balance_wheel.py:233 | with unique keys, removal cuts out exactly that key's position; the others keep their order |
| `Store.DeleteConsistent` | balance_wheel.py:233 | after a delete the key order and the dictionary still agree and have no duplicate |
| `Store.SaveConsistent` | balance_wheel.py:171-175 | after a save, new key or overwrite, the key order and the dictionary still agree and have no duplicate |
| `Store.EmptyHistoryDefaults` | balance_wheel.py:116-121 | with an empty history every rating starts at 5 and every note empty |
| `Store.LatestAfterSaveNew` | balance_wheel.py:171-175 | saving under a new timestamp makes that snapshot the latest |
| `Store.LatestAfterOverwrite` | balance_wheel.py:172 | overwriting a key changes the latest snapshot only if that key was last inserted |
| `Store.LatestAfterDelete` | balance_wheel.py:233 | deleting the last key makes the previous one latest, or empties the history; deleting another key leaves the latest unchanged |
| `Store.DefaultsOfSaved` | balance_wheel.py:120-121 | starting the form from a saved snapshot gives back each saved rating and note |
| `Store.ViewAfterSave` | balance_wheel.py:110-112 | viewing a snapshot that Save wrote gives back exactly the ratings and notes it was given |
| `Store.ViewAgreesWithDefaults` | balance_wheel.py:110-121 | on a complete snapshot, the viewer and the form's defaults show the same values |
| `Store.SavedIsWellFormed` | balance_wheel.py:127-175 | a snapshot saved from slider values has all six categories, both fields and ratings in 0..10 |
| `Store.SelectorListsEachKeyOnce` | balance_wheel.py:102 | after "(Current Input)" the selector shows every key exactly once and no key twice |
| `Store.NewestFirstListsEachKeyOnce` | balance_wheel.py:183 | the dashboard and manage lists show every key exactly once, in descending order, and are the only such arrangement |
| `Store.History.constructor` | balance_wheel.py:90 | a history starts empty |
| `Store.History.Loaded` | balance_wheel.py:91-94 | a loaded history has the file's keys in the file's order |
| `Store.History.Save` | balance_wheel.py:171-175 | the key maps to the new snapshot and all other keys are unchanged; a new key is appended, an existing one keeps its place and the count does not grow; ratings in 0..10 give a well-formed snapshot |
| `Store.History.Delete` | balance_wheel.py:233 | exactly the key is removed; the other keys keep their snapshots and relative order |
| `Store.History.Reset` | balance_wheel.py:240 | the history is empty |
| `Store.History.CollectInput` | balance_wheel.py:116-133 | slider values are within 0..10; one rating per category in declared order and a note for every category: the user's value if entered, else the latest snapshot's field, else 5 or the empty note; all ratings within 0..10 when the latest snapshot is well formed or the history is empty |
| `Store.History.SaveCurrentInput` | balance_wheel.py:117-175 | the snapshot stored under the timestamp has every category, each with the entered slider and note values, else the latest snapshot's field, else 5 or the empty note; other keys unchanged; the new snapshot is well formed when the latest one was or the history was empty |
| `Store.History.NewestFirst` | balance_wheel.py:227 | the listing is descending, has no duplicate and holds exactly the history's keys |

## Left out

- File I/O is not modelled: reading and rewriting the JSON file, `os.path.exists` and `os.remove`. JSON encoding and decoding are left out too. That includes the silent fall-back to an empty history when decoding fails, which stands as the plain constructor.
- Export and import (download and upload of the JSON file) are library I/O and are not modelled. An upload only rewrites the file; the in-memory history of the running pass is not replaced.
- Reading the clock (`datetime.now().strftime`) is not modelled: `Save` takes the timestamp as a parameter. So the model does not show that string order matches time order for the zero-padded format.
- Widgets are not modelled: page configuration, CSS, cards, sliders and text areas, and the notes display that skips blank notes. Widget values are parameters.
- The session-state refresh flag and `experimental_rerun` are framework lifecycle and are not modelled.
- The matplotlib pie and the pandas tables are foreign library calls. Only the colour list handed to the pie is modelled.
- Store.History.CollectInput: promises ratings within 0..10 only when the latest snapshot is well formed. A default outside 0..10 can only come from an imported file, and what the slider does with it (clamping or an error) is widget behaviour that is not modelled.
- Store.History.Delete: requires the key to be present, as the delete buttons are only offered for existing keys. On a missing key the source would raise `KeyError`.
