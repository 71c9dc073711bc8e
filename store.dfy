/**
 * The snapshot store: the history is a dictionary from save timestamp to
 * snapshot that remembers the order in which keys were first inserted.
 * Overwriting an existing key keeps its position; deleting a key removes it
 * from the order. The clock, the JSON file and the widgets are outside the
 * model: timestamps and widget values arrive as parameters.
 */
module Store {
  import opened Wheel
  import opened Listing

  /** The selector's first option, which stands for the editable form. */
  const CurrentInputLabel: string := "(Current Input)"

  /** What a slider and a note box show when the history gives them nothing. */
  const DefaultRatingValue: int := 5
  const DefaultNoteValue: string := ""

  /** A key order and a dictionary that describe one history: no key twice, the same keys in both. */
  ghost predicate Consistent(keys: seq<string>, snapshots: map<string, Snapshot>)
  {
    Distinct(keys) && forall k :: k in snapshots <==> k in keys
  }

  /** The snapshot under the last-inserted key, or nothing for an empty history. */
  function LatestSnapshot(keys: seq<string>, snapshots: map<string, Snapshot>): (latest: Option<Snapshot>)
    requires forall k :: k in keys ==> k in snapshots
    ensures latest.None? <==> keys == []
    ensures keys != [] ==> latest == Some(snapshots[keys[|keys| - 1]])
  {
    if keys == [] then None else Some(snapshots[keys[|keys| - 1]])
  }

  /** The rating a slider starts from: the latest snapshot's, per field, or 5. */
  function DefaultRating(latest: Option<Snapshot>, c: Category): (r: int)
    ensures latest.None? ==> r == DefaultRatingValue
    ensures r != DefaultRatingValue ==> latest.Some? && c in latest.value && latest.value[c].rating == Some(r)
    ensures latest.Some? && c in latest.value && latest.value[c].rating.Some? ==> r == latest.value[c].rating.value
    ensures (latest.None? || WellFormed(latest.value)) ==> MinRating <= r <= MaxRating
  {
    match latest
    case None => DefaultRatingValue
    case Some(s) => if c in s && s[c].rating.Some? then s[c].rating.value else DefaultRatingValue
  }

  /** The text a note box starts from: the latest snapshot's, per field, or the empty note. */
  function DefaultNote(latest: Option<Snapshot>, c: Category): (r: string)
    ensures latest.None? ==> r == DefaultNoteValue
    ensures r != DefaultNoteValue ==> latest.Some? && c in latest.value && latest.value[c].note == Some(r)
    ensures latest.Some? && c in latest.value && latest.value[c].note.Some? ==> r == latest.value[c].note.value
  {
    match latest
    case None => DefaultNoteValue
    case Some(s) => if c in s && s[c].note.Some? then s[c].note.value else DefaultNoteValue
  }

  /** The snapshot Save writes: each category's rating from the parallel list and its note. */
  function BuildSnapshot(ratings: seq<int>, notes: map<Category, string>): (s: Snapshot)
    requires |ratings| == |Categories| && forall c: Category :: c in notes
    ensures forall c: Category :: c in s
    ensures forall i :: 0 <= i < |Categories| ==>
      s[Categories[i]] == Entry(Some(ratings[i]), Some(notes[Categories[i]]))
  {
    AllCategoriesListed();
    map c | c in Categories :: Entry(Some(ratings[IndexOf(c)]), Some(notes[c]))
  }

  /**
   * The ratings and notes shown when a past snapshot is selected. The source
   * indexes every field directly, so a snapshot missing any of them fails
   * (None) instead of falling back to a default.
   */
  function ViewSnapshot(s: Snapshot): (v: Option<(seq<int>, map<Category, string>)>)
    ensures v.Some? <==> forall c: Category :: c in s && s[c].rating.Some? && s[c].note.Some?
    ensures WellFormed(s) ==> v.Some?
    ensures v.Some? ==> |v.value.0| == |Categories| && forall c: Category :: c in v.value.1
    ensures v.Some? ==> forall i :: 0 <= i < |Categories| ==>
      s[Categories[i]] == Entry(Some(v.value.0[i]), Some(v.value.1[Categories[i]]))
  {
    if forall c: Category :: c in s && s[c].rating.Some? && s[c].note.Some? then
      AllCategoriesListed();
      Some((seq(|Categories|, i requires 0 <= i < |Categories| => s[Categories[i]].rating.value),
            map c | c in Categories :: s[c].note.value))
    else None
  }

  /** The selector's options: the form first, then the keys last-inserted first. */
  function SelectorOptions(keys: seq<string>): (options: seq<string>)
    ensures |options| == |keys| + 1 && options[0] == CurrentInputLabel
    ensures forall k :: 1 <= k <= |keys| ==> options[k] == keys[|keys| - k]
  {
    [CurrentInputLabel] + Reversed(keys)
  }

  /** The keys without `ts`, the others in their insertion order. */
  function RemoveKey(keys: seq<string>, ts: string): (r: seq<string>)
    ensures forall k :: k in r <==> k in keys && k != ts
  {
    if keys == [] then []
    else if keys[0] == ts then RemoveKey(keys[1..], ts)
    else [keys[0]] + RemoveKey(keys[1..], ts)
  }

  /** With unique keys, removing `keys[i]` cuts exactly position `i` out of the order. */
  lemma {:induction false} RemoveKeyAt(keys: seq<string>, i: int)
    requires Distinct(keys) && 0 <= i < |keys|
    ensures RemoveKey(keys, keys[i]) == keys[..i] + keys[i + 1..]
  {
    if i == 0 {
      assert keys[0] !in keys[1..];
      RemoveAbsent(keys[1..], keys[0]);
    } else {
      assert keys[1..][i - 1] == keys[i];
      assert Distinct(keys[1..]);
      RemoveKeyAt(keys[1..], i - 1);
      assert keys[..i] == [keys[0]] + keys[1..][..i - 1];
      assert keys[i + 1..] == keys[1..][i..];
    }
  }

  /** Removing a key that is not there changes nothing. */
  lemma {:induction false} RemoveAbsent(keys: seq<string>, ts: string)
    requires ts !in keys
    ensures RemoveKey(keys, ts) == keys
  {
    if keys != [] {
      RemoveAbsent(keys[1..], ts);
      assert keys == [keys[0]] + keys[1..];
    }
  }

  /** Delete keeps the history consistent. */
  lemma DeleteConsistent(keys: seq<string>, snapshots: map<string, Snapshot>, ts: string)
    requires Consistent(keys, snapshots) && ts in snapshots
    ensures Consistent(RemoveKey(keys, ts), snapshots - {ts})
  {
    var i :| 0 <= i < |keys| && keys[i] == ts;
    RemoveKeyAt(keys, i);
    CutKeepsDistinct(keys, i);
  }

  /** Cutting one position out of a sequence without duplicates leaves none. */
  lemma CutKeepsDistinct<T>(s: seq<T>, i: int)
    requires Distinct(s) && 0 <= i < |s|
    ensures Distinct(s[..i] + s[i + 1..])
  {
    var r := s[..i] + s[i + 1..];
    forall a, b | 0 <= a < b < |r| ensures r[a] != r[b] {
      var a' := if a < i then a else a + 1;
      var b' := if b < i then b else b + 1;
      assert r[a] == s[a'] && r[b] == s[b'];
    }
  }

  /** Save keeps the history consistent, whether the key is new or overwritten. */
  lemma SaveConsistent(keys: seq<string>, snapshots: map<string, Snapshot>, ts: string, s: Snapshot)
    requires Consistent(keys, snapshots)
    ensures Consistent(if ts in snapshots then keys else keys + [ts], snapshots[ts := s])
  {
  }

  /** With an empty history, every slider starts at 5 and every note box empty. */
  lemma EmptyHistoryDefaults(c: Category)
    ensures DefaultRating(LatestSnapshot([], map[]), c) == 5
    ensures DefaultNote(LatestSnapshot([], map[]), c) == ""
  {
  }

  /** Saving under a new timestamp makes that snapshot the latest one. */
  lemma LatestAfterSaveNew(keys: seq<string>, snapshots: map<string, Snapshot>, ts: string, s: Snapshot)
    requires Consistent(keys, snapshots) && ts !in snapshots
    ensures LatestSnapshot(keys + [ts], snapshots[ts := s]) == Some(s)
  {
  }

  /**
   * Overwriting an existing timestamp does not move it to the end: the latest
   * snapshot changes only if the overwritten key already was the last one.
   */
  lemma LatestAfterOverwrite(keys: seq<string>, snapshots: map<string, Snapshot>, ts: string, s: Snapshot)
    requires Consistent(keys, snapshots) && ts in snapshots
    ensures LatestSnapshot(keys, snapshots[ts := s])
            == if ts == keys[|keys| - 1] then Some(s) else LatestSnapshot(keys, snapshots)
  {
  }

  /** Deleting the last key makes the one inserted before it the latest; deleting any other key changes nothing. */
  lemma LatestAfterDelete(keys: seq<string>, snapshots: map<string, Snapshot>, ts: string)
    requires Consistent(keys, snapshots) && ts in snapshots
    ensures forall k :: k in RemoveKey(keys, ts) ==> k in snapshots - {ts}
    ensures LatestSnapshot(RemoveKey(keys, ts), snapshots - {ts})
            == if ts != keys[|keys| - 1] then LatestSnapshot(keys, snapshots)
               else if |keys| == 1 then None
               else Some(snapshots[keys[|keys| - 2]])
  {
    var i :| 0 <= i < |keys| && keys[i] == ts;
    RemoveKeyAt(keys, i);
    var r := keys[..i] + keys[i + 1..];
    if i < |keys| - 1 {
      assert keys[i] != keys[|keys| - 1];
      assert r[|r| - 1] == keys[|keys| - 1];
    } else if |keys| > 1 {
      assert r == keys[..|keys| - 1];
      assert r[|r| - 1] == keys[|keys| - 2];
    } else {
      assert r == [];
    }
  }

  /** What Save wrote is what a later look-up gives back: each field of every category. */
  lemma DefaultsOfSaved(ratings: seq<int>, notes: map<Category, string>, i: int)
    requires |ratings| == |Categories| && (forall c: Category :: c in notes) && 0 <= i < |Categories|
    ensures DefaultRating(Some(BuildSnapshot(ratings, notes)), Categories[i]) == ratings[i]
    ensures DefaultNote(Some(BuildSnapshot(ratings, notes)), Categories[i]) == notes[Categories[i]]
  {
  }

  /** Viewing a snapshot that Save wrote gives back the ratings and notes it was given. */
  lemma ViewAfterSave(ratings: seq<int>, notes: map<Category, string>)
    requires |ratings| == |Categories| && forall c: Category :: c in notes
    ensures ViewSnapshot(BuildSnapshot(ratings, notes)) == Some((ratings, notes))
  {
    var s := BuildSnapshot(ratings, notes);
    var v := ViewSnapshot(s);
    assert v.Some?;
    assert v.value.0 == ratings;
    assert v.value.1 == notes by {
      forall c: Category ensures c in v.value.1 && v.value.1[c] == notes[c] {
        assert s[Categories[IndexOf(c)]] == Entry(Some(ratings[IndexOf(c)]), Some(notes[c]));
      }
    }
  }

  /** Viewing a snapshot and starting the form from it agree wherever viewing succeeds. */
  lemma ViewAgreesWithDefaults(s: Snapshot, i: int)
    requires ViewSnapshot(s).Some? && 0 <= i < |Categories|
    ensures DefaultRating(Some(s), Categories[i]) == ViewSnapshot(s).value.0[i]
    ensures DefaultNote(Some(s), Categories[i]) == ViewSnapshot(s).value.1[Categories[i]]
  {
  }

  /** A snapshot Save wrote from slider values is well formed. */
  lemma SavedIsWellFormed(ratings: seq<int>, notes: map<Category, string>)
    requires |ratings| == |Categories| && forall c: Category :: c in notes
    requires forall i :: 0 <= i < |ratings| ==> MinRating <= ratings[i] <= MaxRating
    ensures WellFormed(BuildSnapshot(ratings, notes))
  {
  }

  /**
   * The selector lists the form, then every key exactly once, newest
   * insertion first.
   */
  lemma SelectorListsEachKeyOnce(keys: seq<string>)
    requires Distinct(keys)
    ensures Distinct(SelectorOptions(keys)[1..])
    ensures forall x :: x in keys ==> multiset(SelectorOptions(keys)[1..])[x] == 1
  {
    var r := SelectorOptions(keys)[1..];
    assert r == Reversed(keys);
    ReversedPermutes(keys);
    PermutationKeepsDistinct(keys, r);
    forall x | x in keys ensures multiset(r)[x] == 1 {
      DistinctOnce(keys, x);
    }
  }

  /**
   * The dashboard and manage lists hold every key exactly once, in descending
   * string order, and are the only such arrangement of the keys.
   */
  lemma NewestFirstListsEachKeyOnce(keys: seq<string>)
    requires Distinct(keys)
    ensures Descending(SortDescending(keys)) && Distinct(SortDescending(keys))
    ensures forall x :: x in keys ==> multiset(SortDescending(keys))[x] == 1
    ensures forall x :: x in SortDescending(keys) <==> x in keys
    ensures forall t :: Descending(t) && multiset(t) == multiset(keys) ==> t == SortDescending(keys)
  {
    var r := SortDescending(keys);
    SortDescendingIsDescending(keys);
    PermutationKeepsDistinct(keys, r);
    forall x | x in keys ensures multiset(r)[x] == 1 {
      DistinctOnce(keys, x);
    }
    forall x ensures x in r <==> x in keys {
      assert x in r <==> x in multiset(r);
      assert x in keys <==> x in multiset(keys);
    }
    forall t | Descending(t) && multiset(t) == multiset(keys) ensures t == r {
      DescendingUnique(r, t);
    }
  }

  /** The history of one session: keys in insertion order and the snapshot of each key. */
  class History {
    var keys: seq<string>
    var snapshots: map<string, Snapshot>

    ghost predicate Valid()
      reads this
    {
      Consistent(keys, snapshots)
    }

    /** No backing file, or one that did not parse: the history starts empty. */
    constructor ()
      ensures Valid() && keys == [] && snapshots == map[]
    {
      keys := [];
      snapshots := map[];
    }

    /** A history read back from the backing file, keys in the file's order. */
    constructor Loaded(order: seq<string>, entries: map<string, Snapshot>)
      requires Consistent(order, entries)
      ensures Valid() && keys == order && snapshots == entries
    {
      keys := order;
      snapshots := entries;
    }

    /**
     * Stores the form's ratings and notes under `ts`. A new key goes to the end
     * of the order; an existing key is overwritten in place.
     */
    method Save(ts: string, ratings: seq<int>, notes: map<Category, string>)
      requires Valid()
      requires |ratings| == |Categories| && forall c: Category :: c in notes
      modifies this
      ensures Valid()
      ensures snapshots == old(snapshots)[ts := BuildSnapshot(ratings, notes)]
      ensures keys == if ts in old(snapshots) then old(keys) else old(keys) + [ts]
      ensures |keys| == if ts in old(snapshots) then |old(keys)| else |old(keys)| + 1
      ensures ts !in old(snapshots) ==> LatestSnapshot(keys, snapshots) == Some(BuildSnapshot(ratings, notes))
      ensures (forall i :: 0 <= i < |ratings| ==> MinRating <= ratings[i] <= MaxRating) ==> WellFormed(snapshots[ts])
    {
      SaveConsistent(keys, snapshots, ts, BuildSnapshot(ratings, notes));
      if forall i :: 0 <= i < |ratings| ==> MinRating <= ratings[i] <= MaxRating {
        SavedIsWellFormed(ratings, notes);
      }
      if ts !in snapshots {
        keys := keys + [ts];
      }
      snapshots := snapshots[ts := BuildSnapshot(ratings, notes)];
    }

    /** Removes the snapshot under `ts`; the delete buttons only offer existing keys. */
    method Delete(ts: string)
      requires Valid() && ts in snapshots
      modifies this
      ensures Valid()
      ensures snapshots == old(snapshots) - {ts}
      ensures keys == RemoveKey(old(keys), ts)
      ensures |keys| == |old(keys)| - 1
      ensures forall i :: 0 <= i < |old(keys)| && old(keys)[i] == ts ==>
        keys == old(keys)[..i] + old(keys)[i + 1..]
    {
      DeleteConsistent(keys, snapshots, ts);
      ghost var i :| 0 <= i < |keys| && keys[i] == ts;
      RemoveKeyAt(keys, i);
      keys := RemoveKey(keys, ts);
      snapshots := snapshots - {ts};
    }

    /** Clears every snapshot. */
    method Reset()
      modifies this
      ensures Valid() && keys == [] && snapshots == map[]
    {
      keys := [];
      snapshots := map[];
    }

    /**
     * Walks the categories in declared order and collects what each slider and
     * note box holds: the user's value where one was entered, the latest
     * snapshot's value (or 5 and the empty note) otherwise.
     */
    method CollectInput(sliders: map<Category, int>, texts: map<Category, string>)
      returns (ratings: seq<int>, notes: map<Category, string>)
      requires Valid()
      requires forall c :: c in sliders ==> MinRating <= sliders[c] <= MaxRating
      ensures |ratings| == |Categories|
      ensures forall i :: 0 <= i < |Categories| ==>
        ratings[i] == if Categories[i] in sliders then sliders[Categories[i]]
                      else DefaultRating(LatestSnapshot(keys, snapshots), Categories[i])
      ensures forall c: Category :: c in notes
      ensures forall c: Category ::
        notes[c] == if c in texts then texts[c] else DefaultNote(LatestSnapshot(keys, snapshots), c)
      ensures keys == [] || WellFormed(snapshots[keys[|keys| - 1]]) ==>
        forall i :: 0 <= i < |Categories| ==> MinRating <= ratings[i] <= MaxRating
    {
      var latest := LatestSnapshot(keys, snapshots);
      ratings := [];
      notes := map[];
      var i := 0;
      while i < |Categories|
        invariant 0 <= i <= |Categories| && |ratings| == i
        invariant forall j :: 0 <= j < i ==>
          ratings[j] == if Categories[j] in sliders then sliders[Categories[j]]
                        else DefaultRating(latest, Categories[j])
        invariant forall c: Category :: c in notes <==> IndexOf(c) < i
        invariant forall c: Category :: c in notes ==>
          notes[c] == if c in texts then texts[c] else DefaultNote(latest, c)
      {
        var cat := Categories[i];
        var rating := if cat in sliders then sliders[cat] else DefaultRating(latest, cat);
        var note := if cat in texts then texts[cat] else DefaultNote(latest, cat);
        ratings := ratings + [rating];
        notes := notes[cat := note];
        i := i + 1;
      }
      if keys == [] || WellFormed(snapshots[keys[|keys| - 1]]) {
        forall j | 0 <= j < |Categories| ensures MinRating <= ratings[j] <= MaxRating {
          assert latest.None? || WellFormed(latest.value);
        }
      }
    }

    /**
     * The save button on the form: collects the widgets' values and stores
     * them under `ts`. When the latest snapshot was written by the form, or
     * the history is empty, the new snapshot is well formed as well.
     */
    method SaveCurrentInput(ts: string, sliders: map<Category, int>, texts: map<Category, string>)
      requires Valid()
      requires forall c :: c in sliders ==> MinRating <= sliders[c] <= MaxRating
      modifies this
      ensures Valid() && ts in snapshots
      ensures forall c: Category :: c in snapshots[ts]
      ensures forall i :: 0 <= i < |Categories| ==>
        var c := Categories[i];
        snapshots[ts][c] == Entry(
          Some(if c in sliders then sliders[c] else DefaultRating(old(LatestSnapshot(keys, snapshots)), c)),
          Some(if c in texts then texts[c] else DefaultNote(old(LatestSnapshot(keys, snapshots)), c)))
      ensures forall k :: k in old(snapshots) && k != ts ==> k in snapshots && snapshots[k] == old(snapshots)[k]
      ensures keys == if ts in old(snapshots) then old(keys) else old(keys) + [ts]
      ensures old(keys) == [] || WellFormed(old(snapshots)[old(keys)[|old(keys)| - 1]]) ==>
        WellFormed(snapshots[ts])
    {
      var ratings, notes := CollectInput(sliders, texts);
      Save(ts, ratings, notes);
    }

    /** The keys as the dashboard and the manage list show them. */
    function NewestFirst(): (r: seq<string>)
      reads this
      requires Valid()
      ensures Descending(r) && Distinct(r)
      ensures forall k :: k in r <==> k in snapshots
    {
      NewestFirstListsEachKeyOnce(keys);
      SortDescending(keys)
    }
  }
}
