/** The diary's entry store: one persisted record mapping date keys to entry
    text, read back whole and written back whole by every change. */
module Store {

  import opened Results
  import opened Text

  /** The decoded record: date key to entry text. */
  type Diaries = map<string, string>

  /** What the editor shows for `date`: `diaries[date] || ''`. */
  function EntryText(d: Diaries, date: string): (text: string)
    ensures text == "" <==> !HasEntry(d, date)
    ensures text != "" ==> text == d[date]
  {
    var v := Lookup(d, date);
    if Truthy(v) then v.value else ""
  }

  /** The property access `diaries[date]`: the stored text, or `undefined`. */
  function Lookup(d: Diaries, date: string): Option<string>
  {
    if date in d then Some(d[date]) else None
  }

  /** JavaScript truthiness of a looked-up text: `undefined` and the empty
      string are falsy, every other string is truthy. */
  predicate Truthy(v: Option<string>)
  {
    v.Some? && v.value != ""
  }

  /** The `has-entry` marker of a day cell, `if (diaries[dateStr])`: the date
      is present and its text is not the empty string. */
  predicate HasEntry(d: Diaries, date: string): (b: bool)
    ensures b <==> date in d && d[date] != ""
  {
    Truthy(Lookup(d, date))
  }

  /** On a record the write paths keep clean, a day is marked exactly when
      its key is present. */
  lemma HasEntryOnCleanRecord(d: Diaries, date: string)
    requires Clean(d)
    ensures HasEntry(d, date) <==> date in d
  {
  }

  /** What every write path keeps: no stored text is blank, and none carries
      white space at either end. */
  predicate Clean(d: Diaries)
  {
    forall k :: k in d ==> d[k] != "" && Trim(d[k]) == d[k]
  }

  /** The change `saveDiaryEntry` makes: blank content removes the key,
      anything else stores the trimmed content; no other key changes. */
  function Upsert(d: Diaries, date: string, content: string): (r: Diaries)
    ensures date in r <==> !Blank(content)
    ensures date in r ==> r[date] == Trim(content)
    ensures forall k :: k != date ==> (k in r <==> k in d)
    ensures forall k :: k != date && k in d ==> r[k] == d[k]
  {
    if Trim(content) == "" then d - {date} else d[date := Trim(content)]
  }

  /** The change `deleteDiaryEntry` makes: the key is gone and nothing else
      changes. */
  function Remove(d: Diaries, date: string): (r: Diaries)
    ensures date !in r
    ensures forall k :: k != date ==> (k in r <==> k in d)
    ensures forall k :: k != date && k in d ==> r[k] == d[k]
    ensures |r| == if date in d then |d| - 1 else |d|
  {
    d - {date}
  }

  lemma UpsertKeepsClean(d: Diaries, date: string, content: string)
    requires Clean(d)
    ensures Clean(Upsert(d, date, content))
  {
    var r := Upsert(d, date, content);
    TrimIdempotent(content);
    forall k | k in r
      ensures r[k] != "" && Trim(r[k]) == r[k]
    {
      if k != date {
        assert k in d && r[k] == d[k];
      }
    }
  }

  lemma RemoveKeepsClean(d: Diaries, date: string)
    requires Clean(d)
    ensures Clean(Remove(d, date))
  {
  }

  /** Saving non-blank text and opening the day again shows the trimmed text,
      and the day is marked as having an entry. */
  lemma SaveThenRead(d: Diaries, date: string, content: string)
    requires !Blank(content)
    ensures EntryText(Upsert(d, date, content), date) == Trim(content)
    ensures HasEntry(Upsert(d, date, content), date)
  {
  }

  /** Saving white space only deletes the entry, whatever was there. */
  lemma BlankSaveDeletes(d: Diaries, date: string, content: string)
    requires Blank(content)
    ensures Upsert(d, date, content) == Remove(d, date)
    ensures EntryText(Upsert(d, date, content), date) == ""
  {
  }

  /** Deleting an absent key leaves the record as it was, so deleting twice
      is deleting once. */
  lemma RemoveIdempotent(d: Diaries, date: string)
    ensures date !in d ==> Remove(d, date) == d
    ensures Remove(Remove(d, date), date) == Remove(d, date)
  {
    if date !in d {
      assert d - {date} == d;
    }
    assert d - {date} - {date} == d - {date};
  }

  /** After a delete the editor shows nothing and the day is unmarked. */
  lemma RemoveThenRead(d: Diaries, date: string)
    ensures EntryText(Remove(d, date), date) == ""
    ensures !HasEntry(Remove(d, date), date)
  {
  }

  /** The persisted record as the storage slot holds it. */
  datatype Slot =
    | Absent                     // no item under the storage key
    | Stored(entries: Diaries)   // a JSON object of strings
    | Unparsable                 // a payload `JSON.parse` rejects

  /** `JSON.parse` throws on a malformed payload, and the exception escapes
      every caller of `getDiaries`. */
  datatype StoreError = MalformedRecord

  class EntryStore {

    var slot: Slot

    constructor (initial: Slot)
      ensures slot == initial
    {
      slot := initial;
    }

    /** `getDiaries`: an absent record reads as the empty diary; a malformed
        one throws rather than reading as empty. */
    function Load(): (r: Result<Diaries, StoreError>)
      reads this
      ensures r.Err? <==> slot.Unparsable?
      ensures slot.Absent? ==> r == Ok(map[])
      ensures slot.Stored? ==> r == Ok(slot.entries)
    {
      match slot
      case Absent => Ok(map[])
      case Stored(entries) => Ok(entries)
      case Unparsable => Err(MalformedRecord)
    }

    /** `saveDiaryEntry`: read the record, apply the change, write the whole
        record back. A malformed record aborts before anything is written. */
    method Save(date: string, content: string) returns (r: Result<(), StoreError>)
      modifies this
      ensures old(Load()).Err? ==> r == Err(MalformedRecord) && slot == old(slot)
      ensures old(Load()).Ok? ==> r == Ok(()) && slot == Stored(Upsert(old(Load()).value, date, content))
    {
      var loaded := Load();
      if loaded.Err? {
        return Err(loaded.error);
      }
      var diaries := loaded.value;
      var trimmed := Trim(content);
      if trimmed == "" {
        diaries := diaries - {date};
      } else {
        diaries := diaries[date := trimmed];
      }
      slot := Stored(diaries);
      r := Ok(());
    }

    /** `deleteDiaryEntry`: read, drop the key, write back. */
    method Delete(date: string) returns (r: Result<(), StoreError>)
      modifies this
      ensures old(Load()).Err? ==> r == Err(MalformedRecord) && slot == old(slot)
      ensures old(Load()).Ok? ==> r == Ok(()) && slot == Stored(Remove(old(Load()).value, date))
    {
      var loaded := Load();
      if loaded.Err? {
        return Err(loaded.error);
      }
      var diaries := loaded.value;
      diaries := diaries - {date};
      slot := Stored(diaries);
      r := Ok(());
    }

    /** The clear-all handler removes the item itself, without reading it, so
        it also clears a malformed record. */
    method ClearAll()
      modifies this
      ensures slot == Absent && Load() == Ok(map[])
    {
      slot := Absent;
    }

    /** `displayDiaryEntry`'s read: the text of `date`, or the empty string. */
    method Entry(date: string) returns (r: Result<string, StoreError>)
      ensures slot.Unparsable? ==> r == Err(MalformedRecord)
      ensures !slot.Unparsable? ==> r.Ok? && (r.value != "" <==> HasEntry(Load().value, date))
      ensures !slot.Unparsable? && r.value != "" ==> r.value == Load().value[date]
    {
      var loaded := Load();
      if loaded.Err? {
        return Err(loaded.error);
      }
      r := Ok(EntryText(loaded.value, date));
    }
  }

}
