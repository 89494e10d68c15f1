/** DataStoreEntry.java: one stored version of a key, and the store built from it. */
module Entries {
  import opened Wrappers

  /** A stored version: the value and the coordinator's write time in milliseconds. */
  datatype Entry = Entry(value: string, timestamp: int)

  /** `new DataStoreEntry()`: Java leaves the value `null` (written "" here,
      since every caller sets the value before using the entry) and the
      timestamp 0. */
  function NewEntry(): (e: Entry)
    ensures e.timestamp == 0
  {
    Entry("", 0)
  }

  function SetValue(e: Entry, v: string): (r: Entry)
    ensures r.value == v
    ensures r.timestamp == e.timestamp
  {
    e.(value := v)
  }

  function SetTimestamp(e: Entry, t: int): (r: Entry)
    ensures r.timestamp == t
    ensures r.value == e.value
  {
    e.(timestamp := t)
  }

  /** The order in which the server fills a fresh entry (value, then
      timestamp) yields exactly the pair it was given. */
  lemma FilledEntry(v: string, t: int)
    ensures SetTimestamp(SetValue(NewEntry(), v), t) == Entry(v, t)
    ensures SetValue(SetTimestamp(NewEntry(), t), v) == Entry(v, t)
  {
  }

  /** A node's in-memory store: a key mapped to `None` is a Java `null` slot. */
  type Store = map<int, Option<Entry>>

  /** `HashMap.get`: `None` both for an absent key and for a `null` slot. */
  function Lookup(store: Store, key: int): (r: Option<Entry>)
    ensures r.Some? <==> key in store && store[key].Some?
    ensures r.Some? ==> store[key] == r
  {
    if key in store then store[key] else None
  }

  /** The last-write-wins test: the slot is empty or strictly older. */
  predicate Supersedes(slot: Option<Entry>, incoming: Entry)
  {
    slot.None? || slot.value.timestamp < incoming.timestamp
  }

  /** Once an entry has been stored, offering it again is refused, and so is
      any entry that is not strictly newer. */
  lemma StoredEntryNotSuperseded(e: Entry, other: Entry)
    requires other.timestamp <= e.timestamp
    ensures !Supersedes(Some(e), other)
    ensures !Supersedes(Some(e), e)
  {
  }
}
