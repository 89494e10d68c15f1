/**
 * FileProcessor.java: reading trimmed lines, the write-ahead log's
 * `key:value:timestamp` line format, and replaying the log into a store.
 * A file is the sequence of lines the buffered reader would return.
 */
module FileProcessor {
  import opened Wrappers
  import opened JavaText
  import opened Entries

  /** `readLine`: the next line, trimmed, with the input that follows it;
      `None` at end of input. */
  function ReadLine(input: seq<string>): (r: Option<(string, seq<string>)>)
    ensures r.None? <==> input == []
    ensures r.Some? ==> r.value.0 == Trim(input[0]) && input == [input[0]] + r.value.1
  {
    if input == [] then None else Some((Trim(input[0]), input[1..]))
  }

  /** One write as the log records it. */
  datatype Record = Record(key: int, entry: Entry)

  /** `writeLog`: the line appended for a write. */
  function WriteLog(key: int, value: string, timestamp: int): string
  {
    IntToString(key) + ":" + value + ":" + IntToString(timestamp)
  }

  function RecordLine(r: Record): string
  {
    WriteLog(r.key, r.entry.value, r.entry.timestamp)
  }

  function RecordLines(rs: seq<Record>): (lines: seq<string>)
    ensures |lines| == |rs|
    ensures forall i :: 0 <= i < |rs| ==> lines[i] == RecordLine(rs[i])
  {
    if rs == [] then [] else [RecordLine(rs[0])] + RecordLines(rs[1..])
  }

  /** A record the log can carry faithfully: a colon-free value, a key that
      `Integer.parseInt` accepts and a timestamp that `Long.parseLong` accepts. */
  predicate Loggable(r: Record)
  {
    && ':' !in r.entry.value
    && Int32Min <= r.key <= Int32Max
    && Int64Min <= r.entry.timestamp <= Int64Max
  }

  /** Replay's update rule: only a key already in the store, and only when
      the slot is empty or strictly older. */
  function ApplyRecord(store: Store, r: Record): (s: Store)
    ensures s.Keys == store.Keys
    ensures forall k :: k in store && k != r.key ==> s[k] == store[k]
    ensures r.key in store ==> s[r.key] == (if Supersedes(store[r.key], r.entry) then Some(r.entry) else store[r.key])
  {
    if r.key in store && Supersedes(store[r.key], r.entry) then store[r.key := Some(r.entry)] else store
  }

  /**
   * One iteration of `updateDatastore` on an already trimmed line. The key
   * field is parsed first; a key the store does not hold skips the line
   * without looking at the other fields; otherwise the timestamp field must
   * parse and the record is applied by `ApplyRecord`. (In the Java code a
   * `null` slot skips the timestamp comparison, but the body parses the same
   * field, so the outcome is the same.)
   */
  function ReplayLine(store: Store, line: string): (r: Result<Store, ParseError>)
    ensures r.Success? ==> r.value.Keys == store.Keys
  {
    var fields := Split(line, {':'});
    if |fields| == 0 then Failure(MissingField)
    else
      match ParseInt(fields[0])
      case None => Failure(BadNumber)
      case Some(key) =>
        if key !in store then Success(store)
        else if |fields| < 3 then Failure(MissingField)
        else
          match ParseLong(fields[2])
          case None => Failure(BadNumber)
          case Some(ts) => Success(ApplyRecord(store, Record(key, Entry(fields[1], ts))))
  }

  /** `updateDatastore`: replay every line in file order; the first bad line
      aborts the replay (and with it the server's start-up). */
  function ReplayLog(store: Store, input: seq<string>): (r: Result<Store, ParseError>)
    ensures r.Success? ==> r.value.Keys == store.Keys
    decreases |input|
  {
    match ReadLine(input)
    case None => Success(store)
    case Some((line, rest)) =>
      match ReplayLine(store, line)
      case Failure(e) => Failure(e)
      case Success(s) => ReplayLog(s, rest)
  }

  /** Records applied in order. */
  function ApplyRecords(store: Store, rs: seq<Record>): (s: Store)
    ensures s.Keys == store.Keys
  {
    if rs == [] then store else ApplyRecords(ApplyRecord(store, rs[0]), rs[1..])
  }

  // ---------------------------------------------------------------------
  // Properties
  // ---------------------------------------------------------------------

  /** A written line comes back from `readLine` and `split(":")` as the same
      key, value and timestamp. */
  lemma WrittenLineRoundTrip(r: Record)
    requires Loggable(r)
    ensures Trim(RecordLine(r)) == RecordLine(r)
    ensures Split(RecordLine(r), {':'}) == [IntToString(r.key), r.entry.value, IntToString(r.entry.timestamp)]
    ensures ParseInt(IntToString(r.key)) == Some(r.key)
    ensures ParseLong(IntToString(r.entry.timestamp)) == Some(r.entry.timestamp)
  {
    var a, b, c := IntToString(r.key), r.entry.value, IntToString(r.entry.timestamp);
    var line := RecordLine(r);
    PrintedFieldShape(r.key);
    PrintedFieldShape(r.entry.timestamp);
    assert line == a + [':'] + b + [':'] + c;
    assert line[0] == a[0];
    assert line[|line| - 1] == c[|c| - 1];
    TrimKeepsVisibleEnds(line);
    SplitThree(a, b, c, ':');
    ParsePrinted(r.key, Int32Min, Int32Max);
    ParsePrinted(r.entry.timestamp, Int64Min, Int64Max);
  }

  /** Replaying a written line applies exactly its record. */
  lemma ReplayWrittenLine(store: Store, r: Record)
    requires Loggable(r)
    ensures ReplayLine(store, Trim(RecordLine(r))) == Success(ApplyRecord(store, r))
  {
    WrittenLineRoundTrip(r);
  }

  /** Replaying a log written record by record equals applying the records. */
  lemma {:induction false} ReplayWrittenLog(store: Store, rs: seq<Record>)
    requires forall i :: 0 <= i < |rs| ==> Loggable(rs[i])
    ensures ReplayLog(store, RecordLines(rs)) == Success(ApplyRecords(store, rs))
    decreases |rs|
  {
    if rs != [] {
      var lines := RecordLines(rs);
      assert lines[1..] == RecordLines(rs[1..]);
      ReplayWrittenLine(store, rs[0]);
      ReplayWrittenLog(ApplyRecord(store, rs[0]), rs[1..]);
    }
  }

  /** Replay never adds keys: a record for a key the store lacks is ignored. */
  lemma ReplayIgnoresForeignKey(store: Store, r: Record)
    requires r.key !in store
    ensures ApplyRecord(store, r) == store
  {
  }

  /** Applying the same record twice equals applying it once, and an older
      record after a newer one for the same key changes nothing. */
  lemma ApplyRecordIdempotent(store: Store, r: Record, older: Record)
    requires older.key == r.key && older.entry.timestamp <= r.entry.timestamp
    ensures ApplyRecord(ApplyRecord(store, r), r) == ApplyRecord(store, r)
    ensures r.key in store ==> ApplyRecord(ApplyRecord(store, r), older) == ApplyRecord(store, r)
  {
  }

  lemma {:induction false} ApplyRecordsSnoc(store: Store, rs: seq<Record>, r: Record)
    ensures ApplyRecords(store, rs + [r]) == ApplyRecord(ApplyRecords(store, rs), r)
    decreases |rs|
  {
    if rs != [] {
      assert (rs + [r])[1..] == rs[1..] + [r];
      ApplyRecordsSnoc(ApplyRecord(store, rs[0]), rs[1..], r);
    } else {
      assert ([] + [r])[1..] == [];
    }
  }

  /** `rs[i]` is the record that should survive for key `k`: it has the
      largest timestamp among `k`'s records, and every earlier one is
      strictly older (the earliest of equal maxima wins). */
  ghost predicate IsSurvivor(rs: seq<Record>, k: int, i: int)
  {
    && 0 <= i < |rs|
    && rs[i].key == k
    && (forall j :: 0 <= j < |rs| && rs[j].key == k ==> rs[j].entry.timestamp <= rs[i].entry.timestamp)
    && (forall j :: 0 <= j < i && rs[j].key == k ==> rs[j].entry.timestamp < rs[i].entry.timestamp)
  }

  /** A later record that is for another key, or no newer, keeps the survivor. */
  lemma SurvivorStays(init: seq<Record>, last: Record, k: int, i: int)
    requires IsSurvivor(init, k, i)
    requires last.key != k || last.entry.timestamp <= init[i].entry.timestamp
    ensures IsSurvivor(init + [last], k, i)
  {
    var rs := init + [last];
    forall j | 0 <= j < |rs| && rs[j].key == k
      ensures rs[j].entry.timestamp <= rs[i].entry.timestamp
    {
      if j < |init| {
        assert rs[j] == init[j];
      }
    }
  }

  /** A later record for the key, strictly newer than all before it, survives. */
  lemma SurvivorIsLast(init: seq<Record>, last: Record, k: int)
    requires last.key == k
    requires forall j :: 0 <= j < |init| && init[j].key == k ==> init[j].entry.timestamp < last.entry.timestamp
    ensures IsSurvivor(init + [last], k, |init|)
  {
    var rs := init + [last];
    forall j | 0 <= j < |init| ensures rs[j] == init[j] {
    }
  }

  /**
   * Replaying records into an owned slot that starts `null` leaves the
   * slot `null` exactly when no record names the key, and otherwise holds
   * the survivor's entry.
   */
  lemma {:induction false} ReplayKeepsSurvivor(store: Store, rs: seq<Record>, k: int)
    requires k in store && store[k].None?
    ensures ApplyRecords(store, rs)[k].None? <==> forall j :: 0 <= j < |rs| ==> rs[j].key != k
    ensures ApplyRecords(store, rs)[k].Some? ==>
      exists i :: IsSurvivor(rs, k, i) && ApplyRecords(store, rs)[k] == Some(rs[i].entry)
    decreases |rs|
  {
    if rs == [] {
      return;
    }
    var n := |rs| - 1;
    var init, last := rs[..n], rs[n];
    assert rs == init + [last];
    assert forall j :: 0 <= j < n ==> rs[j] == init[j];
    ApplyRecordsSnoc(store, init, last);
    ReplayKeepsSurvivor(store, init, k);
    var before := ApplyRecords(store, init);
    var after := ApplyRecords(store, rs);
    assert after == ApplyRecord(before, last);
    if before[k].None? {
      if last.key == k {
        SurvivorIsLast(init, last, k);
      }
    } else {
      var i :| IsSurvivor(init, k, i) && before[k] == Some(init[i].entry);
      if last.key == k && before[k].value.timestamp < last.entry.timestamp {
        SurvivorIsLast(init, last, k);
      } else {
        SurvivorStays(init, last, k, i);
      }
    }
  }
}
