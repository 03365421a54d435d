/**
 * The custom-recognizer store service
 * (presidio-recognizers-store/cmd/presidio-recognizers-store/main.go): the
 * recognizer list and the time of its last update are kept under two keys
 * of a key/value cache. JSON is abstracted to the decoded record list, the
 * decimal timestamp to its number, and the cache's failures to a `Faults`
 * parameter of each call.
 */
module RecognizersStore {
  import opened Wrappers

  /** A custom pattern recognizer record. `Score` is a float32 in the source. */
  datatype Recognizer = Recognizer(name: string, score: real, pattern: string, entity: string, language: string)

  const RecognizersKey: string := "custom_recognizers"
  const TimestampKey: string := "custom_recognizers:last_update"

  /**
   * What a cache string holds: `Empty` is "" (which the cache also returns
   * for a missing key), `Records` a JSON array of recognizers, `Stamp` a
   * decimal number of seconds, `Garbled` anything that decodes as neither.
   */
  datatype Value = Empty | Records(items: seq<Recognizer>) | Stamp(seconds: int) | Garbled

  /** The errors the service returns; `Panicked` stands for a Go runtime panic. */
  datatype StoreError =
    | CacheMissing                 // "cache is missing"
    | CacheFailure                 // an error returned by the cache's Get or Set
    | DecodeFailed                 // an error returned by json.Unmarshal
    | AlreadyExists(name: string)  // "custom pattern recognizer with name '..' already exists"
    | NotFound(name: string)       // "custom pattern recognizer with name '..' was not found"
    | NoSuchRecognizer(name: string) // "recognizer with name .. was not found"
    | NoItems                      // "No items were found"
    | NoTimestamp                  // "Failed to find the last update timestamp"
    | Panicked

  /** Which cache calls fail during one service call: every Get, or the Sets of the listed keys. */
  datatype Faults = Faults(getFails: bool, setFails: set<string>)

  const NoFaults := Faults(false, {})

  function Read(entries: map<string, Value>, key: string): Value
  {
    if key in entries then entries[key] else Empty
  }

  /** `recognizersStore.Get(key)`. */
  function Fetch(entries: map<string, Value>, key: string, faults: Faults): Result<Value, StoreError>
  {
    if faults.getFails then Err(CacheFailure) else Ok(Read(entries, key))
  }

  predicate HasName(rs: seq<Recognizer>, name: string)
  {
    exists i :: 0 <= i < |rs| && rs[i].name == name
  }

  predicate UniqueNames(rs: seq<Recognizer>)
  {
    forall i, j :: 0 <= i < j < |rs| ==> rs[i].name != rs[j].name
  }

  /** The first record named `name`. */
  function FirstNamed(rs: seq<Recognizer>, name: string): (r: Option<Recognizer>)
    ensures r.None? <==> !HasName(rs, name)
    ensures r.Some? ==> r.value in rs && r.value.name == name
  {
    if |rs| == 0 then None
    else if rs[0].name == name then Some(rs[0])
    else
      var rest := FirstNamed(rs[1..], name);
      assert HasName(rs, name) ==> HasName(rs[1..], name) by {
        if HasName(rs, name) {
          var i :| 0 <= i < |rs| && rs[i].name == name;
          assert rs[1..][i - 1] == rs[i];
        }
      }
      assert HasName(rs[1..], name) ==> HasName(rs, name) by {
        if HasName(rs[1..], name) {
          var i :| 0 <= i < |rs[1..]| && rs[1..][i].name == name;
          assert rs[i + 1] == rs[1..][i];
        }
      }
      rest
  }

  // setValue

  /**
   * The cache after `setValue(items, timestamp)` and its error: the list
   * is written first, and the timestamp only when that write succeeded.
   */
  function SetValueOutcome(entries: map<string, Value>, items: seq<Recognizer>, timestamp: int, faults: Faults)
    : (map<string, Value>, Result<(), StoreError>)
  {
    if RecognizersKey in faults.setFails then (entries, Err(CacheFailure))
    else
      var listed := entries[RecognizersKey := Records(items)];
      if TimestampKey in faults.setFails then (listed, Err(CacheFailure))
      else (listed[TimestampKey := Stamp(timestamp)], Ok(()))
  }

  /** The timestamp is never newer than the list: it is written only after the list. */
  lemma SetValueOrder(entries: map<string, Value>, items: seq<Recognizer>, timestamp: int, faults: Faults)
    ensures var (after, r) := SetValueOutcome(entries, items, timestamp, faults);
      && (Read(after, TimestampKey) != Read(entries, TimestampKey) ==> Read(after, RecognizersKey) == Records(items))
      && (r.Ok? <==> RecognizersKey !in faults.setFails && TimestampKey !in faults.setFails)
      && (r.Ok? ==> Read(after, RecognizersKey) == Records(items) && Read(after, TimestampKey) == Stamp(timestamp))
      && (forall k :: k != RecognizersKey && k != TimestampKey ==> Read(after, k) == Read(entries, k))
  {
    assert RecognizersKey != TimestampKey;
  }

  // getExistingRecognizers

  /**
   * `getExistingRecognizers` given the result of the Get: a failed Get and
   * an empty value both give the empty list; an undecodable value is an error.
   */
  function Existing(fetched: Result<Value, StoreError>): Result<seq<Recognizer>, StoreError>
  {
    match fetched
    case Err(_) => Ok([])
    case Ok(Empty) => Ok([])
    case Ok(Records(items)) => Ok(items)
    case Ok(_) => Err(DecodeFailed)
  }

  // insertOrUpdateRecognizer

  /**
   * The cache and error after `insertOrUpdateRecognizer(recognizer, isUpdate)` at time `now`:
   * an insert of a new name appends it; an update of a present name writes
   * the list back as it was, because the loop assigns to its copy of the element.
   */
  function InsertOrUpdateOutcome(configured: bool, entries: map<string, Value>, recognizer: Recognizer,
                                 isUpdate: bool, now: int, faults: Faults)
    : (map<string, Value>, Result<(), StoreError>)
  {
    if !configured then (entries, Err(CacheMissing))
    else match Existing(Fetch(entries, RecognizersKey, faults))
      case Err(e) => (entries, Err(e))
      case Ok(existing) =>
        if !isUpdate && HasName(existing, recognizer.name) then (entries, Err(AlreadyExists(recognizer.name)))
        else if isUpdate && !HasName(existing, recognizer.name) then (entries, Err(NotFound(recognizer.name)))
        else SetValueOutcome(entries, if isUpdate then existing else existing + [recognizer], now, faults)
  }

  /** A new record of a new name is the one a later lookup of that name finds. */
  lemma AppendedIsFound(items: seq<Recognizer>, recognizer: Recognizer)
    requires !HasName(items, recognizer.name)
    ensures FirstNamed(items + [recognizer], recognizer.name) == Some(recognizer)
    ensures UniqueNames(items) ==> UniqueNames(items + [recognizer])
  {
    var all := items + [recognizer];
    assert all[|items|] == recognizer;
    var r := FirstNamed(all, recognizer.name);
    assert r.value in items || r.value == recognizer;
  }

  /**
   * An update that succeeds rewrites only the timestamp: the stored list
   * is exactly the one read, so no record changes.
   */
  lemma UpdateKeepsRecords(entries: map<string, Value>, recognizer: Recognizer, now: int)
    requires var ex := Existing(Fetch(entries, RecognizersKey, NoFaults)); ex.Ok? && HasName(ex.value, recognizer.name)
    ensures InsertOrUpdateOutcome(true, entries, recognizer, true, now, NoFaults)
      == (entries[TimestampKey := Stamp(now)], Ok(()))
  {
    var items := Existing(Fetch(entries, RecognizersKey, NoFaults)).value;
    assert Read(entries, RecognizersKey) == Records(items);
    assert entries[RecognizersKey := Records(items)] == entries;
  }

  // applyGet

  /** `applyGet(name)`: the first stored record of that name; no nil check on the cache. */
  function GetOutcome(configured: bool, entries: map<string, Value>, name: string, faults: Faults)
    : Result<seq<Recognizer>, StoreError>
  {
    if !configured then Err(Panicked)
    else match Fetch(entries, RecognizersKey, faults)
      case Err(e) => Err(e)
      case Ok(Empty) => Err(NoSuchRecognizer(name))
      case Ok(Records(items)) =>
        if FirstNamed(items, name).Some? then Ok([FirstNamed(items, name).value]) else Err(NoSuchRecognizer(name))
      case Ok(_) => Err(DecodeFailed)
  }

  /**
   * Inserting a recognizer of a new name into a working cache, then getting
   * that name, gives back exactly the inserted record.
   */
  lemma InsertThenGet(entries: map<string, Value>, recognizer: Recognizer, now: int)
    requires Read(entries, RecognizersKey).Empty? ||
      (Read(entries, RecognizersKey).Records? && !HasName(Read(entries, RecognizersKey).items, recognizer.name))
    ensures var (after, r) := InsertOrUpdateOutcome(true, entries, recognizer, false, now, NoFaults);
      r == Ok(()) && GetOutcome(true, after, recognizer.name, NoFaults) == Ok([recognizer])
  {
    var existing := Existing(Fetch(entries, RecognizersKey, NoFaults)).value;
    assert !HasName(existing, recognizer.name);
    AppendedIsFound(existing, recognizer);
    var after := InsertOrUpdateOutcome(true, entries, recognizer, false, now, NoFaults).0;
    assert Read(after, RecognizersKey) == Records(existing + [recognizer]);
  }

  // applyGetAll

  /** `applyGetAll`: every stored record; an undecodable value reads as no records, its error being dropped. */
  function GetAllOutcome(configured: bool, entries: map<string, Value>, faults: Faults)
    : Result<seq<Recognizer>, StoreError>
  {
    if !configured then Err(CacheMissing)
    else match Fetch(entries, RecognizersKey, faults)
      case Err(e) => Err(e)
      case Ok(Records(items)) => Ok(items)
      case Ok(_) => Ok([])
  }

  /** A second insert of the same name fails and the list keeps one record. */
  lemma ConflictingInserts(entries: map<string, Value>, recognizer: Recognizer, now: int, later: int)
    requires Read(entries, RecognizersKey).Empty?
    ensures var (once, r1) := InsertOrUpdateOutcome(true, entries, recognizer, false, now, NoFaults);
      var (twice, r2) := InsertOrUpdateOutcome(true, once, recognizer, false, later, NoFaults);
      && r1 == Ok(()) && r2 == Err(AlreadyExists(recognizer.name))
      && GetAllOutcome(true, twice, NoFaults) == Ok([recognizer])
  {
    assert [] + [recognizer] == [recognizer];
    var once := InsertOrUpdateOutcome(true, entries, recognizer, false, now, NoFaults).0;
    assert Read(once, RecognizersKey) == Records([recognizer]);
    assert HasName([recognizer], recognizer.name) by {
      assert [recognizer][0].name == recognizer.name;
    }
  }

  // applyDelete

  /**
   * The range loop of `applyDelete` from index `i`. The range reads the
   * array `backing` the slice started with; `len` is the current length
   * of the slice. Removing index `i` shifts `backing[i + 1..len]` down by
   * one in place and leaves a stale copy of the last element behind;
   * `arr[i+1:]` panics once `i + 1` exceeds the current length.
   */
  function DeleteFrom(backing: seq<Recognizer>, len: nat, i: nat, name: string): Result<seq<Recognizer>, StoreError>
    requires len <= |backing| && i <= |backing|
    decreases |backing| - i
  {
    if i == |backing| then Ok(backing[..len])
    else if backing[i].name != name then DeleteFrom(backing, len, i + 1, name)
    else if i + 1 > len then Err(Panicked)
    else DeleteFrom(backing[..i] + backing[i + 1..len] + backing[len - 1..], len - 1, i + 1, name)
  }

  /** The loop run over a stored list. */
  function DeleteLoop(items: seq<Recognizer>, name: string): Result<seq<Recognizer>, StoreError>
  {
    DeleteFrom(items, |items|, 0, name)
  }

  lemma {:induction false} DeleteFromNoMatch(backing: seq<Recognizer>, len: nat, i: nat, name: string)
    requires len <= |backing| && i <= |backing|
    requires forall j :: i <= j < |backing| ==> backing[j].name != name
    ensures DeleteFrom(backing, len, i, name) == Ok(backing[..len])
    decreases |backing| - i
  {
    if i < |backing| {
      DeleteFromNoMatch(backing, len, i + 1, name);
    }
  }

  lemma {:induction false} DeleteFromSkip(backing: seq<Recognizer>, len: nat, i: nat, k: nat, name: string)
    requires len <= |backing| && i <= k <= |backing|
    requires forall j :: i <= j < k ==> backing[j].name != name
    ensures DeleteFrom(backing, len, i, name) == DeleteFrom(backing, len, k, name)
    decreases k - i
  {
    if i < k {
      DeleteFromSkip(backing, len, i + 1, k, name);
    }
  }

  /**
   * With unique names the delete loop removes exactly the record named
   * `name` and keeps the others in order; without such a record it keeps
   * the list as it is.
   */
  lemma DeleteUnique(items: seq<Recognizer>, name: string)
    requires UniqueNames(items)
    ensures !HasName(items, name) ==> DeleteLoop(items, name) == Ok(items)
    ensures forall k :: 0 <= k < |items| && items[k].name == name ==>
      DeleteLoop(items, name) == Ok(items[..k] + items[k + 1..])
  {
    var n := |items|;
    if !HasName(items, name) {
      DeleteFromNoMatch(items, n, 0, name);
      assert items[..n] == items;
    }
    forall k | 0 <= k < n && items[k].name == name
      ensures DeleteLoop(items, name) == Ok(items[..k] + items[k + 1..])
    {
      DeleteFromSkip(items, n, 0, k, name);
      var shifted := items[..k] + items[k + 1..n] + items[n - 1..];
      assert |shifted| == n;
      forall j | k + 1 <= j < n ensures shifted[j].name != name {
        if j < n - 1 {
          assert shifted[j] == items[j + 1];
        } else {
          assert shifted[j] == items[n - 1];
        }
      }
      DeleteFromNoMatch(shifted, n - 1, k + 1, name);
      assert shifted[..n - 1] == items[..k] + items[k + 1..];
    }
  }

  /**
   * Duplicates crash the delete loop when the second one is the last record:
   * after the first is removed, the range reaches the stale copy at the old
   * last index, which is past the shortened slice.
   */
  lemma DuplicateDeletePanics(p: seq<Recognizer>, a: Recognizer, b: Recognizer)
    requires a.name == b.name && !HasName(p, a.name)
    ensures DeleteLoop(p + [a, b], a.name) == Err(Panicked)
  {
    var items := p + [a, b];
    var n, k := |items|, |p|;
    assert forall j :: 0 <= j < k ==> items[j] == p[j];
    DeleteFromSkip(items, n, 0, k, a.name);
    var shifted := items[..k] + items[k + 1..n] + items[n - 1..];
    assert shifted == p + [b, b];
    assert DeleteFrom(shifted, n - 1, k + 1, a.name) == Err(Panicked);
  }

  /**
   * Adjacent duplicates followed by other records do not crash: the second
   * slides into the slot just examined, is never read again, and stays.
   */
  lemma AdjacentDuplicateKept(a: Recognizer, b: Recognizer, s: seq<Recognizer>)
    requires a.name == b.name && |s| > 0 && !HasName(s, a.name)
    ensures DeleteLoop([a, b] + s, a.name) == Ok([b] + s)
  {
    var items := [a, b] + s;
    var n := |items|;
    var shifted := items[..0] + items[1..n] + items[n - 1..];
    assert shifted == [b] + s + [s[|s| - 1]];
    assert DeleteLoop(items, a.name) == DeleteFrom(shifted, n - 1, 1, a.name);
    assert forall j :: 1 <= j < n - 1 ==> shifted[j] == s[j - 1];
    DeleteFromNoMatch(shifted, n - 1, 1, a.name);
    assert shifted[..n - 1] == [b] + s;
  }

  /**
   * Duplicates apart, with records of other names between them and after
   * them, are both removed: each is read at a slot still inside the slice.
   */
  lemma SeparatedDuplicatesRemoved(a: Recognizer, m: seq<Recognizer>, b: Recognizer, s: seq<Recognizer>)
    requires a.name == b.name && |m| > 0 && |s| > 0 && !HasName(m, a.name) && !HasName(s, a.name)
    ensures DeleteLoop([a] + m + [b] + s, a.name) == Ok(m + s)
  {
    var items := [a] + m + [b] + s;
    var n, k := |items|, |m|;
    var last := s[|s| - 1];
    var once := m + [b] + s + [last];
    FirstShift(a, m, b, s);
    assert DeleteLoop(items, a.name) == DeleteFrom(once, n - 1, 1, a.name);
    assert forall j :: 1 <= j < k ==> once[j] == m[j];
    DeleteFromSkip(once, n - 1, 1, k, a.name);
    var twice := m + s + [last, last];
    SecondShift(m, b, s);
    assert once[k] == b;
    assert DeleteFrom(once, n - 1, k, a.name) == DeleteFrom(twice, n - 2, k + 1, a.name);
    StaleTailLacksName(m, s, a.name);
    DeleteFromNoMatch(twice, n - 2, k + 1, a.name);
    assert twice[..n - 2] == m + s;
  }

  /** After the second removal, no record from index |m| on has the name. */
  lemma StaleTailLacksName(m: seq<Recognizer>, s: seq<Recognizer>, name: string)
    requires |s| > 0 && !HasName(s, name)
    ensures var last := s[|s| - 1];
      forall j :: |m| <= j < |m| + |s| + 2 ==> (m + s + [last, last])[j].name != name
  {
    var last := s[|s| - 1];
    var t := m + s + [last, last];
    forall j | |m| <= j < |m| + |s| + 2 ensures t[j].name != name {
      if j < |m| + |s| {
        assert t[j] == s[j - |m|];
      } else {
        assert t[j] == last;
      }
    }
  }

  /** The in-place shift of the first removal in SeparatedDuplicatesRemoved. */
  lemma FirstShift<T>(a: T, m: seq<T>, b: T, s: seq<T>)
    requires |s| > 0
    ensures var items := [a] + m + [b] + s;
      items[..0] + items[1..|items|] + items[|items| - 1..] == m + [b] + s + [s[|s| - 1]]
  {
  }

  /** The in-place shift of the second removal in SeparatedDuplicatesRemoved. */
  lemma SecondShift<T>(m: seq<T>, b: T, s: seq<T>)
    requires |s| > 0
    ensures var last := s[|s| - 1];
      var once := m + [b] + s + [last];
      var n := |once|;
      once[..|m|] + once[|m| + 1..n - 1] + once[n - 2..] == m + s + [last, last]
  {
    var last := s[|s| - 1];
    var once := m + [b] + s + [last];
    var n := |once|;
    assert once[..|m|] == m;
    assert once[|m| + 1..n - 1] == s;
    assert once[n - 2..] == [last, last];
  }

  /**
   * `applyDelete(name)` at time `now`: an empty list fails; otherwise the
   * loop result is written back with a new timestamp, also when no record
   * had the name (that case is only logged).
   */
  function DeleteOutcome(configured: bool, entries: map<string, Value>, name: string, now: int, faults: Faults)
    : (map<string, Value>, Result<(), StoreError>)
  {
    if !configured then (entries, Err(CacheMissing))
    else match Fetch(entries, RecognizersKey, faults)
      case Err(e) => (entries, Err(e))
      case Ok(Empty) => (entries, Err(NoItems))
      case Ok(Records(items)) =>
        (match DeleteLoop(items, name)
         case Err(e) => (entries, Err(e))
         case Ok(rest) => SetValueOutcome(entries, rest, now, faults))
      case Ok(_) => (entries, Err(DecodeFailed))
  }

  /** Deleting a name no record has still succeeds and rewrites both keys when the list is not empty. */
  lemma DeleteMissingRewrites(entries: map<string, Value>, items: seq<Recognizer>, name: string, now: int)
    requires Read(entries, RecognizersKey) == Records(items) && !HasName(items, name)
    ensures DeleteOutcome(true, entries, name, now, NoFaults) == (entries[TimestampKey := Stamp(now)], Ok(()))
  {
    DeleteFromNoMatch(items, |items|, 0, name);
    assert items[..|items|] == items;
    assert entries[RecognizersKey := Records(items)] == entries;
  }

  /**
   * After deleting a stored name from a list of unique names, the
   * record is gone: a later get of that name fails, and the count drops by one.
   */
  lemma DeleteThenGet(entries: map<string, Value>, items: seq<Recognizer>, name: string, now: int)
    requires Read(entries, RecognizersKey) == Records(items) && UniqueNames(items) && HasName(items, name)
    ensures var (after, r) := DeleteOutcome(true, entries, name, now, NoFaults);
      && r == Ok(())
      && GetOutcome(true, after, name, NoFaults) == Err(NoSuchRecognizer(name))
      && GetAllOutcome(true, after, NoFaults).Ok? && |GetAllOutcome(true, after, NoFaults).value| == |items| - 1
  {
    var k :| 0 <= k < |items| && items[k].name == name;
    DeleteUnique(items, name);
    var rest := items[..k] + items[k + 1..];
    assert !HasName(rest, name) by {
      forall j | 0 <= j < |rest| ensures rest[j].name != name {
        if j < k { assert rest[j] == items[j]; } else { assert rest[j] == items[j + 1]; }
      }
    }
    var after := DeleteOutcome(true, entries, name, now, NoFaults).0;
    assert Read(after, RecognizersKey) == Records(rest);
  }

  // applyGetTimestamp

  /** `strconv.ParseUint(s, 10, 64)` of a decimal number, with the error dropped. */
  function ParseUint64(seconds: int): nat
  {
    if seconds < 0 then 0                          // syntax error: value 0
    else if seconds < 0x1_0000_0000_0000_0000 then seconds
    else 0xFFFF_FFFF_FFFF_FFFF                     // range error: the largest value
  }

  /** `applyGetTimestamp`: the stored seconds; a non-number reads as 0, its error being dropped. */
  function TimestampOutcome(configured: bool, entries: map<string, Value>, faults: Faults): Result<nat, StoreError>
  {
    if !configured then Err(CacheMissing)
    else match Fetch(entries, TimestampKey, faults)
      case Err(_) => Err(NoTimestamp)
      case Ok(Empty) => Err(NoTimestamp)
      case Ok(Stamp(seconds)) => Ok(ParseUint64(seconds))
      case Ok(_) => Ok(0)
  }

  /** A successful write records the time of the change. */
  lemma WrittenTimestampRead(entries: map<string, Value>, items: seq<Recognizer>, now: int)
    requires 0 <= now < 0x8000_0000_0000_0000
    ensures var (after, r) := SetValueOutcome(entries, items, now, NoFaults);
      r == Ok(()) && TimestampOutcome(true, after, NoFaults) == Ok(now)
  {
  }

  /** The cache, as the service's global `recognizersStore`. */
  class Store {
    /** Whether a cache is configured (`recognizersStore != nil`). */
    var configured: bool
    var entries: map<string, Value>

    constructor (configured: bool)
      ensures this.configured == configured && entries == map[]
    {
      this.configured := configured;
      entries := map[];
    }

    method Get(key: string, faults: Faults) returns (r: Result<Value, StoreError>)
      requires configured
      ensures r == Fetch(entries, key, faults)
    {
      if faults.getFails {
        return Err(CacheFailure);
      }
      return Ok(Read(entries, key));
    }

    method Set(key: string, value: Value, faults: Faults) returns (r: Result<(), StoreError>)
      requires configured
      modifies this`entries
      ensures key in faults.setFails ==> r == Err(CacheFailure) && entries == old(entries)
      ensures key !in faults.setFails ==> r == Ok(()) && entries == old(entries)[key := value]
    {
      if key in faults.setFails {
        return Err(CacheFailure);
      }
      entries := entries[key := value];
      return Ok(());
    }

    /** `setValue`: the list first, then the timestamp; the first failure is returned. */
    method SetValue(items: seq<Recognizer>, timestamp: int, faults: Faults) returns (r: Result<(), StoreError>)
      requires configured
      modifies this`entries
      ensures (entries, r) == SetValueOutcome(old(entries), items, timestamp, faults)
    {
      r := Set(RecognizersKey, Records(items), faults);
      if r.Err? {
        return r;
      }
      r := Set(TimestampKey, Stamp(timestamp), faults);
    }

    /** `getExistingRecognizers`; without a cache the Get dereferences nil. */
    method GetExistingRecognizers(faults: Faults) returns (r: Result<seq<Recognizer>, StoreError>)
      ensures r == if configured then Existing(Fetch(entries, RecognizersKey, faults)) else Err(Panicked)
    {
      if !configured {
        return Err(Panicked);
      }
      var existingItems := Get(RecognizersKey, faults);
      var recognizersArr: seq<Recognizer> := [];
      if existingItems.Ok? && existingItems.value != Empty {
        if !existingItems.value.Records? {
          return Err(DecodeFailed);
        }
        recognizersArr := existingItems.value.items;
      }
      return Ok(recognizersArr);
    }

    /** `insertOrUpdateRecognizer(value, isUpdate)`, with the record already decoded and the clock read as `now`. */
    method InsertOrUpdateRecognizer(recognizer: Recognizer, isUpdate: bool, now: int, faults: Faults)
      returns (r: Result<(), StoreError>)
      modifies this`entries
      ensures (entries, r) == InsertOrUpdateOutcome(configured, old(entries), recognizer, isUpdate, now, faults)
    {
      if !configured {
        return Err(CacheMissing);
      }
      var existing := GetExistingRecognizers(faults);
      if existing.Err? {
        return Err(existing.error);
      }
      var arr := existing.value;
      if !isUpdate {
        for k := 0 to |arr|
          invariant forall j :: 0 <= j < k ==> arr[j].name != recognizer.name
        {
          if arr[k].name == recognizer.name {
            return Err(AlreadyExists(arr[k].name));
          }
        }
        arr := arr + [recognizer];
      } else {
        var found := false;
        for k := 0 to |arr|
          invariant found <==> exists j :: 0 <= j < k && arr[j].name == recognizer.name
        {
          var element := arr[k];
          if element.name == recognizer.name {
            found := true;
            element := recognizer;  // assigns the loop's copy only
          }
        }
        if !found {
          return Err(NotFound(recognizer.name));
        }
      }
      r := SetValue(arr, now, faults);
    }

    /** `applyGet(name)`. */
    method ApplyGet(name: string, faults: Faults) returns (r: Result<seq<Recognizer>, StoreError>)
      ensures r == GetOutcome(configured, entries, name, faults)
    {
      if !configured {
        return Err(Panicked);
      }
      var existingItems := Get(RecognizersKey, faults);
      if existingItems.Err? {
        return Err(existingItems.error);
      }
      if existingItems.value != Empty {
        if !existingItems.value.Records? {
          return Err(DecodeFailed);
        }
        var items := existingItems.value.items;
        for k := 0 to |items|
          invariant forall j :: 0 <= j < k ==> items[j].name != name
        {
          if items[k].name == name {
            assert items[k..] == [items[k]] + items[k + 1..];
            FirstNamedAt(items, name, k);
            return Ok([items[k]]);
          }
        }
      }
      return Err(NoSuchRecognizer(name));
    }

    /** `applyGetAll`. */
    method ApplyGetAll(faults: Faults) returns (r: Result<seq<Recognizer>, StoreError>)
      ensures r == GetAllOutcome(configured, entries, faults)
    {
      if !configured {
        return Err(CacheMissing);
      }
      var itemsStr := Get(RecognizersKey, faults);
      if itemsStr.Err? {
        return Err(itemsStr.error);
      }
      if itemsStr.value != Empty {
        var items := if itemsStr.value.Records? then itemsStr.value.items else [];
        var res: seq<Recognizer> := [];
        for i := 0 to |items|
          invariant res == items[..i]
        {
          res := res + [items[i]];
        }
        assert items[..|items|] == items;
        return Ok(res);
      }
      return Ok([]);
    }

    /** `applyDelete(name)` at time `now`. */
    method ApplyDelete(name: string, now: int, faults: Faults) returns (r: Result<(), StoreError>)
      modifies this`entries
      ensures (entries, r) == DeleteOutcome(configured, old(entries), name, now, faults)
    {
      if !configured {
        return Err(CacheMissing);
      }
      var existingItems := Get(RecognizersKey, faults);
      if existingItems.Err? {
        return Err(existingItems.error);
      }
      if existingItems.value == Empty {
        return Err(NoItems);
      }
      if !existingItems.value.Records? {
        return Err(DecodeFailed);
      }
      var items := existingItems.value.items;
      var backing: seq<Recognizer>, len: nat := items, |items|;
      var found := false;
      for i := 0 to |items|
        invariant |backing| == |items| && len <= |backing|
        invariant DeleteFrom(backing, len, i, name) == DeleteLoop(items, name)
      {
        var element := backing[i];
        if element.name == name {
          found := true;
          if i + 1 > len {
            return Err(Panicked);
          }
          backing := backing[..i] + backing[i + 1..len] + backing[len - 1..];
          len := len - 1;
        }
      }
      // `found == false` is only logged.
      r := SetValue(backing[..len], now, faults);
    }

    /** `applyGetTimestamp`. */
    method ApplyGetTimestamp(faults: Faults) returns (r: Result<nat, StoreError>)
      ensures r == TimestampOutcome(configured, entries, faults)
    {
      if !configured {
        return Err(CacheMissing);
      }
      var timestamp := Get(TimestampKey, faults);
      if timestamp.Err? || timestamp.value == Empty {
        return Err(NoTimestamp);
      }
      var seconds := if timestamp.value.Stamp? then ParseUint64(timestamp.value.seconds) else 0;
      return Ok(seconds);
    }
  }

  /**
   * The service's own scenarios on a fresh cache: deleting from an empty
   * store fails; an insert is found by get and by get-all; an update of an
   * absent name fails; after deleting the only record, get fails.
   */
  method StoreScenario(recognizer: Recognizer, other: string, now: int) returns
    (emptyDelete: Result<(), StoreError>, got: Result<seq<Recognizer>, StoreError>,
     all: Result<seq<Recognizer>, StoreError>, badUpdate: Result<(), StoreError>,
     deleted: Result<(), StoreError>, gone: Result<seq<Recognizer>, StoreError>)
    requires other != recognizer.name
    ensures emptyDelete == Err(NoItems)
    ensures got == Ok([recognizer]) && all == Ok([recognizer])
    ensures badUpdate == Err(NotFound(other))
    ensures deleted == Ok(()) && gone == Err(NoSuchRecognizer(recognizer.name))
  {
    var store := new Store(true);
    emptyDelete := store.ApplyDelete(recognizer.name, now, NoFaults);
    var inserted := store.InsertOrUpdateRecognizer(recognizer, false, now, NoFaults);
    InsertThenGet(map[], recognizer, now);
    got := store.ApplyGet(recognizer.name, NoFaults);
    all := store.ApplyGetAll(NoFaults);
    assert [] + [recognizer] == [recognizer];
    assert !HasName([recognizer], other);
    badUpdate := store.InsertOrUpdateRecognizer(Recognizer(other, recognizer.score, recognizer.pattern,
      recognizer.entity, recognizer.language), true, now, NoFaults);
    ghost var before := store.entries;
    assert HasName([recognizer], recognizer.name) by {
      assert [recognizer][0].name == recognizer.name;
    }
    DeleteThenGet(before, [recognizer], recognizer.name, now);
    deleted := store.ApplyDelete(recognizer.name, now, NoFaults);
    gone := store.ApplyGet(recognizer.name, NoFaults);
  }

  /** The first record with a name at `k`, no earlier one having it. */
  lemma {:induction false} FirstNamedAt(rs: seq<Recognizer>, name: string, k: nat)
    requires k < |rs| && rs[k].name == name
    requires forall j :: 0 <= j < k ==> rs[j].name != name
    ensures FirstNamed(rs, name) == Some(rs[k])
  {
    if k > 0 {
      FirstNamedAt(rs[1..], name, k - 1);
    }
  }
}
