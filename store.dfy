/**
 * The file-backed store: an append-only event log split into one shard per calendar month
 * (events/YYYY-MM.ndjson) and a set of JSON dictionaries (dict/NAME.json).
 *
 * The files are abstracted to their decoded contents. `shards` maps a month key to the records
 * of that month's shard, in file order; a month without a shard file has no key. `corrupt`
 * marks shards holding a line that does not decode. `dicts` maps a dictionary name to its
 * decoded object; a missing or empty dictionary file reads as the empty map, so it may or may
 * not have a key. `corruptDicts` marks dictionary files that do not decode.
 */
module Store {
  import opened Wrappers
  import opened Text
  import opened Clock
  import opened Model

  datatype StoreError =
    | LockBusy
    | InvalidId
    | FileNotFound
    | DecodeFailed
    | EventNotFound
    | MutatorFailed(msg: string)

  /** Path, relative to the data directory, of the shard of a month: `events/` + `Format("2006-01")` + `.ndjson`. */
  function ShardName(monthKey: int): string
  {
    "events/" + MonthString(monthKey) + ".ndjson"
  }

  lemma YearStringInjective(a: int, b: int)
    requires YearString(a) == YearString(b)
    ensures a == b
  {
    var s := YearString(a);
    if a < 0 {
      assert s[0] == '-';
      assert !IsDigit(YearString(b)[0]);
      assert Padded(-a, 4) == s[1..] == Padded(-b, 4);
    } else {
      assert IsDigit(s[0]);
      assert b >= 0;
    }
  }

  lemma MonthStringInjective(a: int, b: int)
    requires MonthString(a) == MonthString(b)
    ensures a == b
  {
    var ya, yb := YearString(YearOf(a)), YearString(YearOf(b));
    var ma, mb := Padded(MonthOf(a), 2), Padded(MonthOf(b), 2);
    assert |ma| == 2 && |mb| == 2;
    var s := MonthString(a);
    assert s == ya + "-" + ma && s == yb + "-" + mb;
    assert |ya| == |yb|;
    assert ya == s[..|ya|] == yb;
    assert ma == s[|ya| + 1..] == mb;
    YearStringInjective(YearOf(a), YearOf(b));
  }

  /** Different months are kept in different files. */
  lemma ShardNameInjective(a: int, b: int)
    requires ShardName(a) == ShardName(b)
    ensures a == b
  {
    var s := ShardName(a);
    assert MonthString(a) == s[7..|s| - 7] == MonthString(b);
    MonthStringInjective(a, b);
  }

  /** The records of a month's shard; a missing shard has none. */
  function ShardOf(shards: map<int, seq<Event>>, m: int): seq<Event>
  {
    if m in shards then shards[m] else []
  }

  /** Every record sits in the shard of the month its timestamp falls in, as AppendEvent files it. */
  predicate Placed(shards: map<int, seq<Event>>)
  {
    forall m, i | m in shards && 0 <= i < |shards[m]| :: MonthKey(shards[m][i].ts) == m
  }

  predicate Stored(shards: map<int, seq<Event>>, e: Event)
  {
    exists m | m in shards :: e in shards[m]
  }

  /** The records of evs with start <= ts <= end, in their order. */
  function InRange(evs: seq<Event>, start: int, end: int): (r: seq<Event>)
    ensures |r| <= |evs|
  {
    if evs == [] then []
    else
      var last := evs[|evs| - 1];
      InRange(evs[..|evs| - 1], start, end) + (if start <= last.ts <= end then [last] else [])
  }

  lemma {:induction false} InRangeMember(evs: seq<Event>, start: int, end: int, e: Event)
    ensures e in InRange(evs, start, end) <==> e in evs && start <= e.ts <= end
  {
    if evs != [] {
      InRangeMember(evs[..|evs| - 1], start, end, e);
      assert evs == evs[..|evs| - 1] + [evs[|evs| - 1]];
    }
  }

  /** What a scan of the months lo..hi returns: the in-range records of each shard, month after month. */
  function Gather(shards: map<int, seq<Event>>, lo: int, hi: int, start: int, end: int): seq<Event>
    decreases hi - lo
  {
    if hi < lo then [] else Gather(shards, lo, hi - 1, start, end) + InRange(ShardOf(shards, hi), start, end)
  }

  lemma {:induction false} GatherMember(shards: map<int, seq<Event>>, lo: int, hi: int, start: int, end: int, e: Event)
    ensures e in Gather(shards, lo, hi, start, end) <==>
      (exists m | lo <= m <= hi && m in shards :: e in shards[m]) && start <= e.ts <= end
    decreases hi - lo
  {
    if hi >= lo {
      GatherMember(shards, lo, hi - 1, start, end, e);
      InRangeMember(ShardOf(shards, hi), start, end, e);
    }
  }

  /**
   * With every record in the shard of its month, scanning the months of start through end finds
   * exactly the stored records whose timestamp lies in [start, end], both ends included.
   */
  lemma ScanExact(shards: map<int, seq<Event>>, start: int, end: int, e: Event)
    requires Placed(shards)
    ensures e in Gather(shards, MonthKey(start), MonthKey(end), start, end) <==>
      Stored(shards, e) && start <= e.ts <= end
  {
    GatherMember(shards, MonthKey(start), MonthKey(end), start, end, e);
    if Stored(shards, e) && start <= e.ts <= end {
      var m :| m in shards && e in shards[m];
      var i :| 0 <= i < |shards[m]| && shards[m][i] == e;
      MonthKeyMonotone(start, e.ts);
      MonthKeyMonotone(e.ts, end);
      assert MonthKey(e.ts) == m;
    }
  }

  /** Every record a scan of lo..hi returns comes from one of those months. */
  lemma {:induction false} GatherMonths(shards: map<int, seq<Event>>, lo: int, hi: int, start: int, end: int)
    requires Placed(shards)
    ensures forall e | e in Gather(shards, lo, hi, start, end) :: lo <= MonthKey(e.ts) <= hi
    decreases hi - lo
  {
    if hi >= lo {
      GatherMonths(shards, lo, hi - 1, start, end);
      forall e | e in InRange(ShardOf(shards, hi), start, end)
        ensures MonthKey(e.ts) == hi
      {
        InRangeMember(ShardOf(shards, hi), start, end, e);
      }
    }
  }

  /** An earlier position never holds a record of a later month. */
  predicate MonthOrdered(evs: seq<Event>)
  {
    forall i, j | 0 <= i < j < |evs| :: MonthKey(evs[i].ts) <= MonthKey(evs[j].ts)
  }

  /** A scan returns its records month by month. */
  lemma {:induction false} GatherMonthOrdered(shards: map<int, seq<Event>>, lo: int, hi: int, start: int, end: int)
    requires Placed(shards)
    ensures MonthOrdered(Gather(shards, lo, hi, start, end))
    decreases hi - lo
  {
    if hi >= lo {
      var front := Gather(shards, lo, hi - 1, start, end);
      var back := InRange(ShardOf(shards, hi), start, end);
      GatherMonthOrdered(shards, lo, hi - 1, start, end);
      GatherMonths(shards, lo, hi - 1, start, end);
      forall e | e in back
        ensures MonthKey(e.ts) == hi
      {
        InRangeMember(ShardOf(shards, hi), start, end, e);
      }
      var r := front + back;
      forall i, j | 0 <= i < j < |r|
        ensures MonthKey(r[i].ts) <= MonthKey(r[j].ts)
      {
        if j < |front| {
          assert r[i] == front[i] && r[j] == front[j];
          assert MonthKey(front[i].ts) <= MonthKey(front[j].ts);
        } else if i < |front| {
          assert r[i] == front[i] && r[j] == back[j - |front|];
          assert front[i] in front;
          assert MonthKey(r[i].ts) <= hi - 1;
          assert back[j - |front|] in back;
          assert MonthKey(r[j].ts) == hi;
        } else {
          assert r[i] == back[i - |front|] && r[j] == back[j - |front|];
          assert back[i - |front|] in back && back[j - |front|] in back;
        }
      }
    }
  }

  /** The shards after appending e: its month's shard gains e as its last record, nothing else moves. */
  function Appended(shards: map<int, seq<Event>>, e: Event): (r: map<int, seq<Event>>)
    ensures r.Keys == shards.Keys + {MonthKey(e.ts)}
    ensures r[MonthKey(e.ts)] == ShardOf(shards, MonthKey(e.ts)) + [e]
    ensures forall m | m in shards && m != MonthKey(e.ts) :: r[m] == shards[m]
  {
    shards[MonthKey(e.ts) := ShardOf(shards, MonthKey(e.ts)) + [e]]
  }

  /** Appending keeps every record in the shard of its month. */
  lemma AppendedPlaced(shards: map<int, seq<Event>>, e: Event)
    requires Placed(shards)
    ensures Placed(Appended(shards, e))
  {
    var r: map<int, seq<Event>> := Appended(shards, e);
    var k := MonthKey(e.ts);
    forall m: int, i: int | m in r && 0 <= i < |r[m]|
      ensures MonthKey(r[m][i].ts) == m
    {
      if m == k && i == |r[m]| - 1 {
        assert r[m][i] == e;
      } else if m == k {
        assert r[m][i] == shards[m][i];
      }
    }
  }

  /** An appended record is found by any later scan whose range covers its timestamp. */
  lemma AppendThenScan(shards: map<int, seq<Event>>, e: Event, start: int, end: int)
    requires Placed(shards)
    requires start <= e.ts <= end
    ensures e in Gather(Appended(shards, e), MonthKey(start), MonthKey(end), start, end)
  {
    AppendedPlaced(shards, e);
    var r := Appended(shards, e);
    assert e in r[MonthKey(e.ts)];
    ScanExact(r, start, end, e);
  }

  /** Position of the first record with the given id, or -1. */
  function FirstIndex(evs: seq<Event>, id: string): (i: int)
    ensures -1 <= i < |evs|
    ensures i == -1 <==> forall k | 0 <= k < |evs| :: evs[k].id != id
    ensures i >= 0 ==> evs[i].id == id && forall k | 0 <= k < i :: evs[k].id != id
  {
    if evs == [] then -1
    else if evs[0].id == id then 0
    else
      var j := FirstIndex(evs[1..], id);
      if j == -1 then -1 else j + 1
  }

  /**
   * The transform UpdateEvent applies to a shard: the first record with the id is replaced by
   * what the mutator makes of it; a missing id or a failing mutator is an error.
   */
  function UpdateFirst(evs: seq<Event>, id: string, mutate: Event -> Result<Event, string>): (r: Result<seq<Event>, StoreError>)
  {
    var i := FirstIndex(evs, id);
    if i < 0 then Err(EventNotFound)
    else
      match mutate(evs[i])
      case Err(msg) => Err(MutatorFailed(msg))
      case Ok(e) => Ok(evs[i := e])
  }

  /**
   * An update succeeds exactly when the id is present and the mutator accepts its first record;
   * it then changes that one record and keeps every other record and the order.
   */
  lemma UpdateFirstOnly(evs: seq<Event>, id: string, mutate: Event -> Result<Event, string>)
    ensures UpdateFirst(evs, id, mutate).Ok? <==>
      (exists k | 0 <= k < |evs| :: evs[k].id == id) && mutate(evs[FirstIndex(evs, id)]).Ok?
    ensures UpdateFirst(evs, id, mutate).Ok? ==>
      var r := UpdateFirst(evs, id, mutate).value;
      var i := FirstIndex(evs, id);
      && |r| == |evs|
      && r[i] == mutate(evs[i]).value
      && (forall k | 0 <= k < |evs| && k != i :: r[k] == evs[k])
      && (forall k | 0 <= k < i :: r[k].id != id)
  {
  }

  /** The records of evs whose id is not the given one, in their order. */
  function RemoveId(evs: seq<Event>, id: string): (r: seq<Event>)
    ensures |r| <= |evs|
  {
    if evs == [] then []
    else
      var last := evs[|evs| - 1];
      RemoveId(evs[..|evs| - 1], id) + (if last.id == id then [] else [last])
  }

  function CountId(evs: seq<Event>, id: string): nat
  {
    if evs == [] then 0 else CountId(evs[..|evs| - 1], id) + (if evs[|evs| - 1].id == id then 1 else 0)
  }

  /**
   * Deleting by id keeps exactly the records with another id and drops as many records as
   * carry that id.
   */
  lemma {:induction false} RemoveIdSpec(evs: seq<Event>, id: string)
    ensures forall e :: e in RemoveId(evs, id) <==> e in evs && e.id != id
    ensures |RemoveId(evs, id)| + CountId(evs, id) == |evs|
    ensures CountId(evs, id) == 0 <==> forall k | 0 <= k < |evs| :: evs[k].id != id
  {
    if evs != [] {
      var init := evs[..|evs| - 1];
      RemoveIdSpec(init, id);
      assert evs == init + [evs[|evs| - 1]];
      assert forall k | 0 <= k < |init| :: init[k] == evs[k];
    }
  }

  /** The transform DeleteEvent applies to a shard. */
  function DeleteAll(evs: seq<Event>, id: string): (r: Result<seq<Event>, StoreError>)
  {
    if exists k | 0 <= k < |evs| :: evs[k].id == id then Ok(RemoveId(evs, id)) else Err(EventNotFound)
  }

  /** With unique ids, a successful delete removes exactly one record. */
  lemma DeleteUniqueRemovesOne(evs: seq<Event>, id: string)
    requires forall i, j | 0 <= i < j < |evs| :: evs[i].id != evs[j].id
    ensures DeleteAll(evs, id).Ok? ==> |DeleteAll(evs, id).value| == |evs| - 1
  {
    RemoveIdSpec(evs, id);
    if exists k | 0 <= k < |evs| :: evs[k].id == id {
      var k :| 0 <= k < |evs| && evs[k].id == id;
      CountIdUnique(evs, id, k);
    }
  }

  lemma {:induction false} CountIdUnique(evs: seq<Event>, id: string, k: int)
    requires forall i, j | 0 <= i < j < |evs| :: evs[i].id != evs[j].id
    requires 0 <= k < |evs| && evs[k].id == id
    ensures CountId(evs, id) == 1
  {
    var init := evs[..|evs| - 1];
    RemoveIdSpec(init, id);
    if k < |evs| - 1 {
      CountIdUnique(init, id, k);
    } else {
      assert forall i | 0 <= i < |init| :: init[i].id != id by {
        forall i | 0 <= i < |init| ensures init[i].id != id {
          assert init[i] == evs[i];
        }
      }
    }
  }

  /** How rewriteFile is asked to transform a shard. */
  datatype Transform =
    | Update(id: string, mutate: Event -> Result<Event, string>)
    | Delete(id: string)

  function Apply(t: Transform, evs: seq<Event>): Result<seq<Event>, StoreError>
  {
    match t
    case Update(id, mutate) => UpdateFirst(evs, id, mutate)
    case Delete(id) => DeleteAll(evs, id)
  }

  /** A deletion keeps every record in the shard of its month; so does an update that keeps timestamps. */
  lemma RewritePlaced(shards: map<int, seq<Event>>, m: int, t: Transform)
    requires Placed(shards) && m in shards
    requires t.Update? ==> forall e | e in shards[m] && t.mutate(e).Ok? :: t.mutate(e).value.ts == e.ts
    ensures Apply(t, shards[m]).Ok? ==> Placed(shards[m := Apply(t, shards[m]).value])
  {
    var evs := shards[m];
    if Apply(t, evs).Ok? {
      var r := Apply(t, evs).value;
      if t.Delete? {
        RemoveIdSpec(evs, t.id);
        forall i | 0 <= i < |r| ensures MonthKey(r[i].ts) == m {
          assert r[i] in evs;
        }
      } else {
        var i := FirstIndex(evs, t.id);
        assert evs[i] in evs;
      }
    }
  }

  /** The contents of a dictionary: a missing (or empty) dictionary file reads as the empty map. */
  function DictOf(dicts: map<string, map<string, Value>>, name: string): map<string, Value>
  {
    if name in dicts then dicts[name] else map[]
  }

  /** SaveDict's effect on the dictionaries: a new key is inserted, an existing key is left alone. */
  function Saved(dicts: map<string, map<string, Value>>, name: string, key: string, v: Value): (r: map<string, map<string, Value>>)
    ensures key in DictOf(dicts, name) ==> r == dicts
    ensures key !in DictOf(dicts, name) ==> r == dicts[name := DictOf(dicts, name)[key := v]]
  {
    if key in DictOf(dicts, name) then dicts else dicts[name := DictOf(dicts, name)[key := v]]
  }

  /**
   * First write wins: after saving, the key holds the value of its earliest save; every other
   * key of that dictionary, and every other dictionary, is as before.
   */
  lemma SavedFirstWins(dicts: map<string, map<string, Value>>, name: string, key: string, v: Value)
    ensures var r := Saved(dicts, name, key, v);
      && key in DictOf(r, name)
      && DictOf(r, name)[key] == (if key in DictOf(dicts, name) then DictOf(dicts, name)[key] else v)
      && (forall k | k in DictOf(dicts, name) :: k in DictOf(r, name) && DictOf(r, name)[k] == DictOf(dicts, name)[k])
      && (forall n | n != name :: DictOf(r, n) == DictOf(dicts, n))
  {
  }

  /** Saving the same key twice is the same as saving it once with the first value. */
  lemma SavedTwice(dicts: map<string, map<string, Value>>, name: string, key: string, v: Value, w: Value)
    ensures Saved(Saved(dicts, name, key, v), name, key, w) == Saved(dicts, name, key, v)
  {
  }

  /**
   * The store. Every file operation of the source becomes a method on the abstract contents;
   * `idTime` stands for reading the millisecond time out of a ULID (None for an id that does
   * not parse), converted to a local wall-clock timestamp.
   */
  class FileStore {
    var shards: map<int, seq<Event>>
    var corrupt: set<int>
    var dicts: map<string, map<string, Value>>
    var corruptDicts: set<string>
    const idTime: string -> Option<int>

    /** Only a file that exists can fail to decode: a corrupt shard or dictionary has a file. */
    predicate Valid()
      reads this
    {
      corrupt <= shards.Keys && corruptDicts <= dicts.Keys
    }

    /** A store over an empty data directory. */
    constructor(idTime: string -> Option<int>)
      ensures Valid()
      ensures shards == map[] && corrupt == {} && dicts == map[] && corruptDicts == {}
      ensures this.idTime == idTime
    {
      shards := map[];
      corrupt := {};
      dicts := map[];
      corruptDicts := {};
      this.idTime := idTime;
    }

    /**
     * AppendEvent: adds e as the last line of the shard of its month, creating the shard when
     * needed. When the shard's lock is held elsewhere (`busy`), it fails at once and writes nothing.
     */
    method AppendEvent(e: Event, busy: bool) returns (err: Option<StoreError>)
      requires Valid()
      modifies this
      ensures Valid()
      ensures MonthKey(e.ts) !in old(shards) ==> MonthKey(e.ts) !in corrupt
      ensures busy ==> err == Some(LockBusy) && shards == old(shards)
      ensures !busy ==> err == None && shards == Appended(old(shards), e)
      ensures corrupt == old(corrupt) && dicts == old(dicts) && corruptDicts == old(corruptDicts)
    {
      if busy {
        return Some(LockBusy);
      }
      var m := MonthKey(e.ts);
      var existing := if m in shards then shards[m] else [];
      shards := shards[m := existing + [e]];
      return None;
    }

    /** readEventsFromFile: every record of a shard in file order, or an error if the file is missing or a line does not decode. */
    method ReadEvents(m: int) returns (r: Result<seq<Event>, StoreError>)
      ensures m !in shards ==> r == Err(FileNotFound)
      ensures m in shards && m in corrupt ==> r == Err(DecodeFailed)
      ensures m in shards && m !in corrupt ==> r == Ok(shards[m])
    {
      if m !in shards {
        return Err(FileNotFound);
      }
      if m in corrupt {
        return Err(DecodeFailed);
      }
      return Ok(shards[m]);
    }

    /**
     * GetEvents: visits the months of start through end, skips months without a shard, and keeps
     * the records with start <= ts <= end. A shard that does not decode fails the whole scan.
     */
    method GetEvents(start: int, end: int) returns (r: Result<seq<Event>, StoreError>)
      ensures r.Err? <==> exists m | MonthKey(start) <= m <= MonthKey(end) && m in shards :: m in corrupt
      ensures r.Err? ==> r.error == DecodeFailed
      ensures r.Ok? ==> r.value == Gather(shards, MonthKey(start), MonthKey(end), start, end)
    {
      var lo, hi := MonthKey(start), MonthKey(end);
      var events: seq<Event> := [];
      var current := lo;
      while current <= hi
        invariant lo <= current && (current <= hi + 1 || current == lo)
        invariant events == Gather(shards, lo, current - 1, start, end)
        invariant forall m | lo <= m < current && m in shards :: m !in corrupt
        decreases hi - current
      {
        assert Gather(shards, lo, current, start, end) ==
          Gather(shards, lo, current - 1, start, end) + InRange(ShardOf(shards, current), start, end);
        if current !in shards {
          assert InRange(ShardOf(shards, current), start, end) == [];
          current := current + 1;
          continue;
        }
        var read := ReadEvents(current);
        if read.Err? {
          assert current in corrupt;
          return Err(read.error);
        }
        events := AppendInRange(events, read.value, start, end);
        current := current + 1;
      }
      return Ok(events);
    }

    /**
     * rewriteFile: reads the whole shard of month m, applies the transform and writes the
     * result back only when the transform succeeds; on any error the shard is as before.
     */
    method RewriteFile(m: int, t: Transform) returns (err: Option<StoreError>)
      requires Valid()
      modifies this
      ensures Valid()
      ensures m !in old(shards) ==> err == Some(FileNotFound) && shards == old(shards)
      ensures m in old(shards) && m in corrupt ==> err == Some(DecodeFailed) && shards == old(shards)
      ensures m in old(shards) && m !in corrupt ==>
        match Apply(t, old(shards)[m])
        case Err(e) => err == Some(e) && shards == old(shards)
        case Ok(evs) => err == None && shards == old(shards)[m := evs]
      ensures corrupt == old(corrupt) && dicts == old(dicts) && corruptDicts == old(corruptDicts)
    {
      if m !in shards {
        return Some(FileNotFound);
      }
      if m in corrupt {
        return Some(DecodeFailed);
      }
      var events := shards[m];
      var newEvents;
      match t {
        case Update(id, mutate) =>
          newEvents := ApplyUpdate(events, id, mutate);
        case Delete(id) =>
          newEvents := ApplyDelete(events, id);
      }
      if newEvents.Err? {
        return Some(newEvents.error);
      }
      shards := shards[m := newEvents.value];
      return None;
    }

    /**
     * UpdateEvent: the id's embedded time picks the shard; the first record with the id is
     * replaced by the mutator's result. An id that does not parse is rejected before any file is touched.
     */
    method UpdateEvent(id: string, mutate: Event -> Result<Event, string>) returns (err: Option<StoreError>)
      requires Valid()
      modifies this
      ensures Valid()
      ensures idTime(id).None? ==> err == Some(InvalidId) && shards == old(shards)
      ensures idTime(id).Some? ==>
        var m := MonthKey(idTime(id).value);
        if m !in old(shards) then err == Some(FileNotFound) && shards == old(shards)
        else if m in corrupt then err == Some(DecodeFailed) && shards == old(shards)
        else
          match UpdateFirst(old(shards)[m], id, mutate)
          case Err(e) => err == Some(e) && shards == old(shards)
          case Ok(evs) => err == None && shards == old(shards)[m := evs]
      ensures corrupt == old(corrupt) && dicts == old(dicts) && corruptDicts == old(corruptDicts)
    {
      var ts := idTime(id);
      if ts.None? {
        return Some(InvalidId);
      }
      err := RewriteFile(MonthKey(ts.value), Update(id, mutate));
    }

    /**
     * DeleteEvent: the id's embedded time picks the shard; every record with the id is removed,
     * the others keep their order.
     */
    method DeleteEvent(id: string) returns (err: Option<StoreError>)
      requires Valid()
      modifies this
      ensures Valid()
      ensures idTime(id).None? ==> err == Some(InvalidId) && shards == old(shards)
      ensures idTime(id).Some? ==>
        var m := MonthKey(idTime(id).value);
        if m !in old(shards) then err == Some(FileNotFound) && shards == old(shards)
        else if m in corrupt then err == Some(DecodeFailed) && shards == old(shards)
        else
          match DeleteAll(old(shards)[m], id)
          case Err(e) => err == Some(e) && shards == old(shards)
          case Ok(evs) => err == None && shards == old(shards)[m := evs]
      ensures corrupt == old(corrupt) && dicts == old(dicts) && corruptDicts == old(corruptDicts)
    {
      var ts := idTime(id);
      if ts.None? {
        return Some(InvalidId);
      }
      err := RewriteFile(MonthKey(ts.value), Delete(id));
    }

    /**
     * SaveDict: inserts key with value v into dictionary `name` unless the key is already there.
     * A dictionary file that does not decode is an error and stays as it was.
     */
    method SaveDict(name: string, key: string, v: Value) returns (err: Option<StoreError>)
      requires Valid()
      modifies this
      ensures Valid()
      ensures name !in old(dicts) ==> name !in corruptDicts
      ensures name in old(dicts) && name in corruptDicts ==> err == Some(DecodeFailed) && dicts == old(dicts)
      ensures !(name in old(dicts) && name in corruptDicts) ==> err == None && dicts == Saved(old(dicts), name, key, v)
      ensures shards == old(shards) && corrupt == old(corrupt) && corruptDicts == old(corruptDicts)
    {
      if name in dicts && name in corruptDicts {
        return Some(DecodeFailed);
      }
      var content := if name in dicts then dicts[name] else map[];
      if key in content {
        return None;
      }
      content := content[key := v];
      dicts := dicts[name := content];
      return None;
    }

    /** LoadDict: the decoded dictionary; a missing or empty file gives the empty map. */
    method LoadDict(name: string) returns (r: Result<map<string, Value>, StoreError>)
      ensures name in dicts && name in corruptDicts ==> r == Err(DecodeFailed)
      ensures !(name in dicts && name in corruptDicts) ==> r == Ok(DictOf(dicts, name))
      ensures name !in dicts ==> r == Ok(map[])
    {
      if name !in dicts {
        return Ok(map[]);
      }
      if name in corruptDicts {
        return Err(DecodeFailed);
      }
      return Ok(dicts[name]);
    }
  }

  /**
   * The first append of a month creates its shard, and the shard reads back clean: a read of that
   * month gives exactly the appended event, whatever was flagged before.
   */
  method AppendThenRead(store: FileStore, e: Event) returns (r: Result<seq<Event>, StoreError>)
    requires store.Valid() && MonthKey(e.ts) !in store.shards
    modifies store
    ensures store.Valid()
    ensures r == Ok([e])
  {
    assert ShardOf(store.shards, MonthKey(e.ts)) == [];
    var err := store.AppendEvent(e, false);
    assert store.shards[MonthKey(e.ts)] == [e];
    r := store.ReadEvents(MonthKey(e.ts));
  }

  /** The filter loop of GetEvents: appends the records of fileEvents with start <= ts <= end to events. */
  method AppendInRange(events: seq<Event>, fileEvents: seq<Event>, start: int, end: int) returns (r: seq<Event>)
    ensures r == events + InRange(fileEvents, start, end)
  {
    r := events;
    var j := 0;
    while j < |fileEvents|
      invariant 0 <= j <= |fileEvents|
      invariant r == events + InRange(fileEvents[..j], start, end)
    {
      var e := fileEvents[j];
      assert fileEvents[..j + 1][..j] == fileEvents[..j];
      if start <= e.ts && e.ts <= end {
        r := r + [e];
      }
      j := j + 1;
    }
    assert fileEvents[..|fileEvents|] == fileEvents;
  }

  /** The update transform as the source runs it: a scan for the first matching record, mutated in place. */
  method ApplyUpdate(evs: seq<Event>, id: string, mutate: Event -> Result<Event, string>) returns (r: Result<seq<Event>, StoreError>)
    ensures r == UpdateFirst(evs, id, mutate)
  {
    var events := evs;
    var i := 0;
    while i < |events|
      invariant 0 <= i <= |events| && events == evs
      invariant forall k | 0 <= k < i :: evs[k].id != id
    {
      if events[i].id == id {
        assert FirstIndex(evs, id) == i;
        match mutate(events[i]) {
          case Err(msg) =>
            return Err(MutatorFailed(msg));
          case Ok(e) =>
            events := events[i := e];
            return Ok(events);
        }
      }
      i := i + 1;
    }
    return Err(EventNotFound);
  }

  /** The delete transform as the source runs it: a copy of the shard without the matching records. */
  method ApplyDelete(evs: seq<Event>, id: string) returns (r: Result<seq<Event>, StoreError>)
    ensures r == DeleteAll(evs, id)
  {
    var newEvents: seq<Event> := [];
    var found := false;
    var i := 0;
    while i < |evs|
      invariant 0 <= i <= |evs|
      invariant newEvents == RemoveId(evs[..i], id)
      invariant found <==> exists k | 0 <= k < i :: evs[k].id == id
    {
      assert evs[..i + 1][..i] == evs[..i];
      if evs[i].id == id {
        found := true;
      } else {
        newEvents := newEvents + [evs[i]];
      }
      i := i + 1;
    }
    assert evs[..|evs|] == evs;
    if !found {
      return Err(EventNotFound);
    }
    return Ok(newEvents);
  }
}
