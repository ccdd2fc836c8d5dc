/** The patient record store: a list of records kept as JSON under the single
    local-storage key "patients", read and rewritten whole by every operation.
    Records are plain field maps, so the JavaScript object spread becomes Dafny's
    right-biased map union. */
module PatientStore {
  import opened Wrappers

  /** One stored patient object: field name to field value. */
  type Record = map<string, string>

  /** An ISO-8601 timestamp, as produced by `new Date().toISOString()`. */
  type Timestamp = string

  const PatientIdField: string := "patientId"
  const CreatedAtField: string := "createdAt"
  const LastUpdatedField: string := "lastUpdated"

  /** `p.patientId`. A record without the field yields `None`, so two such records
      compare equal, as `undefined === undefined` does. */
  function IdOf(r: Record): Option<string> {
    if PatientIdField in r then Some(r[PatientIdField]) else None
  }

  /** No record of `ps` carries `id`. */
  predicate IdAbsent(ps: seq<Record>, id: Option<string>) {
    forall k :: 0 <= k < |ps| ==> IdOf(ps[k]) != id
  }

  /** `i` is the position of the first record of `ps` that carries `id`. */
  predicate IsFirstMatch(ps: seq<Record>, id: Option<string>, i: int) {
    && 0 <= i < |ps|
    && IdOf(ps[i]) == id
    && forall k :: 0 <= k < i ==> IdOf(ps[k]) != id
  }

  /** No two records of `ps` carry the same id (at most one carries none). */
  predicate UniqueIds(ps: seq<Record>) {
    forall i, j :: 0 <= i < j < |ps| ==> IdOf(ps[i]) != IdOf(ps[j])
  }

  /** How many records of `ps` carry `id`. */
  function CountId(ps: seq<Record>, id: Option<string>): nat {
    if ps == [] then 0 else (if IdOf(ps[0]) == id then 1 else 0) + CountId(ps[1..], id)
  }

  // ---------------------------------------------------------------------------
  // The collection operations

  /** `patients.findIndex(p => p.patientId === id)`: the first position carrying `id`,
      or -1 when there is none. */
  function FindIndex(ps: seq<Record>, id: Option<string>): (i: int)
    ensures -1 <= i < |ps|
    ensures i == -1 <==> IdAbsent(ps, id)
    ensures i != -1 ==> IsFirstMatch(ps, id, i)
  {
    if ps == [] then -1
    else if IdOf(ps[0]) == id then 0
    else
      var j := FindIndex(ps[1..], id);
      if j == -1 then -1 else j + 1
  }

  /** `patients.find(p => p.patientId === id)`: the first record carrying `id`. */
  function Find(ps: seq<Record>, id: Option<string>): (r: Option<Record>)
    ensures r.None? <==> IdAbsent(ps, id)
    ensures forall i :: IsFirstMatch(ps, id, i) ==> r == Some(ps[i])
  {
    if ps == [] then None
    else if IdOf(ps[0]) == id then Some(ps[0])
    else
      assert forall i :: IsFirstMatch(ps, id, i) ==> IsFirstMatch(ps[1..], id, i - 1);
      Find(ps[1..], id)
  }

  /** `patients.filter(p => p.patientId !== id)`. */
  function WithoutId(ps: seq<Record>, id: Option<string>): (r: seq<Record>)
    ensures |r| <= |ps|
    ensures IdAbsent(r, id)
    ensures forall x :: x in r <==> x in ps && IdOf(x) != id
  {
    if ps == [] then []
    else (if IdOf(ps[0]) == id then [] else [ps[0]]) + WithoutId(ps[1..], id)
  }

  /** The record appended for a new id: the incoming fields with both timestamps set to `now`. */
  function Stamp(incoming: Record, now: Timestamp): (r: Record)
    ensures r.Keys == incoming.Keys + {CreatedAtField, LastUpdatedField}
    ensures r[CreatedAtField] == now && r[LastUpdatedField] == now
    ensures forall f :: f in incoming && f != CreatedAtField && f != LastUpdatedField ==> r[f] == incoming[f]
    ensures IdOf(r) == IdOf(incoming)
  {
    incoming[CreatedAtField := now][LastUpdatedField := now]
  }

  /** `{...existing, ...incoming, lastUpdated: now}`: the incoming fields override the
      existing ones, then the update time is refreshed. */
  function Merge(existing: Record, incoming: Record, now: Timestamp): (r: Record)
    ensures r.Keys == existing.Keys + incoming.Keys + {LastUpdatedField}
    ensures r[LastUpdatedField] == now
    ensures forall f :: f in incoming && f != LastUpdatedField ==> r[f] == incoming[f]
    ensures forall f :: f in existing && f !in incoming && f != LastUpdatedField ==> r[f] == existing[f]
    ensures CreatedAtField !in incoming ==>
      (CreatedAtField in r <==> CreatedAtField in existing)
      && (CreatedAtField in existing ==> r[CreatedAtField] == existing[CreatedAtField])
    ensures IdOf(r) == if PatientIdField in incoming then IdOf(incoming) else IdOf(existing)
  {
    (existing + incoming)[LastUpdatedField := now]
  }

  /** The collection `savePatient` writes back: the first record with the incoming id is
      replaced in place by the merge, or, when no record has that id, the stamped
      record is appended. */
  function Upsert(ps: seq<Record>, incoming: Record, now: Timestamp): (r: seq<Record>)
    ensures IdAbsent(ps, IdOf(incoming)) ==>
      |r| == |ps| + 1 && r[..|ps|] == ps && r[|ps|] == Stamp(incoming, now)
    ensures forall i :: IsFirstMatch(ps, IdOf(incoming), i) ==>
      && |r| == |ps|
      && r[i] == Merge(ps[i], incoming, now)
      && (forall k :: 0 <= k < |ps| && k != i ==> r[k] == ps[k])
  {
    var i := FindIndex(ps, IdOf(incoming));
    if i == -1 then ps + [Stamp(incoming, now)]
    else ps[i := Merge(ps[i], incoming, now)]
  }

  // ---------------------------------------------------------------------------
  // The storage boundary

  /** The value under the "patients" key: `None` when the key is absent, holds the
      empty string, or does not parse as JSON; otherwise the parsed list. */
  type Storage = Option<seq<Record>>

  /** What a write-back returns to the caller, and the storage it leaves behind. */
  datatype WriteResult = WriteResult(ok: bool, storage: Storage)

  /** `getPatients()`: fails soft, reading an absent or unparsable value as the empty list. */
  function GetPatients(s: Storage): seq<Record> {
    match s
    case None => []
    case Some(v) => v
  }

  /** `localStorage.setItem('patients', JSON.stringify(ps))` inside the operations'
      try/catch. `writeSucceeds` is the browser's answer (false: quota exceeded,
      storage disabled, serialisation error); a failed write leaves storage as it was. */
  function SetItem(s: Storage, ps: seq<Record>, writeSucceeds: bool): (w: WriteResult)
    ensures w.ok == writeSucceeds
    ensures w.ok ==> GetPatients(w.storage) == ps
    ensures !w.ok ==> w.storage == s
  {
    if writeSucceeds then WriteResult(true, Some(ps)) else WriteResult(false, s)
  }

  /** `getPatientById(id)`. */
  function GetPatientById(s: Storage, id: Option<string>): (r: Option<Record>)
    ensures r.None? <==> IdAbsent(GetPatients(s), id)
    ensures forall i :: IsFirstMatch(GetPatients(s), id, i) ==> r == Some(GetPatients(s)[i])
  {
    Find(GetPatients(s), id)
  }

  /** How many records a save adds: one for an id no record carries, none otherwise. */
  function CountNew(ps: seq<Record>, id: Option<string>): nat {
    if IdAbsent(ps, id) then 1 else 0
  }

  /** `savePatient(incoming)` with the clock read as `now`. A successful save makes
      the saved id find the stamped or merged record, adds a record only for a new id,
      and leaves every other id's record where it was. */
  function SavePatient(s: Storage, incoming: Record, now: Timestamp, writeSucceeds: bool): (w: WriteResult)
    ensures w.ok == writeSucceeds
    ensures !w.ok ==> w.storage == s
    ensures w.ok && IdAbsent(GetPatients(s), IdOf(incoming)) ==>
      GetPatientById(w.storage, IdOf(incoming)) == Some(Stamp(incoming, now))
    ensures w.ok ==> forall i :: IsFirstMatch(GetPatients(s), IdOf(incoming), i) ==>
      GetPatientById(w.storage, IdOf(incoming)) == Some(Merge(GetPatients(s)[i], incoming, now))
    ensures w.ok ==> forall o :: o != IdOf(incoming) ==> GetPatientById(w.storage, o) == GetPatientById(s, o)
    ensures w.ok ==> GetPatients(w.storage) == Upsert(GetPatients(s), incoming, now)
    ensures w.ok ==> |GetPatients(w.storage)| == |GetPatients(s)| + CountNew(GetPatients(s), IdOf(incoming))
    ensures w.ok && UniqueIds(GetPatients(s)) ==> UniqueIds(GetPatients(w.storage))
  {
    var ps := GetPatients(s);
    UpsertThenFind(ps, incoming, now);
    UpsertKeepsIdsUnique(ps, incoming, now);
    assert forall o :: o != IdOf(incoming) ==> Find(Upsert(ps, incoming, now), o) == Find(ps, o) by {
      forall o | o != IdOf(incoming) ensures Find(Upsert(ps, incoming, now), o) == Find(ps, o) {
        UpsertKeepsOtherFinds(ps, incoming, now, o);
      }
    }
    SetItem(s, Upsert(ps, incoming, now), writeSucceeds)
  }

  /** `deletePatient(id)`: succeeds even when no record carries `id`. A successful
      delete stores exactly the records with another id, in their old order. */
  function DeletePatient(s: Storage, id: Option<string>, writeSucceeds: bool): (w: WriteResult)
    ensures w.ok == writeSucceeds
    ensures !w.ok ==> w.storage == s
    ensures w.ok ==> GetPatients(w.storage) == WithoutId(GetPatients(s), id)
    ensures w.ok ==> GetPatientById(w.storage, id).None?
    ensures w.ok ==> forall o :: o != id ==> GetPatientById(w.storage, o) == GetPatientById(s, o)
    ensures w.ok && UniqueIds(GetPatients(s)) ==> UniqueIds(GetPatients(w.storage))
  {
    var ps := GetPatients(s);
    assert forall o :: o != id ==> Find(WithoutId(ps, id), o) == Find(ps, o) by {
      forall o | o != id ensures Find(WithoutId(ps, id), o) == Find(ps, o) {
        WithoutIdKeepsOtherFinds(ps, id, o);
      }
    }
    assert UniqueIds(ps) ==> UniqueIds(WithoutId(ps, id)) by {
      if UniqueIds(ps) {
        WithoutIdKeepsIdsUnique(ps, id);
      }
    }
    SetItem(s, WithoutId(ps, id), writeSucceeds)
  }

  // ---------------------------------------------------------------------------
  // Lemmas about the collection operations

  /** Collections whose records carry the same ids position by position answer
      every find with the same position. */
  lemma SameIdsSameFirstMatch(a: seq<Record>, b: seq<Record>, id: Option<string>, i: int)
    requires |a| == |b|
    requires forall k :: 0 <= k < |a| ==> IdOf(a[k]) == IdOf(b[k])
    ensures IsFirstMatch(a, id, i) <==> IsFirstMatch(b, id, i)
    ensures IdAbsent(a, id) <==> IdAbsent(b, id)
  {
  }

  /** Save followed by find on the saved id returns the stored record: the stamped
      record for a new id, the merged record for an existing one. */
  lemma UpsertThenFind(ps: seq<Record>, incoming: Record, now: Timestamp)
    ensures IdAbsent(ps, IdOf(incoming)) ==>
      Find(Upsert(ps, incoming, now), IdOf(incoming)) == Some(Stamp(incoming, now))
    ensures forall i :: IsFirstMatch(ps, IdOf(incoming), i) ==>
      Find(Upsert(ps, incoming, now), IdOf(incoming)) == Some(Merge(ps[i], incoming, now))
  {
  }

  /** Save keeps ids pairwise distinct. */
  lemma UpsertKeepsIdsUnique(ps: seq<Record>, incoming: Record, now: Timestamp)
    ensures UniqueIds(ps) ==> UniqueIds(Upsert(ps, incoming, now))
  {
  }

  /** Save leaves every other id's lookup as it was. */
  lemma UpsertKeepsOtherFinds(ps: seq<Record>, incoming: Record, now: Timestamp, other: Option<string>)
    requires other != IdOf(incoming)
    ensures Find(Upsert(ps, incoming, now), other) == Find(ps, other)
  {
    var id := IdOf(incoming);
    var r := Upsert(ps, incoming, now);
    if IdAbsent(ps, id) {
      assert forall k :: 0 <= k < |ps| ==> r[k] == ps[k] by {
        forall k | 0 <= k < |ps| ensures r[k] == ps[k] {
          assert r[k] == r[..|ps|][k];
        }
      }
      if IdAbsent(ps, other) {
        assert IdAbsent(r, other);
      } else {
        var j := FindIndex(ps, other);
        assert IsFirstMatch(r, other, j);
      }
    } else {
      var m := FindIndex(ps, id);
      assert forall k :: 0 <= k < |ps| ==> IdOf(r[k]) == IdOf(ps[k]);
      if IdAbsent(ps, other) {
        SameIdsSameFirstMatch(ps, r, other, 0);
      } else {
        var j := FindIndex(ps, other);
        SameIdsSameFirstMatch(ps, r, other, j);
        assert j != m;
      }
    }
  }

  /** Saving a new record and then saving an update to it: the found record keeps the
      first save's creation time and carries the second save's update time. */
  lemma SaveTwice(ps: seq<Record>, first: Record, second: Record, t1: Timestamp, t2: Timestamp)
    requires IdAbsent(ps, IdOf(first))
    requires IdOf(second) == IdOf(first)
    requires CreatedAtField !in second
    ensures var found := Find(Upsert(Upsert(ps, first, t1), second, t2), IdOf(first));
      && found.Some?
      && CreatedAtField in found.value && found.value[CreatedAtField] == t1
      && found.value[LastUpdatedField] == t2
  {
    var once := Upsert(ps, first, t1);
    assert IsFirstMatch(once, IdOf(first), |ps|);
    UpsertThenFind(once, second, t2);
  }

  /** An update that carries its own `createdAt` replaces the stored one: the spread
      puts the incoming fields last. */
  lemma UpdateOverridesCreatedAt(ps: seq<Record>, incoming: Record, now: Timestamp, i: int)
    requires IsFirstMatch(ps, IdOf(incoming), i)
    requires CreatedAtField in incoming
    ensures var found := Find(Upsert(ps, incoming, now), IdOf(incoming));
      found.Some? && found.value[CreatedAtField] == incoming[CreatedAtField]
  {
    UpsertThenFind(ps, incoming, now);
  }

  /** Filtering distributes over concatenation: the kept records stay in their
      original relative order. */
  lemma {:induction false} WithoutIdAppend(a: seq<Record>, b: seq<Record>, id: Option<string>)
    ensures WithoutId(a + b, id) == WithoutId(a, id) + WithoutId(b, id)
  {
    if a == [] {
      assert a + b == b;
    } else {
      assert (a + b)[0] == a[0];
      assert (a + b)[1..] == a[1..] + b;
      WithoutIdAppend(a[1..], b, id);
    }
  }

  /** Deleting an id no record carries leaves the collection unchanged. */
  lemma {:induction false} WithoutAbsentId(ps: seq<Record>, id: Option<string>)
    requires IdAbsent(ps, id)
    ensures WithoutId(ps, id) == ps
  {
    if ps != [] {
      assert IdOf(ps[0]) != id;
      assert IdAbsent(ps[1..], id) by {
        forall k | 0 <= k < |ps| - 1 ensures IdOf(ps[1..][k]) != id {
          assert ps[1..][k] == ps[k + 1];
        }
      }
      WithoutAbsentId(ps[1..], id);
      assert ps == [ps[0]] + ps[1..];
    }
  }

  /** Deleting twice is deleting once. */
  lemma WithoutIdIdempotent(ps: seq<Record>, id: Option<string>)
    ensures WithoutId(WithoutId(ps, id), id) == WithoutId(ps, id)
  {
    WithoutAbsentId(WithoutId(ps, id), id);
  }

  /** Delete removes exactly the records carrying the id. */
  lemma {:induction false} WithoutIdLength(ps: seq<Record>, id: Option<string>)
    ensures |WithoutId(ps, id)| == |ps| - CountId(ps, id)
  {
    if ps != [] {
      WithoutIdLength(ps[1..], id);
    }
  }

  /** With distinct ids, a present id is carried by exactly one record. */
  lemma {:induction false} UniqueCount(ps: seq<Record>, id: Option<string>)
    requires UniqueIds(ps)
    ensures CountId(ps, id) == if IdAbsent(ps, id) then 0 else 1
  {
    if ps != [] {
      TailIdsUnique(ps);
      UniqueCount(ps[1..], id);
      assert forall k :: 0 < k < |ps| ==> ps[k] == ps[1..][k - 1];
      if IdOf(ps[0]) == id {
        assert IdAbsent(ps[1..], id);
      } else {
        assert IdAbsent(ps, id) <==> IdAbsent(ps[1..], id);
      }
    }
  }

  /** Delete leaves every other id's lookup as it was. */
  lemma {:induction false} WithoutIdKeepsOtherFinds(ps: seq<Record>, id: Option<string>, other: Option<string>)
    requires other != id
    ensures Find(WithoutId(ps, id), other) == Find(ps, other)
  {
    if ps != [] {
      WithoutIdKeepsOtherFinds(ps[1..], id, other);
      var rest := WithoutId(ps[1..], id);
      if IdOf(ps[0]) == id {
        assert WithoutId(ps, id) == rest;
      } else {
        var r := WithoutId(ps, id);
        assert r == [ps[0]] + rest;
        assert r[1..] == rest;
      }
    }
  }

  /** Ids stay distinct when a record is put in front of a list none of whose
      records shares its id. */
  lemma ConsKeepsIdsUnique(x: Record, rest: seq<Record>)
    requires UniqueIds(rest)
    requires forall y :: y in rest ==> IdOf(y) != IdOf(x)
    ensures UniqueIds([x] + rest)
  {
  }

  /** Dropping the first record keeps ids distinct, and its id is carried by no other. */
  lemma TailIdsUnique(ps: seq<Record>)
    requires UniqueIds(ps) && ps != []
    ensures UniqueIds(ps[1..])
    ensures forall y :: y in ps[1..] ==> IdOf(y) != IdOf(ps[0])
  {
  }

  /** Delete keeps ids pairwise distinct. */
  lemma {:induction false} WithoutIdKeepsIdsUnique(ps: seq<Record>, id: Option<string>)
    requires UniqueIds(ps)
    ensures UniqueIds(WithoutId(ps, id))
  {
    if ps != [] {
      TailIdsUnique(ps);
      WithoutIdKeepsIdsUnique(ps[1..], id);
      if IdOf(ps[0]) != id {
        ConsKeepsIdsUnique(ps[0], WithoutId(ps[1..], id));
      }
    }
  }

  // ---------------------------------------------------------------------------
  // Lemmas about the store

  /** Deleting twice in a row succeeds both times and the second changes nothing. */
  lemma DeleteTwice(s: Storage, id: Option<string>)
    ensures var once := DeletePatient(s, id, true);
      var twice := DeletePatient(once.storage, id, true);
      once.ok && twice.ok && twice.storage == once.storage
  {
    WithoutIdIdempotent(GetPatients(s), id);
  }

  /** With distinct ids, delete shrinks the list by one when the id is present and
      leaves it unchanged when it is absent. */
  lemma DeleteLength(s: Storage, id: Option<string>)
    requires UniqueIds(GetPatients(s))
    ensures var ps := GetPatients(s);
      var after := GetPatients(DeletePatient(s, id, true).storage);
      && (IdAbsent(ps, id) ==> after == ps)
      && (!IdAbsent(ps, id) ==> |after| == |ps| - 1)
  {
    var ps := GetPatients(s);
    WithoutIdLength(ps, id);
    UniqueCount(ps, id);
    if IdAbsent(ps, id) {
      WithoutAbsentId(ps, id);
    }
  }

  /** An empty or missing stored value lists no patients and finds none. */
  lemma EmptyStore(id: Option<string>)
    ensures GetPatients(None) == [] && GetPatients(Some([])) == []
    ensures GetPatientById(None, id) == None
  {
  }
}
