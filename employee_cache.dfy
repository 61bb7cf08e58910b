/** EmployeeCacheService: the Redis hash "employees", one field per employee
    id holding the serialized employee, with a time-to-live on the whole
    hash. The serializer is a parameter: a pair of encode/decode functions
    whose faithfulness is stated, where needed, as a requirement. */
module EmployeeCaches {
  import opened Common
  import opened Roles
  import opened Employees
  import opened TaskEntities
  import opened Store

  type Blob = seq<bv8>

  /** The serializer: Employee out, Employee or EmployeeDTO back in; a
      decode of bytes that are not a value of the type gives None. */
  datatype Codec = Codec(
    encode: Employee -> Blob,
    decodeEmployee: Blob -> Option<Employee>,
    decodeDto: Blob -> Option<EmployeeDTO>)

  /** Decoding an encoded employee gives it back. */
  ghost predicate RoundTrips(c: Codec) {
    forall e :: c.decodeEmployee(c.encode(e)) == Some(e)
  }

  const EmployeeHashKey: string := "employees"
  const TicksPerHour: int := 36_000_000_000
  /** TimeSpan.FromHours(24). */
  const CacheExpiry: int := 24 * TicksPerHour

  /** The error a write reports when the cache backend is unreachable. */
  const BackendError: Exception := Exception(RedisException, FrameworkMessage)

  /** FromDto: the DTO's fields with the Role parsed by name (which throws
      for a name that is no member), a null password and an empty Tasks
      list. */
  function FromDto(d: EmployeeDTO): (r: Throws<Employee>)
    ensures r.Throw? <==> ParseRole(d.role).None?
    ensures r.Return? ==> r.value.id == d.id && r.value.tasks == Some([]) && r.value.password.None?
  {
    match ParseRole(d.role)
    case None => Throw(Exception(ArgumentException, FrameworkMessage))
    case Some(role) =>
      Return(Employees.Employee(d.id, d.firstName, d.lastName, role, d.email, None, d.mobileNumber, Some([])))
  }

  /** GetEmployeeAsync on a reachable backend: null on a miss and on a
      decode failure, the decoded employee otherwise. */
  function Fetch(hash: map<int, Blob>, c: Codec, id: int): (r: Option<Employee>)
    ensures id !in hash ==> r.None?
    ensures id in hash ==> r == c.decodeEmployee(hash[id])
  {
    if id in hash then c.decodeEmployee(hash[id]) else None
  }

  /** A stored employee is read back, given a faithful serializer, and every
      other field reads as before. */
  lemma FetchAfterStore(hash: map<int, Blob>, c: Codec, e: Employee, id: int)
    requires RoundTrips(c)
    ensures Fetch(hash[e.id := c.encode(e)], c, e.id) == Some(e)
    ensures id != e.id ==> Fetch(hash[e.id := c.encode(e)], c, id) == Fetch(hash, c, id)
  {
  }

  /** One entry of GetAllEmployeesAsync: decoded as an EmployeeDTO and
      converted by FromDto, or skipped when either step throws. */
  function DecodeEntry(c: Codec, b: Blob): (r: seq<Employee>)
    ensures |r| <= 1
    ensures r != [] <==> c.decodeDto(b).Some? && FromDto(c.decodeDto(b).value).Return?
  {
    match c.decodeDto(b)
    case None => []
    case Some(d) =>
      match FromDto(d)
      case Throw(_) => []
      case Return(e) => [e]
  }

  /** The employees decoded from the entries with the given fields, in
      that order. */
  function DecodeAll(hash: map<int, Blob>, c: Codec, keys: seq<int>): (r: seq<Employee>)
    requires forall i :: 0 <= i < |keys| ==> keys[i] in hash
    ensures |r| <= |keys|
    ensures forall e :: e in r ==> e.tasks == Some([]) && e.password.None?
  {
    if keys == [] then []
    else DecodeAll(hash, c, keys[..|keys| - 1]) + DecodeEntry(c, hash[keys[|keys| - 1]])
  }

  /** Decoding one more field appends that field's entry. */
  lemma DecodeAllStep(hash: map<int, Blob>, c: Codec, keys: seq<int>, i: int)
    requires forall j :: 0 <= j < |keys| ==> keys[j] in hash
    requires 0 <= i < |keys|
    ensures DecodeAll(hash, c, keys[..i + 1]) == DecodeAll(hash, c, keys[..i]) + DecodeEntry(c, hash[keys[i]])
  {
    assert keys[..i + 1][..i] == keys[..i];
  }

  /** GetAllEmployeesAsync on a reachable backend: every entry of the
      hash, in field order, decoded. */
  ghost function DecodeCached(hash: map<int, Blob>, c: Codec): (r: seq<Employee>)
    ensures |r| <= |hash|
  {
    AscendingFacts(hash.Keys);
    DecodeAll(hash, c, Ascending(hash.Keys))
  }

  /** Every entry that decodes contributes exactly its employee: when each
      entry decodes to an employee with a known role, nothing is skipped. */
  lemma {:induction false} DecodeAllComplete(hash: map<int, Blob>, c: Codec, keys: seq<int>)
    requires forall i :: 0 <= i < |keys| ==> keys[i] in hash
    requires forall i :: 0 <= i < |keys| ==>
      c.decodeDto(hash[keys[i]]).Some? && ParseRole(c.decodeDto(hash[keys[i]]).value.role).Some?
    ensures |DecodeAll(hash, c, keys)| == |keys|
    ensures forall i :: 0 <= i < |keys| ==>
      DecodeAll(hash, c, keys)[i] == FromDto(c.decodeDto(hash[keys[i]]).value).value
  {
    if keys != [] {
      var init := keys[..|keys| - 1];
      DecodeAllComplete(hash, c, init);
      var r := DecodeAll(hash, c, keys);
      assert r == DecodeAll(hash, c, init) + DecodeEntry(c, hash[keys[|keys| - 1]]);
      forall i | 0 <= i < |keys|
        ensures r[i] == FromDto(c.decodeDto(hash[keys[i]]).value).value
      {
        if i < |keys| - 1 {
          assert keys[i] == init[i];
        }
      }
    }
  }

  /** The ids of the decoded employees that are not in `keep`. */
  function StaleIds(decoded: seq<Employee>, keep: seq<int>): (s: set<int>)
    ensures forall id :: id in s <==> (exists i :: 0 <= i < |decoded| && decoded[i].id == id) && id !in keep
  {
    set i | 0 <= i < |decoded| && decoded[i].id !in keep :: decoded[i].id
  }

  /** The hash after pruning: the listed ids are never removed, nothing is
      added, and an entry that no decoded employee names is kept. */
  lemma PruneFacts(hash: map<int, Blob>, decoded: seq<Employee>, keep: seq<int>)
    ensures var after := hash - StaleIds(decoded, keep);
      && after.Keys <= hash.Keys
      && (forall k :: k in hash && k in keep ==> k in after && after[k] == hash[k])
      && (forall k :: k in hash && (forall i :: 0 <= i < |decoded| ==> decoded[i].id != k) ==> k in after)
  {
  }

  /** Every field holds an EmployeeDTO with a known role whose Id is the
      field's own id. */
  predicate WellFormed(hash: map<int, Blob>, c: Codec) {
    forall k :: k in hash ==>
      c.decodeDto(hash[k]).Some? && c.decodeDto(hash[k]).value.id == k &&
      ParseRole(c.decodeDto(hash[k]).value.role).Some?
  }

  /** On a well-formed hash pruning removes exactly the fields whose ids
      are not listed. */
  lemma PruneExact(hash: map<int, Blob>, c: Codec, keep: seq<int>)
    requires WellFormed(hash, c)
    ensures forall k :: k in hash ==> (k in hash - StaleIds(DecodeCached(hash, c), keep) <==> k in keep)
  {
    var keys := Ascending(hash.Keys);
    AscendingFacts(hash.Keys);
    DecodeAllComplete(hash, c, keys);
    var decoded := DecodeCached(hash, c);
    forall k | k in hash && k !in keep
      ensures k in StaleIds(decoded, keep)
    {
      assert k in keys;
      var i :| 0 <= i < |keys| && keys[i] == k;
      assert decoded[i].id == k;
    }
  }

  class EmployeeCacheService {
    /** The serializer. */
    const codec: Codec
    /** The fields of the "employees" hash, by employee id. */
    var hash: map<int, Blob>
    /** When the hash expires, if a time-to-live is set. */
    var expiresAt: Option<Ticks>
    /** Whether the cache backend can be reached. */
    var connected: bool

    /** A key that does not exist carries no time-to-live. */
    predicate Valid()
      reads this
    {
      hash == map[] ==> expiresAt.None?
    }

    constructor(codec: Codec, connected: bool)
      ensures Valid()
      ensures this.codec == codec && this.connected == connected
      ensures hash == map[] && expiresAt.None?
    {
      this.codec := codec;
      this.connected := connected;
      hash := map[];
      expiresAt := None;
    }

    /** The cached employee, or null on a miss, on a decode failure and when
        the backend cannot be reached. */
    method GetEmployeeAsync(id: int) returns (e: Option<Employee>)
      ensures e == (if connected then Fetch(hash, codec, id) else None)
    {
      if !connected {
        return None;
      }
      if id !in hash {
        return None;
      }
      e := codec.decodeEmployee(hash[id]);
    }

    /** Every entry that decodes as an EmployeeDTO with a known role, as an
        employee with an empty task list; empty when the backend cannot be
        reached. */
    method GetAllEmployeesAsync() returns (employees: seq<Employee>)
      ensures !connected ==> employees == []
      ensures connected ==> employees == DecodeCached(hash, codec)
    {
      if !connected {
        return [];
      }
      if hash == map[] {
        AscendingFacts(hash.Keys);
        return [];
      }
      var h, c := hash, codec;
      var fields := AscendingKeys(h.Keys);
      AscendingFacts(h.Keys);
      employees := [];
      var i := 0;
      while i < |fields|
        invariant 0 <= i <= |fields|
        invariant employees == DecodeAll(h, c, fields[..i])
      {
        DecodeAllStep(h, c, fields, i);
        employees := employees + DecodeEntry(c, h[fields[i]]);
        i := i + 1;
      }
      assert fields[..i] == fields;
    }

    /** Stores the employee under its id and restarts the 24-hour
        time-to-live of the whole hash; a backend failure is rethrown and
        changes nothing. */
    method SetEmployeeAsync(e: Employee, now: Ticks) returns (r: Throws<()>)
      requires Valid()
      modifies this
      ensures Valid()
      ensures !old(connected) ==> r == Throw(BackendError) && hash == old(hash) && expiresAt == old(expiresAt)
      ensures old(connected) ==>
        r == Return(()) && hash == old(hash)[e.id := codec.encode(e)] && expiresAt == Some(now + CacheExpiry)
      ensures connected == old(connected)
    {
      if !connected {
        return Throw(BackendError);
      }
      hash := hash[e.id := codec.encode(e)];
      assert e.id in hash;
      expiresAt := Some(now + CacheExpiry);
      r := Return(());
    }

    /** Deletes the field of that id only; deleting the last field deletes
        the key and its time-to-live. */
    method RemoveEmployeeAsync(id: int) returns (r: Throws<()>)
      requires Valid()
      modifies this
      ensures Valid()
      ensures !old(connected) ==> r == Throw(BackendError) && hash == old(hash) && expiresAt == old(expiresAt)
      ensures old(connected) ==>
        r == Return(()) && hash == old(hash) - {id} && expiresAt == (if hash == map[] then None else old(expiresAt))
      ensures connected == old(connected)
    {
      if !connected {
        return Throw(BackendError);
      }
      hash := hash - {id};
      if hash == map[] {
        expiresAt := None;
      }
      r := Return(());
    }

    /** Deletes the whole hash. */
    method InvalidateEmployeeListCache() returns (r: Throws<()>)
      requires Valid()
      modifies this
      ensures Valid()
      ensures !old(connected) ==> r == Throw(BackendError) && hash == old(hash) && expiresAt == old(expiresAt)
      ensures old(connected) ==> r == Return(()) && hash == map[] && expiresAt.None?
      ensures connected == old(connected)
    {
      if !connected {
        return Throw(BackendError);
      }
      hash := map[];
      expiresAt := None;
      r := Return(());
    }

    /** Deletes the fields of the cached employees, as GetAllEmployeesAsync
        lists them, whose ids are not in employeeIds, then restarts the
        time-to-live. With the backend unreachable the read yields nothing
        and the expiry call throws. */
    method UpdateEmployeeListAsync(employeeIds: seq<int>, now: Ticks) returns (r: Throws<()>)
      requires Valid()
      modifies this
      ensures Valid()
      ensures !old(connected) ==> r == Throw(BackendError) && hash == old(hash) && expiresAt == old(expiresAt)
      ensures old(connected) ==>
        && r == Return(())
        && hash == old(hash) - StaleIds(DecodeCached(old(hash), codec), employeeIds)
        && expiresAt == (if hash == map[] then None else Some(now + CacheExpiry))
      ensures connected == old(connected)
    {
      var current := GetAllEmployeesAsync();
      if !connected {
        return Throw(BackendError);
      }
      var stale := StaleIds(current, employeeIds);
      hash := hash - stale;
      expiresAt := if hash == map[] then None else Some(now + CacheExpiry);
      r := Return(());
    }
  }
}
