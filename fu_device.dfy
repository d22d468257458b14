/**
 * The per-device record of the daemon, FuDevice (src/fu-device.c).
 *
 * The private part of a FuDevice holds an optional equivalent id and a
 * string-to-string metadata hash table.  A C string that may be NULL is an
 * `Option<string>` here.  Strings are values in Dafny, so the `g_strdup`
 * copies the C code takes are implicit: nothing the caller does afterwards
 * can reach what the record stores.
 */
module FuDevice {
  import opened Wrappers
  import opened DeviceKeys

  /** What `fu_device_get_metadata` returns for `key`: NULL for a NULL key (it returns before the table lookup) or a key that was never set. */
  function Lookup(metadata: map<string, string>, key: Option<string>): (value: Option<string>) {
    if key.Some? && key.value in metadata then Some(metadata[key.value]) else None
  }

  /**
   * The table after `fu_device_set_metadata(key, value)`: unchanged when
   * either argument is NULL, otherwise `key` bound to `value`, replacing any
   * earlier value (`g_hash_table_insert` replaces).
   */
  function Insert(metadata: map<string, string>, key: Option<string>, value: Option<string>): (m: map<string, string>) {
    if key.None? || value.None? then metadata else metadata[key.value := value.value]
  }

  class Device {
    var equivalentId: Option<string>
    var metadata: map<string, string>

    /** `fu_device_new`: no equivalent id yet and an empty metadata table. */
    constructor ()
      ensures equivalentId == None
      ensures metadata == map[]
    {
      equivalentId := None;
      metadata := map[];
    }

    /** `fu_device_get_equivalent_id`: the stored id, NULL when none was set. */
    method GetEquivalentId() returns (id: Option<string>)
      ensures id == equivalentId
    {
      id := equivalentId;
    }

    /** `fu_device_set_equivalent_id`: replaces the id, NULL included, and nothing else. */
    method SetEquivalentId(id: Option<string>)
      modifies this
      ensures equivalentId == id
      ensures metadata == old(metadata)
    {
      equivalentId := id;
    }

    /** `fu_device_get_metadata`: the value stored for `key`, NULL for a NULL or unknown key. */
    method GetMetadata(key: Option<string>) returns (value: Option<string>)
      ensures value.Some? <==> key.Some? && key.value in metadata
      ensures value.Some? ==> value.value == metadata[key.value]
      ensures value == Lookup(metadata, key)
    {
      if key.None? {
        return None;
      }
      if key.value in metadata {
        value := Some(metadata[key.value]);
      } else {
        value := None;
      }
    }

    /**
     * `fu_device_set_metadata`: a NULL key or value leaves the record as it
     * was; otherwise `key` is bound to `value`, replacing an earlier value.
     * The equivalent id never changes.
     */
    method SetMetadata(key: Option<string>, value: Option<string>)
      modifies this
      ensures metadata == Insert(old(metadata), key, value)
      ensures equivalentId == old(equivalentId)
    {
      if key.None? {
        return;
      }
      if value.None? {
        return;
      }
      metadata := metadata[key.value := value.value];
    }
  }

  // ---------------------------------------------------------------------------
  // Properties of one call

  /** After setting `k` to `v`, getting `k` gives `v`. */
  lemma GetAfterSet(m: map<string, string>, k: string, v: string)
    ensures Lookup(Insert(m, Some(k), Some(v)), Some(k)) == Some(v)
  {
  }

  /** Setting a key leaves the value of every other key as it was, whatever the arguments. */
  lemma SetLeavesOtherKeys(m: map<string, string>, key: Option<string>, value: Option<string>, other: string)
    requires key != Some(other)
    ensures Lookup(Insert(m, key, value), Some(other)) == Lookup(m, Some(other))
  {
  }

  /** A NULL key or a NULL value changes nothing. */
  lemma SetNullIsNoOp(m: map<string, string>, key: Option<string>, value: Option<string>)
    requires key.None? || value.None?
    ensures Insert(m, key, value) == m
  {
  }

  /** Setting a key that is present overwrites it in place: the set of keys and its size stay the same. */
  lemma SetOverwrites(m: map<string, string>, k: string, v: string)
    ensures k in m ==> Insert(m, Some(k), Some(v)).Keys == m.Keys && |Insert(m, Some(k), Some(v))| == |m|
    ensures k !in m ==> Insert(m, Some(k), Some(v)).Keys == m.Keys + {k} && |Insert(m, Some(k), Some(v))| == |m| + 1
  {
  }

  /** Getting never finds anything under a NULL key, nor under a key that is not in the table. */
  lemma GetMissing(m: map<string, string>, key: Option<string>)
    ensures key.None? ==> Lookup(m, key).None?
    ensures key.Some? ==> (Lookup(m, key).None? <==> key.value !in m)
  {
  }

  /** Writing one well-known key never changes the value of another, since their names differ. */
  lemma WellKnownKeysIndependent(m: map<string, string>, a: Key, b: Key, v: string)
    requires a != b
    ensures Lookup(Insert(m, Some(KeyName(a)), Some(v)), Some(KeyName(b))) == Lookup(m, Some(KeyName(b)))
  {
    KeyNamesDistinct(a, b);
    SetLeavesOtherKeys(m, Some(KeyName(a)), Some(v), KeyName(b));
  }

  // ---------------------------------------------------------------------------
  // A sequence of calls

  /** The arguments of one `fu_device_set_metadata` call. */
  datatype Write = Write(key: Option<string>, value: Option<string>)

  /** The table after the calls `ws`, in order, starting from `m`. */
  function Replay(m: map<string, string>, ws: seq<Write>): (r: map<string, string>)
    decreases |ws|
  {
    if ws == [] then m
    else Insert(Replay(m, ws[..|ws| - 1]), ws[|ws| - 1].key, ws[|ws| - 1].value)
  }

  /** The value of the last call in `ws` that set `k` with a non-NULL value, if there is one. */
  function LastWrite(ws: seq<Write>, k: string): (value: Option<string>)
    decreases |ws|
  {
    if ws == [] then None
    else if ws[|ws| - 1].key == Some(k) && ws[|ws| - 1].value.Some? then ws[|ws| - 1].value
    else LastWrite(ws[..|ws| - 1], k)
  }

  /**
   * The last write wins: after any sequence of calls, a key holds the value of
   * the last call that set it, or its original value if no call did.
   */
  lemma {:induction false} ReplayLookup(m: map<string, string>, ws: seq<Write>, k: string)
    ensures Lookup(Replay(m, ws), Some(k)) == if LastWrite(ws, k).Some? then LastWrite(ws, k) else Lookup(m, Some(k))
    decreases |ws|
  {
    if ws != [] {
      ReplayLookup(m, ws[..|ws| - 1], k);
    }
  }

  /** Starting from the empty table of a new device, the calls `ws` leave each key holding exactly its last written value. */
  lemma {:induction false} NewDeviceAfterWrites(ws: seq<Write>, k: string)
    ensures Lookup(Replay(map[], ws), Some(k)) == LastWrite(ws, k)
  {
    ReplayLookup(map[], ws, k);
  }

  /** The calls `ws`, made in order on the device `d`: its table ends as `Replay` says, and its id is untouched. */
  method ApplyWrites(d: Device, ws: seq<Write>)
    modifies d
    ensures d.metadata == Replay(old(d.metadata), ws)
    ensures d.equivalentId == old(d.equivalentId)
  {
    for i := 0 to |ws|
      invariant d.metadata == Replay(old(d.metadata), ws[..i])
      invariant d.equivalentId == old(d.equivalentId)
    {
      assert ws[..i + 1][..i] == ws[..i];
      d.SetMetadata(ws[i].key, ws[i].value);
    }
    assert ws[..|ws|] == ws;
  }

  /** A new device after the calls `ws`: no id, and every key holds exactly its last written value. */
  method NewDeviceWithWrites(ws: seq<Write>) returns (d: Device)
    ensures fresh(d)
    ensures d.equivalentId == None
    ensures forall k :: Lookup(d.metadata, Some(k)) == LastWrite(ws, k)
  {
    d := new Device();
    ApplyWrites(d, ws);
    forall k ensures Lookup(d.metadata, Some(k)) == LastWrite(ws, k) {
      NewDeviceAfterWrites(ws, k);
    }
  }
}
