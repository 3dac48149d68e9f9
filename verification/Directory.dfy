/**
 The directory: which slot holds the checkpoint of which log, and which slots are free.
 It is stored in slot 0 through a codec whose details do not matter here.
 */
module Directory {
  import opened Blocks

  type SlotMap = map<string, nat>

  /** The YAML library: the slot map's encoding, and the decoder for legacy checkpoint records. */
  datatype Codec = Codec(encode: SlotMap -> Bytes, decode: Bytes -> Option<SlotMap>, legacy: Bytes -> Option<Bytes>)
  {
    ghost predicate Valid() {
      && (forall m :: decode(encode(m)) == Some(m))
      && decode([]) == Some(map[])
      && legacy([]) == Some([])
    }
  }

  const RAW_MAGIC: Bytes := [1, 82, 65, 87]

  function MarshalCheckpoint(cp: Bytes): Bytes {
    RAW_MAGIC + cp
  }

  function UnmarshalCheckpoint(codec: Codec, b: Bytes): Option<Bytes> {
    if RAW_MAGIC <= b then Some(b[|RAW_MAGIC|..]) else codec.legacy(b)
  }

  /** The checkpoint in a record's data: what follows the raw prefix, or the legacy form. */
  function CheckpointIn(codec: Codec, data: Bytes): Option<Bytes> {
    if [1, 82, 65, 87] <= data then Some(data[4..]) else codec.legacy(data)
  }

  lemma CheckpointMeans(codec: Codec, data: Bytes)
    ensures UnmarshalCheckpoint(codec, data) == CheckpointIn(codec, data)
  {
  }

  lemma CheckpointRoundTrip(codec: Codec, cp: Bytes)
    ensures UnmarshalCheckpoint(codec, MarshalCheckpoint(cp)) == Some(cp)
    ensures MarshalCheckpoint(cp) != []
  {
    assert MarshalCheckpoint(cp)[|RAW_MAGIC|..] == cp;
  }

  // ---------------------------------------------------------------------
  // Allocation

  datatype Table = Table(ids: SlotMap, free: seq<nat>)

  ghost predicate Injective(m: SlotMap) {
    forall a, b | a in m && b in m && a != b :: m[a] != m[b]
  }

  /** No log has slot 0 or a slot that does not exist, and no two logs share one. */
  ghost predicate WellAllocated(n: nat, m: SlotMap) {
    (forall id | id in m :: 1 <= m[id] < n) && Injective(m)
  }

  ghost predicate Ascending(s: seq<nat>) {
    forall i, j | 0 <= i < j < |s| :: s[i] < s[j]
  }

  /** Logs and free list share out the slots from 1 to n - 1, the free ones in ascending order. */
  ghost predicate Partitioned(n: nat, t: Table) {
    && WellAllocated(n, t.ids)
    && Ascending(t.free)
    && (forall i | i in t.free :: 1 <= i < n && i !in t.ids.Values)
    && (forall i | 1 <= i < n && i !in t.ids.Values :: i in t.free)
  }

  ghost predicate Extends(m: SlotMap, m': SlotMap) {
    forall id | id in m :: id in m' && m'[id] == m[id]
  }

  /** Ascending lists of the same numbers are equal. */
  lemma {:induction false} AscendingUnique(s: seq<nat>, t: seq<nat>)
    requires Ascending(s) && Ascending(t) && forall x :: x in s <==> x in t
    ensures s == t
    decreases |s|
  {
    HeadIn(s);
    HeadIn(t);
    if s != [] {
      var i :| 0 <= i < |t| && t[i] == s[0];
      var j :| 0 <= j < |s| && s[j] == t[0];
      forall x
        ensures x in s[1..] <==> x in t[1..]
      {
        RestOf(s, x);
        RestOf(t, x);
      }
      AscendingUnique(s[1..], t[1..]);
    }
  }

  lemma HeadIn(s: seq<nat>)
    ensures s != [] ==> s[0] in s
  {
  }

  lemma RestOf(s: seq<nat>, x: nat)
    requires Ascending(s) && s != []
    ensures x in s[1..] <==> x in s && x != s[0]
  {
    if x in s && x != s[0] {
      var i :| 0 <= i < |s| && s[i] == x;
      assert s[1..][i - 1] == x;
    }
  }

  /** The table of a map in which each log has its own slot is the only one there is. */
  lemma PopulateUnique(n: nat, t: Table)
    requires Partitioned(n, t)
    ensures Populate(n, t.ids) == Some(t)
  {
    AscendingUnique(Populate(n, t.ids).value.free, t.free);
  }

  /** The slots from `i` on that no log uses, in ascending order. */
  function FreeFrom(n: nat, used: set<nat>, i: nat): (free: seq<nat>)
    ensures Ascending(free)
    ensures forall x :: x in free <==> i <= x < n && x !in used
    decreases n - i
  {
    if i >= n then []
    else if i in used then FreeFrom(n, used, i + 1)
    else
      var rest := FreeFrom(n, used, i + 1);
      assert forall k | 0 <= k < |rest| :: rest[k] in rest;
      [i] + rest
  }

  /** `populateMap`: the table for a stored map; fails on a log in slot 0 or in no slot at all. */
  function Populate(n: nat, ids: SlotMap): (t: Option<Table>)
    ensures t.Some? <==> forall id | id in ids :: 1 <= ids[id] < n
    ensures t.Some? ==> t.value.ids == ids
    ensures WellAllocated(n, ids) ==> t.Some? && Partitioned(n, t.value)
  {
    if forall id | id in ids :: 1 <= ids[id] < n
    then Some(Table(ids, FreeFrom(n, ids.Values, 1)))
    else None
  }

  /** Gives a new log the first free slot. */
  function Assign(t: Table, id: string): Table
    requires t.free != []
  {
    Table(t.ids[id := t.free[0]], t.free[1..])
  }

  lemma AssignPartitions(n: nat, t: Table, id: string)
    requires Partitioned(n, t) && t.free != [] && id !in t.ids
    ensures Partitioned(n, Assign(t, id)) && Extends(t.ids, Assign(t, id).ids)
    ensures
      var ids := Assign(t, id).ids;
      && ids.Keys == t.ids.Keys + {id}
      && ids[id] !in t.ids.Values && forall i | 1 <= i < n && i !in t.ids.Values :: ids[id] <= i
  {
    var t' := Assign(t, id);
    assert t.free[0] in t.free;
    forall i | i in t'.free
      ensures 1 <= i < n && i !in t'.ids.Values
    {
      var k :| 0 <= k < |t'.free| && t'.free[k] == i;
      assert i == t.free[k + 1] && i in t.free;
    }
    forall i | 1 <= i < n && i !in t'.ids.Values
      ensures i in t'.free
    {
      assert t'.ids[id] in t'.ids.Values;
      forall x | x in t.ids
        ensures t.ids[x] != i
      {
        assert t'.ids[x] in t'.ids.Values;
      }
      assert i in t.free;
    }
  }
}
