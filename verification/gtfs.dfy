/** The GTFS-realtime side of the Carris feed, already decoded: a message is
    the list of its set fields (in the order `ListFields()` yields them),
    each field holding a scalar or a nested message. The flattening of
    `parse_message` and the entity filter of `get_all_vehicle_data`. */
module Gtfs {
  import opened Wrappers
  import opened Tables

  datatype Node = Scalar(v: Value) | Message(fields: seq<Field>)
  datatype Field = Field(name: string, node: Node)

  /** A feed entity: its id and its `vehicle` sub-message when present
      (trip updates and alerts are not read by the script). */
  datatype Entity = Entity(id: string, vehicle: Option<seq<Field>>)

  /** The key `k` begins with `p`. */
  predicate HasPrefix(k: string, p: string) {
    |p| <= |k| && k[..|p|] == p
  }

  /** A key under an extension of `p` begins with `p`. */
  lemma PrefixOfPrefix(p: string, q: string)
    requires HasPrefix(q, p)
    ensures forall k :: HasPrefix(k, q) ==> HasPrefix(k, p)
  {
    forall k | HasPrefix(k, q)
      ensures HasPrefix(k, p)
    {
      assert k[..|p|] == k[..|q|][..|p|];
    }
  }

  /** `parse_message(message, prefix)`: every scalar reached through nested
      messages is stored under its field names joined by `_`; when two
      paths give one key the later field wins. */
  function Flatten(fs: seq<Field>, prefix: string): (r: map<string, Value>)
    ensures forall k :: k in r ==> HasPrefix(k, prefix)
    decreases fs
  {
    if fs == [] then map[]
    else
      var name := prefix + fs[0].name;
      var head := match fs[0].node
        case Scalar(v) => map[name := v]
        case Message(sub) => Flatten(sub, name + "_");
      assert HasPrefix(name, prefix) && HasPrefix(name + "_", prefix);
      PrefixOfPrefix(prefix, name + "_");
      head + Flatten(fs[1..], prefix)
  }

  /** A scalar leaf of a message tree: the field names leading to it. */
  datatype Leaf = Leaf(path: seq<string>, value: Value)

  /** Prefixes every leaf path with one more field name. */
  function Under(n: string, ls: seq<Leaf>): (r: seq<Leaf>)
    ensures |r| == |ls|
    ensures forall i :: 0 <= i < |ls| ==> r[i] == Leaf([n] + ls[i].path, ls[i].value)
  {
    seq(|ls|, i requires 0 <= i < |ls| => Leaf([n] + ls[i].path, ls[i].value))
  }

  /** The scalar leaves of a message in depth-first field order. */
  function Leaves(fs: seq<Field>): (ls: seq<Leaf>)
    ensures forall i :: 0 <= i < |ls| ==> |ls[i].path| > 0
    decreases fs
  {
    if fs == [] then []
    else
      var head := match fs[0].node
        case Scalar(v) => [Leaf([fs[0].name], v)]
        case Message(sub) => Under(fs[0].name, Leaves(sub));
      head + Leaves(fs[1..])
  }

  /** Field names joined by underscores. */
  function JoinPath(path: seq<string>): string {
    if |path| == 0 then ""
    else if |path| == 1 then path[0]
    else path[0] + "_" + JoinPath(path[1..])
  }

  /** The key a leaf is stored under. */
  function KeyOf(prefix: string, l: Leaf): string {
    prefix + JoinPath(l.path)
  }

  /** Stores the leaves one by one, a later leaf overwriting an earlier one. */
  function Collect(prefix: string, ls: seq<Leaf>): map<string, Value> {
    if ls == [] then map[]
    else map[KeyOf(prefix, ls[0]) := ls[0].value] + Collect(prefix, ls[1..])
  }

  lemma MapUnionAssoc<K, V>(x: map<K, V>, y: map<K, V>, z: map<K, V>)
    ensures (x + y) + z == x + (y + z)
  {
  }

  lemma {:induction false} CollectAppend(prefix: string, a: seq<Leaf>, b: seq<Leaf>)
    ensures Collect(prefix, a + b) == Collect(prefix, a) + Collect(prefix, b)
  {
    if a == [] {
      assert a + b == b;
      assert map[] + Collect(prefix, b) == Collect(prefix, b);
    } else {
      assert (a + b)[0] == a[0];
      assert (a + b)[1..] == a[1..] + b;
      CollectAppend(prefix, a[1..], b);
      MapUnionAssoc(map[KeyOf(prefix, a[0]) := a[0].value], Collect(prefix, a[1..]), Collect(prefix, b));
    }
  }

  lemma {:induction false} CollectUnder(prefix: string, n: string, ls: seq<Leaf>)
    requires forall i :: 0 <= i < |ls| ==> |ls[i].path| > 0
    ensures Collect(prefix, Under(n, ls)) == Collect(prefix + n + "_", ls)
  {
    if ls != [] {
      var u := Under(n, ls);
      assert u[1..] == Under(n, ls[1..]);
      assert JoinPath([n] + ls[0].path) == n + "_" + JoinPath(ls[0].path) by {
        assert ([n] + ls[0].path)[1..] == ls[0].path;
      }
      assert KeyOf(prefix, u[0]) == KeyOf(prefix + n + "_", ls[0]);
      CollectUnder(prefix, n, ls[1..]);
    }
  }

  /** Flattening a message is storing its leaves in depth-first order under
      their `_`-joined paths. */
  lemma {:induction false} FlattenIsCollect(fs: seq<Field>, prefix: string)
    ensures Flatten(fs, prefix) == Collect(prefix, Leaves(fs))
    decreases fs
  {
    if fs != [] {
      var name := prefix + fs[0].name;
      FlattenIsCollect(fs[1..], prefix);
      match fs[0].node
      case Scalar(v) =>
        var l := Leaf([fs[0].name], v);
        assert [l][1..] == [];
        assert KeyOf(prefix, l) == name;
        assert Collect(prefix, [l]) == map[name := v];
        CollectAppend(prefix, [l], Leaves(fs[1..]));
      case Message(sub) =>
        FlattenIsCollect(sub, name + "_");
        CollectUnder(prefix, fs[0].name, Leaves(sub));
        CollectAppend(prefix, Under(fs[0].name, Leaves(sub)), Leaves(fs[1..]));
    }
  }

  /** A key is present exactly when some leaf is stored under it. */
  lemma {:induction false} CollectKeys(prefix: string, ls: seq<Leaf>, k: string)
    ensures k in Collect(prefix, ls) <==> exists i :: 0 <= i < |ls| && KeyOf(prefix, ls[i]) == k
  {
    if ls != [] {
      CollectKeys(prefix, ls[1..], k);
      if k in Collect(prefix, ls) && KeyOf(prefix, ls[0]) != k {
        var i :| 0 <= i < |ls[1..]| && KeyOf(prefix, ls[1..][i]) == k;
        assert ls[i + 1] == ls[1..][i];
      }
      if exists i :: 0 <= i < |ls| && KeyOf(prefix, ls[i]) == k {
        var i :| 0 <= i < |ls| && KeyOf(prefix, ls[i]) == k;
        if i > 0 {
          assert ls[1..][i - 1] == ls[i];
        }
      }
    }
  }

  /** The last leaf stored under a key is the value the key holds. */
  lemma {:induction false} CollectLast(prefix: string, ls: seq<Leaf>, k: string, i: int)
    requires 0 <= i < |ls| && KeyOf(prefix, ls[i]) == k
    requires forall j :: i < j < |ls| ==> KeyOf(prefix, ls[j]) != k
    ensures k in Collect(prefix, ls) && Collect(prefix, ls)[k] == ls[i].value
  {
    var t := ls[1..];
    if i > 0 {
      assert t[i - 1] == ls[i];
      assert forall j :: i - 1 < j < |t| ==> t[j] == ls[j + 1];
      CollectLast(prefix, t, k, i - 1);
    } else {
      CollectKeys(prefix, t, k);
      assert forall j :: 0 <= j < |t| ==> t[j] == ls[j + 1];
      assert k !in Collect(prefix, t);
    }
  }

  /** A key is present exactly when some leaf is stored under it, and it
      holds the value of the last such leaf. */
  lemma CollectLastWins(prefix: string, ls: seq<Leaf>, k: string)
    ensures k in Collect(prefix, ls) <==> exists i :: 0 <= i < |ls| && KeyOf(prefix, ls[i]) == k
    ensures forall i :: 0 <= i < |ls| && KeyOf(prefix, ls[i]) == k
              && (forall j :: i < j < |ls| ==> KeyOf(prefix, ls[j]) != k)
              ==> k in Collect(prefix, ls) && Collect(prefix, ls)[k] == ls[i].value
  {
    CollectKeys(prefix, ls, k);
    forall i | 0 <= i < |ls| && KeyOf(prefix, ls[i]) == k
               && (forall j :: i < j < |ls| ==> KeyOf(prefix, ls[j]) != k)
      ensures k in Collect(prefix, ls) && Collect(prefix, ls)[k] == ls[i].value
    {
      CollectLast(prefix, ls, k, i);
    }
  }

  /** The flattened keys of a message are exactly the `_`-joined paths of
      its scalar leaves; each holds the value of the last leaf on that path. */
  lemma FlattenKeys(fs: seq<Field>, k: string)
    ensures k in Flatten(fs, "") <==> exists i :: 0 <= i < |Leaves(fs)| && JoinPath(Leaves(fs)[i].path) == k
    ensures forall i :: 0 <= i < |Leaves(fs)| && JoinPath(Leaves(fs)[i].path) == k
              && (forall j :: i < j < |Leaves(fs)| ==> JoinPath(Leaves(fs)[j].path) != k)
              ==> k in Flatten(fs, "") && Flatten(fs, "")[k] == Leaves(fs)[i].value
  {
    var ls := Leaves(fs);
    FlattenIsCollect(fs, "");
    CollectLastWins("", ls, k);
    assert forall i :: 0 <= i < |ls| ==> KeyOf("", ls[i]) == JoinPath(ls[i].path);
  }

  /** One vehicle's record: its flattened message plus `entity_id`, which
      overrides a flattened key of that name. */
  function VehicleRecord(id: string, vehicle: seq<Field>): (r: map<string, Value>)
    ensures r.Keys == Flatten(vehicle, "").Keys + {"entity_id"}
    ensures r["entity_id"] == Str(id)
    ensures forall k :: k in r && k != "entity_id" ==> r[k] == Flatten(vehicle, "")[k]
  {
    Flatten(vehicle, "")["entity_id" := Str(id)]
  }

  /** The loop over `feed.entity`: a record per entity with a vehicle. */
  function VehicleRecords(es: seq<Entity>): (rs: seq<map<string, Value>>)
    ensures |rs| <= |es|
  {
    if es == [] then []
    else
      (match es[0].vehicle
       case Some(v) => [VehicleRecord(es[0].id, v)]
       case None => [])
      + VehicleRecords(es[1..])
  }

  /** Positions of the entities that carry a vehicle, in feed order. */
  ghost function VehicleIndices(es: seq<Entity>): seq<nat> {
    if es == [] then []
    else
      VehicleIndices(es[..|es| - 1]) + (if es[|es| - 1].vehicle.Some? then [|es| - 1] else [])
  }

  /** The last entity adds its own position when it carries a vehicle. */
  lemma VehicleIndicesSnoc(es: seq<Entity>)
    requires es != []
    ensures var ip := VehicleIndices(es[..|es| - 1]);
      VehicleIndices(es) == if es[|es| - 1].vehicle.Some? then ip + [|es| - 1] else ip
  {
  }

  /** Every index points at a vehicle-bearing entity of the feed. */
  lemma {:induction false} VehicleIndicesPoint(es: seq<Entity>)
    ensures forall j :: 0 <= j < |VehicleIndices(es)| ==>
      VehicleIndices(es)[j] < |es| && es[VehicleIndices(es)[j]].vehicle.Some?
  {
    if es != [] {
      var p := es[..|es| - 1];
      var ip := VehicleIndices(p);
      var idx := VehicleIndices(es);
      VehicleIndicesPoint(p);
      VehicleIndicesSnoc(es);
      forall j | 0 <= j < |idx|
        ensures idx[j] < |es| && es[idx[j]].vehicle.Some?
      {
        if j < |ip| {
          assert idx[j] == ip[j];
          assert p[ip[j]] == es[ip[j]];
        }
      }
    }
  }

  /** The indices are strictly increasing. */
  lemma {:induction false} VehicleIndicesIncrease(es: seq<Entity>)
    ensures forall j, k :: 0 <= j < k < |VehicleIndices(es)| ==>
      VehicleIndices(es)[j] < VehicleIndices(es)[k]
  {
    if es != [] {
      var p := es[..|es| - 1];
      var ip := VehicleIndices(p);
      var idx := VehicleIndices(es);
      VehicleIndicesIncrease(p);
      VehicleIndicesPoint(p);
      VehicleIndicesSnoc(es);
      forall j, k | 0 <= j < k < |idx|
        ensures idx[j] < idx[k]
      {
        assert idx[j] == ip[j];
        if k < |ip| {
          assert idx[k] == ip[k];
        }
      }
    }
  }

  /** No vehicle-bearing entity is missed. */
  lemma {:induction false} VehicleIndicesCover(es: seq<Entity>)
    ensures forall i :: 0 <= i < |es| && es[i].vehicle.Some? ==> i in VehicleIndices(es)
  {
    if es != [] {
      var p := es[..|es| - 1];
      var ip := VehicleIndices(p);
      VehicleIndicesCover(p);
      VehicleIndicesSnoc(es);
      forall i | 0 <= i < |es| && es[i].vehicle.Some?
        ensures i in VehicleIndices(es)
      {
        if i < |p| {
          assert p[i] == es[i];
          assert i in ip;
        }
      }
    }
  }

  /** The indices are strictly increasing, point at vehicle-bearing
      entities, and miss none of them. */
  lemma VehicleIndicesExact(es: seq<Entity>)
    ensures var idx := VehicleIndices(es);
      && (forall j :: 0 <= j < |idx| ==> idx[j] < |es| && es[idx[j]].vehicle.Some?)
      && (forall j, k :: 0 <= j < k < |idx| ==> idx[j] < idx[k])
      && (forall i :: 0 <= i < |es| && es[i].vehicle.Some? ==> i in idx)
  {
    VehicleIndicesPoint(es);
    VehicleIndicesIncrease(es);
    VehicleIndicesCover(es);
  }

  /** Flattening emits one record per vehicle-bearing entity, in feed order:
      the j-th record belongs to the j-th such entity. */
  lemma {:induction false} VehicleRecordsInOrder(es: seq<Entity>)
    ensures |VehicleRecords(es)| == |VehicleIndices(es)|
    ensures forall j :: 0 <= j < |VehicleIndices(es)| ==>
              var i := VehicleIndices(es)[j];
              i < |es| && es[i].vehicle.Some?
              && VehicleRecords(es)[j] == VehicleRecord(es[i].id, es[i].vehicle.value)
  {
    if es != [] {
      var p := es[..|es| - 1];
      var last := es[|es| - 1];
      VehicleRecordsInOrder(p);
      assert es == p + [last];
      VehicleRecordsAppend(p, [last]);
      VehicleIndicesSnoc(es);
      assert [last][1..] == [];
      var rp := VehicleRecords(p);
      var ip := VehicleIndices(p);
      var rs := VehicleRecords(es);
      var idx := VehicleIndices(es);
      if last.vehicle.Some? {
        assert VehicleRecords([last]) == [VehicleRecord(last.id, last.vehicle.value)];
        assert rs == rp + [VehicleRecord(last.id, last.vehicle.value)];
        assert idx == ip + [|es| - 1];
      } else {
        assert VehicleRecords([last]) == [];
        assert rs == rp;
        assert idx == ip;
      }
      forall j | 0 <= j < |idx|
        ensures idx[j] < |es| && es[idx[j]].vehicle.Some?
                && rs[j] == VehicleRecord(es[idx[j]].id, es[idx[j]].vehicle.value)
      {
        if j < |ip| {
          assert idx[j] == ip[j] && rs[j] == rp[j];
          assert p[ip[j]] == es[ip[j]];
        }
      }
    }
  }

  /** The feed split anywhere yields the two halves' records in order. */
  lemma {:induction false} VehicleRecordsAppend(a: seq<Entity>, b: seq<Entity>)
    ensures VehicleRecords(a + b) == VehicleRecords(a) + VehicleRecords(b)
  {
    if a == [] {
      assert a + b == b;
    } else {
      assert (a + b)[0] == a[0];
      assert (a + b)[1..] == a[1..] + b;
      VehicleRecordsAppend(a[1..], b);
    }
  }
}

