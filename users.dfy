/**
 * A registered user and the views of the registry that the server and the
 * command handlers iterate over.
 */
module Users {

  /** An opaque connection handle (one accepted TCP connection). */
  type Handle = nat

  /**
   * A user: `id` and `name` are fixed at construction (`const`); `group` is the
   * only field that can be reassigned, and the empty string means "no group".
   */
  class User {
    const id: string
    const name: string
    var group: string

    constructor (id: string, name: string, group: string)
      ensures this.id == id && this.name == name && this.group == group
    {
      this.id := id;
      this.name := name;
      this.group := group;
    }

    /** A user prints as its display name. */
    function ToString(): (r: string)
      ensures r == name
    {
      name
    }
  }

  /** The value of a user's three fields at one moment; also what a registration request decodes to. */
  datatype UserRecord = UserRecord(id: string, name: string, group: string)

  function View(u: User): UserRecord
    reads u
  {
    UserRecord(u.id, u.name, u.group)
  }

  /** One registry entry at one moment. */
  datatype Entry = Entry(handle: Handle, user: UserRecord)

  /** Distinct handles hold distinct `User` objects. */
  ghost predicate Injective(registry: map<Handle, User>) {
    forall h1, h2 | h1 in registry && h2 in registry && h1 != h2 :: registry[h1] != registry[h2]
  }

  /**
   * `order` is one enumeration of a dictionary with key set `keys`: every key
   * exactly once, in an order the model does not fix.
   */
  predicate IsSnapshot(order: seq<Handle>, keys: set<Handle>) {
    && (forall i, j | 0 <= i < j < |order| :: order[i] != order[j])
    && (forall k | k in keys :: k in order)
    && (forall i | 0 <= i < |order| :: order[i] in keys)
  }

  /** The registry's entries in the enumeration order `order`. */
  function Snapshot(registry: map<Handle, User>, order: seq<Handle>): (s: seq<Entry>)
    reads registry.Values
    requires forall k | k in order :: k in registry
    ensures |s| == |order|
    ensures forall i | 0 <= i < |order| :: s[i] == Entry(order[i], View(registry[order[i]]))
  {
    if order == [] then []
    else Snapshot(registry, order[..|order| - 1]) + [Entry(order[|order| - 1], View(registry[order[|order| - 1]]))]
  }

  /** Every entry of a snapshot is a registered handle together with the current view of its user. */
  lemma SnapshotEntry(registry: map<Handle, User>, order: seq<Handle>, e: Entry)
    requires forall k | k in order :: k in registry
    requires e in Snapshot(registry, order)
    ensures e.handle in registry && e.handle in order && e.user == View(registry[e.handle])
  {
    var s := Snapshot(registry, order);
    var i :| 0 <= i < |s| && s[i] == e;
  }

  /** Each registered handle of the enumeration appears in the snapshot with its user's current view. */
  lemma SnapshotHas(registry: map<Handle, User>, order: seq<Handle>, k: Handle)
    requires forall k | k in order :: k in registry
    requires k in order
    ensures Entry(k, View(registry[k])) in Snapshot(registry, order)
  {
    var s := Snapshot(registry, order);
    var i :| 0 <= i < |order| && order[i] == k;
    assert s[i] == Entry(k, View(registry[k]));
  }

  /** No two entries of an enumeration share a handle. */
  predicate DistinctHandles(users: seq<Entry>) {
    forall i, j | 0 <= i < j < |users| :: users[i].handle != users[j].handle
  }

  /** An enumeration of a registry that lists every key once repeats no handle. */
  lemma SnapshotDistinct(registry: map<Handle, User>, order: seq<Handle>)
    requires IsSnapshot(order, registry.Keys)
    ensures DistinctHandles(Snapshot(registry, order))
  {
    var s := Snapshot(registry, order);
    forall i, j | 0 <= i < j < |s| ensures s[i].handle != s[j].handle {
      assert s[i].handle == order[i] && s[j].handle == order[j];
    }
  }

  /** In an enumeration without repeated handles, different entries have different handles. */
  lemma DistinctEntries(users: seq<Entry>, x: Entry, y: Entry)
    requires DistinctHandles(users) && x in users && y in users && x != y
    ensures x.handle != y.handle
  {
    var a :| 0 <= a < |users| && users[a] == x;
    var b :| 0 <= b < |users| && users[b] == y;
    assert a != b;
    if a < b {
      assert users[a].handle != users[b].handle;
    } else {
      assert users[b].handle != users[a].handle;
    }
  }
}
