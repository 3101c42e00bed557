/**
  The sample in-memory tool store
  (Dispatch.Sample.Api/Toolbox/V1/Services/ToolRepository.cs): a dictionary
  from id to tool. The mutable dictionary is modelled as an immutable map
  that each operation returns, and `Guid.NewGuid()` as an id supplied by the
  caller.
 */
module ToolRepository {
  import opened DispatchTypes

  /** A 128-bit GUID; `Guid.Empty` is 0. */
  type Guid = x: nat | x < 0x1_0000_0000_0000_0000_0000_0000_0000_0000

  datatype Tool = Tool(id: Guid, name: string)

  type Store = map<Guid, Tool>

  /** Every tool is stored under its own id; `Add` and `Remove` keep this true. */
  ghost predicate WellKeyed(store: Store)
  {
    forall id | id in store :: store[id].id == id
  }

  datatype Added = Added(store: Store, tool: Tool)

  datatype Removed = Removed(store: Store, removed: bool)

  /**
    `Get`: the tool stored under `id`, or `None` (null) when there is none;
    the store is not changed. In a well-keyed store the tool found carries `id`.
   */
  function Get(store: Store, id: Guid): (r: Option<Tool>)
    ensures r.Some? <==> id in store
    ensures r.Some? ==> r.value == store[id]
    ensures WellKeyed(store) && r.Some? ==> r.value.id == id
  {
    if id in store then Some(store[id]) else None
  }

  /**
    `Add`: stores a new tool with the given name under the fresh id and
    returns it. Afterwards `Get` finds that tool under its id, and every
    other id finds what it found before.
   */
  function Add(store: Store, name: string, freshId: Guid): (r: Added)
    ensures r.tool.id == freshId && r.tool.name == name
    ensures Get(r.store, r.tool.id) == Some(r.tool)
    ensures forall id | id != freshId :: Get(r.store, id) == Get(store, id)
    ensures r.store.Keys == store.Keys + {freshId}
    ensures freshId !in store ==> |r.store| == |store| + 1
    ensures WellKeyed(store) ==> WellKeyed(r.store)
  {
    var tool := Tool(freshId, name);
    Added(store[freshId := tool], tool)
  }

  /**
    `Remove`: deletes the entry under `id`, reporting whether there was one.
    Afterwards `Get(id)` finds nothing; every other id finds what it found
    before, and an absent id leaves the store as it was.
   */
  function Remove(store: Store, id: Guid): (r: Removed)
    ensures r.removed <==> id in store
    ensures Get(r.store, id) == None
    ensures forall other | other != id :: Get(r.store, other) == Get(store, other)
    ensures !r.removed ==> r.store == store
    ensures r.removed ==> |r.store| == |store| - 1
    ensures WellKeyed(store) ==> WellKeyed(r.store)
  {
    if id in store then Removed(store - {id}, true) else Removed(store, false)
  }

  /**
    `List`: the stored tools, one per entry, in no particular order. Each
    listed tool is a stored value and each stored value is listed; in a
    well-keyed store each tool is listed once, under its own id.
   */
  method List(store: Store) returns (r: seq<Tool>)
    ensures |r| == |store|
    ensures forall t :: t in r <==> t in store.Values
    ensures WellKeyed(store) ==> forall i | 0 <= i < |r| :: r[i].id in store && store[r[i].id] == r[i]
    ensures WellKeyed(store) ==> forall i, j | 0 <= i < j < |r| :: r[i].id != r[j].id
  {
    r := [];
    var remaining := store.Keys;
    ghost var listed: seq<Guid> := [];
    while remaining != {}
      invariant remaining <= store.Keys
      invariant |r| == |listed|
      invariant |r| + |remaining| == |store|
      invariant forall i | 0 <= i < |listed| :: listed[i] in store && listed[i] !in remaining && r[i] == store[listed[i]]
      invariant forall i, j | 0 <= i < j < |listed| :: listed[i] != listed[j]
      invariant forall id | id in store && id !in remaining :: id in listed
      decreases |remaining|
    {
      var id :| id in remaining;
      r := r + [store[id]];
      listed := listed + [id];
      remaining := remaining - {id};
    }
    forall t | t in store.Values ensures t in r {
      var id :| id in store && store[id] == t;
      var i :| 0 <= i < |listed| && listed[i] == id;
      assert r[i] == t;
    }
  }
}
