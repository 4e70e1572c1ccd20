/**
 * The component storage registry of the async ECS: a map from a component
 * type's identity to that type's sparse set, which maps an entity id to the
 * boxed component value.
 *
 * Rust erases the component type (`Box<dyn DynamicComponent>`) and casts it
 * back without a check when a guard is dereferenced.  Here the stored value
 * is a tagged union whose tag is its type identity, and the object invariant
 * `Valid` says that every value stored under key `t` carries tag `t`: the
 * fact those casts silently rely on.  Locks are not modelled; a read guard is
 * a read of the stored cell and a write guard a write into it.
 */
module Component {
  import opened Wrappers

  /** An entity is a bare index (`usize`). */
  type EntityId = nat

  /** `TypeId::of::<T>()` for the component types of the program. */
  datatype TypeTag = PositionTag | VelocityTag | UserTag(id: nat)

  /**
   * A component value together with its concrete type.  `Position` and
   * `Velocity` are the two component types of the crate (their `f32`
   * coordinates become integers); `User` stands for any other
   * `DynamicComponent`, identified by `id`.
   */
  datatype Component =
    | Position(x: int, y: int)
    | Velocity(x: int, y: int)
    | User(id: nat, data: seq<int>)

  function TagOf(c: Component): TypeTag {
    match c
    case Position(_, _) => PositionTag
    case Velocity(_, _) => VelocityTag
    case User(id, _) => UserTag(id)
  }

  /** The registry's contents: type identity -> entity id -> value. */
  type Storages = map<TypeTag, map<EntityId, Component>>

  /** Every value stored under a type's key has that type. */
  ghost predicate WellTyped(s: Storages) {
    forall t, e :: t in s && e in s[t] ==> TagOf(s[t][e]) == t
  }

  /** What `get::<T>(e)` finds: nothing when T has no storage or e no slot. */
  function Lookup(s: Storages, t: TypeTag, e: EntityId): (r: Option<Component>)
    ensures r.Some? <==> t in s && e in s[t]
    ensures WellTyped(s) && r.Some? ==> TagOf(r.value) == t
  {
    if t in s && e in s[t] then Some(s[t][e]) else None
  }

  /** The registry after `insert::<T>(e, c)`, with T the type of `c`. */
  function Inserted(s: Storages, e: EntityId, c: Component): (r: Storages)
    ensures r.Keys == s.Keys + {TagOf(c)}
    ensures Lookup(r, TagOf(c), e) == Some(c)
    ensures forall t: TypeTag, e': EntityId :: (t, e') != (TagOf(c), e) ==> Lookup(r, t, e') == Lookup(s, t, e')
    ensures WellTyped(s) ==> WellTyped(r)
  {
    var t := TagOf(c);
    var storage := if t in s then s[t] else map[];
    s[t := storage[e := c]]
  }

  /** The registry after `remove::<T>(e)`, with `t` the identity of T. */
  function Removed(s: Storages, t: TypeTag, e: EntityId): (r: Storages)
    ensures t !in s ==> r == s
    ensures r.Keys == s.Keys
    ensures Lookup(r, t, e) == None
    ensures forall t': TypeTag, e': EntityId :: (t', e') != (t, e) ==> Lookup(r, t', e') == Lookup(s, t', e')
    ensures WellTyped(s) ==> WellTyped(r)
  {
    if t in s then s[t := s[t] - {e}] else s
  }

  /** Removing twice is removing once. */
  lemma RemoveIdempotent(s: Storages, t: TypeTag, e: EntityId)
    ensures Removed(Removed(s, t, e), t, e) == Removed(s, t, e)
  {
    if t in s {
      assert s[t] - {e} - {e} == s[t] - {e};
    }
  }

  class ComponentStorage {
    var storages: Storages

    ghost predicate Valid()
      reads this
    {
      WellTyped(storages)
    }

    /** `ComponentStorage::new`: no type has a storage yet. */
    constructor ()
      ensures Valid() && storages == map[]
    {
      storages := map[];
    }

    /**
     * `insert::<T>(e, c)`: creates T's storage if it is absent (keeping an
     * existing one) and puts `c` in `e`'s slot, replacing any earlier value.
     */
    method Insert(e: EntityId, c: Component)
      requires Valid()
      modifies this
      ensures Valid()
      ensures storages == Inserted(old(storages), e, c)
    {
      var t := TagOf(c);
      if t !in storages {
        storages := storages[t := map[]];
      }
      var slots: map<EntityId, Component> := storages[t][e := c];
      storages := storages[t := slots];
    }

    /**
     * `get::<T>(e)`: a read guard on `e`'s cell in T's storage, or `None`
     * when T has no storage or `e` has no slot in it.  Nothing changes.
     */
    method Get(t: TypeTag, e: EntityId) returns (r: Option<ComponentRef>)
      requires Valid()
      ensures r.Some? <==> Lookup(storages, t, e).Some?
      ensures r.Some? ==> r.value.storage == this && r.value.tag == t && r.value.entity == e
      ensures r.Some? ==> r.value.Valid() && r.value.Deref() == Lookup(storages, t, e).value
    {
      if t in storages && e in storages[t] {
        var guard := new ComponentRef(this, t, e);
        r := Some(guard);
      } else {
        r := None;
      }
    }

    /**
     * `get_mut::<T>(e)`: a write guard on `e`'s cell in T's storage, or
     * `None` when T has no storage or `e` has no slot in it.  Nothing
     * changes until the guard is written through.
     */
    method GetMut(t: TypeTag, e: EntityId) returns (r: Option<ComponentRefMut>)
      requires Valid()
      ensures r.Some? <==> Lookup(storages, t, e).Some?
      ensures r.Some? ==> r.value.storage == this && r.value.tag == t && r.value.entity == e
      ensures r.Some? ==> r.value.Valid() && r.value.Deref() == Lookup(storages, t, e).value
    {
      if t in storages && e in storages[t] {
        var guard := new ComponentRefMut(this, t, e);
        r := Some(guard);
      } else {
        r := None;
      }
    }

    /**
     * `remove::<T>(e)`: drops `e`'s slot from T's storage; does nothing
     * when T has no storage.
     */
    method Remove(t: TypeTag, e: EntityId)
      requires Valid()
      modifies this
      ensures Valid()
      ensures storages == Removed(old(storages), t, e)
    {
      if t in storages {
        storages := storages[t := storages[t] - {e}];
      }
    }
  }

  /** `ComponentRef<T>`: a read view of one stored cell. */
  class ComponentRef {
    const storage: ComponentStorage
    const tag: TypeTag
    const entity: EntityId

    /** The cell the guard was taken on is still in the registry. */
    ghost predicate Valid()
      reads storage
    {
      storage.Valid() && tag in storage.storages && entity in storage.storages[tag]
    }

    constructor (storage: ComponentStorage, tag: TypeTag, entity: EntityId)
      ensures this.storage == storage && this.tag == tag && this.entity == entity
    {
      this.storage := storage;
      this.tag := tag;
      this.entity := entity;
    }

    /**
     * `deref`: the cell's current value, which has the guard's type, so
     * viewing it as that type is sound.
     */
    function Deref(): (c: Component)
      reads storage
      requires Valid()
      ensures TagOf(c) == tag
      ensures Lookup(storage.storages, tag, entity) == Some(c)
    {
      storage.storages[tag][entity]
    }
  }

  /** `ComponentRefMut<T>`: a read/write view of one stored cell. */
  class ComponentRefMut {
    const storage: ComponentStorage
    const tag: TypeTag
    const entity: EntityId

    ghost predicate Valid()
      reads storage
    {
      storage.Valid() && tag in storage.storages && entity in storage.storages[tag]
    }

    constructor (storage: ComponentStorage, tag: TypeTag, entity: EntityId)
      ensures this.storage == storage && this.tag == tag && this.entity == entity
    {
      this.storage := storage;
      this.tag := tag;
      this.entity := entity;
    }

    /** `deref` of the write guard: as for the read guard. */
    function Deref(): (c: Component)
      reads storage
      requires Valid()
      ensures TagOf(c) == tag
      ensures Lookup(storage.storages, tag, entity) == Some(c)
    {
      storage.storages[tag][entity]
    }

    /**
     * `*guard = c` through `deref_mut`: the new value, of the guard's type,
     * replaces the one in the cell itself; no other cell changes.
     */
    method Assign(c: Component)
      requires Valid() && TagOf(c) == tag
      modifies storage
      ensures Valid()
      ensures storage.storages == Inserted(old(storage.storages), entity, c)
      ensures storage.storages.Keys == old(storage.storages.Keys)
    {
      var slots: map<EntityId, Component> := storage.storages[tag][entity := c];
      storage.storages := storage.storages[tag := slots];
    }
  }

  /**
   * A read guard taken before `remove` refers to a cell the registry no
   * longer holds: `deref` on it has no value to return.
   */
  method GuardAfterRemove(e: EntityId, c: Component) returns (guardCellPresent: bool)
    ensures !guardCellPresent
  {
    var storage := new ComponentStorage();
    storage.Insert(e, c);
    var g := storage.Get(TagOf(c), e);
    var guard := g.value;
    storage.Remove(TagOf(c), e);
    guardCellPresent := guard.tag in guard.storage.storages && guard.entity in guard.storage.storages[guard.tag];
  }

  /** `test_insert_and_get`: a fresh registry returns what was inserted. */
  method InsertThenGet(e: EntityId, c: Component) returns (r: Option<Component>)
    ensures r == Some(c)
  {
    var storage := new ComponentStorage();
    storage.Insert(e, c);
    var guard := storage.Get(TagOf(c), e);
    r := Some(guard.value.Deref());
  }

  /** `test_insert_and_get_mut`: the write guard sees the inserted value. */
  method InsertThenGetMut(e: EntityId, c: Component) returns (r: Option<Component>)
    ensures r == Some(c)
  {
    var storage := new ComponentStorage();
    storage.Insert(e, c);
    var guard := storage.GetMut(TagOf(c), e);
    r := Some(guard.value.Deref());
  }

  /**
   * A value written through a write guard is what a later read guard
   * returns: the guard writes the stored cell in place.
   */
  method WriteThenRead(storage: ComponentStorage, e: EntityId, c: Component) returns (r: Option<Component>)
    requires storage.Valid() && Lookup(storage.storages, TagOf(c), e).Some?
    modifies storage
    ensures r == Some(c)
    ensures storage.storages.Keys == old(storage.storages.Keys)
  {
    var w := storage.GetMut(TagOf(c), e);
    w.value.Assign(c);
    var g := storage.Get(TagOf(c), e);
    r := Some(g.value.Deref());
  }

  /**
   * Removal leaves other entities alone and a later insert succeeds:
   * insert `a` at `e1` and `b` at `e2`, remove `e1`, and `e1` is absent while
   * `e2` still holds `b`; a second remove is harmless, and inserting `a`
   * again at `e1` makes it visible again.
   */
  method RemoveScenario(e1: EntityId, e2: EntityId, a: Component, b: Component)
    returns (firstFound: bool, second: Option<Component>, again: Option<Component>)
    requires e1 != e2 && TagOf(a) == TagOf(b)
    ensures !firstFound && second == Some(b) && again == Some(a)
  {
    var storage := new ComponentStorage();
    storage.Insert(e1, a);
    storage.Insert(e2, b);
    storage.Remove(TagOf(a), e1);
    var g1 := storage.Get(TagOf(a), e1);
    var g2 := storage.Get(TagOf(b), e2);
    firstFound := g1.Some?;
    second := Some(g2.value.Deref());
    storage.Remove(TagOf(a), e1);
    storage.Insert(e1, a);
    var g3 := storage.Get(TagOf(a), e1);
    again := Some(g3.value.Deref());
  }
}
