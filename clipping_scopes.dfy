/**
 * The query scopes of the clipping model (src/Model/Clipping.php), each a
 * filter over the rows of the clipping table, in table order.
 */
module ClippingScopes {
  import opened Php
  import opened Records

  /** The first argument of `forClippable` and `clippedTo`: an owner, a morph class name, or null. */
  datatype OwnerArg = Instance(owner: Owner) | TypeName(name: string) | NullOwner

  /** A slot argument, which the scopes cast with `(array)`: one slot, a list, or null. */
  datatype SlotArg = OneSlot(slot: string) | SlotList(slots: seq<string>) | NullSlot

  /** `(array)$slot`: null becomes the empty list. */
  function SlotValues(s: SlotArg): (values: seq<string>)
    ensures s.OneSlot? ==> values == [s.slot]
    ensures s.NullSlot? ==> values == []
  {
    match s
    case OneSlot(slot) => [slot]
    case SlotList(slots) => slots
    case NullSlot => []
  }

  predicate OwnedBy(c: Clipping, morphClass: string, key: nat)
  {
    c.clippableType == Some(morphClass) && c.clippableId == Some(key)
  }

  /**
   * `forClippable()`: the clippings of one owner, given as an instance or as
   * a truthy class name with a truthy key; anything else throws.
   */
  function ForClippable(rows: seq<Clipping>, who: OwnerArg, id: Option<nat>): (r: Result<seq<Clipping>>)
    ensures r.Err? <==> !who.Instance? && !(who.TypeName? && TruthyString(who.name) && TruthyKey(id))
    ensures r.Err? ==> r.error == InvalidClippable
    ensures r.Ok? && who.Instance? ==>
      forall c :: c in r.value <==> c in rows && OwnedBy(c, who.owner.morphClass, who.owner.key)
    ensures r.Ok? && who.TypeName? ==>
      forall c :: c in r.value <==> c in rows && OwnedBy(c, who.name, id.value)
  {
    match who
    case Instance(o) => Ok(Where(rows, (c: Clipping) => OwnedBy(c, o.morphClass, o.key)))
    case TypeName(t) =>
      if TruthyString(t) && TruthyKey(id) then Ok(Where(rows, (c: Clipping) => OwnedBy(c, t, id.value)))
      else Err(InvalidClippable)
    case NullOwner => Err(InvalidClippable)
  }

  /** `inSlot()`: `slot IN (...)`; a null slot never matches, an empty list matches nothing. */
  function InSlot(rows: seq<Clipping>, s: SlotArg): (r: seq<Clipping>)
    ensures forall c :: c in r <==> c in rows && c.slot.Some? && c.slot.value in SlotValues(s)
    ensures SlotValues(s) == [] ==> r == []
  {
    Where(rows, (c: Clipping) => c.slot.Some? && c.slot.value in SlotValues(s))
  }

  /**
   * `notInSlot()`: `slot NOT IN (...)`; a null slot never matches, but an
   * empty list is no condition at all, so every row is kept.
   */
  function NotInSlot(rows: seq<Clipping>, s: SlotArg): (r: seq<Clipping>)
    ensures SlotValues(s) != [] ==> forall c :: c in r <==> c in rows && c.slot.Some? && c.slot.value !in SlotValues(s)
    ensures SlotValues(s) == [] ==> r == rows
  {
    if SlotValues(s) == [] then rows
    else Where(rows, (c: Clipping) => c.slot.Some? && c.slot.value !in SlotValues(s))
  }

  /** `withoutSlot()`. */
  function WithoutSlot(rows: seq<Clipping>): (r: seq<Clipping>)
    ensures forall c :: c in r <==> c in rows && c.slot.None?
  {
    Where(rows, (c: Clipping) => c.slot.None?)
  }

  /** `unattached()`: neither owner column is set. */
  function Unattached(rows: seq<Clipping>): (r: seq<Clipping>)
    ensures forall c :: c in r <==> c in rows && c.clippableId.None? && c.clippableType.None?
  {
    Where(rows, (c: Clipping) => c.clippableId.None? && c.clippableType.None?)
  }

  /** `attached()`: both owner columns are set. */
  function Attached(rows: seq<Clipping>): (r: seq<Clipping>)
    ensures forall c :: c in r <==> c in rows && c.clippableId.Some? && c.clippableType.Some?
  {
    Where(rows, (c: Clipping) => c.clippableId.Some? && c.clippableType.Some?)
  }

  /** The pattern `^[[:digit:]]+$`: one or more decimal digits and nothing else. */
  predicate IntegerSlot(slot: string)
  {
    |slot| > 0 && forall i :: 0 <= i < |slot| ==> '0' <= slot[i] <= '9'
  }

  /** `inIntegerSlot()`. */
  function InIntegerSlot(rows: seq<Clipping>): (r: seq<Clipping>)
    ensures forall c :: c in r <==> c in rows && c.slot.Some? && IntegerSlot(c.slot.value)
  {
    Where(rows, (c: Clipping) => c.slot.Some? && IntegerSlot(c.slot.value))
  }

  /**
   * `named()`: the clippings whose file has the given name (`where name =
   * null` matches the unnamed files). The join is on the file table's primary
   * key, so each clipping appears at most once.
   */
  function Named(rows: seq<Clipping>, files: seq<FileMeta>, name: Option<string>): (r: seq<Clipping>)
    ensures forall c :: c in r <==> c in rows && exists f :: f in files && f.id == c.fileMetaId && f.name == name
  {
    Where(rows, (c: Clipping) => exists f :: f in files && f.id == c.fileMetaId && f.name == name)
  }

  /**
   * With a non-empty slot list, every clipping falls in exactly one of
   * `inSlot`, `notInSlot` and `withoutSlot`.
   */
  lemma SlotScopesPartition(rows: seq<Clipping>, s: SlotArg, c: Clipping)
    requires SlotValues(s) != [] && c in rows
    ensures c in InSlot(rows, s) || c in NotInSlot(rows, s) || c in WithoutSlot(rows)
    ensures !(c in InSlot(rows, s) && c in NotInSlot(rows, s))
    ensures !(c in InSlot(rows, s) && c in WithoutSlot(rows))
    ensures !(c in NotInSlot(rows, s) && c in WithoutSlot(rows))
  {
  }

  /** `attached` and `unattached` never share a row; a half-set owner is in neither. */
  lemma AttachmentScopes(rows: seq<Clipping>, c: Clipping)
    requires c in rows
    ensures !(c in Attached(rows) && c in Unattached(rows))
    ensures c !in Attached(rows) && c !in Unattached(rows) <==> c.clippableId.Some? != c.clippableType.Some?
  {
  }

  /**
   * The table's unique index makes a slot of an owner hold at most one
   * clipping: `forClippable($owner)->inSlot($slot)` finds zero or one row.
   */
  lemma {:induction false} OneClippingPerSlot(rows: seq<Clipping>, who: OwnerArg, id: Option<nat>, slot: string)
    requires UniqueSlots(rows)
    requires ForClippable(rows, who, id).Ok?
    ensures |InSlot(ForClippable(rows, who, id).value, OneSlot(slot))| <= 1
  {
    var owned := ForClippable(rows, who, id).value;
    var t, k := ForClippableOwner(rows, who, id);
    var r := InSlot(owned, OneSlot(slot));
    if r != [] {
      var v := r[0];
      assert v in r;
      forall x | x in r ensures x == v {
        SameOwnerAndSlot(rows, x, v, t, k, slot);
      }
      CountAll(r, v);
      AtMostOnceInTable(rows, v);
      assert multiset(r) <= multiset(owned);
    }
  }

  /** The owner a successful `forClippable()` filters by, and the fact that it only drops rows. */
  lemma ForClippableOwner(rows: seq<Clipping>, who: OwnerArg, id: Option<nat>) returns (t: string, k: nat)
    requires ForClippable(rows, who, id).Ok?
    ensures forall c :: c in ForClippable(rows, who, id).value <==> c in rows && OwnedBy(c, t, k)
    ensures multiset(ForClippable(rows, who, id).value) <= multiset(rows)
  {
    if who.Instance? {
      t, k := who.owner.morphClass, who.owner.key;
    } else {
      t, k := who.name, id.value;
    }
  }

  /** Two rows of one owner in one (non-null) slot are the same row. */
  lemma SameOwnerAndSlot(rows: seq<Clipping>, x: Clipping, y: Clipping, t: string, k: nat, slot: string)
    requires UniqueSlots(rows) && x in rows && y in rows
    requires OwnedBy(x, t, k) && OwnedBy(y, t, k) && x.slot == Some(slot) && y.slot == Some(slot)
    ensures x == y
  {
    var i :| 0 <= i < |rows| && rows[i] == x;
    var j :| 0 <= j < |rows| && rows[j] == y;
    UniqueSlotsIndex(rows, i, j);
  }

  /** A row under the unique index occurs once in the table. */
  lemma AtMostOnceInTable(rows: seq<Clipping>, v: Clipping)
    requires UniqueSlots(rows) && Constrained(v)
    ensures multiset(rows)[v] <= 1
  {
    forall i, j | 0 <= i < |rows| && 0 <= j < |rows| && rows[i] == v && rows[j] == v ensures i == j {
      UniqueSlotsIndex(rows, i, j);
    }
    CountAtMostOne(rows, v);
  }

  /** Two constrained rows with the same owner and slot are the same row of the table. */
  lemma UniqueSlotsIndex(rows: seq<Clipping>, i: nat, j: nat)
    requires UniqueSlots(rows) && i < |rows| && j < |rows|
    requires Constrained(rows[i]) && Constrained(rows[j])
    requires (rows[i].clippableId, rows[i].clippableType, rows[i].slot)
          == (rows[j].clippableId, rows[j].clippableType, rows[j].slot)
    ensures i == j
  {
  }

  lemma {:induction false} CountAll<T>(s: seq<T>, v: T)
    requires forall x :: x in s ==> x == v
    ensures multiset(s)[v] == |s|
  {
    if s != [] {
      assert s == [s[0]] + s[1..];
      assert s[0] in s && forall x :: x in s[1..] ==> x in s;
      CountAll(s[1..], v);
    }
  }

  lemma {:induction false} CountAtMostOne<T>(s: seq<T>, v: T)
    requires forall i, j :: 0 <= i < |s| && 0 <= j < |s| && s[i] == v && s[j] == v ==> i == j
    ensures multiset(s)[v] <= 1
  {
    if s != [] {
      assert s == [s[0]] + s[1..];
      var rest := s[1..];
      forall i, j | 0 <= i < |rest| && 0 <= j < |rest| && rest[i] == v && rest[j] == v ensures i == j {
        assert s[i + 1] == v && s[j + 1] == v;
      }
      CountAtMostOne(rest, v);
      if s[0] == v {
        forall k | 0 <= k < |rest| ensures rest[k] != v {
          assert s[k + 1] == rest[k];
        }
        assert v !in multiset(rest);
      }
    }
  }
}
