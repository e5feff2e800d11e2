/**
 * The two tables of the schema (database/migrations): `phperclip_file_meta`
 * rows and `phperclip_clipping` rows, and the uniqueness constraints the
 * migrations declare, stated as table invariants.
 */
module Records {
  import opened Php

  /** The owner of a clipping: its morph class and key (a `Clippable`). */
  datatype Owner = Owner(morphClass: string, key: nat)

  /**
   * A `phperclip_file_meta` row. `getMimeType()`, `getName()` and `getDisk()`
   * (src/Model/FileMeta.php:36-56) are the fields `mimeType`, `name` and `disk`.
   */
  datatype FileMeta = FileMeta(id: nat, name: Option<string>, disk: Option<string>, mimeType: string)

  /** A `phperclip_clipping` row: one file placed in an optional slot of an optional owner. */
  datatype Clipping = Clipping(
    id: nat,
    fileMetaId: nat,
    clippableType: Option<string>,
    clippableId: Option<nat>,
    slot: Option<string>)

  /** `increments('id')`: primary keys are distinct. */
  predicate UniqueFileIds(files: seq<FileMeta>)
  {
    forall i, j :: 0 <= i < j < |files| ==> files[i].id != files[j].id
  }

  /** `string('name')->unique()->nullable()`: no two rows share a non-null name. */
  predicate UniqueNames(files: seq<FileMeta>)
  {
    forall i, j :: 0 <= i < j < |files| && files[i].name.Some? ==> files[i].name != files[j].name
  }

  predicate UniqueClippingIds(clippings: seq<Clipping>)
  {
    forall i, j :: 0 <= i < j < |clippings| ==> clippings[i].id != clippings[j].id
  }

  /**
   * `unique(['clippable_id', 'clippable_type', 'slot'])`: as in SQL, rows with
   * a null in any of the three columns are not constrained.
   */
  predicate UniqueSlots(clippings: seq<Clipping>)
  {
    forall i, j :: 0 <= i < j < |clippings| && Constrained(clippings[i]) && Constrained(clippings[j]) ==>
      (clippings[i].clippableId, clippings[i].clippableType, clippings[i].slot)
        != (clippings[j].clippableId, clippings[j].clippableType, clippings[j].slot)
  }

  predicate Constrained(c: Clipping)
  {
    c.clippableId.Some? && c.clippableType.Some? && c.slot.Some?
  }

  predicate FileTableValid(files: seq<FileMeta>)
  {
    UniqueFileIds(files) && UniqueNames(files)
  }

  predicate ClippingTableValid(clippings: seq<Clipping>)
  {
    UniqueClippingIds(clippings) && UniqueSlots(clippings)
  }

  /** A new row with a fresh key and no name keeps the file table's constraints. */
  lemma AppendFile(files: seq<FileMeta>, f: FileMeta)
    requires FileTableValid(files)
    requires forall g :: g in files ==> g.id < f.id
    requires f.name.None?
    ensures FileTableValid(files + [f])
  {
    var r := files + [f];
    forall i, j | 0 <= i < j < |r| ensures r[i].id != r[j].id {
      if j == |files| {
        assert r[i] in files;
      }
    }
  }

  /** A new clipping with a fresh key outside the unique index keeps the clipping table's constraints. */
  lemma AppendClipping(clippings: seq<Clipping>, c: Clipping)
    requires ClippingTableValid(clippings)
    requires forall d :: d in clippings ==> d.id < c.id
    requires !Constrained(c)
    ensures ClippingTableValid(clippings + [c])
  {
    var r := clippings + [c];
    forall i, j | 0 <= i < j < |r| ensures r[i].id != r[j].id {
      if j == |clippings| {
        assert r[i] in clippings;
      }
    }
  }

  /** The rows of `files` without the one whose key is `id` (`delete()`, `forceDelete()`). */
  function RemoveFile(files: seq<FileMeta>, id: nat): (r: seq<FileMeta>)
    ensures forall g :: g in r <==> g in files && g.id != id
  {
    if files == [] then []
    else if files[0].id == id then RemoveFile(files[1..], id)
    else [files[0]] + RemoveFile(files[1..], id)
  }

  /** Removing a row keeps the file table's constraints. */
  lemma {:induction false} RemoveFileValid(files: seq<FileMeta>, id: nat)
    requires FileTableValid(files)
    ensures FileTableValid(RemoveFile(files, id))
  {
    if files != [] {
      FileTableTail(files);
      RemoveFileValid(files[1..], id);
      if files[0].id != id {
        FileTableCons(files[0], RemoveFile(files[1..], id));
      }
    }
  }

  /** The rows after the first keep the constraints, and none clashes with the first. */
  lemma FileTableTail(files: seq<FileMeta>)
    requires FileTableValid(files) && files != []
    ensures FileTableValid(files[1..])
    ensures forall g :: g in files[1..] ==>
      g.id != files[0].id && (files[0].name.Some? ==> g.name != files[0].name)
  {
    var rest := files[1..];
    forall i, j | 0 <= i < j < |rest|
      ensures rest[i].id != rest[j].id && (rest[i].name.Some? ==> rest[i].name != rest[j].name)
    {
      assert rest[i] == files[i + 1] && rest[j] == files[j + 1];
    }
    forall g | g in rest ensures g.id != files[0].id && (files[0].name.Some? ==> g.name != files[0].name) {
      var m :| 0 <= m < |rest| && rest[m] == g;
      assert files[m + 1] == g;
    }
  }

  /** A row that clashes with none of a valid table can be put in front of it. */
  lemma FileTableCons(x: FileMeta, t: seq<FileMeta>)
    requires FileTableValid(t)
    requires forall g :: g in t ==> g.id != x.id && (x.name.Some? ==> g.name != x.name)
    ensures FileTableValid([x] + t)
  {
    var r := [x] + t;
    forall i, j | 0 <= i < j < |r| ensures r[i].id != r[j].id && (r[i].name.Some? ==> r[i].name != r[j].name) {
      if i == 0 {
        assert r[j] in t;
      } else {
        assert r[i] == t[i - 1] && r[j] == t[j - 1];
      }
    }
  }

  /** The rows of `rows` a `where` clause keeps, in their order. */
  function Where<T(!new)>(rows: seq<T>, keep: T -> bool): (r: seq<T>)
    ensures forall x :: x in r <==> x in rows && keep(x)
    ensures multiset(r) <= multiset(rows)
    ensures (forall x :: x in rows ==> keep(x)) ==> r == rows
    ensures (forall x :: x in rows ==> !keep(x)) ==> r == []
  {
    if rows == [] then []
    else
      assert rows == [rows[0]] + rows[1..];
      (if keep(rows[0]) then [rows[0]] else []) + Where(rows[1..], keep)
  }
}
