/**
 * The query scopes of the file model (src/Model/FileMeta.php): `named` and
 * `clippedTo`, the join of files with their clippings, optionally restricted
 * to one owner.
 */
module FileMetaScopes {
  import opened Php
  import opened Records
  import opened ClippingScopes

  /** `named()`: `where name = $name`, or `whereNull` for a null name. */
  function Named(files: seq<FileMeta>, name: Option<string>): (r: seq<FileMeta>)
    ensures forall f :: f in r <==> f in files && f.name == name
  {
    Where(files, (f: FileMeta) => f.name == name)
  }

  /** A non-null name is unique, so `named($name)` finds at most one file. */
  lemma {:induction false} NamedAtMostOne(files: seq<FileMeta>, name: string)
    requires UniqueNames(files)
    ensures |Named(files, Some(name))| <= 1
  {
    var r := Named(files, Some(name));
    if r != [] {
      var v := r[0];
      forall i, j | 0 <= i < |files| && 0 <= j < |files| && files[i] == v && files[j] == v ensures i == j {
        assert files[i].name == Some(name);
      }
      CountAll(r, v);
      CountAtMostOne(files, v);
    }
  }

  /**
   * The owner restriction `clippedTo()` works out from its arguments: an
   * owner instance gives its class and key, a truthy class with a truthy key
   * gives those, a truthy class alone throws, and anything else gives none.
   * The restriction is applied only when class and key are both non-empty,
   * so an instance whose class is "" or "0", or whose key is 0, restricts
   * nothing.
   */
  function OwnerFilter(who: OwnerArg, id: Option<nat>): (r: Result<Option<(string, nat)>>)
    ensures r.Err? <==> who.TypeName? && TruthyString(who.name) && !TruthyKey(id)
    ensures r.Ok? && r.value.Some? ==> TruthyString(r.value.value.0) && r.value.value.1 != 0
    ensures who.Instance? && TruthyString(who.owner.morphClass) && who.owner.key != 0 ==>
      r == Ok(Some((who.owner.morphClass, who.owner.key)))
    ensures who.TypeName? && TruthyString(who.name) && TruthyKey(id) ==> r == Ok(Some((who.name, id.value)))
    ensures who.NullOwner? ==> r == Ok(None)
  {
    match who
    case Instance(o) =>
      if TruthyString(o.morphClass) && o.key != 0 then Ok(Some((o.morphClass, o.key))) else Ok(None)
    case TypeName(t) =>
      if TruthyString(t) && TruthyKey(id) then Ok(Some((t, id.value)))
      else if TruthyString(t) then Err(InvalidClippable)
      else Ok(None)
    case NullOwner => Ok(None)
  }

  predicate Admits(filter: Option<(string, nat)>, c: Clipping)
  {
    filter.None? || OwnedBy(c, filter.value.0, filter.value.1)
  }

  /**
   * The inner join of `files` with `clippings` on the file key, keeping the
   * clippings `filter` admits: one (file, clipping) pair per match, file by file.
   */
  function Join(files: seq<FileMeta>, clippings: seq<Clipping>, filter: Option<(string, nat)>)
    : (r: seq<(FileMeta, Clipping)>)
    ensures forall f, c :: (f, c) in r <==> f in files && c in clippings && c.fileMetaId == f.id && Admits(filter, c)
  {
    if files == [] then []
    else
      var f := files[0];
      var mine := Where(clippings, (c: Clipping) => c.fileMetaId == f.id && Admits(filter, c));
      Pair(f, mine) + Join(files[1..], clippings, filter)
  }

  function Pair(f: FileMeta, cs: seq<Clipping>): (r: seq<(FileMeta, Clipping)>)
    ensures |r| == |cs|
    ensures forall g, c :: (g, c) in r <==> g == f && c in cs
  {
    if cs == [] then [] else [(f, cs[0])] + Pair(f, cs[1..])
  }

  /** `clippedTo()`: the rows of the join; throws as `OwnerFilter` does. */
  function ClippedTo(files: seq<FileMeta>, clippings: seq<Clipping>, who: OwnerArg, id: Option<nat>)
    : (r: Result<seq<(FileMeta, Clipping)>>)
    ensures r.Err? <==> OwnerFilter(who, id).Err?
    ensures r.Ok? ==> forall f, c :: (f, c) in r.value <==>
      f in files && c in clippings && c.fileMetaId == f.id && Admits(OwnerFilter(who, id).value, c)
  {
    match OwnerFilter(who, id)
    case Err(e) => Err(e)
    case Ok(filter) => Ok(Join(files, clippings, filter))
  }

  /**
   * `clippedTo` restricted to an owner agrees with `forClippable` on the
   * clipping side: a file is joined to exactly the owner's clippings of it.
   */
  lemma ClippedToAgreesWithForClippable(files: seq<FileMeta>, clippings: seq<Clipping>, o: Owner, f: FileMeta, c: Clipping)
    requires TruthyString(o.morphClass) && o.key != 0
    requires f in files
    ensures ForClippable(clippings, Instance(o), None).Ok?
    ensures (f, c) in ClippedTo(files, clippings, Instance(o), None).value <==>
      c in ForClippable(clippings, Instance(o), None).value && c.fileMetaId == f.id
  {
  }

  /**
   * `named($name)->clippedTo(...)` has rows exactly when some file of that
   * name is joined to some clipping the owner restriction admits.
   */
  lemma CountClippedNamed(files: seq<FileMeta>, clippings: seq<Clipping>, name: Option<string>, who: OwnerArg)
    requires OwnerFilter(who, None).Ok?
    ensures |ClippedTo(Named(files, name), clippings, who, None).value| > 0 <==>
      exists f, c :: f in files && f.name == name && c in clippings && c.fileMetaId == f.id
                     && Admits(OwnerFilter(who, None).value, c)
  {
    var rows := ClippedTo(Named(files, name), clippings, who, None).value;
    var filter := OwnerFilter(who, None).value;
    if |rows| > 0 {
      var f, c := rows[0].0, rows[0].1;
      assert (f, c) in rows;
    }
    if exists f, c :: f in files && f.name == name && c in clippings && c.fileMetaId == f.id && Admits(filter, c) {
      var f, c :| f in files && f.name == name && c in clippings && c.fileMetaId == f.id && Admits(filter, c);
      assert (f, c) in rows;
    }
  }
}
