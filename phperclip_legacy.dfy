/**
 * The earlier revision of the service (src/Atrauzzi/Phperclip/Service.php).
 * Paths, lookup and deletion work as in the later one; the differences are
 * that a derivative is staged through a scratch file `phperclip/<unique id>`
 * on a local disk (and the scratch file is left there), that `saveFromUri`
 * records the file itself, optionally owned, without a clipping, and that
 * the caller may store the upload under options of their choosing.
 */
module PhperclipLegacy {
  import opened Php
  import opened PhpArray
  import opened Records
  import opened Storage
  import opened Paths
  import opened Deletion

  /** The scratch file `uniqid('phperclip/')` names, given the unique part. */
  function ScratchPath(uniq: string): string
  {
    "phperclip/" + uniq
  }

  /**
   * `generateDerivative()` with working disk `disk` and local disk `local`:
   * copy the original to the scratch file, then the scratch file's bytes to
   * the derivative's path.
   */
  function Derive(digest: Digest, fs: Filesystem, disk: string, local: string, f: FileMeta, o: Array, uniq: string)
    : (Filesystem, Result<Bytes>)
    requires WellFormedArray(o)
  {
    var original := FilePath(digest, f, []);
    if !Has(fs, disk, original) then (fs, Err(NotFound(original)))
    else
      var bytes := DiskOf(fs, disk)[original];
      match PutStream(fs, local, ScratchPath(uniq), bytes)
      case Err(e) => (fs, Err(e))
      case Ok(staged) =>
        match PutStream(staged, disk, FilePath(digest, f, o), bytes)
        case Err(e) => (staged, Err(e))
        case Ok(written) => (written, Ok(bytes))
  }

  /** `getResource()`: as in the later revision, with the staging derivation. */
  function Resolve(digest: Digest, fs: Filesystem, disk: string, local: string, f: FileMeta, o: Array, uniq: string)
    : (Filesystem, Result<Bytes>)
    requires WellFormedArray(o)
  {
    var path := FilePath(digest, f, o);
    if o == [] || Has(fs, disk, path) then (fs, ReadStream(fs, disk, path))
    else Derive(digest, fs, disk, local, f, o, uniq)
  }

  /**
   * A request changes at most two blobs: the requested one, and the scratch
   * file on the local disk. When it succeeds the requested blob holds the
   * bytes returned and, if it had to be generated, the scratch file still
   * holds a copy of them.
   */
  lemma {:induction false} ResolveEffect(digest: Digest, fs: Filesystem, disk: string, local: string, f: FileMeta,
                                         o: Array, uniq: string, d: string, path: string)
    requires WellFormedArray(o)
    ensures Resolve(digest, fs, disk, local, f, o, uniq).0.refusing == fs.refusing
    ensures (d, path) != (disk, FilePath(digest, f, o)) && (d, path) != (local, ScratchPath(uniq)) ==>
      ReadStream(Resolve(digest, fs, disk, local, f, o, uniq).0, d, path) == ReadStream(fs, d, path)
    ensures Resolve(digest, fs, disk, local, f, o, uniq).1.Ok? ==>
      ReadStream(Resolve(digest, fs, disk, local, f, o, uniq).0, disk, FilePath(digest, f, o))
        == Resolve(digest, fs, disk, local, f, o, uniq).1
    ensures Resolve(digest, fs, disk, local, f, o, uniq).1.Ok? && o != [] && !Has(fs, disk, FilePath(digest, f, o)) ==>
      ReadStream(Resolve(digest, fs, disk, local, f, o, uniq).0, local, ScratchPath(uniq))
        == Resolve(digest, fs, disk, local, f, o, uniq).1
  {
    var here := FilePath(digest, f, o);
    var original := FilePath(digest, f, []);
    if o == [] || Has(fs, disk, here) {
      assert Resolve(digest, fs, disk, local, f, o, uniq) == (fs, ReadStream(fs, disk, here));
    } else if !Has(fs, disk, original) {
      assert Resolve(digest, fs, disk, local, f, o, uniq) == (fs, Err(NotFound(original)));
    } else {
      StagingPathDisjoint(digest, f, o, uniq);
      StagedCopyEffect(fs, disk, here, local, ScratchPath(uniq), DiskOf(fs, disk)[original], d, path);
    }
  }

  /**
   * Staging `bytes` at `scratch` on `local` and then writing them at `here`
   * on `disk` changes those two blobs only; when both writes succeed, both
   * hold the bytes.
   */
  lemma StagedCopyEffect(fs: Filesystem, disk: string, here: string, local: string, scratch: string,
                         bytes: Bytes, d: string, path: string)
    requires scratch != here
    ensures PutStream(fs, local, scratch, bytes).Ok? ==>
      var staged := PutStream(fs, local, scratch, bytes).value;
      && staged.refusing == fs.refusing
      && ((d, path) != (local, scratch) ==> ReadStream(staged, d, path) == ReadStream(fs, d, path))
      && (PutStream(staged, disk, here, bytes).Ok? ==>
            var written := PutStream(staged, disk, here, bytes).value;
            && written.refusing == fs.refusing
            && ((d, path) != (disk, here) && (d, path) != (local, scratch) ==>
                  ReadStream(written, d, path) == ReadStream(fs, d, path))
            && ReadStream(written, disk, here) == Ok(bytes)
            && ReadStream(written, local, scratch) == Ok(bytes))
  {
  }

  /**
   * Staging never overwrites a stored blob: whatever file `g` and options
   * `q`, the blob at `g`'s path is unchanged unless it is the one requested.
   */
  lemma {:induction false} StagingHarmless(digest: Digest, fs: Filesystem, disk: string, local: string, f: FileMeta,
                                           o: Array, uniq: string, d: string, g: FileMeta, q: Array)
    requires WellFormedArray(o) && WellFormedArray(q)
    requires (d, FilePath(digest, g, q)) != (disk, FilePath(digest, f, o))
    ensures ReadStream(Resolve(digest, fs, disk, local, f, o, uniq).0, d, FilePath(digest, g, q))
         == ReadStream(fs, d, FilePath(digest, g, q))
  {
    StagingPathDisjoint(digest, g, q, uniq);
    ResolveEffect(digest, fs, disk, local, f, o, uniq, d, FilePath(digest, g, q));
  }

  /**
   * A generated derivative is a byte-for-byte copy of the original: a request
   * for a missing derivative succeeds exactly when the original is stored and
   * both the local and the working disk accept writes, and then returns the
   * original's bytes.
   */
  lemma {:induction false} DerivativeCopiesOriginal(digest: Digest, fs: Filesystem, disk: string, local: string,
                                                    f: FileMeta, o: Array, uniq: string)
    requires WellFormedArray(o)
    requires o != [] && !Has(fs, disk, FilePath(digest, f, o))
    ensures Resolve(digest, fs, disk, local, f, o, uniq).1.Ok? <==>
      Has(fs, disk, FilePath(digest, f, [])) && disk !in fs.refusing && local !in fs.refusing
    ensures Resolve(digest, fs, disk, local, f, o, uniq).1.Ok? ==>
      Resolve(digest, fs, disk, local, f, o, uniq).1 == ReadStream(fs, disk, FilePath(digest, f, []))
  {
    if Has(fs, disk, FilePath(digest, f, [])) {
      assert ReadStream(fs, disk, FilePath(digest, f, [])).Ok?;
    }
  }

  /** The same options in another order request the same blob, with the same outcome. */
  lemma {:induction false} ResolveOrderIndependent(digest: Digest, fs: Filesystem, disk: string, local: string,
                                                   f: FileMeta, o: Array, p: Array, uniq: string)
    requires WellFormedArray(o) && WellFormedArray(p)
    requires Contents(o) == Contents(p)
    ensures Resolve(digest, fs, disk, local, f, o, uniq) == Resolve(digest, fs, disk, local, f, p, uniq)
  {
    FilePathOrderIndependent(digest, f, o, p);
  }

  /** Once the original is deleted, every request for the file fails and changes nothing. */
  lemma {:induction false} ResolveAfterDelete(digest: Digest, fs: Filesystem, disk: string, local: string,
                                              f: FileMeta, p: Array, uniq: string)
    requires WellFormedArray(p)
    ensures Discard(digest, fs, disk, f, []).Ok?
    ensures var after := Discard(digest, fs, disk, f, []).value;
      Resolve(digest, after, disk, local, f, p, uniq) == (after, Err(NotFound(FilePath(digest, f, []))))
  {
    DiscardOriginalRemovesAll(digest, fs, disk, f, p);
    DiscardOriginalRemovesAll(digest, fs, disk, f, []);
  }

  /**
   * The file table keeps its constraints, every key was handed out by the
   * auto-increment counter, and only stored files have a recorded owner.
   */
  ghost predicate Tables(files: seq<FileMeta>, owners: map<nat, Owner>, nextFileId: nat)
  {
    FileTableValid(files)
    && (forall f :: f in files ==> f.id < nextFileId)
    && (forall id :: id in owners ==> exists f :: f in files && f.id == id)
  }

  /** The owner map after a file is created, through `clippable` when one is given. */
  function OwnedAs(owners: map<nat, Owner>, id: nat, clippable: Option<Owner>): map<nat, Owner>
  {
    if clippable.Some? then owners[id := clippable.value] else owners
  }

  /** A new unnamed file with a fresh key, optionally owned, keeps the tables valid. */
  lemma TablesAfterUpload(files: seq<FileMeta>, owners: map<nat, Owner>, nextFileId: nat, f: FileMeta,
                          clippable: Option<Owner>)
    requires Tables(files, owners, nextFileId)
    requires f.id == nextFileId && f.name.None?
    ensures Tables(files + [f], OwnedAs(owners, f.id, clippable), nextFileId + 1)
  {
    AppendFile(files, f);
    var r := files + [f];
    forall id | id in OwnedAs(owners, f.id, clippable) ensures exists g :: g in r && g.id == id {
      if id == f.id {
        assert f in r;
      } else {
        var g :| g in files && g.id == id;
        assert g in r;
      }
    }
  }

  /** A failed upload only consumes a file key. */
  lemma TablesAfterRollback(files: seq<FileMeta>, owners: map<nat, Owner>, nextFileId: nat)
    requires Tables(files, owners, nextFileId)
    ensures Tables(files, owners, nextFileId + 1)
  {
  }

  /** Deleting a file's row and its owner keeps the tables valid. */
  lemma TablesAfterDelete(files: seq<FileMeta>, owners: map<nat, Owner>, nextFileId: nat, id: nat)
    requires Tables(files, owners, nextFileId)
    ensures Tables(RemoveFile(files, id), owners - {id}, nextFileId)
  {
    var r := RemoveFile(files, id);
    RemoveFileValid(files, id);
    forall k | k in owners - {id} ensures exists g :: g in r && g.id == k {
      var g :| g in files && g.id == k;
      assert g in r;
    }
  }

  class Service {
    const digest: Digest
    /** The filesystem manager's default disk, used while no disk is selected. */
    const defaultDisk: string
    var currentDisk: Option<string>
    var localDiskName: string
    var publicPrefixes: map<string, string>
    var fs: Filesystem
    var files: seq<FileMeta>
    /** The owner recorded for a file saved through `$clippable->files()`. */
    var owners: map<nat, Owner>
    var nextFileId: nat

    ghost predicate Valid()
      reads this`files, this`owners, this`nextFileId
    {
      Tables(files, owners, nextFileId)
    }

    constructor (digest: Digest, defaultDisk: string, prefixes: map<string, string>, fs: Filesystem,
                 files: seq<FileMeta>, owners: map<nat, Owner>, nextFileId: nat)
      requires FileTableValid(files)
      requires forall f :: f in files ==> f.id < nextFileId
      requires forall id :: id in owners ==> exists f :: f in files && f.id == id
      ensures Valid()
      ensures this.digest == digest && this.defaultDisk == defaultDisk && currentDisk == None
      ensures localDiskName == "local"
      ensures publicPrefixes == prefixes && this.fs == fs
      ensures this.files == files && this.owners == owners && this.nextFileId == nextFileId
    {
      this.digest := digest;
      this.defaultDisk := defaultDisk;
      currentDisk := None;
      localDiskName := "local";
      publicPrefixes := prefixes;
      this.fs := fs;
      this.files := files;
      this.owners := owners;
      this.nextFileId := nextFileId;
    }

    /** `getDisk($disk)`. */
    function DiskFor(requested: Option<string>): (name: string)
      reads this`currentDisk
      ensures Truthy(requested) ==> name == requested.value
      ensures !Truthy(requested) && Truthy(currentDisk) ==> name == currentDisk.value
      ensures !Truthy(requested) && !Truthy(currentDisk) ==> name == defaultDisk
    {
      SelectDisk(requested, currentDisk, defaultDisk)
    }

    /** `getDisk()`: the working disk. */
    function Disk(): (name: string)
      reads this`currentDisk
      ensures Truthy(currentDisk) ==> name == currentDisk.value
      ensures !Truthy(currentDisk) ==> name == defaultDisk
    {
      DiskFor(None)
    }

    /** `getLocalDisk()`: the local disk, or the working disk if its name is falsy. */
    function LocalDisk(): (name: string)
      reads this`currentDisk, this`localDiskName
      ensures TruthyString(localDiskName) ==> name == localDiskName
      ensures !TruthyString(localDiskName) ==> name == Disk()
    {
      DiskFor(Some(localDiskName))
    }

    method UseDisk(drive: Option<string>)
      modifies this`currentDisk
      ensures currentDisk == drive
      ensures Truthy(drive) ==> Disk() == drive.value
      ensures !Truthy(drive) ==> Disk() == defaultDisk
    {
      currentDisk := drive;
    }

    method SetPublicPrefixes(prefixes: map<string, string>)
      modifies this`publicPrefixes
      ensures publicPrefixes == prefixes
    {
      publicPrefixes := prefixes;
    }

    /** `setLocalDiskName()`. */
    method SetLocalDiskName(name: string)
      modifies this`localDiskName
      ensures localDiskName == name
      ensures TruthyString(name) ==> LocalDisk() == name
    {
      localDiskName := name;
    }

    /** `getResource()`; `uniq` is what `uniqid()` would return if a derivative is generated. */
    method GetResource(f: FileMeta, o: Array, uniq: string) returns (r: Result<Bytes>)
      requires WellFormedArray(o)
      modifies this`fs
      ensures (fs, r) == Resolve(digest, old(fs), Disk(), LocalDisk(), f, o, uniq)
      decreases if o != [] && !Has(fs, Disk(), FilePath(digest, f, o)) then 2 else 0
    {
      var disk := Disk();
      var path := FilePath(digest, f, o);
      if o != [] && !Has(fs, disk, path) {
        r := GenerateDerivative(f, o, uniq);
      } else {
        r := ReadStream(fs, disk, path);
      }
    }

    /** `saveFromResource()`. */
    method SaveFromResource(content: Bytes, f: FileMeta, o: Array) returns (r: Result<()>)
      requires WellFormedArray(o)
      modifies this`fs
      ensures var w := PutStream(old(fs), Disk(), FilePath(digest, f, o), content);
        if w.Ok? then r == Ok(()) && fs == w.value else r == Err(w.error) && fs == old(fs)
    {
      var w := PutStream(fs, Disk(), FilePath(digest, f, o), content);
      if w.Ok? {
        fs := w.value;
        r := Ok(());
      } else {
        r := Err(w.error);
      }
    }

    /** `generateDerivative()`. */
    method GenerateDerivative(f: FileMeta, o: Array, uniq: string) returns (r: Result<Bytes>)
      requires WellFormedArray(o)
      modifies this`fs
      ensures (fs, r) == Derive(digest, old(fs), Disk(), LocalDisk(), f, o, uniq)
      decreases 1
    {
      var original := GetResource(f, [], uniq);
      if original.Err? {
        return Err(original.error);
      }
      var local := LocalDisk();
      var scratch := ScratchPath(uniq);
      var staged := PutStream(fs, local, scratch, original.value);
      if staged.Err? {
        return Err(staged.error);
      }
      fs := staged.value;
      var copy := ReadStream(fs, local, scratch);
      StagingPathDisjoint(digest, f, o, uniq);
      var saved := SaveFromResource(copy.value, f, o);
      if saved.Err? {
        return Err(saved.error);
      }
      r := GetResource(f, o, uniq);
    }

    /** `getPublicUri()`: as in the later revision. */
    method GetPublicUri(f: FileMeta, o: Array, uniq: string) returns (r: Result<string>)
      requires WellFormedArray(o)
      modifies this`fs
      ensures fs == Resolve(digest, old(fs), Disk(), LocalDisk(), f, o, uniq).0
      ensures var res := Resolve(digest, old(fs), Disk(), LocalDisk(), f, o, uniq).1;
        var prefix := PublicPrefix(publicPrefixes, currentDisk);
        if res.Err? then r == Err(res.error)
        else if prefix.Err? then r == Err(prefix.error)
        else r == Ok(prefix.value + FilePath(digest, f, o))
    {
      var res := GetResource(f, o, uniq);
      if res.Err? {
        return Err(res.error);
      }
      var prefix := PublicPrefix(publicPrefixes, currentDisk);
      if prefix.Err? {
        return Err(prefix.error);
      }
      r := Ok(prefix.value + FilePath(digest, f, o));
    }

    /**
     * `saveFromUri()` as evidently intended: records a file with the given
     * type, owned by `clippable` if one is given, and stores the body under
     * the caller's options. When the write fails the row is removed again
     * and the error is passed on; its key stays consumed.
     */
    method SaveFromUriIntended(content: Bytes, contentType: string, clippable: Option<Owner>, o: Array)
      returns (r: Result<FileMeta>)
      requires Valid() && WellFormedArray(o)
      modifies this`fs, this`files, this`owners, this`nextFileId
      ensures Valid()
      ensures nextFileId == old(nextFileId) + 1
      ensures var f := FileMeta(old(nextFileId), None, None, contentType);
        var w := PutStream(old(fs), Disk(), FilePath(digest, f, o), content);
        if w.Ok? then
          && r == Ok(f)
          && fs == w.value
          && files == old(files) + [f]
          && owners == OwnedAs(old(owners), f.id, clippable)
        else
          && r == Err(w.error)
          && fs == old(fs) && files == old(files) && owners == old(owners)
    {
      var f := FileMeta(nextFileId, None, None, contentType);
      TablesAfterUpload(files, owners, nextFileId, f, clippable);
      TablesAfterRollback(files, owners, nextFileId);
      var (filesBefore, ownersBefore) := (files, owners);
      files := files + [f];
      owners := OwnedAs(owners, f.id, clippable);
      nextFileId := nextFileId + 1;
      ghost var w := PutStream(fs, Disk(), FilePath(digest, f, o), content);
      var saved := SaveFromResource(content, f, o);
      assert saved.Ok? <==> w.Ok?;
      if saved.Err? {
        files, owners := filesBefore, ownersBefore;
        return Err(saved.error);
      }
      r := Ok(f);
    }

    /**
     * `saveFromUri()` as written. With an owner, `$clippable->files()` calls
     * `morphMany()` without the morph name it requires, so the call throws
     * before any row is created or any byte is written. Without an owner it
     * behaves as intended.
     */
    method SaveFromUri(content: Bytes, contentType: string, clippable: Option<Owner>, o: Array)
      returns (r: Result<FileMeta>)
      requires Valid() && WellFormedArray(o)
      modifies this`fs, this`files, this`owners, this`nextFileId
      ensures Valid()
      ensures clippable.Some? ==>
        && r == Err(MissingArgument("morphMany"))
        && fs == old(fs) && files == old(files) && owners == old(owners)
        && nextFileId == old(nextFileId)
      ensures clippable.None? ==> nextFileId == old(nextFileId) + 1
      ensures clippable.None? ==>
        var f := FileMeta(old(nextFileId), None, None, contentType);
        var w := PutStream(old(fs), Disk(), FilePath(digest, f, o), content);
        if w.Ok? then
          && r == Ok(f)
          && fs == w.value
          && files == old(files) + [f]
          && owners == old(owners)
        else
          && r == Err(w.error)
          && fs == old(fs) && files == old(files) && owners == old(owners)
    {
      if clippable.Some? {
        return Err(MissingArgument("morphMany"));
      }
      r := SaveFromUriIntended(content, contentType, None, o);
    }

    /** `delete()`: as in the later revision; the file's row takes its owner with it. */
    method Delete(f: FileMeta, o: Array) returns (r: Result<()>)
      requires Valid() && WellFormedArray(o)
      modifies this`fs, this`files, this`owners
      ensures Valid()
      ensures var d := Discard(digest, old(fs), Disk(), f, o);
        if d.Ok? then r == Ok(()) && fs == d.value else r == Err(d.error) && fs == old(fs)
      ensures files == if o == [] then RemoveFile(old(files), f.id) else old(files)
      ensures owners == if o == [] then old(owners) - {f.id} else old(owners)
    {
      if o == [] {
        TablesAfterDelete(files, owners, nextFileId, f.id);
        fs := DeleteDirectory(fs, Disk(), FileDirectory(f, o));
        files := RemoveFile(files, f.id);
        owners := owners - {f.id};
        r := Ok(());
      } else {
        var d := Storage.Delete(fs, Disk(), FilePath(digest, f, o));
        if d.Err? {
          return Err(d.error);
        }
        fs := d.value;
        r := Ok(());
      }
    }
  }
}
