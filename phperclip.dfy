/**
 * The later revision of the service (src/Service.php): it stores files on the
 * selected disk under `<key>/<digest>`, records each upload as a file row plus
 * a clipping, and generates derivatives on first request by copying the
 * original to the derivative's path.
 */
module Phperclip {
  import opened Php
  import opened PhpArray
  import opened Records
  import opened Storage
  import opened Paths
  import opened Deletion
  import opened ClippingScopes
  import opened FileMetaScopes

  /**
   * `generateDerivative()` on disk `disk`: read the original, write its bytes
   * to the derivative's path, return them. The before- and after-save hooks
   * are still to-dos in the source, so no processor touches the bytes.
   */
  function Derive(digest: Digest, fs: Filesystem, disk: string, f: FileMeta, o: Array): (Filesystem, Result<Bytes>)
    requires WellFormedArray(o)
  {
    var original := FilePath(digest, f, []);
    if !Has(fs, disk, original) then (fs, Err(NotFound(original)))
    else
      var bytes := DiskOf(fs, disk)[original];
      match PutStream(fs, disk, FilePath(digest, f, o), bytes)
      case Err(e) => (fs, Err(e))
      case Ok(written) => (written, Ok(bytes))
  }

  /**
   * `getResource()` on disk `disk`: the original, or a derivative that is
   * already stored, is read as it is; a missing derivative is generated.
   */
  function Resolve(digest: Digest, fs: Filesystem, disk: string, f: FileMeta, o: Array): (Filesystem, Result<Bytes>)
    requires WellFormedArray(o)
  {
    var path := FilePath(digest, f, o);
    if o == [] || Has(fs, disk, path) then (fs, ReadStream(fs, disk, path))
    else Derive(digest, fs, disk, f, o)
  }

  /**
   * After a successful request the blob is stored, so asking again changes
   * nothing and returns the same bytes.
   */
  lemma {:induction false} ResolveIdempotent(digest: Digest, fs: Filesystem, disk: string, f: FileMeta, o: Array)
    requires WellFormedArray(o)
    requires Resolve(digest, fs, disk, f, o).1.Ok?
    ensures Resolve(digest, Resolve(digest, fs, disk, f, o).0, disk, f, o) == Resolve(digest, fs, disk, f, o)
  {
    var path := FilePath(digest, f, o);
    if o != [] && !Has(fs, disk, path) {
      var written := Resolve(digest, fs, disk, f, o).0;
      assert Has(written, disk, path);
    }
  }

  /**
   * A request touches at most one blob, the one at the requested path, and
   * when it succeeds that blob holds exactly the bytes returned.
   */
  lemma {:induction false} ResolveEffect(digest: Digest, fs: Filesystem, disk: string, f: FileMeta, o: Array,
                                         d: string, path: string)
    requires WellFormedArray(o)
    ensures Resolve(digest, fs, disk, f, o).0.refusing == fs.refusing
    ensures (d, path) != (disk, FilePath(digest, f, o)) ==>
      ReadStream(Resolve(digest, fs, disk, f, o).0, d, path) == ReadStream(fs, d, path)
    ensures Resolve(digest, fs, disk, f, o).1.Ok? ==>
      ReadStream(Resolve(digest, fs, disk, f, o).0, disk, FilePath(digest, f, o)) == Resolve(digest, fs, disk, f, o).1
  {
    var here := FilePath(digest, f, o);
    if o != [] && !Has(fs, disk, here) && Has(fs, disk, FilePath(digest, f, [])) {
      var bytes := DiskOf(fs, disk)[FilePath(digest, f, [])];
      var w := PutStream(fs, disk, here, bytes);
      if w.Ok? {
        assert Resolve(digest, fs, disk, f, o).0 == w.value;
        if d != disk {
          assert DiskOf(w.value, d) == DiskOf(fs, d);
        }
      }
    }
  }

  /**
   * A derivative generated on request is a byte-for-byte copy of the
   * original: a request for a missing derivative succeeds exactly when the
   * original is stored and the disk accepts the write, and then returns the
   * original's bytes.
   */
  lemma {:induction false} DerivativeCopiesOriginal(digest: Digest, fs: Filesystem, disk: string, f: FileMeta, o: Array)
    requires WellFormedArray(o)
    requires o != [] && !Has(fs, disk, FilePath(digest, f, o))
    ensures Resolve(digest, fs, disk, f, o).1.Ok? <==> Has(fs, disk, FilePath(digest, f, [])) && disk !in fs.refusing
    ensures Resolve(digest, fs, disk, f, o).1.Ok? ==>
      Resolve(digest, fs, disk, f, o).1 == ReadStream(fs, disk, FilePath(digest, f, []))
  {
    if Has(fs, disk, FilePath(digest, f, [])) {
      assert ReadStream(fs, disk, FilePath(digest, f, [])).Ok?;
    }
  }

  /**
   * The same options in another order (at any depth) request the same blob,
   * with the same outcome.
   */
  lemma {:induction false} ResolveOrderIndependent(digest: Digest, fs: Filesystem, disk: string, f: FileMeta, o: Array, p: Array)
    requires WellFormedArray(o) && WellFormedArray(p)
    requires Contents(o) == Contents(p)
    ensures Resolve(digest, fs, disk, f, o) == Resolve(digest, fs, disk, f, p)
  {
    FilePathOrderIndependent(digest, f, o, p);
  }

  /**
   * Once the original is deleted, every request for the file, original or
   * derivative, fails with the original's path and changes nothing.
   */
  lemma {:induction false} ResolveAfterDelete(digest: Digest, fs: Filesystem, disk: string, f: FileMeta, p: Array)
    requires WellFormedArray(p)
    ensures Discard(digest, fs, disk, f, []).Ok?
    ensures var after := Discard(digest, fs, disk, f, []).value;
      Resolve(digest, after, disk, f, p) == (after, Err(NotFound(FilePath(digest, f, []))))
  {
    DiscardOriginalRemovesAll(digest, fs, disk, f, p);
    DiscardOriginalRemovesAll(digest, fs, disk, f, []);
  }

  /** Deleting a blob of one file never changes what a request for another file returns. */
  lemma {:induction false} ResolveIsolated(digest: Digest, fs: Filesystem, disk: string, g: FileMeta, q: Array,
                                           d: string, f: FileMeta, p: Array)
    requires WellFormedArray(q) && WellFormedArray(p)
    requires f.id != g.id
    ensures Discard(digest, fs, disk, g, q).Ok? ==>
      Resolve(digest, Discard(digest, fs, disk, g, q).value, d, f, p).1 == Resolve(digest, fs, d, f, p).1
  {
    DiscardSparesOtherFiles(digest, fs, disk, g, q, f, p, d);
    DiscardSparesOtherFiles(digest, fs, disk, g, q, f, [], d);
  }

  /**
   * The two tables keep their constraints, and every key, including every
   * clipping's file key, was handed out by an auto-increment counter.
   */
  ghost predicate Tables(files: seq<FileMeta>, clippings: seq<Clipping>, nextFileId: nat, nextClippingId: nat)
  {
    FileTableValid(files) && ClippingTableValid(clippings)
    && (forall f :: f in files ==> f.id < nextFileId)
    && (forall c :: c in clippings ==> c.id < nextClippingId && c.fileMetaId < nextFileId)
  }

  /**
   * `save()` succeeding: the new file and its unattached clipping keep the
   * tables valid, and the clipping is the only one of the new file.
   */
  lemma TablesAfterSave(files: seq<FileMeta>, clippings: seq<Clipping>, nextFileId: nat, nextClippingId: nat,
                        f: FileMeta, c: Clipping)
    requires Tables(files, clippings, nextFileId, nextClippingId)
    requires f.id == nextFileId && f.name.None?
    requires c == Clipping(nextClippingId, f.id, None, None, c.slot)
    ensures Tables(files + [f], clippings + [c], nextFileId + 1, nextClippingId + 1)
    ensures forall d :: d in clippings + [c] && d.fileMetaId == f.id <==> d == c
  {
    AppendFile(files, f);
    AppendClipping(clippings, c);
  }

  /** A failed `save()` only consumes a file key. */
  lemma TablesAfterRollback(files: seq<FileMeta>, clippings: seq<Clipping>, nextFileId: nat, nextClippingId: nat)
    requires Tables(files, clippings, nextFileId, nextClippingId)
    ensures Tables(files, clippings, nextFileId + 1, nextClippingId)
  {
  }

  class Service {
    const digest: Digest
    /** The filesystem manager's default disk, used while no disk is selected. */
    const defaultDisk: string
    var currentDisk: Option<string>
    var publicPrefixes: map<string, string>
    var fs: Filesystem
    var files: seq<FileMeta>
    var clippings: seq<Clipping>
    /** The next keys the two tables' auto-increment columns hand out. */
    var nextFileId: nat
    var nextClippingId: nat

    ghost predicate Valid()
      reads this`files, this`clippings, this`nextFileId, this`nextClippingId
    {
      Tables(files, clippings, nextFileId, nextClippingId)
    }

    /** The prefixes come from the `phperclip.public_prefixes` configuration. */
    constructor (digest: Digest, defaultDisk: string, prefixes: map<string, string>, fs: Filesystem,
                 files: seq<FileMeta>, clippings: seq<Clipping>, nextFileId: nat, nextClippingId: nat)
      requires FileTableValid(files) && ClippingTableValid(clippings)
      requires forall f :: f in files ==> f.id < nextFileId
      requires forall c :: c in clippings ==> c.id < nextClippingId && c.fileMetaId < nextFileId
      ensures Valid()
      ensures this.digest == digest && this.defaultDisk == defaultDisk && currentDisk == None
      ensures publicPrefixes == prefixes && this.fs == fs
      ensures this.files == files && this.clippings == clippings
      ensures this.nextFileId == nextFileId && this.nextClippingId == nextClippingId
    {
      this.digest := digest;
      this.defaultDisk := defaultDisk;
      currentDisk := None;
      publicPrefixes := prefixes;
      this.fs := fs;
      this.files := files;
      this.clippings := clippings;
      this.nextFileId := nextFileId;
      this.nextClippingId := nextClippingId;
    }

    /** `getDisk()`: the disk every operation works on. */
    function Disk(): (name: string)
      reads this`currentDisk
      ensures Truthy(currentDisk) ==> name == currentDisk.value
      ensures !Truthy(currentDisk) ==> name == defaultDisk
    {
      SelectDisk(None, currentDisk, defaultDisk)
    }

    /**
     * `exists()`: the number of rows `named($name)->clippedTo($clippable)`
     * counts; it is positive exactly when a file of that name has a clipping,
     * one of `clippable`'s when an owner is given (and restricting at all).
     */
    function Exists(name: Option<string>, clippable: Option<Owner>): (n: nat)
      reads this
      ensures var who := if clippable.Some? then Instance(clippable.value) else NullOwner;
        n > 0 <==> exists f, c :: f in files && f.name == name && c in clippings && c.fileMetaId == f.id
                                && Admits(OwnerFilter(who, None).value, c)
    {
      var who := if clippable.Some? then Instance(clippable.value) else NullOwner;
      CountClippedNamed(files, clippings, name, who);
      |ClippedTo(FileMetaScopes.Named(files, name), clippings, who, None).value|
    }

    /** `useDisk()`: later operations work on `drive` (or the default if it is falsy). */
    method UseDisk(drive: Option<string>)
      modifies this`currentDisk
      ensures currentDisk == drive
      ensures Truthy(drive) ==> Disk() == drive.value
      ensures !Truthy(drive) ==> Disk() == defaultDisk
    {
      currentDisk := drive;
    }

    /** `setPublicPrefixes()`. */
    method SetPublicPrefixes(prefixes: map<string, string>)
      modifies this`publicPrefixes
      ensures publicPrefixes == prefixes
    {
      publicPrefixes := prefixes;
    }

    /** `getResource()`. */
    method GetResource(f: FileMeta, o: Array) returns (r: Result<Bytes>)
      requires WellFormedArray(o)
      modifies this`fs
      ensures (fs, r) == Resolve(digest, old(fs), Disk(), f, o)
      decreases if o != [] && !Has(fs, Disk(), FilePath(digest, f, o)) then 2 else 0
    {
      var disk := Disk();
      var path := FilePath(digest, f, o);
      if o != [] && !Has(fs, disk, path) {
        r := GenerateDerivative(f, o);
      } else {
        r := ReadStream(fs, disk, path);
      }
    }

    /** `saveFromResource()`: writes `content` to the blob of `f` for options `o`. */
    method SaveFromResource(content: Bytes, f: FileMeta, o: Array) returns (r: Result<()>)
      requires WellFormedArray(o)
      modifies this`fs
      ensures var w := PutStream(old(fs), Disk(), FilePath(digest, f, o), content);
        if w.Ok? then r == Ok(()) && fs == w.value else r == Err(w.error) && fs == old(fs)
    {
      var w := PutStream(fs, Disk(), FilePath(digest, f, o), content);
      if w.Ok? {
        fs := w.value;
        r := Ok(());
      } else {
        r := Err(w.error);
      }
    }

    /** `generateDerivative()`: only reached for a derivative that is not stored yet. */
    method GenerateDerivative(f: FileMeta, o: Array) returns (r: Result<Bytes>)
      requires WellFormedArray(o)
      modifies this`fs
      ensures (fs, r) == Derive(digest, old(fs), Disk(), f, o)
      decreases 1
    {
      var original := GetResource(f, []);
      if original.Err? {
        return Err(original.error);
      }
      var saved := SaveFromResource(original.value, f, o);
      if saved.Err? {
        return Err(saved.error);
      }
      r := GetResource(f, o);
    }

    /**
     * `getPublicUri()`: makes sure the blob exists, then prefixes its path;
     * with no disk selected the prefix throws, after the blob was resolved.
     */
    method GetPublicUri(f: FileMeta, o: Array) returns (r: Result<string>)
      requires WellFormedArray(o)
      modifies this`fs
      ensures fs == Resolve(digest, old(fs), Disk(), f, o).0
      ensures var res := Resolve(digest, old(fs), Disk(), f, o).1;
        var prefix := PublicPrefix(publicPrefixes, currentDisk);
        if res.Err? then r == Err(res.error)
        else if prefix.Err? then r == Err(prefix.error)
        else r == Ok(prefix.value + FilePath(digest, f, o))
    {
      var res := GetResource(f, o);
      if res.Err? {
        return Err(res.error);
      }
      var prefix := PublicPrefix(publicPrefixes, currentDisk);
      if prefix.Err? {
        return Err(prefix.error);
      }
      r := Ok(prefix.value + FilePath(digest, f, o));
    }

    /**
     * `save()`: records a file on the selected disk, stores `content` as its
     * original, and clips it into `slot`. The owner argument is accepted but
     * never used, so the clipping is unattached. When the write fails the
     * file row is removed again and the error is passed on; its key stays
     * consumed.
     */
    /**
     * The outcome of one `save()` of `content` as type `mimeType`: the next
     * file key is consumed; on a successful write the new row, its stored
     * original and one unattached clipping in `slot` are added, and on a
     * failed write the error is returned with tables and storage as before.
     */
    twostate predicate Saved(new r: Result<Clipping>, content: Bytes, mimeType: string, slot: Option<string>)
      reads this
    {
      var f := FileMeta(old(nextFileId), None, currentDisk, mimeType);
      var w := PutStream(old(fs), Disk(), FilePath(digest, f, []), content);
      && nextFileId == old(nextFileId) + 1
      && if w.Ok? then
          && r == Ok(Clipping(old(nextClippingId), f.id, None, None, slot))
          && fs == w.value
          && files == old(files) + [f]
          && clippings == old(clippings) + [r.value]
          && nextClippingId == old(nextClippingId) + 1
        else
          && r == Err(w.error)
          && fs == old(fs) && files == old(files) && clippings == old(clippings)
          && nextClippingId == old(nextClippingId)
    }

    method Save(content: Bytes, mimeType: string, slot: Option<string>, clippable: Option<Owner>)
      returns (r: Result<Clipping>)
      requires Valid()
      modifies this`fs, this`files, this`clippings, this`nextFileId, this`nextClippingId
      ensures Valid()
      ensures Saved(r, content, mimeType, slot)
      ensures r.Ok? ==> forall c :: c in clippings && c.fileMetaId == old(nextFileId) <==> c == r.value
    {
      var f := FileMeta(nextFileId, None, currentDisk, mimeType);
      var c := Clipping(nextClippingId, f.id, None, None, slot);
      TablesAfterSave(files, clippings, nextFileId, nextClippingId, f, c);
      TablesAfterRollback(files, clippings, nextFileId, nextClippingId);
      var before := files;
      files := files + [f];
      nextFileId := nextFileId + 1;
      ghost var w := PutStream(fs, Disk(), FilePath(digest, f, []), content);
      var saved := SaveFromResource(content, f, []);
      assert saved.Ok? <==> w.Ok?;
      if saved.Err? {
        assert fs == old(fs) && saved.error == w.error;
        files := before;
        return Err(saved.error);
      }
      assert fs == w.value;
      clippings := clippings + [c];
      nextClippingId := nextClippingId + 1;
      r := Ok(c);
    }

    /**
     * `saveFromPath()` as written: the owner parameter is typed `Clippable`
     * with no default, so a call without an owner throws before anything is
     * saved. Otherwise the detected MIME type is computed and dropped, and
     * the file is recorded with the type "?!?!".
     */
    method SaveFromPath(content: Bytes, detectedMimeType: string, slot: Option<string>, clippable: Option<Owner>)
      returns (r: Result<Clipping>)
      requires Valid()
      modifies this`fs, this`files, this`clippings, this`nextFileId, this`nextClippingId
      ensures Valid()
      ensures clippable.None? ==>
        && r == Err(NullArgument("saveFromPath"))
        && fs == old(fs) && files == old(files) && clippings == old(clippings)
        && nextFileId == old(nextFileId) && nextClippingId == old(nextClippingId)
      ensures clippable.Some? ==> Saved(r, content, "?!?!", slot)
      ensures r.Ok? && detectedMimeType != "?!?!" ==> files[|files| - 1].mimeType != detectedMimeType
    {
      if clippable.None? {
        return Err(NullArgument("saveFromPath"));
      }
      r := Save(content, "?!?!", slot, clippable);
    }

    /**
     * `saveFromPath()` as evidently intended: the file is recorded with its
     * detected type. The owner is still required.
     */
    method SaveFromPathDetected(content: Bytes, detectedMimeType: string, slot: Option<string>, clippable: Option<Owner>)
      returns (r: Result<Clipping>)
      requires Valid()
      modifies this`fs, this`files, this`clippings, this`nextFileId, this`nextClippingId
      ensures Valid()
      ensures clippable.None? ==>
        && r == Err(NullArgument("saveFromPath"))
        && fs == old(fs) && files == old(files) && clippings == old(clippings)
        && nextFileId == old(nextFileId) && nextClippingId == old(nextClippingId)
      ensures clippable.Some? ==> Saved(r, content, detectedMimeType, slot)
      ensures r.Ok? ==> files[|files| - 1].mimeType == detectedMimeType
    {
      if clippable.None? {
        return Err(NullArgument("saveFromPath"));
      }
      r := Save(content, detectedMimeType, slot, clippable);
    }

    /**
     * `saveFromUri()`: the body fetched from the URI is saved with the last
     * `Content-Type` header value as its type; the owner may be omitted.
     */
    method SaveFromUri(content: Bytes, contentType: string, slot: Option<string>, clippable: Option<Owner>)
      returns (r: Result<Clipping>)
      requires Valid()
      modifies this`fs, this`files, this`clippings, this`nextFileId, this`nextClippingId
      ensures Valid()
      ensures Saved(r, content, contentType, slot)
    {
      r := Save(content, contentType, slot, clippable);
    }

    /**
     * `delete()`: with no options the file's directory and its row go; with
     * options only that derivative's blob, or the "file not found" error
     * when it is not stored. Clippings of the file are left.
     */
    method Delete(f: FileMeta, o: Array) returns (r: Result<()>)
      requires Valid() && WellFormedArray(o)
      modifies this`fs, this`files
      ensures Valid()
      ensures var d := Discard(digest, old(fs), Disk(), f, o);
        if d.Ok? then r == Ok(()) && fs == d.value else r == Err(d.error) && fs == old(fs)
      ensures files == if o == [] then RemoveFile(old(files), f.id) else old(files)
    {
      if o == [] {
        fs := DeleteDirectory(fs, Disk(), FileDirectory(f, o));
        RemoveFileValid(files, f.id);
        files := RemoveFile(files, f.id);
        r := Ok(());
      } else {
        var d := Storage.Delete(fs, Disk(), FilePath(digest, f, o));
        if d.Err? {
          return Err(d.error);
        }
        fs := d.value;
        r := Ok(());
      }
    }
  }
}
