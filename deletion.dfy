/**
 * The storage effect of `delete($fileMeta, $options)`, identical in both
 * revisions of the service: with no options the file's whole directory goes
 * (the original and every derivative), otherwise only the blob at the
 * options' path, which must be stored.
 */
module Deletion {
  import opened Php
  import opened PhpArray
  import opened Records
  import opened Storage
  import opened Paths

  /**
   * Removing the directory never throws; removing one derivative throws
   * "file not found" when that blob is not stored.
   */
  function Discard(digest: Digest, fs: Filesystem, disk: string, f: FileMeta, o: Array): (r: Result<Filesystem>)
    requires WellFormedArray(o)
    ensures r.Ok? <==> o == [] || Has(fs, disk, FilePath(digest, f, o))
    ensures r.Err? ==> r.error == NotFound(FilePath(digest, f, o))
    ensures r.Ok? ==> r.value.refusing == fs.refusing
    ensures r.Ok? ==> forall other :: other != disk ==> DiskOf(r.value, other) == DiskOf(fs, other)
    ensures r.Ok? ==> forall p :: Has(r.value, disk, p) ==> Has(fs, disk, p) && DiskOf(r.value, disk)[p] == DiskOf(fs, disk)[p]
  {
    if o == [] then Ok(DeleteDirectory(fs, disk, FileDirectory(f, o)))
    else Delete(fs, disk, FilePath(digest, f, o))
  }

  /** Deleting the original always succeeds and leaves no blob of the file behind, whatever its options. */
  lemma DiscardOriginalRemovesAll(digest: Digest, fs: Filesystem, disk: string, f: FileMeta, p: Array)
    requires WellFormedArray(p)
    ensures Discard(digest, fs, disk, f, []).Ok?
    ensures !Has(Discard(digest, fs, disk, f, []).value, disk, FilePath(digest, f, p))
  {
    assert InDirectory(FilePath(digest, f, p), FileDirectory(f, []));
  }

  /**
   * Deleting any blob of `g`, original or derivative, leaves every blob of a
   * different file `f` as it was, on every disk.
   */
  lemma DiscardSparesOtherFiles(digest: Digest, fs: Filesystem, disk: string, g: FileMeta, q: Array,
                                f: FileMeta, p: Array, d: string)
    requires WellFormedArray(q) && WellFormedArray(p)
    requires f.id != g.id
    ensures Discard(digest, fs, disk, g, q).Ok? ==>
      && Discard(digest, fs, disk, g, q).value.refusing == fs.refusing
      && ReadStream(Discard(digest, fs, disk, g, q).value, d, FilePath(digest, f, p))
           == ReadStream(fs, d, FilePath(digest, f, p))
  {
    var path := FilePath(digest, f, p);
    FilePathOutsideOtherDirectory(digest, g, f, q, p);
    if q != [] {
      assert InDirectory(FilePath(digest, g, q), FileDirectory(g, q));
      assert FilePath(digest, g, q) != path;
    }
  }

  /**
   * Deleting with options removes the blob at their path and nothing else,
   * and fails, changing nothing, when no blob is stored there.
   */
  lemma DiscardDerivativeOnly(digest: Digest, fs: Filesystem, disk: string, f: FileMeta, o: Array,
                              d: string, path: string)
    requires WellFormedArray(o) && o != []
    ensures Discard(digest, fs, disk, f, o).Ok? <==> Has(fs, disk, FilePath(digest, f, o))
    ensures Discard(digest, fs, disk, f, o).Ok? ==>
      ReadStream(Discard(digest, fs, disk, f, o).value, d, path)
        == if d == disk && path == FilePath(digest, f, o) then Err(NotFound(path)) else ReadStream(fs, d, path)
  {
  }

  /**
   * As written, `delete($f, ['id' => …])` goes down the derivative branch
   * but the path it deletes is the original's: the original's blob goes
   * while its row and its derivatives stay.
   */
  lemma DiscardIdOnlyRemovesOriginal(digest: Digest, fs: Filesystem, disk: string, f: FileMeta, v: Value)
    requires WellFormed(v)
    requires Has(fs, disk, FilePath(digest, f, []))
    ensures WellFormedArray([Entry("id", v)])
    ensures Discard(digest, fs, disk, f, [Entry("id", v)]).Ok?
    ensures !Has(Discard(digest, fs, disk, f, [Entry("id", v)]).value, disk, FilePath(digest, f, []))
  {
    IdOnlyOptionsNameOriginal(digest, f, v);
  }

  /** Options that name the original: every key is the overwritten `id`. */
  predicate NamesOriginal(o: Array)
  {
    forall e :: e in o ==> e.key == "id"
  }

  /**
   * With a collision-free digest, deleting with options that carry a key
   * other than `id` leaves the original retrievable, as it was.
   */
  lemma DiscardKeepsOriginal(digest: Digest, fs: Filesystem, disk: string, f: FileMeta, o: Array)
    requires WellFormedArray(o)
    ensures Injective(digest) && !NamesOriginal(o) && Discard(digest, fs, disk, f, o).Ok? ==>
      ReadStream(Discard(digest, fs, disk, f, o).value, disk, FilePath(digest, f, []))
        == ReadStream(fs, disk, FilePath(digest, f, []))
  {
    if Injective(digest) && !NamesOriginal(o) {
      var e :| e in o && e.key != "id";
      assert e.key in KeySet(o);
      OtherKeyNamesDerivative(digest, f, o, e.key);
      DiscardDerivativeOnly(digest, fs, disk, f, o, disk, FilePath(digest, f, []));
    }
  }

  /**
   * The storage effect `delete()` evidently intends: options that name the
   * original (none, or only `id`) delete the whole directory, and any other
   * options delete one derivative and never the original.
   */
  function DiscardIntended(digest: Digest, fs: Filesystem, disk: string, f: FileMeta, o: Array): (r: Result<Filesystem>)
    requires WellFormedArray(o)
    ensures NamesOriginal(o) ==> r.Ok? && forall p :: InDirectory(p, FileDirectory(f, o)) ==> !Has(r.value, disk, p)
    ensures Injective(digest) && !NamesOriginal(o) && r.Ok? ==>
      ReadStream(r.value, disk, FilePath(digest, f, [])) == ReadStream(fs, disk, FilePath(digest, f, []))
  {
    if NamesOriginal(o) then Discard(digest, fs, disk, f, [])
    else
      DiscardKeepsOriginal(digest, fs, disk, f, o);
      Discard(digest, fs, disk, f, o)
  }
}
