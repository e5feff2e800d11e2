/**
 * The part of Laravel's filesystem layer the core relies on: named disks, each
 * a map from path to bytes, with `has`, `readStream`, `putStream`, `delete`
 * and `deleteDirectory`. A disk named in `refusing` throws on every write,
 * which stands for any driver failure (full disk, permissions, network).
 */
module Storage {
  import opened Php

  type Bytes = seq<bv8>
  type Disk = map<string, Bytes>

  datatype Filesystem = Filesystem(disks: map<string, Disk>, refusing: set<string>)

  /** `path` lies inside directory `dir` (at any depth). */
  predicate InDirectory(path: string, dir: string)
  {
    |path| > |dir| && path[..|dir| + 1] == dir + "/"
  }

  /** The disk named `name`; a disk with nothing on it yet reads as empty. */
  function DiskOf(fs: Filesystem, name: string): Disk
  {
    if name in fs.disks then fs.disks[name] else map[]
  }

  predicate Has(fs: Filesystem, name: string, path: string)
  {
    path in DiskOf(fs, name)
  }

  /** `readStream($path)`: the driver throws when nothing is stored at `path`. */
  function ReadStream(fs: Filesystem, name: string, path: string): (r: Result<Bytes>)
    ensures r.Ok? <==> Has(fs, name, path)
    ensures r.Ok? ==> r.value == DiskOf(fs, name)[path]
    ensures r.Err? ==> r.error == NotFound(path)
  {
    if Has(fs, name, path) then Ok(DiskOf(fs, name)[path]) else Err(NotFound(path))
  }

  /** `putStream($path, $content)`: stores `content` at `path`, or throws. */
  function PutStream(fs: Filesystem, name: string, path: string, content: Bytes): (r: Result<Filesystem>)
    ensures r.Ok? <==> name !in fs.refusing
    ensures r.Err? ==> r.error == WriteFailed(name, path)
    ensures r.Ok? ==> r.value.refusing == fs.refusing
    ensures r.Ok? ==> DiskOf(r.value, name) == DiskOf(fs, name)[path := content]
    ensures r.Ok? ==> forall other :: other != name ==> DiskOf(r.value, other) == DiskOf(fs, other)
  {
    if name in fs.refusing then Err(WriteFailed(name, path))
    else Ok(fs.(disks := fs.disks[name := DiskOf(fs, name)[path := content]]))
  }

  /** Replaces the contents of one disk, leaving the others alone. */
  function WithDisk(fs: Filesystem, name: string, d: Disk): (r: Filesystem)
    ensures r.refusing == fs.refusing
    ensures DiskOf(r, name) == d
    ensures forall other :: other != name ==> DiskOf(r, other) == DiskOf(fs, other)
  {
    fs.(disks := fs.disks[name := d])
  }

  /**
   * `delete($path)`: removes one file. The filesystem first checks that the
   * path is present and throws "file not found" when it is not.
   */
  function Delete(fs: Filesystem, name: string, path: string): (r: Result<Filesystem>)
    ensures r.Ok? <==> Has(fs, name, path)
    ensures r.Err? ==> r.error == NotFound(path)
    ensures r.Ok? ==> r.value.refusing == fs.refusing
    ensures r.Ok? ==> forall p :: Has(r.value, name, p) <==> Has(fs, name, p) && p != path
    ensures r.Ok? ==> forall p :: Has(r.value, name, p) ==> Has(fs, name, p) && DiskOf(r.value, name)[p] == DiskOf(fs, name)[p]
    ensures r.Ok? ==> forall other :: other != name ==> DiskOf(r.value, other) == DiskOf(fs, other)
  {
    if !Has(fs, name, path) then Err(NotFound(path))
    else Ok(WithDisk(fs, name, DiskOf(fs, name) - {path}))
  }

  /** `deleteDirectory($dir)`: removes every file under `dir`. */
  function DeleteDirectory(fs: Filesystem, name: string, dir: string): (r: Filesystem)
    ensures r.refusing == fs.refusing
    ensures forall p :: Has(r, name, p) <==> Has(fs, name, p) && !InDirectory(p, dir)
    ensures forall p :: Has(r, name, p) ==> Has(fs, name, p) && DiskOf(r, name)[p] == DiskOf(fs, name)[p]
    ensures forall other :: other != name ==> DiskOf(r, other) == DiskOf(fs, other)
  {
    var d := DiskOf(fs, name);
    WithDisk(fs, name, map p | p in d && !InDirectory(p, dir) :: d[p])
  }

  /**
   * `getDisk($disk)` followed by the manager's `disk($name)`: the requested
   * disk if truthy, else the selected one if truthy, else the default disk
   * (both steps use PHP's `?:`).
   */
  function SelectDisk(requested: Option<string>, current: Option<string>, defaultDisk: string): (name: string)
    ensures Truthy(requested) ==> name == requested.value
    ensures !Truthy(requested) && Truthy(current) ==> name == current.value
    ensures !Truthy(requested) && !Truthy(current) ==> name == defaultDisk
  {
    if Truthy(requested) then requested.value
    else if Truthy(current) then current.value
    else defaultDisk
  }
}
