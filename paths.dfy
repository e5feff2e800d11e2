/**
 * Where a file and its derivatives live on a disk. Both revisions of the
 * service use the same scheme: a directory named after the file's key, and
 * inside it one blob per options array, named by a digest of the
 * canonicalised options with the key written into them under "id". A
 * public URI is the selected disk's configured prefix followed by that path.
 */
module Paths {
  import opened Php
  import opened PhpArray
  import opened Records
  import opened Storage

  /** `md5(json_encode(...))`, kept abstract: any function from arrays to strings. */
  type Digest = Array -> string

  function DigitChar(d: nat): (c: char)
    requires d < 10
    ensures '0' <= c <= '9'
    ensures c as int - '0' as int == d
  {
    (48 + d) as char
  }

  /** The decimal rendering of a key, as `sprintf('%s', ...)` prints an integer. */
  function NatToString(n: nat): (s: string)
    ensures |s| > 0
    ensures n >= 10 ==> |s| >= 2
    ensures forall i :: 0 <= i < |s| ==> '0' <= s[i] <= '9'
  {
    if n < 10 then [DigitChar(n)] else NatToString(n / 10) + [DigitChar(n % 10)]
  }

  /** Distinct keys render as distinct strings. */
  lemma {:induction false} NatToStringInjective(a: nat, b: nat)
    requires NatToString(a) == NatToString(b)
    ensures a == b
  {
    var s := NatToString(a);
    if a >= 10 && b >= 10 {
      assert s[..|s| - 1] == NatToString(a / 10) && s[..|s| - 1] == NatToString(b / 10);
      NatToStringInjective(a / 10, b / 10);
      assert s[|s| - 1] == DigitChar(a % 10) == DigitChar(b % 10);
    }
  }

  /** `fileDirectory()`: the file's key; the options play no part. */
  function FileDirectory(f: FileMeta, options: Array): (dir: string)
    ensures dir != [] && forall i :: 0 <= i < |dir| ==> '0' <= dir[i] <= '9'
  {
    NatToString(f.id)
  }

  /**
   * `generateHash()`: the caller's options with "id" set to the file's key
   * (replacing a caller-supplied "id" in place, or appended), canonicalised
   * by `recursiveKeySort` and digested.
   */
  function GenerateHash(digest: Digest, f: FileMeta, options: Array): (name: string)
    requires WellFormedArray(options)
    ensures exists signed :: SortedDeepArray(signed) && Contents(signed) == Signature(f, options) && name == digest(signed)
  {
    SignedArray(f, options);
    digest(Canonical(Assign(options, "id", Leaf(Int(f.id)))))
  }

  /** The array `generateHash()` digests is sorted at every level and means the signature. */
  lemma SignedArray(f: FileMeta, options: Array)
    requires WellFormedArray(options)
    ensures WellFormedArray(Assign(options, "id", Leaf(Int(f.id))))
    ensures var signed := Canonical(Assign(options, "id", Leaf(Int(f.id))));
      SortedDeepArray(signed) && Contents(signed) == Signature(f, options)
  {
    var withId := Assign(options, "id", Leaf(Int(f.id)));
    AssignWellFormed(options, "id", Leaf(Int(f.id)));
    AssignContents(options, "id", Leaf(Int(f.id)));
    CanonicalSortedDeep(withId);
    CanonicalContents(withId);
  }

  /** What a file's name is made from: the caller's options with "id" meaning the file's key. */
  function Signature(f: FileMeta, options: Array): map<string, Tree>
  {
    Contents(options)["id" := TLeaf(Int(f.id))]
  }

  /** `fileName()`: the hash, so the name is the digest of the sorted signature. */
  function FileName(digest: Digest, f: FileMeta, options: Array): (name: string)
    requires WellFormedArray(options)
    ensures exists signed :: SortedDeepArray(signed) && Contents(signed) == Signature(f, options) && name == digest(signed)
  {
    GenerateHash(digest, f, options)
  }

  /** `filePath()`: `<directory>/<name>`. */
  function FilePath(digest: Digest, f: FileMeta, options: Array): (path: string)
    requires WellFormedArray(options)
    ensures forall o :: InDirectory(path, FileDirectory(f, o))
  {
    var dir := FileDirectory(f, options);
    var path := dir + "/" + FileName(digest, f, options);
    assert path[..|dir| + 1] == dir + "/";
    path
  }

  /** Two files share a directory exactly when they have the same key. */
  lemma FileDirectoryInjective(f: FileMeta, g: FileMeta, o: Array, p: Array)
    ensures FileDirectory(f, o) == FileDirectory(g, p) <==> f.id == g.id
  {
    if FileDirectory(f, o) == FileDirectory(g, p) {
      NatToStringInjective(f.id, g.id);
    }
  }

  /**
   * No blob of file `g` lies inside the directory of a different file `f`,
   * so deleting `f`'s directory cannot touch `g`'s original or derivatives.
   */
  lemma {:induction false} FilePathOutsideOtherDirectory(digest: Digest, f: FileMeta, g: FileMeta, o: Array, p: Array)
    requires WellFormedArray(p)
    ensures InDirectory(FilePath(digest, g, p), FileDirectory(f, o)) <==> f.id == g.id
  {
    var path := FilePath(digest, g, p);
    var fd, gd := FileDirectory(f, o), FileDirectory(g, p);
    FileDirectoryInjective(f, g, o, p);
    if f.id != g.id && |path| > |fd| {
      var pre := path[..|fd| + 1];
      assert path == gd + "/" + FileName(digest, g, p);
      if |fd| < |gd| {
        assert pre[|fd|] == gd[|fd|] != '/';
        assert (fd + "/")[|fd|] == '/';
      } else if |gd| < |fd| {
        assert pre[|gd|] == '/';
        assert (fd + "/")[|gd|] == fd[|gd|] != '/';
      } else {
        assert pre[..|fd|] == gd;
        assert (fd + "/")[..|fd|] == fd;
      }
    }
  }

  /**
   * Two options arrays with the same keys and values, in whatever order, name
   * the same blob: `recursiveKeySort` makes the digest order-independent.
   */
  lemma {:induction false} GenerateHashOrderIndependent(digest: Digest, f: FileMeta, o: Array, p: Array)
    requires WellFormedArray(o) && WellFormedArray(p)
    requires Contents(o) == Contents(p)
    ensures GenerateHash(digest, f, o) == GenerateHash(digest, f, p)
  {
    HashArgumentsAgree(f, o, p);
  }

  /**
   * An "id" supplied by the caller is overwritten by the file's key, so it
   * has no effect on the name.
   */
  lemma {:induction false} GenerateHashIgnoresCallerId(digest: Digest, f: FileMeta, o: Array, v: Value)
    requires WellFormedArray(o) && WellFormed(v)
    ensures WellFormedArray(Assign(o, "id", v))
    ensures GenerateHash(digest, f, Assign(o, "id", v)) == GenerateHash(digest, f, o)
  {
    AssignWellFormed(o, "id", v);
    ReassignedIdAgrees(o, v, Leaf(Int(f.id)));
  }

  /** Assigning `id` twice leaves the canonical form of the second assignment alone. */
  lemma ReassignedIdAgrees(o: Array, v: Value, id: Value)
    requires WellFormedArray(o) && WellFormed(v) && WellFormed(id)
    ensures WellFormedArray(Assign(o, "id", v))
    ensures WellFormedArray(Assign(Assign(o, "id", v), "id", id))
    ensures WellFormedArray(Assign(o, "id", id))
    ensures Canonical(Assign(Assign(o, "id", v), "id", id)) == Canonical(Assign(o, "id", id))
  {
    var o' := Assign(o, "id", v);
    AssignWellFormed(o, "id", v);
    AssignWellFormed(o', "id", id);
    AssignWellFormed(o, "id", id);
    ReassignedIdContents(o, v, id);
    CanonicalOrderIndependent(Assign(o', "id", id), Assign(o, "id", id));
  }

  lemma ReassignedIdContents(o: Array, v: Value, id: Value)
    ensures Contents(Assign(Assign(o, "id", v), "id", id)) == Contents(Assign(o, "id", id))
  {
    AssignContents(o, "id", v);
    AssignContents(Assign(o, "id", v), "id", id);
    AssignContents(o, "id", id);
    Overwrite(Contents(o), "id", Meaning(v), Meaning(id));
  }

  lemma Overwrite<K, V>(m: map<K, V>, k: K, a: V, b: V)
    ensures m[k := a][k := b] == m[k := b]
  {
  }

  /**
   * Options whose only key is `id` name the original itself: the caller's
   * `id` is overwritten by the file's key, so the hash is the original's.
   */
  lemma IdOnlyOptionsNameOriginal(digest: Digest, f: FileMeta, v: Value)
    requires WellFormed(v)
    ensures WellFormedArray([Entry("id", v)])
    ensures FilePath(digest, f, [Entry("id", v)]) == FilePath(digest, f, [])
  {
    GenerateHashIgnoresCallerId(digest, f, [], v);
    assert Assign([], "id", v) == [Entry("id", v)];
  }

  /** A digest that gives distinct arrays distinct names (no MD5 collisions). */
  ghost predicate Injective(digest: Digest)
  {
    forall a, b :: digest(a) == digest(b) ==> a == b
  }

  /**
   * With a collision-free digest, options carrying a key other than `id`
   * name a path other than the original's.
   */
  lemma OtherKeyNamesDerivative(digest: Digest, f: FileMeta, o: Array, k: string)
    requires Injective(digest) && WellFormedArray(o)
    requires k in KeySet(o) && k != "id"
    ensures FilePath(digest, f, o) != FilePath(digest, f, [])
  {
    SignedArray(f, o);
    SignedArray(f, []);
    ContentsKeys(o);
    var dir := FileDirectory(f, o);
    var mine, theirs := GenerateHash(digest, f, o), GenerateHash(digest, f, []);
    assert FilePath(digest, f, o) == dir + "/" + mine;
    assert FilePath(digest, f, []) == dir + "/" + theirs;
    assert k in Signature(f, o) && k !in Signature(f, []);
    assert (dir + "/" + mine)[|dir| + 1..] == mine;
    assert (dir + "/" + theirs)[|dir| + 1..] == theirs;
  }

  /** Equal-content options give the same path, not just the same name. */
  lemma {:induction false} FilePathOrderIndependent(digest: Digest, f: FileMeta, o: Array, p: Array)
    requires WellFormedArray(o) && WellFormedArray(p)
    requires Contents(o) == Contents(p)
    ensures FilePath(digest, f, o) == FilePath(digest, f, p)
    ensures o == [] <==> p == []
  {
    HashArgumentsAgree(f, o, p);
    ContentsKeys(o);
    ContentsKeys(p);
    EmptyKeySet(o);
    EmptyKeySet(p);
  }

  lemma HashArgumentsAgree(f: FileMeta, o: Array, p: Array)
    requires WellFormedArray(o) && WellFormedArray(p)
    requires Contents(o) == Contents(p)
    ensures WellFormedArray(Assign(o, "id", Leaf(Int(f.id))))
    ensures WellFormedArray(Assign(p, "id", Leaf(Int(f.id))))
    ensures Canonical(Assign(o, "id", Leaf(Int(f.id)))) == Canonical(Assign(p, "id", Leaf(Int(f.id))))
  {
    var id := Leaf(Int(f.id));
    AssignWellFormed(o, "id", id);
    AssignWellFormed(p, "id", id);
    AssignContents(o, "id", id);
    AssignContents(p, "id", id);
    CanonicalOrderIndependent(Assign(o, "id", id), Assign(p, "id", id));
  }

  /**
   * The scratch path `phperclip/<unique id>` used to stage an original on the
   * local disk is never the path of a stored blob, nor inside any file's
   * directory: it starts with a letter where those start with a digit.
   */
  lemma StagingPathDisjoint(digest: Digest, f: FileMeta, o: Array, uniq: string)
    requires WellFormedArray(o)
    ensures "phperclip/" + uniq != FilePath(digest, f, o)
    ensures forall p :: !InDirectory("phperclip/" + uniq, FileDirectory(f, p))
  {
    var s := "phperclip/" + uniq;
    assert s[0] == 'p';
    assert FilePath(digest, f, o)[0] == FileDirectory(f, o)[0];
    forall p ensures !InDirectory(s, FileDirectory(f, p)) {
      var d := FileDirectory(f, p);
      assert |d| + 1 <= |s| ==> s[..|d| + 1][0] == 'p';
      assert (d + "/")[0] == d[0];
    }
  }

  /**
   * `array_get($this->publicPrefixes, $this->currentDisk)` concatenated as a
   * string: the configured prefix of the selected disk, nothing when none is
   * configured. With no disk selected `array_get` hands back the whole array,
   * and concatenating it raises the "Array to string conversion" notice,
   * which the framework's error handler turns into an exception.
   */
  function PublicPrefix(prefixes: map<string, string>, current: Option<string>): (prefix: Result<string>)
    ensures current.Some? && current.value in prefixes ==> prefix == Ok(prefixes[current.value])
    ensures current.Some? && current.value !in prefixes ==> prefix == Ok("")
    ensures current.None? ==> prefix == Err(ArrayToString)
  {
    match current
    case None => Err(ArrayToString)
    case Some(name) => Ok(if name in prefixes then prefixes[name] else "")
  }
}
