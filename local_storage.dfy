/**
 * `LocalStorage`: uploads are moved into a root folder under a name derived from the public
 * key, and every record is kept in the `files.json` index, rewritten on every change.
 * The clock and the two generated keys are parameters.
 */
module LocalStore {
  import opened Wrappers
  import opened Text
  import opened Index
  import opened Fs

  /** `fs.renameSync` threw because the temporary file is not there. */
  datatype SaveError = SourceMissing(path: string)

  /** The stored file name: the public key, `_`, and the original name with whitespace runs as `_`. */
  function StoredName(publicKey: string, originalname: string): (r: string)
    ensures StartsWith(r, publicKey + "_")
    ensures r[|publicKey| + 1..] == CollapseSpaces(originalname) && NoSpace(r[|publicKey| + 1..])
    ensures NoSpace(originalname) ==> r == publicKey + "_" + originalname
  {
    var r := publicKey + "_" + CollapseSpaces(originalname);
    assert r[..|publicKey| + 1] == publicKey + "_";
    assert r[|publicKey| + 1..] == CollapseSpaces(originalname);
    if NoSpace(originalname) then CollapseSpacesIdentity(originalname); r else r
  }

  /** The record `save` pushes, with its two clock readings. */
  function NewEntry(root: string, upload: Upload, publicKey: string, privateKey: string,
                    createdAt: int, lastAccess: int): Entry
  {
    var filename := StoredName(publicKey, upload.originalname);
    Entry(publicKey, privateKey, filename, upload.originalname, upload.mimetype, upload.size,
          Join(root, filename), createdAt, lastAccess)
  }

  /**
   * A stored name starts with the public key and `_`; the rest is the sanitised original
   * name, which holds no whitespace; the record's path is that name inside the root.
   */
  lemma NewEntryShape(root: string, upload: Upload, publicKey: string, privateKey: string,
                      createdAt: int, lastAccess: int)
    ensures var e := NewEntry(root, upload, publicKey, privateKey, createdAt, lastAccess);
      && StartsWith(e.filename, publicKey + "_")
      && e.filename[|publicKey| + 1..] == CollapseSpaces(upload.originalname)
      && NoSpace(e.filename[|publicKey| + 1..])
      && (NoSpace(upload.originalname) ==> e.filename == publicKey + "_" + upload.originalname)
      && e.path == root + "/" + e.filename
      && e.publicKey == publicKey && e.privateKey == privateKey
  {
    var e := NewEntry(root, upload, publicKey, privateKey, createdAt, lastAccess);
    assert e.filename == (publicKey + "_") + CollapseSpaces(upload.originalname);
    if NoSpace(upload.originalname) {
      CollapseSpacesIdentity(upload.originalname);
    }
  }

  /** Keys without `_` (as hex keys are) give distinct stored names to distinct keys. */
  lemma StoredNamesDistinct(k1: string, n1: string, k2: string, n2: string)
    requires '_' !in k1 && '_' !in k2
    requires k1 != k2
    ensures StoredName(k1, n1) != StoredName(k2, n2)
  {
    var s1, s2 := StoredName(k1, n1), StoredName(k2, n2);
    assert s1[|k1|] == '_' && s2[|k2|] == '_';
    if |k1| < |k2| {
      assert s2[|k1|] == k2[|k1|];
    } else if |k2| < |k1| {
      assert s1[|k2|] == k1[|k2|];
    } else {
      assert s1[..|k1|] == k1 && s2[..|k2|] == k2;
    }
  }

  /** No upload can be moved onto the index: a stored name is never `files.json`. */
  lemma DataPathIsNotIndex(root: string, publicKey: string, originalname: string)
    ensures Join(root, StoredName(publicKey, originalname)) != Join(root, IndexName)
  {
    var n := StoredName(publicKey, originalname);
    assert Join(root, n)[|root| + 1..] == n;
    assert Join(root, IndexName)[|root| + 1..] == IndexName;
    assert n[|publicKey|] == '_';
  }

  class LocalStorage {
    const disk: FileSystem
    const root: string
    const metaFile: string := Join(root, IndexName)
    /** `this.meta.files`: the in-memory copy of the index. */
    var meta: seq<Entry>

    /** Creates `files.json` holding an empty list when it is missing, then loads it. */
    constructor (disk: FileSystem, rootFolder: string)
      modifies disk
      ensures this.disk == disk && root == rootFolder && metaFile == Join(rootFolder, IndexName)
      ensures disk.files == if metaFile in old(disk.files) then old(disk.files)
                            else old(disk.files)[metaFile := IndexDoc([])]
      ensures meta == ReadIndex(disk.files, metaFile)
    {
      this.disk := disk;
      root := rootFolder;
      new;
      if metaFile !in disk.files {
        disk.WriteIndex(metaFile, []);
      }
      LoadMeta();
    }

    /** `_loadMeta`: a missing or unparseable index loads as the empty list. */
    method LoadMeta()
      modifies this`meta
      ensures meta == ReadIndex(disk.files, metaFile)
      ensures metaFile !in disk.files || disk.files[metaFile].Data? ==> meta == []
    {
      meta := ReadIndex(disk.files, metaFile);
    }

    /** `_saveMeta`: the whole in-memory list is written through. */
    method SaveMeta()
      modifies disk
      ensures disk.files == old(disk.files)[metaFile := IndexDoc(meta)]
      ensures ReadIndex(disk.files, metaFile) == meta
    {
      disk.WriteIndex(metaFile, meta);
    }

    /**
     * `save`: moves the upload to its stored path, appends one record to the in-memory list
     * (which it does not reload first) and writes the list through.
     */
    method Save(upload: Upload, publicKey: string, privateKey: string, createdAt: int, lastAccess: int)
      returns (r: Result<KeyPair, SaveError>)
      modifies this, disk
      ensures upload.path !in old(disk.files) ==>
        r == Failure(SourceMissing(upload.path)) && meta == old(meta) && disk.files == old(disk.files)
      ensures upload.path in old(disk.files) ==>
        var e := NewEntry(root, upload, publicKey, privateKey, createdAt, lastAccess);
        && r == Success(KeyPair(e.publicKey, e.privateKey))
        && meta == old(meta) + [e]
        && disk.files == Renamed(old(disk.files), upload.path, e.path)[metaFile := IndexDoc(meta)]
        && disk.files[e.path] == old(disk.files)[upload.path]
        && ReadIndex(disk.files, metaFile) == meta
        && (TimesOrdered(old(meta)) && createdAt <= lastAccess ==> TimesOrdered(meta))
    {
      var filename := StoredName(publicKey, upload.originalname);
      var dest := Join(root, filename);
      var moved := disk.Rename(upload.path, dest);
      if !moved {
        return Failure(SourceMissing(upload.path));
      }
      var entry := Entry(publicKey, privateKey, filename, upload.originalname, upload.mimetype,
                         upload.size, dest, createdAt, lastAccess);
      meta := meta + [entry];
      SaveMeta();
      DataPathIsNotIndex(root, publicKey, upload.originalname);
      r := Success(KeyPair(publicKey, privateKey));
    }

    /**
     * `get`: reloads the index and looks the key up. A miss returns `None` and writes
     * nothing; a hit sets that record's `lastAccess` to `now`, writes the list through and
     * returns the updated record.
     */
    method Get(publicKey: string, now: int) returns (r: Option<Entry>)
      modifies this, disk
      ensures var loaded := ReadIndex(old(disk.files), metaFile);
        match FindByPublicKey(loaded, publicKey)
        case None =>
          r == None && meta == loaded && disk.files == old(disk.files)
        case Some(i) =>
          && meta == Touch(loaded, i, now)
          && r == Some(meta[i]) && r.value.publicKey == publicKey && r.value.lastAccess == now
          && disk.files == old(disk.files)[metaFile := IndexDoc(meta)]
      ensures var loaded := ReadIndex(old(disk.files), metaFile);
        TimesOrdered(loaded) && (forall e :: e in loaded ==> e.createdAt <= now) ==> TimesOrdered(meta)
    {
      LoadMeta();
      var found := FindByPublicKey(meta, publicKey);
      if found.None? {
        return None;
      }
      var i := found.value;
      meta := Touch(meta, i, now);
      SaveMeta();
      r := Some(meta[i]);
    }

    /**
     * `remove`: reloads the index and looks the private key up. A miss returns false and
     * writes nothing; a hit deletes the record's file when it exists, splices the record out,
     * writes the list through and returns true.
     */
    method Remove(privateKey: string) returns (removed: bool)
      modifies this, disk
      ensures var loaded := ReadIndex(old(disk.files), metaFile);
        match FindByPrivateKey(loaded, privateKey)
        case None =>
          !removed && meta == loaded && disk.files == old(disk.files)
        case Some(i) =>
          && removed
          && meta == RemoveAt(loaded, i)
          && disk.files == (old(disk.files) - {loaded[i].path})[metaFile := IndexDoc(meta)]
      ensures TimesOrdered(ReadIndex(old(disk.files), metaFile)) ==> TimesOrdered(meta)
    {
      LoadMeta();
      var found := FindByPrivateKey(meta, privateKey);
      if found.None? {
        return false;
      }
      var i := found.value;
      var entry := meta[i];
      if entry.path in disk.files {
        var _ := disk.Unlink(entry.path);
      }
      meta := RemoveAt(meta, i);
      SaveMeta();
      removed := true;
    }

    /** `listAll`: the freshly reloaded index. */
    method ListAll() returns (files: seq<Entry>)
      modifies this`meta
      ensures files == meta == ReadIndex(disk.files, metaFile)
    {
      LoadMeta();
      files := meta;
    }
  }
}
