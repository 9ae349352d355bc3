/**
 * Client sequences over the two storage backends: the save, get, remove, get round trip
 * their unit tests walk through, and a retention sweep between two calls on one
 * `LocalStorage` object.
 */
module Scenarios {
  import opened Wrappers
  import opened Index
  import opened Fs
  import opened LocalStore
  import GoogleStore
  import Cleanup

  /**
   * On a `LocalStorage` whose in-memory list matches `files.json` and whose keys are unique,
   * an upload with new keys is found by its public key, removed by its private key, and
   * then no longer found; its stored copy is gone from the root folder.
   */
  method LocalRoundTrip(s: LocalStorage, upload: Upload, publicKey: string, privateKey: string,
                        t0: int, t1: int, t2: int)
    returns (saved: Result<KeyPair, SaveError>, fetched: Option<Entry>, removed: bool, refetched: Option<Entry>)
    requires upload.path in s.disk.files
    requires ReadIndex(s.disk.files, s.metaFile) == s.meta && UniqueKeys(s.meta)
    requires forall j :: 0 <= j < |s.meta| ==> s.meta[j].publicKey != publicKey && s.meta[j].privateKey != privateKey
    modifies s, s.disk
    ensures saved == Success(KeyPair(publicKey, privateKey))
    ensures fetched.Some? && fetched.value.originalname == upload.originalname
    ensures fetched.Some? && fetched.value.lastAccess == t1 && fetched.value.createdAt == t0
    ensures removed
    ensures refetched.None?
    ensures Join(s.root, StoredName(publicKey, upload.originalname)) !in s.disk.files
  {
    var before := s.meta;
    var e := NewEntry(s.root, upload, publicKey, privateKey, t0, t0);
    saved := s.Save(upload, publicKey, privateKey, t0, t0);
    AppendedFound(before, e);
    var listed := before + [e];
    var i := |before|;

    fetched := s.Get(publicKey, t1);
    TouchChangesOnlyAccessTime(listed, i, t1, publicKey, privateKey);
    var touched := Touch(listed, i, t1);

    removed := s.Remove(privateKey);
    RemovedNotFound(touched, privateKey);
    DataPathIsNotIndex(s.root, publicKey, upload.originalname);

    refetched := s.Get(publicKey, t2);
  }

  /**
   * The same round trip on the mock bucket: `get` answers with the copy under `/tmp`, which
   * holds the uploaded bytes, and after the remove both the record and the copy are gone.
   */
  method MockRoundTrip(g: GoogleStore.GoogleStorage, upload: Upload, publicKey: string, privateKey: string)
    returns (saved: Result<KeyPair, GoogleStore.MockError>, fetched: Option<GoogleStore.Download>,
             readBack: Option<Content>,
             removed: Result<bool, GoogleStore.MockError>, refetched: Option<GoogleStore.Download>)
    requires g.Valid()
    requires upload.path in g.disk.files
    requires upload.path != GoogleStore.MockDest(publicKey, upload.originalname)
    requires forall j :: 0 <= j < |g.files| ==> g.files[j].record.privateKey != privateKey
    modifies g, g.disk
    ensures saved == Success(KeyPair(publicKey, privateKey))
    ensures fetched == Some(GoogleStore.Download(GoogleStore.MockDest(publicKey, upload.originalname),
                                                 upload.mimetype, upload.originalname))
    ensures readBack == Some(old(g.disk.files[upload.path]))
    ensures removed == Success(true)
    ensures refetched.None?
    ensures GoogleStore.MockDest(publicKey, upload.originalname) !in g.disk.files
  {
    var dest := GoogleStore.MockDest(publicKey, upload.originalname);
    var rec := GoogleStore.MockRecord(privateKey, dest, upload.mimetype, upload.originalname);
    var before := g.files;
    saved := g.Save(upload, publicKey, privateKey);
    GoogleStore.SaveThenView(before, publicKey, rec, publicKey);
    fetched := g.Get(publicKey);
    assert fetched == Some(GoogleStore.Download(dest, upload.mimetype, upload.originalname));
    // what the unit test reads back through the returned path
    readBack := if fetched.Some? && fetched.value.path in g.disk.files then Some(g.disk.files[fetched.value.path]) else None;
    GoogleStore.SavedEntryRemovable(before, publicKey, rec);
    assert dest in g.disk.files;
    removed := g.Remove(privateKey);
    refetched := g.Get(publicKey);
  }

  /**
   * `save` appends to the list it holds in memory and does not reload `files.json` first, so
   * on a long-lived `LocalStorage` a retention sweep run between loading and saving is
   * undone: the records the sweep dropped are written back, while the files it unlinked
   * stay gone.
   */
  method SweepThenSave(s: LocalStorage, maxAgeDays: int, now: int, atimes: map<string, int>,
                       upload: Upload, publicKey: string, privateKey: string, t: int)
    returns (swept: seq<Entry>, saved: Result<KeyPair, SaveError>)
    requires s.metaFile in s.disk.files && ReadIndex(s.disk.files, s.metaFile) == s.meta
    modifies s, s.disk
    ensures swept == Cleanup.Keep(old(s.meta), old(s.disk.files), atimes, Cleanup.Cutoff(now, maxAgeDays))
    ensures saved.Success? ==>
      ReadIndex(s.disk.files, s.metaFile) == old(s.meta) + [NewEntry(s.root, upload, publicKey, privateKey, t, t)]
  {
    Cleanup.CleanupOldFiles(s.disk, s.root, maxAgeDays, now, atimes);
    swept := ReadIndex(s.disk.files, s.metaFile);
    saved := s.Save(upload, publicKey, privateKey, t, t);
  }
}
