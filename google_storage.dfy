/**
 * `GoogleStorage`: the constructor's configuration check, the object-naming convention of
 * the bucket mode, and the mock mode, which keeps records in an in-process `Map` keyed by
 * public key and copies uploads under `/tmp`. Generated keys are parameters.
 */
module GoogleStore {
  import opened Wrappers
  import opened Text
  import opened Index
  import opened Fs

  /** A JSON value as far as JavaScript truthiness is concerned. */
  datatype JsValue = Undefined | Null | Bool(b: bool) | Num(n: int) | Str(s: string) | Obj

  predicate Truthy(v: JsValue) {
    match v
    case Undefined => false
    case Null => false
    case Bool(b) => b
    case Num(n) => n != 0
    case Str(s) => s != []
    case Obj => true
  }

  /** The configuration file: unparseable JSON, or an object with the three fields read. */
  datatype ConfigFile = Unparseable | Parsed(projectId: JsValue, bucketName: JsValue, credentials: JsValue)

  datatype Mode = Mock | Bucket(projectId: JsValue, bucketName: JsValue)

  datatype ConfigError = ConfigNotSet | ConfigNotFound | ConfigUnparseable | InvalidConfig

  /**
   * The constructor's choice: mock mode when `MOCK_GCS` is exactly `"true"`; otherwise a
   * configuration path must be given, name an existing file (`configFile` is what is there),
   * parse, and carry a truthy `projectId`, `bucketName` and `credentials`.
   */
  function Configure(mockEnv: Option<string>, configPath: Option<string>, configFile: Option<ConfigFile>)
    : (r: Result<Mode, ConfigError>)
    ensures r == Success(Mock) <==> mockEnv == Some("true")
    ensures r.Success? <==>
      || mockEnv == Some("true")
      || (&& configPath.Some? && configPath.value != []
          && configFile.Some? && configFile.value.Parsed?
          && Truthy(configFile.value.projectId) && Truthy(configFile.value.bucketName)
          && Truthy(configFile.value.credentials))
    ensures mockEnv != Some("true") && (configPath.None? || configPath.value == []) ==>
      r == Failure(ConfigNotSet)
  {
    if mockEnv == Some("true") then Success(Mock)
    else if configPath.None? || configPath.value == [] then Failure(ConfigNotSet)
    else match configFile
      case None => Failure(ConfigNotFound)
      case Some(Unparseable) => Failure(ConfigUnparseable)
      case Some(Parsed(projectId, bucketName, credentials)) =>
        if !Truthy(projectId) || !Truthy(bucketName) || !Truthy(credentials) then Failure(InvalidConfig)
        else Success(Bucket(projectId, bucketName))
  }

  /** The bucket mode's object name for an upload, `${publicKey}_${originalname}`. */
  function ObjectName(publicKey: string, originalname: string): string {
    publicKey + "_" + originalname
  }

  /** The prefix the bucket mode's `get` lists objects by. */
  function SearchPrefix(publicKey: string): string {
    publicKey + "_"
  }

  /**
   * Every object `save` names is found by the prefix `get` searches for its key; with keys
   * that hold no `_`, no other key's prefix matches it.
   */
  lemma ObjectNameMatchesOnlyItsKey(k1: string, k2: string, originalname: string)
    requires '_' !in k1 && '_' !in k2
    ensures StartsWith(ObjectName(k1, originalname), SearchPrefix(k1))
    ensures StartsWith(ObjectName(k2, originalname), SearchPrefix(k1)) <==> k1 == k2
  {
    var name := ObjectName(k2, originalname);
    assert name[..|k2|] == k2 && name[|k2|] == '_';
    assert ObjectName(k1, originalname)[..|SearchPrefix(k1)|] == SearchPrefix(k1);
    if StartsWith(name, SearchPrefix(k1)) {
      assert name[..|k1|] == k1 && name[|k1|] == '_';
    }
  }

  /** What the mock `Map` holds for a public key. */
  datatype MockRecord = MockRecord(privateKey: string, dest: string, mimetype: string, originalname: string)

  /** One entry of the `Map`, in insertion order. */
  datatype Slot = Slot(publicKey: string, record: MockRecord)

  /** What `get` returns. */
  datatype Download = Download(path: string, mimetype: string, originalname: string)

  datatype MockError = CopyFailed(src: string) | UnlinkFailed(path: string)

  /** Where the mock mode keeps a copy: `path.join('/tmp', `${publicKey}_${originalname}`)`, unsanitised. */
  function MockDest(publicKey: string, originalname: string): (r: string)
    ensures StartsWith(r, "/tmp/" + publicKey + "_")
    ensures r[|publicKey| + 6..] == originalname
  {
    var r := Join("/tmp", publicKey + "_" + originalname);
    assert r[..|publicKey| + 6] == "/tmp/" + publicKey + "_";
    r
  }

  /** A `Map` never holds one key twice. */
  ghost predicate DistinctKeys(slots: seq<Slot>) {
    forall i, j :: 0 <= i < j < |slots| ==> slots[i].publicKey != slots[j].publicKey
  }

  /** The position of key `k` in the `Map`. */
  function FindSlot(slots: seq<Slot>, k: string): (r: Option<nat>)
    ensures r.Some? ==> r.value < |slots| && slots[r.value].publicKey == k
    ensures r.Some? ==> forall j :: 0 <= j < r.value ==> slots[j].publicKey != k
    ensures r.None? <==> forall j :: 0 <= j < |slots| ==> slots[j].publicKey != k
  {
    if slots == [] then None
    else if slots[0].publicKey == k then Some(0)
    else match FindSlot(slots[1..], k)
      case None => None
      case Some(i) => Some(i + 1)
  }

  /** `map.get(k)`. */
  function Lookup(slots: seq<Slot>, k: string): Option<MockRecord> {
    match FindSlot(slots, k)
    case None => None
    case Some(i) => Some(slots[i].record)
  }

  /** The keys of the `Map` in insertion order. */
  function Keys(slots: seq<Slot>): (r: seq<string>)
    ensures |r| == |slots| && forall i :: 0 <= i < |slots| ==> r[i] == slots[i].publicKey
  {
    seq(|slots|, i requires 0 <= i < |slots| => slots[i].publicKey)
  }

  /**
   * `map.set(k, v)`: an existing key keeps its place and takes the new value; a new key is
   * added at the end. Every other key keeps its value.
   */
  function MapSet(slots: seq<Slot>, k: string, v: MockRecord): (r: seq<Slot>)
    ensures Lookup(r, k) == Some(v)
    ensures forall k' :: k' != k ==> Lookup(r, k') == Lookup(slots, k')
    ensures Keys(r) == if FindSlot(slots, k).Some? then Keys(slots) else Keys(slots) + [k]
    ensures forall j :: 0 <= j < |r| ==> r[j] == Slot(k, v) || r[j] in slots
    ensures DistinctKeys(slots) ==> DistinctKeys(r)
  {
    match FindSlot(slots, k)
    case Some(i) =>
      ReplacedSlot(slots, i, Slot(k, v));
      slots[i := Slot(k, v)]
    case None =>
      AppendedSlot(slots, Slot(k, v));
      slots + [Slot(k, v)]
  }

  /** `set` on a key that is present, at position `i`. */
  lemma ReplacedSlot(slots: seq<Slot>, i: nat, s: Slot)
    requires FindSlot(slots, s.publicKey) == Some(i)
    ensures var r := slots[i := s];
      && Lookup(r, s.publicKey) == Some(s.record)
      && (forall k' :: k' != s.publicKey ==> Lookup(r, k') == Lookup(slots, k'))
      && Keys(r) == Keys(slots)
      && (forall j :: 0 <= j < |r| ==> r[j] == s || r[j] in slots)
      && (DistinctKeys(slots) ==> DistinctKeys(r))
  {
    var r := slots[i := s];
    SameKeysSameFind(slots, r);
    assert Keys(r) == Keys(slots);
  }

  /** `set` on a key that is absent. */
  lemma AppendedSlot(slots: seq<Slot>, s: Slot)
    requires FindSlot(slots, s.publicKey).None?
    ensures var r := slots + [s];
      && Lookup(r, s.publicKey) == Some(s.record)
      && (forall k' :: k' != s.publicKey ==> Lookup(r, k') == Lookup(slots, k'))
      && Keys(r) == Keys(slots) + [s.publicKey]
      && (forall j :: 0 <= j < |r| ==> r[j] == s || r[j] in slots)
      && (DistinctKeys(slots) ==> DistinctKeys(r))
  {
    var r := slots + [s];
    AppendedSlotFind(slots, s);
    assert Keys(r) == Keys(slots) + [s.publicKey];
    assert forall j :: 0 <= j < |slots| ==> r[j] == slots[j];
  }

  lemma SameKeysSameFind(a: seq<Slot>, b: seq<Slot>)
    requires |a| == |b| && forall j :: 0 <= j < |a| ==> a[j].publicKey == b[j].publicKey
    ensures forall k :: FindSlot(a, k) == FindSlot(b, k)
  {
    forall k ensures FindSlot(a, k) == FindSlot(b, k) {
      var fa, fb := FindSlot(a, k), FindSlot(b, k);
      if fa.Some? && fb.Some? {
        assert !(fa.value < fb.value) && !(fb.value < fa.value);
      }
    }
  }

  lemma AppendedSlotFind(slots: seq<Slot>, s: Slot)
    requires FindSlot(slots, s.publicKey).None?
    ensures FindSlot(slots + [s], s.publicKey) == Some(|slots|)
    ensures forall k :: k != s.publicKey ==> FindSlot(slots + [s], k) == FindSlot(slots, k)
  {
    AppendedFind(slots, s, s.publicKey);
    forall k | k != s.publicKey ensures FindSlot(slots + [s], k) == FindSlot(slots, k) {
      AppendedFind(slots, s, k);
    }
  }

  /** Appending an entry only changes the answer for a key that was absent. */
  lemma {:induction false} AppendedFind(slots: seq<Slot>, s: Slot, k: string)
    ensures FindSlot(slots + [s], k) ==
      if FindSlot(slots, k).Some? || k != s.publicKey then FindSlot(slots, k) else Some(|slots|)
    decreases |slots|
  {
    if slots != [] {
      assert (slots + [s])[1..] == slots[1..] + [s];
      AppendedFind(slots[1..], s, k);
    }
  }

  /** `map.delete(k)` for the key at position `i`. */
  function RemoveSlot(slots: seq<Slot>, i: nat): (r: seq<Slot>)
    requires i < |slots|
    ensures |r| == |slots| - 1
    ensures forall j :: 0 <= j < i ==> r[j] == slots[j]
    ensures forall j :: i <= j < |r| ==> r[j] == slots[j + 1]
    ensures DistinctKeys(slots) ==> DistinctKeys(r)
  {
    slots[..i] + slots[i + 1..]
  }

  /** The first entry, in insertion order, whose record carries private key `sk`. */
  function FindByPrivate(slots: seq<Slot>, sk: string): (r: Option<nat>)
    ensures r.Some? ==> r.value < |slots| && slots[r.value].record.privateKey == sk
    ensures r.Some? ==> forall j :: 0 <= j < r.value ==> slots[j].record.privateKey != sk
    ensures r.None? <==> forall j :: 0 <= j < |slots| ==> slots[j].record.privateKey != sk
  {
    if slots == [] then None
    else if slots[0].record.privateKey == sk then Some(0)
    else match FindByPrivate(slots[1..], sk)
      case None => None
      case Some(i) => Some(i + 1)
  }

  /** The mock `get`: the record's copy, type and name, or `None` for an unknown key. */
  function View(slots: seq<Slot>, publicKey: string): (r: Option<Download>)
    ensures r.None? <==> forall j :: 0 <= j < |slots| ==> slots[j].publicKey != publicKey
    ensures r.Some? ==>
      exists j :: (0 <= j < |slots| && slots[j].publicKey == publicKey
        && r.value == Download(slots[j].record.dest, slots[j].record.mimetype, slots[j].record.originalname))
  {
    match Lookup(slots, publicKey)
    case None => None
    case Some(rec) => Some(Download(rec.dest, rec.mimetype, rec.originalname))
  }

  /** After `set(pk, rec)`, `get(pk)` answers with `rec`, and every other key as before. */
  lemma SaveThenView(slots: seq<Slot>, publicKey: string, rec: MockRecord, other: string)
    ensures View(MapSet(slots, publicKey, rec), publicKey) == Some(Download(rec.dest, rec.mimetype, rec.originalname))
    ensures other != publicKey ==> View(MapSet(slots, publicKey, rec), other) == View(slots, other)
  {
  }

  /**
   * Once the entry found by a private key is deleted, its public key is unknown; when
   * private keys are unique, the private key no longer finds anything either.
   */
  lemma RemovedNotViewed(slots: seq<Slot>, sk: string)
    requires DistinctKeys(slots)
    requires FindByPrivate(slots, sk).Some?
    ensures var i := FindByPrivate(slots, sk).value;
      && View(RemoveSlot(slots, i), slots[i].publicKey).None?
      && DistinctKeys(RemoveSlot(slots, i))
      && ((forall a, b :: 0 <= a < b < |slots| ==> slots[a].record.privateKey != slots[b].record.privateKey) ==>
           FindByPrivate(RemoveSlot(slots, i), sk).None?)
  {
    var i := FindByPrivate(slots, sk).value;
    var r := RemoveSlot(slots, i);
    forall j | 0 <= j < |r|
      ensures r[j].publicKey != slots[i].publicKey
    {
      var k := if j < i then j else j + 1;
      assert r[j] == slots[k] && k != i;
    }
    forall a, b | 0 <= a < b < |r|
      ensures r[a].publicKey != r[b].publicKey
    {
      var a', b' := if a < i then a else a + 1, if b < i then b else b + 1;
      assert r[a] == slots[a'] && r[b] == slots[b'] && a' < b';
    }
    if forall a, b :: 0 <= a < b < |slots| ==> slots[a].record.privateKey != slots[b].record.privateKey {
      forall j | 0 <= j < |r|
        ensures r[j].record.privateKey != sk
      {
        var k := if j < i then j else j + 1;
        assert r[j] == slots[k] && k != i;
      }
    }
  }

  /**
   * After `set(pk, rec)` with a private key no earlier entry carries, `remove` by that key
   * finds exactly the entry just saved, and once it is deleted `get(pk)` returns null.
   */
  lemma SavedEntryRemovable(before: seq<Slot>, publicKey: string, rec: MockRecord)
    requires DistinctKeys(before)
    requires forall j :: 0 <= j < |before| ==> before[j].record.privateKey != rec.privateKey
    ensures var slots := MapSet(before, publicKey, rec);
      && FindSlot(slots, publicKey).Some?
      && FindByPrivate(slots, rec.privateKey) == FindSlot(slots, publicKey)
      && slots[FindSlot(slots, publicKey).value].record == rec
      && View(RemoveSlot(slots, FindSlot(slots, publicKey).value), publicKey).None?
  {
    var slots := MapSet(before, publicKey, rec);
    var i := FindSlot(slots, publicKey).value;
    assert slots[i].record == rec;
    forall j | 0 <= j < |slots| && j != i
      ensures slots[j].record.privateKey != rec.privateKey
    {
      assert slots[j] in before;
    }
    assert FindByPrivate(slots, rec.privateKey) == Some(i);
    RemovedNotViewed(slots, rec.privateKey);
  }

  /** The mock mode of the class; the bucket mode's SDK calls are not part of this model. */
  class GoogleStorage {
    const disk: FileSystem
    /** `this.files`, the `Map`, in insertion order. */
    var files: seq<Slot>

    ghost predicate Valid()
      reads this
    {
      DistinctKeys(files)
    }

    constructor Mock(disk: FileSystem)
      ensures Valid() && this.disk == disk && files == []
    {
      this.disk := disk;
      files := [];
    }

    /**
     * The mock `save`: copies the upload to `/tmp`, unlinks the original, records the keys
     * under the public key and returns them.
     */
    method Save(upload: Upload, publicKey: string, privateKey: string) returns (r: Result<KeyPair, MockError>)
      requires Valid()
      modifies this, disk
      ensures Valid()
      ensures upload.path !in old(disk.files) ==>
        r == Failure(CopyFailed(upload.path)) && files == old(files) && disk.files == old(disk.files)
      ensures upload.path in old(disk.files) ==>
        var dest := MockDest(publicKey, upload.originalname);
        && r == Success(KeyPair(publicKey, privateKey))
        && files == MapSet(old(files), publicKey, MockRecord(privateKey, dest, upload.mimetype, upload.originalname))
        && disk.files == old(disk.files)[dest := old(disk.files)[upload.path]] - {upload.path}
    {
      var dest := MockDest(publicKey, upload.originalname);
      var copied := disk.CopyFile(upload.path, dest);
      if !copied {
        return Failure(CopyFailed(upload.path));
      }
      var _ := disk.Unlink(upload.path);
      files := MapSet(files, publicKey, MockRecord(privateKey, dest, upload.mimetype, upload.originalname));
      r := Success(KeyPair(publicKey, privateKey));
    }

    /** The mock `get`: a read-only lookup, with no access-time update. */
    function Get(publicKey: string): (r: Option<Download>)
      reads this
      ensures r.None? <==> forall j :: 0 <= j < |files| ==> files[j].publicKey != publicKey
      ensures r.Some? ==>
        exists j :: (0 <= j < |files| && files[j].publicKey == publicKey
          && r.value == Download(files[j].record.dest, files[j].record.mimetype, files[j].record.originalname))
    {
      View(files, publicKey)
    }

    /**
     * The mock `remove`: walks the `Map` in insertion order; on the first record with the
     * private key it unlinks the copy (which throws when the copy is gone, leaving the `Map`
     * as it was), deletes the entry and returns true. No match returns false.
     */
    method Remove(privateKey: string) returns (r: Result<bool, MockError>)
      requires Valid()
      modifies this, disk
      ensures Valid()
      ensures match FindByPrivate(old(files), privateKey)
        case None =>
          r == Success(false) && files == old(files) && disk.files == old(disk.files)
        case Some(i) =>
          var rec := old(files)[i].record;
          if rec.dest in old(disk.files) then
            r == Success(true) && files == RemoveSlot(old(files), i) && disk.files == old(disk.files) - {rec.dest}
          else
            r == Failure(UnlinkFailed(rec.dest)) && files == old(files) && disk.files == old(disk.files)
    {
      var i := 0;
      while i < |files|
        invariant 0 <= i <= |files|
        invariant forall j :: 0 <= j < i ==> files[j].record.privateKey != privateKey
      {
        var slot := files[i];
        if slot.record.privateKey == privateKey {
          var unlinked := disk.Unlink(slot.record.dest);
          if !unlinked {
            return Failure(UnlinkFailed(slot.record.dest));
          }
          // `this.files.delete(publicKey)`: with distinct keys, the entry at `i`
          files := RemoveSlot(files, i);
          return Success(true);
        }
        i := i + 1;
      }
      r := Success(false);
    }
  }
}
