/**
 * The records of the `files.json` metadata index and the searches the storage layer runs
 * over it: `Array.prototype.find` by public key and `Array.prototype.findIndex` by private key.
 */
module Index {
  import opened Wrappers

  /** What the upload boundary hands to a backend's `save`: the temporary file and its declared attributes. */
  datatype Upload = Upload(path: string, originalname: string, mimetype: string, size: int)

  /** What a backend's `save` returns. */
  datatype KeyPair = KeyPair(publicKey: string, privateKey: string)

  /** One element of the `files` array of `files.json`; times are milliseconds since the epoch. */
  datatype Entry = Entry(
    publicKey: string,
    privateKey: string,
    filename: string,
    originalname: string,
    mimetype: string,
    size: int,
    path: string,
    createdAt: int,
    lastAccess: int)

  /** No two records share a public key, and no two share a private key. */
  ghost predicate UniqueKeys(files: seq<Entry>) {
    forall i, j :: 0 <= i < j < |files| ==>
      files[i].publicKey != files[j].publicKey && files[i].privateKey != files[j].privateKey
  }

  /** `files.find(f => f.publicKey === key)`, as the index of the first match. */
  function FindByPublicKey(files: seq<Entry>, key: string): (r: Option<nat>)
    ensures r.Some? ==> r.value < |files| && files[r.value].publicKey == key
    ensures r.Some? ==> forall j :: 0 <= j < r.value ==> files[j].publicKey != key
    ensures r.None? <==> forall j :: 0 <= j < |files| ==> files[j].publicKey != key
  {
    if files == [] then None
    else if files[0].publicKey == key then Some(0)
    else match FindByPublicKey(files[1..], key)
      case None => None
      case Some(i) => Some(i + 1)
  }

  /** `files.findIndex(f => f.privateKey === key)`, with `-1` as `None`. */
  function FindByPrivateKey(files: seq<Entry>, key: string): (r: Option<nat>)
    ensures r.Some? ==> r.value < |files| && files[r.value].privateKey == key
    ensures r.Some? ==> forall j :: 0 <= j < r.value ==> files[j].privateKey != key
    ensures r.None? <==> forall j :: 0 <= j < |files| ==> files[j].privateKey != key
  {
    if files == [] then None
    else if files[0].privateKey == key then Some(0)
    else match FindByPrivateKey(files[1..], key)
      case None => None
      case Some(i) => Some(i + 1)
  }

  /** Every record was created no later than it was last accessed. */
  ghost predicate TimesOrdered(files: seq<Entry>) {
    forall e :: e in files ==> e.createdAt <= e.lastAccess
  }

  /** `entry.lastAccess = now` on the `i`-th record, in place. */
  function Touch(files: seq<Entry>, i: nat, now: int): (r: seq<Entry>)
    requires i < |files|
    ensures |r| == |files| && r[i].lastAccess == now
    ensures r[i] == files[i].(lastAccess := now)
    ensures forall j :: 0 <= j < |files| && j != i ==> r[j] == files[j]
    ensures TimesOrdered(files) && files[i].createdAt <= now ==> TimesOrdered(r)
  {
    files[i := files[i].(lastAccess := now)]
  }

  /** `files.splice(i, 1)`: the `i`-th record goes, the others keep their relative order. */
  function RemoveAt(files: seq<Entry>, i: nat): (r: seq<Entry>)
    requires i < |files|
    ensures |r| == |files| - 1
    ensures forall j :: 0 <= j < i ==> r[j] == files[j]
    ensures forall j :: i <= j < |files| - 1 ==> r[j] == files[j + 1]
    ensures TimesOrdered(files) ==> TimesOrdered(r)
  {
    files[..i] + files[i + 1..]
  }

  /**
   * Touching a record changes its access time only, so both searches give the same answers
   * and the keys stay unique.
   */
  lemma TouchChangesOnlyAccessTime(files: seq<Entry>, i: nat, now: int, pk: string, sk: string)
    requires i < |files|
    ensures var t := Touch(files, i, now);
      && FindByPublicKey(t, pk) == FindByPublicKey(files, pk)
      && FindByPrivateKey(t, sk) == FindByPrivateKey(files, sk)
      && (UniqueKeys(files) ==> UniqueKeys(t))
  {
    var t := Touch(files, i, now);
    assert forall j :: 0 <= j < |files| ==>
      t[j].publicKey == files[j].publicKey && t[j].privateKey == files[j].privateKey;
    SameKeysSameSearch(files, t, pk, sk);
  }

  lemma SameKeysSameSearch(a: seq<Entry>, b: seq<Entry>, pk: string, sk: string)
    requires |a| == |b|
    requires forall j :: 0 <= j < |a| ==>
      a[j].publicKey == b[j].publicKey && a[j].privateKey == b[j].privateKey
    ensures FindByPublicKey(a, pk) == FindByPublicKey(b, pk)
    ensures FindByPrivateKey(a, sk) == FindByPrivateKey(b, sk)
  {
  }

  /** A record whose keys are new is found by both of them at the end of the list. */
  lemma {:induction false} AppendedFound(files: seq<Entry>, e: Entry)
    requires forall j :: 0 <= j < |files| ==> files[j].publicKey != e.publicKey
    requires forall j :: 0 <= j < |files| ==> files[j].privateKey != e.privateKey
    ensures FindByPublicKey(files + [e], e.publicKey) == Some(|files|)
    ensures FindByPrivateKey(files + [e], e.privateKey) == Some(|files|)
    ensures UniqueKeys(files) ==> UniqueKeys(files + [e])
  {
    var s := files + [e];
    assert s[|files|] == e;
    assert forall j :: 0 <= j < |files| ==> s[j] == files[j];
  }

  /**
   * With unique keys, once the record found by `sk` is spliced out, neither its private key
   * nor its public key finds anything: a second remove fails and a later get misses.
   */
  lemma RemovedNotFound(files: seq<Entry>, sk: string)
    requires UniqueKeys(files)
    requires FindByPrivateKey(files, sk).Some?
    ensures var i := FindByPrivateKey(files, sk).value;
      && FindByPrivateKey(RemoveAt(files, i), sk).None?
      && FindByPublicKey(RemoveAt(files, i), files[i].publicKey).None?
      && UniqueKeys(RemoveAt(files, i))
  {
    var i := FindByPrivateKey(files, sk).value;
    var rest := RemoveAt(files, i);
    forall j | 0 <= j < |rest|
      ensures rest[j].privateKey != sk && rest[j].publicKey != files[i].publicKey
    {
      var k := if j < i then j else j + 1;
      assert rest[j] == files[k] && k != i;
    }
    forall j, k | 0 <= j < k < |rest|
      ensures rest[j].publicKey != rest[k].publicKey && rest[j].privateKey != rest[k].privateKey
    {
      var j', k' := if j < i then j else j + 1, if k < i then k else k + 1;
      assert rest[j] == files[j'] && rest[k] == files[k'] && j' < k';
    }
  }
}
