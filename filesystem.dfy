/**
 * The part of Node's `fs` and `path` modules that the storage layer uses, as an abstract
 * map from paths to file contents. The metadata index `files.json` is one of those files.
 */
module Fs {
  import opened Index

  /**
   * What a path holds: uploaded bytes, or a `files.json` document as `JSON.stringify({files})`
   * writes it. Bytes read back through `JSON.parse` are unparseable.
   */
  datatype Content = Data(bytes: seq<bv8>) | IndexDoc(files: seq<Entry>)

  type FileMap = map<string, Content>

  /** The name of the metadata index inside a storage root. */
  const IndexName: string := "files.json"

  /** `path.join(dir, name)` for a name without `.` or `..` segments. */
  function Join(dir: string, name: string): string {
    dir + "/" + name
  }

  /**
   * `JSON.parse(fs.readFileSync(p)).files` behind a `try`: a missing or unparseable
   * document reads as the empty list.
   */
  function ReadIndex(files: FileMap, p: string): (r: seq<Entry>)
    ensures p !in files || files[p].Data? ==> r == []
    ensures p in files && files[p].IndexDoc? ==> r == files[p].files
  {
    if p in files && files[p].IndexDoc? then files[p].files else []
  }

  /** `fs.renameSync(src, dst)`: the contents move, and whatever was at `dst` is replaced. */
  function Renamed(files: FileMap, src: string, dst: string): (r: FileMap)
    requires src in files
    ensures dst in r && r[dst] == files[src]
    ensures src != dst ==> src !in r
    ensures forall p :: p != src && p != dst ==> (p in r <==> p in files) && (p in r ==> r[p] == files[p])
  {
    (files - {src})[dst := files[src]]
  }

  /** Reading the index right after writing it gives back what was written. */
  lemma WrittenIndexReadsBack(files: FileMap, p: string, entries: seq<Entry>)
    ensures ReadIndex(files[p := IndexDoc(entries)], p) == entries
  {
  }

  class FileSystem {
    var files: FileMap

    constructor (files: FileMap)
      ensures this.files == files
    {
      this.files := files;
    }

    /** `fs.renameSync`, which throws when `src` does not exist. */
    method Rename(src: string, dst: string) returns (ok: bool)
      modifies this
      ensures ok == (src in old(files))
      ensures files == if ok then Renamed(old(files), src, dst) else old(files)
    {
      ok := src in files;
      if ok {
        files := Renamed(files, src, dst);
      }
    }

    /** `fs.unlinkSync`, which throws when `p` does not exist. */
    method Unlink(p: string) returns (ok: bool)
      modifies this
      ensures ok == (p in old(files))
      ensures files == old(files) - {p}
    {
      ok := p in files;
      files := files - {p};
    }

    /** `fs.copyFileSync`, which throws when `src` does not exist. */
    method CopyFile(src: string, dst: string) returns (ok: bool)
      modifies this
      ensures ok == (src in old(files))
      ensures files == if ok then old(files)[dst := old(files)[src]] else old(files)
    {
      ok := src in files;
      if ok {
        files := files[dst := files[src]];
      }
    }

    /** `fs.writeFileSync(p, JSON.stringify({files: entries}))`. */
    method WriteIndex(p: string, entries: seq<Entry>)
      modifies this
      ensures files == old(files)[p := IndexDoc(entries)]
    {
      files := files[p := IndexDoc(entries)];
    }
  }
}
