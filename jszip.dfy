/** The part of the JSZip archive object the EPUB builders use: `file`,
    `folder` and the compression each entry gets when the archive is
    generated. The archive object is mutable; its entries are kept, as in
    the library, in a name-keyed table that remembers insertion order. The
    byte-level ZIP and DEFLATE encoding is not modelled: it is a function
    handed in by the caller (ZipWriter). */
module JsZip {
  import opened Wrappers
  import opened Utf8

  datatype Compression = Store | Deflate

  /** An entry of the archive object: a file with its text and the
      compression option it was added with, or a folder. */
  datatype ZipObject =
    | FileObject(name: string, data: string, compression: Option<Compression>)
    | FolderObject(name: string)

  /** An entry as the generated archive holds it, its compression resolved. */
  datatype ArchiveMember =
    | StoredFile(path: string, data: string, mode: Compression)
    | Directory(path: string)

  /** The ZIP serialiser: the members and the DEFLATE level in, the archive
      bytes out, or None when it fails (the promise rejects). */
  type ZipWriter = (seq<ArchiveMember>, nat) -> Option<seq<byte>>

  predicate UniqueNames(files: seq<ZipObject>) {
    forall i, j :: 0 <= i < j < |files| ==> files[i].name != files[j].name
  }

  /** `files[name]` */
  function Lookup(files: seq<ZipObject>, name: string): (r: Option<nat>)
    ensures r.Some? ==> r.value < |files| && files[r.value].name == name
    ensures r.None? ==> forall k :: 0 <= k < |files| ==> files[k].name != name
  {
    if files == [] then None
    else if files[|files| - 1].name == name then Some(|files| - 1)
    else Lookup(files[..|files| - 1], name)
  }

  /** `files[o.name] = o`: an entry of the same name is replaced where it
      stands, otherwise the entry goes at the end. */
  function Put(files: seq<ZipObject>, o: ZipObject): seq<ZipObject> {
    match Lookup(files, o.name)
    case Some(i) => files[..i] + [o] + files[i + 1..]
    case None => files + [o]
  }

  /** After a Put, names stay unique, the new entry is there, and every
      entry under another name is kept; an existing name is replaced where
      it stands and nothing else changes; a new name goes last. */
  lemma PutSpec(files: seq<ZipObject>, o: ZipObject)
    requires UniqueNames(files)
    ensures var r := Put(files, o);
      && UniqueNames(r)
      && o in r
      && (forall k :: 0 <= k < |files| && files[k].name != o.name ==> files[k] in r)
      && (Lookup(files, o.name).Some? ==>
            var i := Lookup(files, o.name).value;
            |r| == |files| && r[i] == o && forall k :: 0 <= k < |files| && k != i ==> r[k] == files[k])
      && (Lookup(files, o.name).None? ==> r == files + [o])
  {
    match Lookup(files, o.name)
    case Some(i) => PutReplaces(files, o, i);
    case None => PutAppends(files, o);
  }

  lemma PutReplaces(files: seq<ZipObject>, o: ZipObject, i: nat)
    requires UniqueNames(files)
    requires i < |files| && files[i].name == o.name
    ensures var r := files[..i] + [o] + files[i + 1..];
      && UniqueNames(r)
      && o in r
      && (forall k :: 0 <= k < |files| && files[k].name != o.name ==> files[k] in r)
      && |r| == |files| && r[i] == o && (forall k :: 0 <= k < |files| && k != i ==> r[k] == files[k])
  {
    var r := files[..i] + [o] + files[i + 1..];
    assert |r| == |files|;
    assert forall k :: 0 <= k < |r| && k != i ==> r[k] == files[k];
    assert r[i] == o;
    forall k, l | 0 <= k < l < |r|
      ensures r[k].name != r[l].name
    {
      assert r[k].name == files[k].name && r[l].name == files[l].name;
    }
    forall k | 0 <= k < |files| && files[k].name != o.name
      ensures files[k] in r
    {
      assert r[k] == files[k];
    }
  }

  lemma PutAppends(files: seq<ZipObject>, o: ZipObject)
    requires UniqueNames(files)
    requires forall k :: 0 <= k < |files| ==> files[k].name != o.name
    ensures var r := files + [o];
      && UniqueNames(r)
      && o in r
      && (forall k :: 0 <= k < |files| ==> files[k] in r)
  {
    var r := files + [o];
    assert r[|files|] == o;
    forall k | 0 <= k < |files|
      ensures files[k] in r
    {
      assert r[k] == files[k];
    }
  }

  /** JSZip's folder name: a trailing slash is added when missing. */
  function FolderName(name: string): (r: string)
    ensures |r| > 0 && r[|r| - 1] == '/'
    ensures r == name || r == name + "/"
    ensures |name| > 0 && name[|name| - 1] == '/' ==> r == name
  {
    if |name| > 0 && name[|name| - 1] == '/' then name else name + "/"
  }

  /** A folder name is its own folder name, so naming a folder twice
      refers to the same entry. */
  lemma FolderNameIdempotent(name: string)
    ensures FolderName(FolderName(name)) == FolderName(name)
  {
  }

  /** The archive object. */
  class Zip {
    var files: seq<ZipObject>

    ghost predicate Valid()
      reads this
    {
      UniqueNames(files)
    }

    /** `new JSZip()` */
    constructor ()
      ensures Valid() && files == []
    {
      files := [];
    }

    /** `zip.file(name, data, { compression })`, or without options when
        `compression` is None. */
    method File(name: string, data: string, compression: Option<Compression>)
      requires Valid()
      modifies this
      ensures Valid()
      ensures files == Put(old(files), FileObject(name, data, compression))
    {
      PutSpec(files, FileObject(name, data, compression));
      files := Put(files, FileObject(name, data, compression));
    }

    /** `zip.folder(name)`: adds the folder when it is not there yet and
        returns the path prefix under which the returned sub-archive adds
        its files. */
    method Folder(name: string) returns (root: string)
      requires Valid()
      modifies this
      ensures Valid()
      ensures root == FolderName(name)
      ensures files == if Lookup(old(files), root).Some? then old(files)
                       else old(files) + [FolderObject(root)]
    {
      root := FolderName(name);
      if Lookup(files, root).None? {
        PutSpec(files, FolderObject(root));
        files := files + [FolderObject(root)];
      }
    }
  }

  /** The generated member for one entry: a file without its own option
      takes the one passed to `generateAsync`. */
  function Member(o: ZipObject, default: Compression): ArchiveMember {
    match o
    case FileObject(name, data, compression) => StoredFile(name, data, compression.GetOr(default))
    case FolderObject(name) => Directory(name)
  }

  /** The members `generateAsync({ compression: default })` writes, in the
      archive object's order. */
  function Generate(files: seq<ZipObject>, default: Compression): (r: seq<ArchiveMember>)
    ensures |r| == |files|
    ensures forall i :: 0 <= i < |files| ==> r[i] == Member(files[i], default)
  {
    if files == [] then [] else [Member(files[0], default)] + Generate(files[1..], default)
  }

  /** The paths of the file members, in order (folders left out). */
  function FilePaths(members: seq<ArchiveMember>): seq<string> {
    if members == [] then []
    else (if members[0].StoredFile? then [members[0].path] else []) + FilePaths(members[1..])
  }

  /** The member stored at `path`, if there is a file there. */
  function FileAt(members: seq<ArchiveMember>, path: string): Option<ArchiveMember> {
    if members == [] then None
    else if members[0].StoredFile? && members[0].path == path then Some(members[0])
    else FileAt(members[1..], path)
  }
}
