// The RAM file system: its files, handles on them, its listings, and reading a directory.

module RamFs {
  import opened CStrings
  import opened Results
  import opened Sequences
  import opened Words
  import opened Directory
  import opened Readdir

  class RamFsData {
    const filename: string
    const isDirectory: bool
    var data: seq<Byte>

    constructor (filename: string, data: seq<Byte>, isDirectory: bool)
      ensures this.filename == filename && this.data == data && this.isDirectory == isDirectory
    {
      this.filename, this.data, this.isDirectory := filename, data, isDirectory;
    }
  }

  // ---------- Handles

  /** What a read of at most `n` bytes from a position yields. */
  function BytesFrom(content: seq<Byte>, position: nat, n: nat): (bytes: seq<Byte>)
    ensures position <= |content| ==> position + |bytes| <= |content|
  {
    if position >= |content| then []
    else if |content| - position > n then content[position..position + n]
    else content[position..]
  }

  /** A read yields the content from the position on: as much as is left, but no more than was asked for. */
  lemma BytesAre(content: seq<Byte>, position: nat, n: nat)
    requires position <= |content|
    ensures var bytes, left := BytesFrom(content, position, n), |content| - position;
      && |bytes| == (if n < left then n else left)
      && bytes == content[position..position + |bytes|]
      && (n > 0 ==> (bytes == [] <==> position == |content|))
  {
  }

  /** `memcpy` to the front of a buffer. */
  method CopyTo(source: seq<Byte>, data: array<Byte>)
    requires |source| <= data.Length
    modifies data
    ensures data[..] == source + old(data[..])[|source|..]
  {
    var i := 0;
    while i < |source|
      invariant i <= |source|
      invariant forall k :: 0 <= k < data.Length ==> data[k] == if k < i then source[k] else old(data[k])
    {
      data[i] := source[i];
      i := i + 1;
    }
  }

  /** A position of its own in data that all handles on the file share. */
  class RamfsFile {
    const file: RamFsData
    const name: string
    var position: nat

    constructor (file: RamFsData, name: string)
      ensures this.file == file && this.name == name && position == 0
    {
      this.file, this.name, position := file, name, 0;
    }

    method Read(data: array<Byte>) returns (length: nat)
      modifies this`position, data
      ensures var bytes := BytesFrom(file.data, old(position), data.Length);
        && length == |bytes| <= data.Length && position == old(position) + length
        && data[..] == bytes + old(data[..])[length..]
      ensures old(position) <= |file.data| ==>
        && (length == data.Length || position == |file.data|)
        && data[..length] == file.data[old(position)..position]
    {
      if position >= |file.data| {
        return 0;
      }
      length := if |file.data| - position > data.Length then data.Length else |file.data| - position;
      CopyTo(file.data[position..position + length], data);
      position := position + length;
    }

    method Write(data: seq<Byte>) returns (length: nat)
      modifies file
      ensures length == |data| && file.data == old(file.data) + data
    {
      file.data := file.data + data;
      length := |data|;
    }
  }

  // ---------- The file system

  /** The vector a listing is built in. */
  class FileList {
    var files: seq<Entry>

    constructor ()
      ensures files == []
    {
      files := [];
    }

    method InsertWithOrder(file: Entry)
      modifies this
      ensures files == Insert(old(files), file)
    {
      var i := 0;
      while i < |files|
        invariant i <= |files| && files == old(files)
        invariant Insert(files, file) == files[..i] + Insert(files[i..], file)
      {
        if Less(file.name, files[i].name) {
          files := files[..i] + [file] + files[i..];
          return;
        }
        assert files[i..][1..] == files[i + 1..];
        assert files[..i] + [files[i]] == files[..i + 1];
        i := i + 1;
      }
      files := files + [file];
    }
  }

  function FilenamesOf(files: seq<RamFsData>): (names: seq<string>)
    ensures |names| == |files|
    ensures forall i :: 0 <= i < |files| ==> names[i] == files[i].filename
  {
    seq(|files|, i requires 0 <= i < |files| => files[i].filename)
  }

  /** What follows the last slash, that slash included. */
  function BaseName(filename: string): string {
    var i := LastSlash(filename);
    if i == |filename| then filename else filename[i..]
  }

  /** The base name begins with the last slash of a path; a path without a slash is its own. */
  lemma BaseNameOf(directory: string, name: string)
    requires '/' !in name
    ensures BaseName(directory + "/" + name) == "/" + name
    ensures BaseName(name) == name
  {
    hide LastSlash;
    LastSlashOf(directory, name);
    var path := directory + "/" + name;
    assert path[|directory|..] == "/" + name;
  }

  class RamFs {
    var files: seq<RamFsData>

    function Filenames(): seq<string>
      reads this
    {
      FilenamesOf(files)
    }

    constructor ()
      ensures Filenames() == ["/"] && files[0].isDirectory
    {
      var root := new RamFsData("/", [], true);
      files := [root];
    }

    /** The position of the first file with the path, or the number of files. */
    method FindFile(path: string) returns (i: nat)
      ensures i == IndexOf(Filenames(), path)
    {
      i := 0;
      while i < |files| && files[i].filename != path
        invariant i <= |files| && forall j :: 0 <= j < i ==> files[j].filename != path
      {
        i := i + 1;
      }
      IndexOfIs(Filenames(), path, i);
    }

    /** Refuses a path that is already there, so that paths stay distinct. */
    method Mkdir(path: string) returns (r: int)
      modifies this
      ensures r == if path in old(Filenames()) then -1 else 0
      ensures Filenames() == if r == 0 then old(Filenames()) + [path] else old(Filenames())
      ensures |old(files)| <= |files| && files[..|old(files)|] == old(files)
      ensures r == 0 ==> files[|files| - 1].isDirectory && files[|files| - 1].data == []
      ensures Distinct(old(Filenames())) ==> Distinct(Filenames())
    {
      var i := FindFile(path);
      if i != |files| {
        assert Filenames()[i] == path;
        return -1;
      }
      var directory := new RamFsData(path, [], true);
      files := files + [directory];
      return 0;
    }

    /** Adds a file even where the path is taken. */
    method Create(path: string) returns (f: RamfsFile)
      modifies this
      ensures Filenames() == old(Filenames()) + [path]
      ensures files == old(files) + [f.file] && !f.file.isDirectory
      ensures fresh(f) && fresh(f.file) && f.file.data == []
      ensures f.position == 0 && f.name == BaseName(path)
      ensures Distinct(Filenames()) <==> Distinct(old(Filenames())) && path !in old(Filenames())
    {
      ghost var names := Filenames();
      var data := new RamFsData(path, [], false);
      files := files + [data];
      f := new RamfsFile(data, BaseName(path));
      DistinctAppend(names, path);
      assert Filenames() == names + [path];
    }

    /** A new handle on the first file with the path; the empty path names the first file of all. */
    method Get(path: string) returns (r: Option<RamfsFile>)
      requires files != []
      ensures var i := if path == "" then 0 else IndexOf(Filenames(), path);
        if i == |files| then r.None?
        else r.Some? && fresh(r.value) && r.value.file == files[i] && r.value.position == 0
      ensures r.Some? ==> r.value.name == if path == "" then files[0].filename else BaseName(path)
    {
      if path == "" {
        var f := new RamfsFile(files[0], files[0].filename);
        return Some(f);
      }
      var i := FindFile(path);
      if i == |files| {
        return None;
      }
      var f := new RamfsFile(files[i], BaseName(files[i].filename));
      return Some(f);
    }

    method List(path: string) returns (list: FileList)
      ensures list.files == Listing(Filenames(), path)
    {
      hide Insert;
      list := new FileList();
      var i := 0;
      while i < |files|
        invariant i <= |files| && fresh(list) && list.files == Listing(Filenames()[..i], path)
      {
        assert Filenames()[..i + 1][..i] == Filenames()[..i];
        var name := ListedName(files[i].filename, path);
        if name.Some? {
          list.InsertWithOrder(Entry(name.value, i));
        }
        i := i + 1;
      }
      assert Filenames()[..i] == Filenames();
    }
  }

  lemma IndexOfIs(names: seq<string>, name: string, i: nat)
    requires i <= |names| && (i < |names| ==> names[i] == name)
    requires forall j :: 0 <= j < i ==> names[j] != name
    ensures IndexOf(names, name) == i
  {
  }

  lemma DistinctAppend(names: seq<string>, name: string)
    ensures Distinct(names + [name]) <==> Distinct(names) && name !in names
  {
    var all := names + [name];
    assert all[|names|] == name;
    assert forall i :: 0 <= i < |names| ==> all[i] == names[i];
  }

  // ---------- readdir

  datatype ReadDirError = NameTooLong

  /** An open directory: its files' names, and the entry that is handed out again and again. */
  class Dir {
    const names: seq<string>
    var namlen: nat
    const name: array<char>

    /** The entry as the cursor sees it. */
    function Ent(): Dirent
      reads this, name
    {
      Dirent(namlen, if namlen == 0 then "" else CText(name[..]))
    }

    ghost predicate Valid()
      reads this, name
    {
      name.Length == NAME_LIMIT && forall i :: 0 <= i < |names| ==> '\0' !in names[i]
    }

    constructor (names: seq<string>)
      requires forall i :: 0 <= i < |names| ==> '\0' !in names[i]
      ensures this.names == names && Valid() && fresh(name) && Ent() == Dirent(0, "")
    {
      this.names, namlen := names, 0;
      name := new char[NAME_LIMIT];
    }

    /** Copies a name and its length into the entry. */
    method CopyName(source: string) returns (ok: bool)
      requires Valid() && '\0' !in source
      modifies this`namlen, name
      ensures Valid() && ok == Copied(source).Returned?
      ensures ok ==> namlen == |source| && CText(name[..]) == source
      ensures !ok ==> Ent() == old(Ent())
    {
      if |source| >= name.Length {
        return false;
      }
      var i := 0;
      while i < |source|
        invariant i <= |source| && name[..i] == source[..i]
      {
        name[i] := source[i];
        assert source[..i + 1] == source[..i] + [source[i]];
        i := i + 1;
      }
      namlen := |source|;
      name[namlen] := '\0';
      assert source[..|source|] == source;
      CTextIs(name[..], source);
      return true;
    }

    method ReadDir() returns (r: Result<Option<string>, ReadDirError>)
      requires Valid()
      modifies this`namlen, name
      ensures Valid()
      ensures match ReadEntry(names, old(Ent()))
              case Returned(ent) => r == Ok(Some(ent.name)) && Ent() == ent
              case AtEnd => r == Ok(None) && Ent() == old(Ent())
              case Overrun => r == Err(NameTooLong) && Ent() == old(Ent())
    {
      hide CText, IndexOf;
      if |names| == 0 {
        return Ok(None);
      }
      if namlen == 0 {
        if names[0] == "" {
          var copied := CopyName("/");
          return Ok(Some("/"));
        }
        var ok := CopyName(names[0]);
        return if ok then Ok(Some(names[0])) else Err(NameTooLong);
      }
      var previous := CText(name[..]);
      if previous == "/" {
        previous := "";
      }
      var foundPrevious := false;
      var i := 0;
      while i < |names|
        invariant i <= |names| && Valid() && Ent() == old(Ent())
        invariant foundPrevious ==> i > 0 && IndexOf(names, previous) == i - 1
        invariant !foundPrevious ==> forall j :: 0 <= j < i ==> names[j] != previous
      {
        if foundPrevious {
          var ok := CopyName(names[i]);
          return if ok then Ok(Some(names[i])) else Err(NameTooLong);
        }
        if names[i] == previous {
          IndexOfIs(names, previous, i);
          foundPrevious := true;
        }
        i := i + 1;
      }
      if !foundPrevious {
        IndexOfIs(names, previous, i);
      }
      return Ok(None);
    }
  }

  // ---------- Handles side by side

  datatype Operation = Written(bytes: seq<Byte>) | Taken(handle: nat, n: nat)

  /** The shared content, each handle's position, and what each handle has read so far. */
  datatype Shared = Shared(content: seq<Byte>, positions: map<nat, nat>, received: map<nat, seq<Byte>>)

  function PositionOf(s: Shared, handle: nat): nat {
    if handle in s.positions then s.positions[handle] else 0
  }

  function ReceivedBy(s: Shared, handle: nat): seq<Byte> {
    if handle in s.received then s.received[handle] else []
  }

  function Perform(s: Shared, op: Operation): Shared {
    match op
    case Written(bytes) => s.(content := s.content + bytes)
    case Taken(h, n) =>
      var bytes := BytesFrom(s.content, PositionOf(s, h), n);
      Shared(s.content, s.positions[h := PositionOf(s, h) + |bytes|], s.received[h := ReceivedBy(s, h) + bytes])
  }

  function PerformAll(ops: seq<Operation>): Shared {
    if ops == [] then Shared([], map[], map[]) else Perform(PerformAll(ops[..|ops| - 1]), ops[|ops| - 1])
  }

  function AllWritten(ops: seq<Operation>): seq<Byte> {
    if ops == [] then []
    else AllWritten(ops[..|ops| - 1]) + if ops[|ops| - 1].Written? then ops[|ops| - 1].bytes else []
  }

  /**
   * Under any interleaving of handles a file is what all writes appended, in order, and what a
   * handle has read so far is the file's beginning up to the handle's position.
   */
  lemma {:induction false} SharedFile(ops: seq<Operation>, handle: nat)
    ensures var s := PerformAll(ops);
      && s.content == AllWritten(ops)
      && PositionOf(s, handle) <= |s.content|
      && ReceivedBy(s, handle) == s.content[..PositionOf(s, handle)]
    decreases |ops|
  {
    hide BytesFrom;
    if ops != [] {
      SharedFile(ops[..|ops| - 1], handle);
      PerformStep(PerformAll(ops[..|ops| - 1]), ops[|ops| - 1], handle);
    }
  }

  lemma PerformStep(s: Shared, op: Operation, handle: nat)
    requires PositionOf(s, handle) <= |s.content|
    requires ReceivedBy(s, handle) == s.content[..PositionOf(s, handle)]
    ensures PositionOf(Perform(s, op), handle) <= |Perform(s, op).content|
    ensures ReceivedBy(Perform(s, op), handle) == Perform(s, op).content[..PositionOf(Perform(s, op), handle)]
  {
    var p := PositionOf(s, handle);
    match op
    case Written(bytes) =>
      assert (s.content + bytes)[..p] == s.content[..p];
    case Taken(h, n) =>
      if h == handle {
        TakenNext(s.content, p, n);
      }
  }

  lemma TakenNext(content: seq<Byte>, p: nat, n: nat)
    requires p <= |content|
    ensures content[..p] + BytesFrom(content, p, n) == content[..p + |BytesFrom(content, p, n)|]
  {
  }

  /**
   * However handles interleave, a handle that reads nothing although it asked for something has
   * received everything written so far; as long as something is left, it reads some of it.
   */
  lemma ReadToTheEnd(ops: seq<Operation>, handle: nat, n: nat)
    requires n > 0
    ensures var s, t := PerformAll(ops), PerformAll(ops + [Taken(handle, n)]);
      && ReceivedBy(s, handle) <= ReceivedBy(t, handle)
      && (ReceivedBy(t, handle) == ReceivedBy(s, handle) <==> ReceivedBy(s, handle) == AllWritten(ops))
      && (|AllWritten(ops)| <= |ReceivedBy(s, handle)| + n ==> ReceivedBy(t, handle) == AllWritten(ops))
  {
    hide BytesFrom, PerformAll, AllWritten;
    var s := PerformAll(ops);
    SharedFile(ops, handle);
    PerformedLast(ops, Taken(handle, n));
    var p := PositionOf(s, handle);
    BytesAre(s.content, p, n);
    var bytes := BytesFrom(s.content, p, n);
    assert s.content[..p] + bytes == s.content[..p + |bytes|];
    assert s.content[..|s.content|] == s.content;
  }

  lemma PerformedLast(ops: seq<Operation>, op: Operation)
    ensures PerformAll(ops + [op]) == Perform(PerformAll(ops), op)
  {
    assert (ops + [op])[..|ops|] == ops;
  }
}
