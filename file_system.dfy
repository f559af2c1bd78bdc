/** The folders the server reads and writes (the videos folder and the app
    storage folder): a listing in readdir order and the text of each file.
    A file's size as `stat` reports it is the length of its text. */
module FileSystem {
  import opened JsText
  import NodePath

  /** A folder as a value: the listed names and the contents of each. */
  datatype Dir = Dir(names: seq<string>, data: map<string, string>)

  /** Names are listed once each, and exactly the listed names have contents. */
  predicate WellFormed(d: Dir) {
    (forall i, j :: 0 <= i < j < |d.names| ==> d.names[i] != d.names[j]) &&
    (forall n :: n in d.data ==> n in d.names) &&
    (forall i :: 0 <= i < |d.names| ==> d.names[i] in d.data)
  }

  /** The folder after writing `content` to `name`: an existing file keeps its
      place in the listing and is overwritten, a new one is listed last. */
  function Written(d: Dir, name: string, content: string): (r: Dir)
    requires WellFormed(d)
    ensures WellFormed(r)
    ensures name in r.data && r.data[name] == content
    ensures forall n :: n in d.data && n != name ==> n in r.data && r.data[n] == d.data[n]
    ensures d.names <= r.names && |r.names| <= |d.names| + 1
    ensures forall n :: n in r.data ==> n in d.data || n == name
  {
    if name in d.data then Dir(d.names, d.data[name := content])
    else Dir(d.names + [name], d.data[name := content])
  }

  /** Writing the same text again changes nothing. */
  lemma WrittenAgain(d: Dir, name: string, content: string)
    requires WellFormed(d)
    ensures Written(Written(d, name, content), name, content) == Written(d, name, content)
  {
    var d1 := Written(d, name, content);
    assert d1.data[name := content] == d1.data;
  }

  /** `stat(path).size` for a path inside the folder at `dirPath`; None when
      the path names no file there (stat fails). */
  function StatSize(d: Dir, dirPath: string, path: string): (r: Option<nat>)
    ensures r.Some? ==> exists n :: n in d.data && path == NodePath.Join(dirPath, n) && r.value == |d.data[n]|
  {
    var k := |dirPath| + 1;
    if |path| >= k && path[..k] == dirPath + "/" && path[k..] in d.data then
      assert path == NodePath.Join(dirPath, path[k..]);
      Some(|d.data[path[k..]]|)
    else None
  }

  /** stat of a listed file, through the joined path, finds its size. */
  lemma StatJoin(d: Dir, dirPath: string, name: string)
    requires name in d.data
    ensures StatSize(d, dirPath, NodePath.Join(dirPath, name)) == Some(|d.data[name]|)
  {
    var p := NodePath.Join(dirPath, name);
    assert p[..|dirPath| + 1] == dirPath + "/";
    assert p[|dirPath| + 1..] == name;
  }

  /** A folder whose files are created and overwritten in place. */
  class Directory {
    var names: seq<string>
    var data: map<string, string>

    predicate Valid()
      reads this
    {
      WellFormed(Dir(names, data))
    }

    function Value(): Dir
      reads this
    {
      Dir(names, data)
    }

    constructor (d: Dir)
      requires WellFormed(d)
      ensures Valid() && Value() == d
    {
      names := d.names;
      data := d.data;
    }

    /** fs.writeFile / fs.copyFile onto `name`. */
    method Write(name: string, content: string)
      requires Valid()
      modifies this
      ensures Valid()
      ensures Value() == Written(old(Value()), name, content)
    {
      if name !in data {
        names := names + [name];
      }
      data := data[name := content];
    }

    /** fs.existsSync. */
    method Exists(name: string) returns (b: bool)
      ensures b <==> name in data
    {
      b := name in data;
    }

    /** fs.readdir. */
    method List() returns (ns: seq<string>)
      requires Valid()
      ensures ns == names
      ensures forall n :: n in ns <==> n in data
    {
      ns := names;
    }

    /** fs.readFile of a listed file. */
    method Read(name: string) returns (content: string)
      requires name in data
      ensures content == data[name]
    {
      content := data[name];
    }
  }
}
