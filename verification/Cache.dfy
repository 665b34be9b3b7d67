/** The cache files of one tool: where a resource lives (cache/locator.go) and how an envelope is
    read (cache/envelope.go). A file is either a complete envelope or a partial one;
    its JSON text is not part of this model. */
module Cache {
  import opened Text

  const VERSION := 1

  datatype Envelope<T> = Envelope(
    resource: string,
    inst: string,
    fetchedAt: int,
    ttl: string,
    version: int,
    data: T)

  datatype Content<T> = Partial | Complete(env: Envelope<T>)

  type Files<T> = map<string, Content<T>>

  // ---------- paths ----------

  /** A path component starts alphanumeric, holds no separator and no "..", ends in no dot. */
  predicate ValidComponent(s: string) {
    && s != "" && IsAlnum(s[0])
    && (forall i :: 0 <= i < |s| ==> IsAlnum(s[i]) || s[i] == '.' || s[i] == '_' || s[i] == '-')
    && !Contains(s, "..")
    && s[|s| - 1] != '.'
  }

  datatype PathError = InvalidRoot | InvalidName

  datatype Found<+V> = Path(path: V) | Refused(error: PathError)

  /** The root is an absolute path in clean form. */
  datatype Locator = Locator(root: string, instanceKey: string) {
    predicate RootValid() {
      root != "" && root[0] == '/'
    }

    function Directory(): string {
      (if root == "/" then "" else root) + "/" + instanceKey
    }

    function FileOf(name: string): string {
      Directory() + "/" + (name + ".json")
    }

    function TempOf(name: string, random: string): string {
      Directory() + "/" + (name + "-" + random + ".json.tmp")
    }

    function ResourceFile(name: string): Found<string> {
      if !RootValid() then Refused(InvalidRoot)
      else if !ValidComponent(instanceKey) then Refused(InvalidName)
      else if !ValidComponent(name) then Refused(InvalidName)
      else Path(FileOf(name))
    }
  }

  predicate IsTemp(path: string) {
    |path| >= 4 && path[|path| - 4..] == ".tmp"
  }

  predicate IsResource(path: string) {
    |path| >= 5 && path[|path| - 5..] == ".json"
  }

  /** The last component of a path determines where it was cut. */
  lemma SplitAtLastSlash(dir: string, name: string, dir': string, name': string)
    requires '/' !in name && '/' !in name'
    requires dir + "/" + name == dir' + "/" + name'
    ensures dir == dir' && name == name'
  {
    var whole := dir + "/" + name;
    assert whole[|dir|] == '/' && whole[|dir'|] == '/';
    assert forall i :: |dir| < i < |whole| ==> whole[i] == name[i - |dir| - 1];
    assert forall i :: |dir'| < i < |whole| ==> whole[i] == name'[i - |dir'| - 1];
    assert |dir| == |dir'|;
    assert dir == whole[..|dir|] && dir' == whole[..|dir'|];
    assert name == whole[|dir| + 1..] && name' == whole[|dir'| + 1..];
  }

  lemma ComponentHasNoSlash(s: string)
    requires ValidComponent(s)
    ensures '/' !in s
  {}

  /** Under one root, distinct (instance, resource) pairs live in distinct files. */
  lemma PathsInjective(a: Locator, b: Locator, name: string, name': string)
    requires a.root == b.root
    requires a.ResourceFile(name).Path? && b.ResourceFile(name').Path?
    requires a.ResourceFile(name) == b.ResourceFile(name')
    ensures a.instanceKey == b.instanceKey && name == name'
  {
    hide ValidComponent;
    ComponentHasNoSlash(name);
    ComponentHasNoSlash(name');
    ComponentHasNoSlash(a.instanceKey);
    ComponentHasNoSlash(b.instanceKey);
    SplitAtLastSlash(a.Directory(), name + ".json", b.Directory(), name' + ".json");
    assert (name + ".json")[..|name|] == name && (name' + ".json")[..|name'|] == name';
    var base := if a.root == "/" then "" else a.root;
    SplitAtLastSlash(base, a.instanceKey, base, b.instanceKey);
  }

  lemma Endings(path: string)
    ensures IsTemp(path) ==> path[|path| - 1] == 'p'
    ensures IsResource(path) ==> path[|path| - 1] == 'n'
  {
    if IsTemp(path) { assert path[|path| - 4..][3] == path[|path| - 1]; }
    if IsResource(path) { assert path[|path| - 5..][4] == path[|path| - 1]; }
  }

  /** No temporary name is the name of a resource file, and none is read as one. */
  lemma TempIsNoResource(loc: Locator, name: string, random: string)
    ensures IsTemp(loc.TempOf(name, random)) && !IsResource(loc.TempOf(name, random))
    ensures IsResource(loc.FileOf(name)) && !IsTemp(loc.FileOf(name))
  {
    var t, f := loc.TempOf(name, random), loc.FileOf(name);
    assert t[|t| - 4..] == ".tmp" && t[|t| - 1] == 'p';
    assert f[|f| - 5..] == ".json" && f[|f| - 1] == 'n';
    Endings(t);
    Endings(f);
  }

  // ---------- reading ----------

  datatype ReadResult<T> = Hit(env: Envelope<T>) | Miss | BadPath(error: PathError) | BadFile

  function Read<T>(files: Files<T>, loc: Locator, name: string): ReadResult<T> {
    match loc.ResourceFile(name)
    case Refused(e) => BadPath(e)
    case Path(path) =>
      if path !in files then Miss
      else if files[path].Partial? then BadFile
      else
        var env := files[path].env;
        if env.version != VERSION || env.resource != name || env.inst != loc.instanceKey then Miss
        else Hit(env)
  }

  /** A component of a path, by its bytes. */
  lemma ComponentText(s: string)
    ensures ValidComponent(s) <==>
      && s != ""
      && (forall i :: 0 <= i < |s| ==>
            'A' <= s[i] <= 'Z' || 'a' <= s[i] <= 'z' || '0' <= s[i] <= '9' || (i > 0 && s[i] in "._-"))
      && s[|s| - 1] != '.' && forall i :: 0 <= i < |s| - 1 ==> !(s[i] == '.' && s[i + 1] == '.')
  {
    hide Contains;
    TwoDots(s);
  }

  lemma TwoDots(s: string)
    ensures Contains(s, "..") <==> exists i :: 0 <= i < |s| - 1 && s[i] == '.' && s[i + 1] == '.'
  {
    forall i | 0 <= i < |s| - 1 ensures Occurs(s, "..", i) <==> s[i] == '.' && s[i + 1] == '.' {
      assert s[i..i + 2] == [s[i], s[i + 1]];
    }
    if i :| 0 <= i <= |s| && Occurs(s, "..", i) {
      assert s[i] == '.' && s[i + 1] == '.';
    }
  }

  /** The file of a resource, as text; the first bad part is what a path is refused for. */
  lemma ResourceFileText(loc: Locator, name: string)
    ensures var absolute := loc.root != "" && loc.root[0] == '/';
      && (loc.ResourceFile(name) == Refused(InvalidRoot) <==> !absolute)
      && (loc.ResourceFile(name) == Refused(InvalidName) <==>
            absolute && !(ValidComponent(loc.instanceKey) && ValidComponent(name)))
      && (loc.ResourceFile(name).Path? ==>
            var file := loc.instanceKey + "/" + name + ".json";
            loc.ResourceFile(name).path == if loc.root == "/" then "/" + file else loc.root + "/" + file)
  {
    hide ValidComponent;
    var file := loc.instanceKey + "/" + name + ".json";
    assert "/" + loc.instanceKey + "/" + (name + ".json") == "/" + file;
    assert loc.root + "/" + loc.instanceKey + "/" + (name + ".json") == loc.root + "/" + file;
    assert "" + "/" + loc.instanceKey == "/" + loc.instanceKey;
  }

  /** What a read answers, for every path and every content of its file: a miss exactly if the file
      is absent or is a complete envelope of another version, resource or instance; an error exactly
      if the file is partial; else the envelope in it. */
  lemma ReadIs<T>(files: Files<T>, loc: Locator, name: string, env: Envelope<T>)
    ensures loc.ResourceFile(name).Refused? ==> Read(files, loc, name) == BadPath(loc.ResourceFile(name).error)
    ensures loc.ResourceFile(name).Path? ==>
      var path := loc.ResourceFile(name).path;
      && (path !in files ==> Read(files, loc, name) == Miss)
      && (path in files && files[path] == Partial ==> Read(files, loc, name) == BadFile)
      && (path in files && files[path] == Complete(env) ==>
            var mine := env.version == 1 && env.resource == name && env.inst == loc.instanceKey;
            Read(files, loc, name) == if mine then Hit(env) else Miss)
  {
    hide ValidComponent, Locator.FileOf;
  }

  /** A hit carries the requested identity and the current version, and is what the file holds. */
  lemma HitIsGenuine<T>(files: Files<T>, loc: Locator, name: string)
    ensures Read(files, loc, name).Hit? ==>
      var env := Read(files, loc, name).env;
      && env.resource == name && env.inst == loc.instanceKey && env.version == 1
      && loc.ResourceFile(name).Path?
      && loc.FileOf(name) in files && files[loc.FileOf(name)] == Complete(env)
  {}

  /** What a write makes readable: the envelope verbatim if its version is current, else a miss. */
  lemma ReadAfterWrite<T>(files: Files<T>, loc: Locator, env: Envelope<T>)
    requires env.inst == loc.instanceKey && loc.ResourceFile(env.resource).Path?
    ensures var after := files[loc.FileOf(env.resource) := Complete(env)];
      Read(after, loc, env.resource) == if env.version == VERSION then Hit(env) else Miss
  {}

  /** A read is unchanged by any change to other files. */
  lemma ReadIgnoresOthers<T>(files: Files<T>, other: Files<T>, loc: Locator, name: string)
    requires loc.FileOf(name) in files <==> loc.FileOf(name) in other
    requires loc.FileOf(name) in files ==> files[loc.FileOf(name)] == other[loc.FileOf(name)]
    ensures Read(files, loc, name) == Read(other, loc, name)
  {}
}
