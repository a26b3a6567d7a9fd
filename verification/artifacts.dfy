/** The artifact table both build scripts generate (build.rs and
    server/build.rs): one `include_bytes!` constant per file the web build
    produced, named by mangling the file name, and an `artifact(name)`
    function matching file names to those constants. Also the list of
    sources each script tells cargo to watch. The generated text itself is
    not modelled, only what it declares. */
module ArtifactTable {
  import opened Wrappers
  import Text

  predicate IsLowerAscii(c: char) {
    'a' <= c <= 'z'
  }

  /** Upper-casing of one character, for ASCII letters. */
  function UpperChar(c: char): (u: char)
    ensures !IsLowerAscii(u)
    ensures IsLowerAscii(c) ==> u as int == c as int - 32
    ensures !IsLowerAscii(c) ==> u == c
  {
    if IsLowerAscii(c) then (c as int - 32) as char else c
  }

  /** `str::replace(from, to)` for single characters. */
  function Replace(s: string, from: char, to: char): (r: string)
    ensures |r| == |s|
    ensures forall i :: 0 <= i < |s| ==> r[i] == (if s[i] == from then to else s[i])
  {
    if |s| == 0 then [] else [if s[0] == from then to else s[0]] + Replace(s[1..], from, to)
  }

  /** `str::to_uppercase`, for ASCII letters. */
  function ToUpper(s: string): (r: string)
    ensures |r| == |s|
    ensures forall i :: 0 <= i < |s| ==> r[i] == UpperChar(s[i])
  {
    if |s| == 0 then [] else [UpperChar(s[0])] + ToUpper(s[1..])
  }

  predicate IsSeparator(c: char) {
    c == '/' || c == '.' || c == '-'
  }

  /** The identifier the scripts derive from a file name: `/`, `.` and `-`
      replaced by `_`, in that order, then the whole upper-cased. */
  function Mangle(name: string): string
  {
    ToUpper(Replace(Replace(Replace(name, '/', '_'), '.', '_'), '-', '_'))
  }

  /** Mangling keeps the length, turns each separator into `_` and upper-cases
      every other character; no separator or lower-case ASCII letter
      survives. */
  lemma MangleCharacters(name: string)
    ensures |Mangle(name)| == |name|
    ensures forall i :: 0 <= i < |name| ==>
      Mangle(name)[i] == (if IsSeparator(name[i]) then '_' else UpperChar(name[i]))
    ensures forall i :: 0 <= i < |name| ==> !IsSeparator(Mangle(name)[i]) && !IsLowerAscii(Mangle(name)[i])
  {
  }

  /** Mangling an identifier again changes nothing. */
  lemma MangleIdempotent(name: string)
    ensures Mangle(Mangle(name)) == Mangle(name)
  {
    MangleCharacters(name);
    MangleCharacters(Mangle(name));
  }

  /** Mangling is not injective: two different file names can yield the same
      identifier. */
  lemma MangleCollides()
    ensures "a-b.js" != "a.b-js"
    ensures Mangle("a-b.js") == Mangle("a.b-js")
  {
    MangleCharacters("a-b.js");
    MangleCharacters("a.b-js");
  }

  /** A directory entry of the web build's output directory: the directory
      it was listed from and its file name. */
  datatype ArtifactPath = ArtifactPath(dir: string, fileName: string)

  /** A file name, as `Path::file_name` returns for a directory entry. */
  predicate ValidArtifact(a: ArtifactPath) {
    |a.fileName| > 0 && '/' !in a.fileName
  }

  /** `PathBuf::to_str` of the entry's full path. */
  function PathString(a: ArtifactPath): string {
    a.dir + "/" + a.fileName
  }

  /** A declaration of the generated file. `includePath` is the path after
      `CARGO_MANIFEST_DIR` and a `/`. */
  datatype Item =
    | IndexHtmlConst(includePath: string)
    | BytesConst(ident: string, includePath: string)

  /** One arm `"pattern" => Some(IDENT)` of the generated `artifact` match. */
  datatype Arm = Arm(pattern: string, ident: string)

  datatype Generated = Generated(items: seq<Item>, arms: seq<Arm>)

  /** One constant per artifact, in listing order. */
  function ArtifactItems(artifacts: seq<ArtifactPath>): (items: seq<Item>)
    ensures |items| == |artifacts|
    ensures forall i :: 0 <= i < |artifacts| ==>
      items[i] == BytesConst(Mangle(artifacts[i].fileName), PathString(artifacts[i]))
  {
    if |artifacts| == 0 then []
    else [BytesConst(Mangle(artifacts[0].fileName), PathString(artifacts[0]))] + ArtifactItems(artifacts[1..])
  }

  /** One match arm per artifact, keyed by its file name, in listing order. */
  function ArtifactArms(artifacts: seq<ArtifactPath>): (arms: seq<Arm>)
    ensures |arms| == |artifacts|
    ensures forall i :: 0 <= i < |artifacts| ==> arms[i] == Arm(artifacts[i].fileName, Mangle(artifacts[i].fileName))
  {
    if |artifacts| == 0 then []
    else [Arm(artifacts[0].fileName, Mangle(artifacts[0].fileName))] + ArtifactArms(artifacts[1..])
  }

  /** What the root build.rs generates (its `INDEX_HTML` line is commented
      out). */
  function GenerateRoot(artifacts: seq<ArtifactPath>): (g: Generated)
    ensures g.items == ArtifactItems(artifacts)
    ensures forall i :: 0 <= i < |g.items| ==> !g.items[i].IndexHtmlConst?
    ensures g.arms == ArtifactArms(artifacts)
  {
    Generated(ArtifactItems(artifacts), ArtifactArms(artifacts))
  }

  /** The include path of the server's `INDEX_HTML`. */
  const ServerIndexHtml := "../web/index.html"

  /** What server/build.rs generates: `INDEX_HTML` first, then the same
      constants and arms as the root script. */
  function GenerateServer(artifacts: seq<ArtifactPath>): (g: Generated)
    ensures |g.items| == |artifacts| + 1
    ensures g.items[0] == IndexHtmlConst(ServerIndexHtml)
    ensures g.items[1..] == ArtifactItems(artifacts)
    ensures g.arms == ArtifactArms(artifacts)
  {
    Generated([IndexHtmlConst(ServerIndexHtml)] + ArtifactItems(artifacts), ArtifactArms(artifacts))
  }

  /** The name an item declares. */
  function ItemName(item: Item): string {
    match item
    case IndexHtmlConst(_) => "INDEX_HTML"
    case BytesConst(ident, _) => ident
  }

  /** No name is declared twice: otherwise the generated module is rejected
      by the Rust compiler (error E0428), and neither crate builds. */
  predicate UniqueNames(g: Generated) {
    forall i, j :: 0 <= i < j < |g.items| ==> ItemName(g.items[i]) != ItemName(g.items[j])
  }

  /** The artifacts' file names mangle to pairwise different identifiers. */
  predicate DistinctIdents(artifacts: seq<ArtifactPath>) {
    forall i, j :: 0 <= i < j < |artifacts| ==> Mangle(artifacts[i].fileName) != Mangle(artifacts[j].fileName)
  }

  /** The root script's output declares every name once exactly when no two
      artifact names mangle to the same identifier. */
  lemma RootUniqueNamesIff(artifacts: seq<ArtifactPath>)
    ensures UniqueNames(GenerateRoot(artifacts)) <==> DistinctIdents(artifacts)
  {
    var g := GenerateRoot(artifacts);
    assert forall i :: 0 <= i < |artifacts| ==> ItemName(g.items[i]) == Mangle(artifacts[i].fileName);
  }

  /** The server script's output declares every name once exactly when no
      two artifact names mangle to the same identifier and none mangles to
      `INDEX_HTML` (as `index.html` would). */
  lemma ServerUniqueNamesIff(artifacts: seq<ArtifactPath>)
    ensures UniqueNames(GenerateServer(artifacts)) <==>
      DistinctIdents(artifacts) && forall i :: 0 <= i < |artifacts| ==> Mangle(artifacts[i].fileName) != "INDEX_HTML"
  {
    var g := GenerateServer(artifacts);
    assert forall i :: 0 <= i < |artifacts| ==> ItemName(g.items[i + 1]) == Mangle(artifacts[i].fileName);
    if UniqueNames(g) {
      forall i, j | 0 <= i < j < |artifacts|
        ensures Mangle(artifacts[i].fileName) != Mangle(artifacts[j].fileName)
      {
        assert ItemName(g.items[i + 1]) != ItemName(g.items[j + 1]);
      }
      forall i | 0 <= i < |artifacts|
        ensures Mangle(artifacts[i].fileName) != "INDEX_HTML"
      {
        assert ItemName(g.items[0]) != ItemName(g.items[i + 1]);
      }
    }
  }

  /** Two artifacts `a-b.js` and `a.b-js` make the root script declare the
      same constant twice. */
  lemma CollidingArtifactsDuplicateConstant(dir: string)
    ensures var g := GenerateRoot([ArtifactPath(dir, "a-b.js"), ArtifactPath(dir, "a.b-js")]);
      && ItemName(g.items[0]) == ItemName(g.items[1])
      && !UniqueNames(g)
  {
    MangleCollides();
  }

  /** The generated `artifact(path)`: the first arm whose pattern is `path`,
      otherwise the `_ => None` arm. */
  function Lookup(arms: seq<Arm>, key: string): Option<string>
  {
    if |arms| == 0 then None
    else if arms[0].pattern == key then Some(arms[0].ident)
    else Lookup(arms[1..], key)
  }

  function FileNames(artifacts: seq<ArtifactPath>): (names: seq<string>)
    ensures |names| == |artifacts|
    ensures forall i :: 0 <= i < |artifacts| ==> names[i] == artifacts[i].fileName
  {
    if |artifacts| == 0 then [] else [artifacts[0].fileName] + FileNames(artifacts[1..])
  }

  /** The generated lookup finds exactly the artifacts' file names, each
      mapped to its mangled identifier, and nothing else. */
  lemma {:induction false} LookupArtifact(artifacts: seq<ArtifactPath>, key: string)
    ensures Lookup(ArtifactArms(artifacts), key) == if key in FileNames(artifacts) then Some(Mangle(key)) else None
    decreases |artifacts|
  {
    if |artifacts| > 0 {
      var arms := ArtifactArms(artifacts);
      assert arms[1..] == ArtifactArms(artifacts[1..]);
      assert FileNames(artifacts) == [artifacts[0].fileName] + FileNames(artifacts[1..]);
      LookupArtifact(artifacts[1..], key);
    }
  }

  /** The table is keyed by file name only: the full path of an artifact is
      never a key, because it contains a `/` and no file name does. */
  lemma FullPathIsNotAKey(artifacts: seq<ArtifactPath>, i: nat)
    requires forall j :: 0 <= j < |artifacts| ==> ValidArtifact(artifacts[j])
    requires i < |artifacts|
    ensures Lookup(ArtifactArms(artifacts), PathString(artifacts[i])) == None
  {
    var p := PathString(artifacts[i]);
    assert p[|artifacts[i].dir|] == '/';
    LookupArtifact(artifacts, p);
  }

  /** `Path::join` of a relative path onto a base. */
  function Join(base: string, rel: string): string
  {
    if |rel| > 0 && rel[0] == '/' then rel
    else if |base| == 0 then rel
    else if base[|base| - 1] == '/' then base + rel
    else base + "/" + rel
  }

  /** Joining onto one base keeps different relative paths apart. */
  lemma JoinInjective(base: string, x: string, y: string)
    requires |x| > 0 && x[0] != '/' && |y| > 0 && y[0] != '/'
    requires Join(base, x) == Join(base, y)
    ensures x == y
  {
    var prefix := if |base| == 0 then "" else if base[|base| - 1] == '/' then base else base + "/";
    assert Join(base, x) == prefix + x && Join(base, y) == prefix + y;
    assert x == Join(base, x)[|prefix|..];
  }

  /** The files, relative to the web crate, that the root build.rs watches. */
  const RootSourceNames: seq<string> := ["index.html", "Cargo.toml", "Cargo.lock", "src/lib.rs", "../shared"]

  /** The paths the server's build.rs watches. */
  const ServerSources: seq<string> := ["../web/index.html", "../web/Cargo.toml", "../web/Cargo.lock", "../web/src"]

  /** The web crate's path as the root build.rs names it. */
  const RootWebCrate := "web"

  /** `build_web`'s source list in the root build.rs. */
  function RootSources(webCrate: string): (r: seq<string>)
    ensures |r| == |RootSourceNames|
    ensures forall i :: 0 <= i < |r| ==> r[i] == Join(webCrate, RootSourceNames[i])
  {
    seq(|RootSourceNames|, i requires 0 <= i < |RootSourceNames| => Join(webCrate, RootSourceNames[i]))
  }

  predicate Distinct(s: seq<string>) {
    forall i, j :: 0 <= i < j < |s| ==> s[i] != s[j]
  }

  /** The root script watches five different paths, one per fixed entry. */
  lemma RootSourcesDistinct(webCrate: string)
    ensures Distinct(RootSources(webCrate))
  {
    var r := RootSources(webCrate);
    forall i, j | 0 <= i < j < |r|
      ensures r[i] != r[j]
    {
      if r[i] == r[j] {
        JoinInjective(webCrate, RootSourceNames[i], RootSourceNames[j]);
      }
    }
  }

  const RerunPrefix := "cargo:rerun-if-changed="

  /** The line that makes cargo watch `path`. */
  function RerunLine(path: string): string {
    RerunPrefix + path
  }

  /** The path a rerun line makes cargo watch. */
  function WatchedPath(line: string): string
    requires Text.StartsWith(line, RerunPrefix)
  {
    line[|RerunPrefix|..]
  }

  /** The rerun lines the root build.rs prints: its own file, then each
      source through `to_str`. */
  function RootRerunLines(webCrate: string): (lines: seq<string>)
    ensures |lines| == |RootSourceNames| + 1
    ensures forall i :: 0 <= i < |lines| ==> Text.StartsWith(lines[i], RerunPrefix)
    ensures WatchedPath(lines[0]) == "build.rs"
    ensures forall i :: 0 <= i < |RootSourceNames| ==> WatchedPath(lines[i + 1]) == RootSources(webCrate)[i]
  {
    [RerunLine("build.rs")] + seq(|RootSourceNames|, i requires 0 <= i < |RootSourceNames| => RerunLine(RootSources(webCrate)[i]))
  }

  /** `{:?}` of a path: the text in double quotes, with `"` and `\`
      escaped. */
  function DebugQuoted(s: string): (r: string)
    ensures |r| >= |s| + 2 && r[0] == '"'
  {
    "\"" + DebugEscape(s) + "\""
  }

  function DebugEscape(s: string): (r: string)
    ensures |r| >= |s|
  {
    if |s| == 0 then []
    else (if s[0] == '"' || s[0] == '\\' then ['\\', s[0]] else [s[0]]) + DebugEscape(s[1..])
  }

  /** The rerun line server/build.rs prints for a source, as written: the
      path goes through `{:?}`, so it reaches cargo in quotes. */
  function ServerRerunLineAsWritten(path: string): (line: string)
    ensures Text.StartsWith(line, RerunPrefix)
  {
    RerunPrefix + DebugQuoted(path)
  }

  /** As written, the server script makes cargo watch a path other than
      the source it names, whatever that source is: the watched path is the
      source in quotes, two characters longer at least. */
  lemma ServerWatchesQuotedPaths(path: string)
    ensures var watched := WatchedPath(ServerRerunLineAsWritten(path));
      && watched != path
      && watched[0] == '"' && watched[|watched| - 1] == '"'
  {
    assert WatchedPath(ServerRerunLineAsWritten(path)) == DebugQuoted(path);
  }

  /** The rerun lines server/build.rs evidently means to print: its own
      file, then each source path as it is, as the root script does. */
  function ServerRerunLines(): (lines: seq<string>)
    ensures |lines| == |ServerSources| + 1
    ensures forall i :: 0 <= i < |lines| ==> Text.StartsWith(lines[i], RerunPrefix)
    ensures WatchedPath(lines[0]) == "build.rs"
    ensures forall i :: 0 <= i < |ServerSources| ==> WatchedPath(lines[i + 1]) == ServerSources[i]
  {
    [RerunLine("build.rs")] + seq(|ServerSources|, i requires 0 <= i < |ServerSources| => RerunLine(ServerSources[i]))
  }
}
