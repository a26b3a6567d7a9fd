/** The per-request decision of the static server (src/main.rs, the
    handler inside `accept`): serve a generated artifact by the request
    path, with a content type chosen by suffix, and fall back to the index
    page for everything else. */
module StaticServer {
  import opened Wrappers
  import Text
  import ArtifactTable

  newtype byte = b: int | 0 <= b < 256

  datatype Header = Header(name: string, value: string)

  datatype Body = Bytes(data: seq<byte>) | Html(text: string)

  datatype Response = Response(status: nat, headers: seq<Header>, body: Body)

  const StatusOk: nat := 200

  const ContentTypeJs := Header("Content-Type", "application/javascript")
  const ContentTypeWasm := Header("Content-Type", "application/wasm")
  const ContentTypeHtml := Header("Content-Type", "text/html")

  /** The artifact key of a request path: the path without its leading `/`
      (`strip_prefix("/").unwrap()`; the precondition is the `unwrap`). */
  function ArtifactKey(path: string): (key: string)
    requires Text.StartsWith(path, "/")
    ensures "/" + key == path
  {
    path[1..]
  }

  /** Answers one request for `path`, given the generated `artifact` lookup
      and the index page. Every answer has status 200. */
  function Handle(path: string, artifact: string -> Option<seq<byte>>, indexHtml: string): (r: Response)
    requires Text.StartsWith(path, "/")
    ensures r.status == StatusOk
    ensures artifact(ArtifactKey(path)).Some? ==> r.body == Bytes(artifact(ArtifactKey(path)).value)
    ensures artifact(ArtifactKey(path)).Some? && Text.EndsWith(path, ".js") ==> r.headers == [ContentTypeJs]
    ensures artifact(ArtifactKey(path)).Some? && !Text.EndsWith(path, ".js") && Text.EndsWith(path, ".wasm") ==> r.headers == [ContentTypeWasm]
    ensures artifact(ArtifactKey(path)).Some? && !Text.EndsWith(path, ".js") && !Text.EndsWith(path, ".wasm") ==> r.headers == []
    ensures artifact(ArtifactKey(path)).None? ==> r.headers == [ContentTypeHtml] && r.body == Html(indexHtml)
  {
    match artifact(ArtifactKey(path))
    case Some(data) =>
      var headers :=
        if Text.EndsWith(path, ".js") then [ContentTypeJs]
        else if Text.EndsWith(path, ".wasm") then [ContentTypeWasm]
        else [];
      Response(StatusOk, headers, Bytes(data))
    case None =>
      Response(StatusOk, [ContentTypeHtml], Html(indexHtml))
  }

  /** The two suffix tests never both hold, so their order does not matter. */
  lemma WasmIsNotJs(path: string)
    requires Text.EndsWith(path, ".wasm")
    ensures !Text.EndsWith(path, ".js")
  {
    assert path[|path| - 3..] == path[|path| - 5..][2..];
  }

  /** The `artifact` function a build script generates, with `contents`
      standing for the bytes each `include_bytes!` constant holds. Keying
      the bytes by identifier is sound only for a table that compiles, that
      is one whose identifiers are pairwise different
      (`ArtifactTable.DistinctIdents`). */
  function GeneratedLookup(artifacts: seq<ArtifactTable.ArtifactPath>, contents: string -> seq<byte>): string -> Option<seq<byte>>
  {
    key =>
      match ArtifactTable.Lookup(ArtifactTable.ArtifactArms(artifacts), key)
      case Some(ident) => Some(contents(ident))
      case None => None
  }

  /** Served from the generated table, `/<name>` returns the bytes of the
      constant mangled from `name` exactly when `name` is one of the
      artifacts' file names, and the index page otherwise; a `.wasm` file
      is labelled as WebAssembly. */
  lemma ServesGeneratedTable(artifacts: seq<ArtifactTable.ArtifactPath>, contents: string -> seq<byte>, indexHtml: string, name: string)
    requires ArtifactTable.DistinctIdents(artifacts)
    ensures var r := Handle("/" + name, GeneratedLookup(artifacts, contents), indexHtml);
      && r.status == StatusOk
      && (name in ArtifactTable.FileNames(artifacts) ==> r.body == Bytes(contents(ArtifactTable.Mangle(name))))
      && (name !in ArtifactTable.FileNames(artifacts) ==> r.body == Html(indexHtml) && r.headers == [ContentTypeHtml])
      && (name in ArtifactTable.FileNames(artifacts) && Text.EndsWith(name, ".wasm") ==> r.headers == [ContentTypeWasm])
  {
    var path := "/" + name;
    assert ArtifactKey(path) == name;
    ArtifactTable.LookupArtifact(artifacts, name);
    if Text.EndsWith(name, ".wasm") {
      assert path[|path| - 5..] == name[|name| - 5..];
      WasmIsNotJs(path);
    }
  }

  /** The site root has an empty key, which no file name is, so it always
      gets the index page. */
  lemma RootServesIndex(artifacts: seq<ArtifactTable.ArtifactPath>, contents: string -> seq<byte>, indexHtml: string)
    requires ArtifactTable.DistinctIdents(artifacts)
    requires forall i :: 0 <= i < |artifacts| ==> ArtifactTable.ValidArtifact(artifacts[i])
    ensures Handle("/", GeneratedLookup(artifacts, contents), indexHtml) == Response(StatusOk, [ContentTypeHtml], Html(indexHtml))
  {
    assert ArtifactKey("/") == "";
    ArtifactTable.LookupArtifact(artifacts, "");
  }

  /** In a table that compiles, two different artifact names are served
      from two different constants. */
  lemma DistinctNamesDistinctConstants(artifacts: seq<ArtifactTable.ArtifactPath>, name1: string, name2: string)
    requires ArtifactTable.DistinctIdents(artifacts)
    requires name1 in ArtifactTable.FileNames(artifacts) && name2 in ArtifactTable.FileNames(artifacts)
    requires name1 != name2
    ensures ArtifactTable.Mangle(name1) != ArtifactTable.Mangle(name2)
  {
    var names := ArtifactTable.FileNames(artifacts);
    var i :| 0 <= i < |names| && names[i] == name1;
    var j :| 0 <= j < |names| && names[j] == name2;
    if i < j {
      assert ArtifactTable.Mangle(artifacts[i].fileName) != ArtifactTable.Mangle(artifacts[j].fileName);
    } else {
      assert ArtifactTable.Mangle(artifacts[j].fileName) != ArtifactTable.Mangle(artifacts[i].fileName);
    }
  }
}
