/** `jsrPkgToFlatpakData`: the descriptors for one jsr package, built from the
    two metadata texts it fetches. The texts, the parsed version metadata and
    the SHA-256 digest are inputs. */
module Jsr {
  import opened Wrappers
  import opened Strings
  import opened Hex
  import opened Sources
  import opened Lockfile

  /** The parts of `<version>_meta.json` the generator reads: the keys of
      `moduleGraph2`, in order, and `manifest` as a map from path to its
      `checksum` string. */
  datatype VersionMeta = VersionMeta(moduleGraph: seq<string>, manifest: map<string, string>)

  function MetaUrl(pkg: Pkg): string
  {
    "https://jsr.io/" + pkg.moduleName + "/meta.json"
  }

  function VersionMetaUrl(pkg: Pkg): string
  {
    "https://jsr.io/" + pkg.moduleName + "/" + TemplateText(pkg.version) + "_meta.json"
  }

  /** `vendor/jsr.io/<module>`, where both metadata files go. */
  function VendorDir(pkg: Pkg): string
  {
    "vendor/jsr.io/" + pkg.moduleName
  }

  /** The descriptors of the two metadata files, hashed by the generator itself. */
  function MetaFiles(pkg: Pkg, metaText: string, metaVerText: string, digest: string -> seq<Byte>): seq<Source>
  {
    [File(MetaUrl(pkg), Checksum("sha256", Some(Sha256(digest, metaText))), VendorDir(pkg), Some("meta.json")),
     File(VersionMetaUrl(pkg), Checksum("sha256", Some(Sha256(digest, metaVerText))), VendorDir(pkg),
          Some(TemplateText(pkg.version) + "_meta.json"))]
  }

  /** `splitOnce(checksum, "-")` read as `[checksumType, checksumValue]`. */
  function ChecksumOf(encoded: string): (c: Checksum)
    ensures '-' !in encoded ==> c == Checksum(encoded, None)
    ensures '-' in encoded ==> c.value.Some? && '-' !in c.algorithm && c.algorithm + "-" + c.value.value == encoded
  {
    ContainsChar(encoded, '-');
    SplitOnceLeftPartClean(encoded, "-");
    ContainsChar(SplitOnce(encoded, "-")[0], '-');
    var r := SplitOnce(encoded, "-");
    Checksum(r[0], At(r, 1))
  }

  /** The descriptor of one module-graph file that has a manifest entry. */
  function GraphFile(pkg: Pkg, path: string, checksum: string): Source
  {
    var url := "https://jsr.io/" + pkg.moduleName + "/" + TemplateText(pkg.version) + path;
    var parts := SplitOnce(path, "/", Right);
    File(url, ChecksumOf(checksum), "vendor/jsr.io/" + pkg.moduleName + "/" + TemplateText(pkg.version) + parts[0], At(parts, 1))
  }

  /** The graph-file descriptors, key by key; keys without a manifest entry
      give none. */
  function GraphFiles(pkg: Pkg, graph: seq<string>, manifest: map<string, string>): seq<Source>
    decreases |graph|
  {
    if graph == [] then []
    else
      (if graph[0] in manifest then [GraphFile(pkg, graph[0], manifest[graph[0]])] else [])
      + GraphFiles(pkg, graph[1..], manifest)
  }

  /** What `jsrPkgToFlatpakData` returns. */
  function JsrPkgData(pkg: Pkg, metaText: string, metaVerText: string, meta: VersionMeta,
                      digest: string -> seq<Byte>): seq<Source>
  {
    MetaFiles(pkg, metaText, metaVerText, digest) + GraphFiles(pkg, meta.moduleGraph, meta.manifest)
  }

  /** `jsrPkgToFlatpakData(pkg)` once both texts are fetched and the second
      is parsed: two metadata descriptors, then one per graph key found in the
      manifest. */
  method JsrPkgToFlatpakData(pkg: Pkg, metaText: string, metaVerText: string, meta: VersionMeta,
                             digest: string -> seq<Byte>)
    returns (flatpakData: seq<Source>)
    ensures flatpakData == JsrPkgData(pkg, metaText, metaVerText, meta, digest)
  {
    flatpakData := [];
    var metaHash := Sha256(digest, metaText);
    flatpakData := flatpakData + [File(MetaUrl(pkg), Checksum("sha256", Some(metaHash)),
                                       VendorDir(pkg), Some("meta.json"))];
    var metaVerHash := Sha256(digest, metaVerText);
    flatpakData := flatpakData + [File(VersionMetaUrl(pkg), Checksum("sha256", Some(metaVerHash)),
                                       VendorDir(pkg), Some(TemplateText(pkg.version) + "_meta.json"))];
    assert flatpakData == MetaFiles(pkg, metaText, metaVerText, digest);
    flatpakData := PushGraphFiles(pkg, meta.moduleGraph, meta.manifest, flatpakData);
  }

  /** The loop over `moduleGraph2` in `jsrPkgToFlatpakData`: one descriptor
      pushed onto `flatpakData` per key found in the manifest, in graph order. */
  method PushGraphFiles(pkg: Pkg, graph: seq<string>, manifest: map<string, string>, prefix: seq<Source>)
    returns (flatpakData: seq<Source>)
    ensures flatpakData == prefix + GraphFiles(pkg, graph, manifest)
  {
    flatpakData := prefix;
    var i := 0;
    while i < |graph|
      invariant 0 <= i <= |graph|
      invariant flatpakData == prefix + GraphFiles(pkg, graph[..i], manifest)
    {
      var fileUrl := graph[i];
      GraphFilesSnoc(pkg, graph[..i], fileUrl, manifest);
      assert graph[..i + 1] == graph[..i] + [fileUrl];
      i := i + 1;
      if fileUrl !in manifest {
        continue;
      }
      var checksum := manifest[fileUrl];
      var parts := SplitOnce(checksum, "-");
      var url := "https://jsr.io/" + pkg.moduleName + "/" + TemplateText(pkg.version) + fileUrl;
      var dirAndName := SplitOnce(fileUrl, "/", Right);
      var dest := "vendor/jsr.io/" + pkg.moduleName + "/" + TemplateText(pkg.version) + dirAndName[0];
      flatpakData := flatpakData + [File(url, Checksum(parts[0], At(parts, 1)), dest, At(dirAndName, 1))];
    }
    assert graph[..i] == graph;
  }

  /** Extending the graph by one key extends the descriptors by that key's. */
  lemma {:induction false} GraphFilesSnoc(pkg: Pkg, graph: seq<string>, path: string, manifest: map<string, string>)
    ensures GraphFiles(pkg, graph + [path], manifest) ==
            GraphFiles(pkg, graph, manifest) + (if path in manifest then [GraphFile(pkg, path, manifest[path])] else [])
    decreases |graph|
  {
    if graph == [] {
      assert [] + [path] == [path];
      assert [path][1..] == [];
    } else {
      GraphFilesSnoc(pkg, graph[1..], path, manifest);
      assert (graph + [path])[0] == graph[0];
      assert (graph + [path])[1..] == graph[1..] + [path];
    }
  }

  /** The graph keys that have a manifest entry, in graph order. */
  function ManifestedPaths(graph: seq<string>, manifest: map<string, string>): seq<string>
    decreases |graph|
  {
    if graph == [] then []
    else (if graph[0] in manifest then [graph[0]] else []) + ManifestedPaths(graph[1..], manifest)
  }

  /** Exactly the graph keys with a manifest entry survive; a key the
      manifest lacks is skipped. */
  lemma {:induction false} ManifestedPathsMembers(graph: seq<string>, manifest: map<string, string>)
    ensures forall p :: p in ManifestedPaths(graph, manifest) <==> p in graph && p in manifest
    decreases |graph|
  {
    if graph != [] {
      ManifestedPathsMembers(graph[1..], manifest);
      assert graph == [graph[0]] + graph[1..];
    }
  }

  /** The graph-file descriptors are the manifested paths' descriptors, one
      each, in the same order. */
  lemma {:induction false} GraphFilesAreManifestedPaths(pkg: Pkg, graph: seq<string>, manifest: map<string, string>)
    ensures var paths := ManifestedPaths(graph, manifest);
            |GraphFiles(pkg, graph, manifest)| == |paths| &&
            forall i :: 0 <= i < |paths| ==>
              (paths[i] in manifest && GraphFiles(pkg, graph, manifest)[i] == GraphFile(pkg, paths[i], manifest[paths[i]]))
    decreases |graph|
  {
    if graph != [] {
      GraphFilesAreManifestedPaths(pkg, graph[1..], manifest);
      var paths := ManifestedPaths(graph, manifest);
      var rest := ManifestedPaths(graph[1..], manifest);
      var files := GraphFiles(pkg, graph, manifest);
      var restFiles := GraphFiles(pkg, graph[1..], manifest);
      if graph[0] in manifest {
        assert paths == [graph[0]] + rest;
        assert files == [GraphFile(pkg, graph[0], manifest[graph[0]])] + restFiles;
        forall i | 1 <= i < |paths|
          ensures paths[i] in manifest && files[i] == GraphFile(pkg, paths[i], manifest[paths[i]])
        {
          ConsAt(graph[0], rest, i);
          ConsAt(GraphFile(pkg, graph[0], manifest[graph[0]]), restFiles, i);
        }
      } else {
        assert paths == rest && files == restFiles;
      }
    }
  }

  /** The number of descriptors of a jsr package: two for the metadata plus
      one per graph key with a manifest entry. */
  lemma JsrPkgDataCount(pkg: Pkg, metaText: string, metaVerText: string, meta: VersionMeta,
                        digest: string -> seq<Byte>)
    ensures |JsrPkgData(pkg, metaText, metaVerText, meta, digest)| == 2 + |ManifestedPaths(meta.moduleGraph, meta.manifest)|
  {
    GraphFilesAreManifestedPaths(pkg, meta.moduleGraph, meta.manifest);
  }

  /** The first two descriptors are `meta.json` and `<version>_meta.json`,
      each with a `sha256` field holding the hex digest of that text; then
      come the graph files of the manifested paths, in graph order. */
  lemma JsrPkgDataLayout(pkg: Pkg, metaText: string, metaVerText: string, meta: VersionMeta,
                         digest: string -> seq<Byte>)
    ensures var data := JsrPkgData(pkg, metaText, metaVerText, meta, digest);
            var paths := ManifestedPaths(meta.moduleGraph, meta.manifest);
            |data| == 2 + |paths| &&
            data[0] == File("https://jsr.io/" + pkg.moduleName + "/meta.json",
                            Checksum("sha256", Some(HexEncode(digest(metaText)))),
                            "vendor/jsr.io/" + pkg.moduleName, Some("meta.json")) &&
            data[1] == File("https://jsr.io/" + pkg.moduleName + "/" + TemplateText(pkg.version) + "_meta.json",
                            Checksum("sha256", Some(HexEncode(digest(metaVerText)))),
                            "vendor/jsr.io/" + pkg.moduleName, Some(TemplateText(pkg.version) + "_meta.json")) &&
            forall i :: 0 <= i < |paths| ==>
              (paths[i] in meta.manifest && data[i + 2] == GraphFile(pkg, paths[i], meta.manifest[paths[i]]))
  {
    var head := MetaFiles(pkg, metaText, metaVerText, digest);
    var files := GraphFiles(pkg, meta.moduleGraph, meta.manifest);
    GraphFilesAreManifestedPaths(pkg, meta.moduleGraph, meta.manifest);
    forall i | 0 <= i < |files| ensures (head + files)[i + 2] == files[i] {
      ConcatAt(head, files, i);
    }
  }

  /** Indexing past a one-element prefix. */
  lemma ConsAt<T>(head: T, rest: seq<T>, k: nat)
    requires 1 <= k <= |rest|
    ensures ([head] + rest)[k] == rest[k - 1]
  {
  }

  /** A graph file's descriptor: the url under the package version; the
      checksum field named by the text before the first '-' and holding the
      rest verbatim; the file name after the last '/' and the directory before
      it appended to `vendor/jsr.io/<module>/<version>`. */
  lemma GraphFileShape(pkg: Pkg, path: string, checksum: string)
    ensures var d := GraphFile(pkg, path, checksum);
            var base := pkg.moduleName + "/" + TemplateText(pkg.version);
            d.File? && d.url == "https://jsr.io/" + base + path &&
            ('-' in checksum ==> d.checksum.value.Some? && '-' !in d.checksum.algorithm &&
                                 d.checksum.algorithm + "-" + d.checksum.value.value == checksum) &&
            ('-' !in checksum ==> d.checksum == Checksum(checksum, None)) &&
            ('/' in path ==> d.destFilename.Some? && '/' !in d.destFilename.value &&
                             exists dir :: dir + "/" + d.destFilename.value == path &&
                                           d.dest == "vendor/jsr.io/" + base + dir) &&
            ('/' !in path ==> d.destFilename == None && d.dest == "vendor/jsr.io/" + base + path)
  {
    var d := GraphFile(pkg, path, checksum);
    var parts := SplitOnce(path, "/", Right);
    ContainsChar(path, '/');
    if '/' in path {
      SplitOnceRightPartClean(path, "/");
      ContainsChar(parts[1], '/');
      assert parts[0] + "/" + parts[1] == path;
    }
  }

  /** Conversely, a path `<dir>/<name>` and a checksum `<algorithm>-<value>`,
      with no '/' in the name and no '-' in the algorithm, give the descriptor
      of `name` in `vendor/jsr.io/<module>/<version><dir>` with field
      `algorithm` holding `value`. */
  lemma GraphFileOf(pkg: Pkg, dir: string, name: string, algorithm: string, value: string)
    requires '/' !in name && '-' !in algorithm
    ensures var base := pkg.moduleName + "/" + TemplateText(pkg.version);
            GraphFile(pkg, dir + "/" + name, algorithm + "-" + value) ==
              File("https://jsr.io/" + base + dir + "/" + name, Checksum(algorithm, Some(value)),
                   "vendor/jsr.io/" + base + dir, Some(name))
  {
    SplitOnceRightAt(dir, '/', name);
    SplitOnceLeftAt(algorithm, '-', value);
    var base := pkg.moduleName + "/" + TemplateText(pkg.version);
    assert "https://jsr.io/" + pkg.moduleName + "/" + TemplateText(pkg.version) + (dir + "/" + name) ==
           "https://jsr.io/" + base + dir + "/" + name;
    assert "vendor/jsr.io/" + pkg.moduleName + "/" + TemplateText(pkg.version) + dir ==
           "vendor/jsr.io/" + base + dir;
  }
}
