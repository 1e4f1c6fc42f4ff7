/** The generator's main block after the lockfile is parsed: one descriptor
    list per jsr package, then one per npm package, flattened in that order.
    Fetching, parsing and hashing are the fields of a `Registry`. */
module Generator {
  import opened Wrappers
  import opened Strings
  import opened Hex
  import opened Sources
  import opened Lockfile
  import opened Jsr
  import opened Npm

  /** The outside world: the body text `fetch` returns for a url, the SHA-256
      digest of a text's UTF-8 bytes, and `JSON.parse` of the two kinds of
      fetched document (`None` when the text does not have the expected
      shape). */
  datatype Registry = Registry(
    fetch: string -> string,
    digest: string -> seq<Byte>,
    parseVersionMeta: string -> Option<VersionMeta>,
    parsePackument: string -> Option<Packument>)

  /** `jsrPkgToFlatpakData(pkg)` with its two fetches. */
  function JsrSources(pkg: Pkg, registry: Registry): Result<seq<Source>, Error>
  {
    var metaText := registry.fetch(MetaUrl(pkg));
    var metaVerText := registry.fetch(VersionMetaUrl(pkg));
    match registry.parseVersionMeta(metaVerText)
    case None => Err(MalformedDocument(VersionMetaUrl(pkg)))
    case Some(meta) => Ok(JsrPkgData(pkg, metaText, metaVerText, meta, registry.digest))
  }

  /** `npmPkgToFlatpakData(pkg)` with its fetch. */
  function NpmSources(pkg: Pkg, registry: Registry): Result<seq<Source>, Error>
  {
    var metaText := registry.fetch(RegistryUrl(pkg));
    match registry.parsePackument(metaText)
    case None => Err(MalformedDocument(RegistryUrl(pkg)))
    case Some(meta) => NpmPkgData(pkg, metaText, meta, registry.digest)
  }

  /** `Promise.all(results)`: all the values in order, or a failure; the
      failure reported is the first one in order. */
  function All<T>(results: seq<Result<T, Error>>): (r: Result<seq<T>, Error>)
    ensures r.Ok? <==> forall i :: 0 <= i < |results| ==> results[i].Ok?
    ensures r.Ok? ==> |r.value| == |results| && forall i :: 0 <= i < |results| ==> r.value[i] == results[i].value
    ensures r.Err? ==> exists i :: 0 <= i < |results| && results[i] == Err(r.error) &&
                                   forall j :: 0 <= j < i ==> results[j].Ok?
    decreases |results|
  {
    if results == [] then Ok([])
    else
      match results[0]
      case Err(e) => Err(e)
      case Ok(v) =>
        match All(results[1..])
        case Err(e) =>
          ghost var i :| 0 <= i < |results[1..]| && results[1..][i] == Err(e) &&
                         forall j :: 0 <= j < i ==> results[1..][j].Ok?;
          assert results[i + 1] == Err(e);
          Err(e)
        case Ok(vs) => Ok([v] + vs)
  }

  function JsrResults(pkgs: seq<Pkg>, registry: Registry): (r: seq<Result<seq<Source>, Error>>)
    ensures |r| == |pkgs| && forall i :: 0 <= i < |pkgs| ==> r[i] == JsrSources(pkgs[i], registry)
  {
    seq(|pkgs|, i requires 0 <= i < |pkgs| => JsrSources(pkgs[i], registry))
  }

  function NpmResults(pkgs: seq<Pkg>, registry: Registry): (r: seq<Result<seq<Source>, Error>>)
    ensures |r| == |pkgs| && forall i :: 0 <= i < |pkgs| ==> r[i] == NpmSources(pkgs[i], registry)
  {
    seq(|pkgs|, i requires 0 <= i < |pkgs| => NpmSources(pkgs[i], registry))
  }

  /** Awaits the jsr wave, then the npm wave, and concatenates their lists. */
  function Assemble<T>(jsrResults: seq<Result<seq<T>, Error>>,
                       npmResults: seq<Result<seq<T>, Error>>): Result<seq<T>, Error>
  {
    match All(jsrResults)
    case Err(e) => Err(e)
    case Ok(jsrLists) =>
      match All(npmResults)
      case Err(e) => Err(e)
      case Ok(npmLists) => Ok(Flatten(jsrLists) + Flatten(npmLists))
  }

  /** The whole run: the array written to `deno-sources.json`, or the error
      that aborts it. */
  function Generate(lock: Lock, registry: Registry): Result<seq<Source>, Error>
  {
    match lock.jsr
    case None => Err(MissingLockSection("jsr"))
    case Some(keys) =>
      match lock.npm
      case None => Err(MissingLockSection("npm"))
      case Some(entries) =>
        Assemble(JsrResults(JsrPkgs(keys), registry), NpmResults(NpmPkgs(entries), registry))
  }

  /** Assembly succeeds exactly when every result does; a failure of the jsr
      wave wins over one of the npm wave. */
  lemma AssembleSucceeds<T>(jsrResults: seq<Result<seq<T>, Error>>,
                            npmResults: seq<Result<seq<T>, Error>>)
    ensures Assemble(jsrResults, npmResults).Ok? <==>
              (forall i :: 0 <= i < |jsrResults| ==> jsrResults[i].Ok?) &&
              (forall i :: 0 <= i < |npmResults| ==> npmResults[i].Ok?)
    ensures All(jsrResults).Err? ==> Assemble(jsrResults, npmResults) == Err(All(jsrResults).error)
  {
  }

  /** A successful assembly is the jsr lists, flattened, followed by the npm
      lists, flattened. */
  lemma AssembleConcat<T>(jsrResults: seq<Result<seq<T>, Error>>,
                          npmResults: seq<Result<seq<T>, Error>>)
    requires Assemble(jsrResults, npmResults).Ok?
    ensures All(jsrResults).Ok? && All(npmResults).Ok?
    ensures |All(jsrResults).value| == |jsrResults| && |All(npmResults).value| == |npmResults|
    ensures Assemble(jsrResults, npmResults).value ==
              Flatten(All(jsrResults).value) + Flatten(All(npmResults).value)
  {
  }

  /** Package `i`'s jsr list sits whole in the output, right after the lists
      of the jsr packages before it. */
  lemma AssembleJsrBlocks<T>(jsrResults: seq<Result<seq<T>, Error>>,
                             npmResults: seq<Result<seq<T>, Error>>)
    requires Assemble(jsrResults, npmResults).Ok?
    ensures var out := Assemble(jsrResults, npmResults).value;
            var jsrLists := All(jsrResults).value;
            forall i :: 0 <= i < |jsrResults| ==>
              var start := |Flatten(jsrLists[..i])|;
              jsrResults[i].Ok? && start + |jsrResults[i].value| <= |out| &&
              out[start..start + |jsrResults[i].value|] == jsrResults[i].value
  {
    var jsrLists, npmLists := All(jsrResults).value, All(npmResults).value;
    forall i | 0 <= i < |jsrResults|
      ensures var start := |Flatten(jsrLists[..i])|;
              start + |jsrLists[i]| <= |Flatten(jsrLists) + Flatten(npmLists)| &&
              (Flatten(jsrLists) + Flatten(npmLists))[start..start + |jsrLists[i]|] == jsrLists[i]
    {
      FlattenBlock(jsrLists, i);
      SliceOfPrefix(Flatten(jsrLists), Flatten(npmLists), |Flatten(jsrLists[..i])|, |jsrLists[i]|);
    }
  }

  /** Package `i`'s npm list sits whole in the output, after every jsr
      descriptor and right after the lists of the npm packages before it. */
  lemma AssembleNpmBlocks<T>(jsrResults: seq<Result<seq<T>, Error>>,
                             npmResults: seq<Result<seq<T>, Error>>)
    requires Assemble(jsrResults, npmResults).Ok?
    ensures var out := Assemble(jsrResults, npmResults).value;
            var jsrLists, npmLists := All(jsrResults).value, All(npmResults).value;
            forall i :: 0 <= i < |npmResults| ==>
              var start := |Flatten(jsrLists)| + |Flatten(npmLists[..i])|;
              npmResults[i].Ok? && start + |npmResults[i].value| <= |out| &&
              out[start..start + |npmResults[i].value|] == npmResults[i].value
  {
    var jsrLists, npmLists := All(jsrResults).value, All(npmResults).value;
    forall i | 0 <= i < |npmResults|
      ensures var start := |Flatten(jsrLists)| + |Flatten(npmLists[..i])|;
              start + |npmLists[i]| <= |Flatten(jsrLists) + Flatten(npmLists)| &&
              (Flatten(jsrLists) + Flatten(npmLists))[start..start + |npmLists[i]|] == npmLists[i]
    {
      BlockAfter(Flatten(jsrLists), npmLists, i);
    }
  }

  /** List `i` sits whole in `prefix + Flatten(lists)`, after the prefix and
      the lists before it. */
  lemma BlockAfter<T>(prefix: seq<T>, lists: seq<seq<T>>, i: nat)
    requires i < |lists|
    ensures var start := |prefix| + |Flatten(lists[..i])|;
            start + |lists[i]| <= |prefix + Flatten(lists)| &&
            (prefix + Flatten(lists))[start..start + |lists[i]|] == lists[i]
  {
    FlattenBlock(lists, i);
    SliceOfSuffix(prefix, Flatten(lists), |Flatten(lists[..i])|, |lists[i]|);
  }

  lemma SliceOfPrefix<T>(a: seq<T>, b: seq<T>, start: nat, len: nat)
    requires start + len <= |a|
    ensures (a + b)[start..start + len] == a[start..start + len]
  {
  }

  lemma SliceOfSuffix<T>(a: seq<T>, b: seq<T>, start: nat, len: nat)
    requires start + len <= |b|
    ensures (a + b)[|a| + start..|a| + start + len] == b[start..start + len]
  {
  }

  /** With both sections present a run is the assembly of the two waves. */
  lemma GenerateAssembles(lock: Lock, registry: Registry)
    requires lock.jsr.Some? && lock.npm.Some?
    ensures Generate(lock, registry) ==
              Assemble(JsrResults(JsrPkgs(lock.jsr.value), registry), NpmResults(NpmPkgs(lock.npm.value), registry))
  {
  }

  /** The jsr wave succeeds exactly when every jsr package's conversion does. */
  lemma JsrWaveSucceeds(pkgs: seq<Pkg>, registry: Registry)
    ensures All(JsrResults(pkgs, registry)).Ok? <==>
              forall i :: 0 <= i < |pkgs| ==> JsrSources(pkgs[i], registry).Ok?
  {
  }

  /** The npm wave succeeds exactly when every npm package's conversion does. */
  lemma NpmWaveSucceeds(pkgs: seq<Pkg>, registry: Registry)
    ensures All(NpmResults(pkgs, registry)).Ok? <==>
              forall i :: 0 <= i < |pkgs| ==> NpmSources(pkgs[i], registry).Ok?
  {
  }

  /** A run succeeds exactly when the lockfile has both sections and every
      package's fetches and conversions succeed. */
  lemma GenerateSucceeds(lock: Lock, registry: Registry)
    ensures Generate(lock, registry).Ok? <==>
              lock.jsr.Some? && lock.npm.Some? &&
              (forall i :: 0 <= i < |JsrPkgs(lock.jsr.value)| ==> JsrSources(JsrPkgs(lock.jsr.value)[i], registry).Ok?) &&
              (forall i :: 0 <= i < |NpmPkgs(lock.npm.value)| ==> NpmSources(NpmPkgs(lock.npm.value)[i], registry).Ok?)
  {
    if lock.jsr.Some? && lock.npm.Some? {
      var jsrPkgs, npmPkgs := JsrPkgs(lock.jsr.value), NpmPkgs(lock.npm.value);
      GenerateAssembles(lock, registry);
      AssembleSucceeds(JsrResults(jsrPkgs, registry), NpmResults(npmPkgs, registry));
      JsrWaveSucceeds(jsrPkgs, registry);
      NpmWaveSucceeds(npmPkgs, registry);
    }
  }

  /** A lockfile without one of the two sections aborts the run, the jsr
      section being looked at first. */
  lemma GenerateMissingSection(lock: Lock, registry: Registry)
    ensures lock.jsr.None? ==> Generate(lock, registry) == Err(MissingLockSection("jsr"))
    ensures lock.jsr.Some? && lock.npm.None? ==> Generate(lock, registry) == Err(MissingLockSection("npm"))
  {
  }

  /** In a successful run every npm package contributes exactly two
      descriptors, after all the jsr descriptors. */
  lemma GenerateNpmCount(lock: Lock, registry: Registry)
    requires Generate(lock, registry).Ok?
    ensures var jsrLists := All(JsrResults(JsrPkgs(lock.jsr.value), registry)).value;
            var npmLists := All(NpmResults(NpmPkgs(lock.npm.value), registry)).value;
            Generate(lock, registry).value == Flatten(jsrLists) + Flatten(npmLists) &&
            |Flatten(npmLists)| == 2 * |NpmPkgs(lock.npm.value)|
  {
    var jr := JsrResults(JsrPkgs(lock.jsr.value), registry);
    var nr := NpmResults(NpmPkgs(lock.npm.value), registry);
    AssembleSucceeds(jr, nr);
    var npmLists := All(nr).value;
    forall i | 0 <= i < |npmLists| ensures |npmLists[i]| == 2 {
      assert nr[i].Ok?;
    }
    FlattenUniform(npmLists, 2);
  }

  /** A lockfile with one jsr key `<module>@<version>` and no npm entries,
      whose version metadata lists one path `<dir>/<name>` in both the module
      graph and the manifest with checksum `<algorithm>-<value>`, gives three
      file descriptors: `meta.json`, `<version>_meta.json` and the file
      `name` in `vendor/jsr.io/<module>/<version><dir>` with the field
      `algorithm` holding `value`. */
  lemma SinglePackageRun(registry: Registry, key: string, moduleName: string, version: string,
                         path: string, dir: string, name: string,
                         checksum: string, algorithm: string, value: string)
    requires key == moduleName + "@" + version && '@' !in version
    requires path == dir + "/" + name && '/' !in name
    requires checksum == algorithm + "-" + value && '-' !in algorithm
    requires registry.parseVersionMeta(registry.fetch("https://jsr.io/" + moduleName + "/" + version + "_meta.json")) ==
             Some(VersionMeta([path], map[path := checksum]))
    ensures var out := Generate(Lock(Some([key]), Some([])), registry);
            out.Ok? && |out.value| == 3 &&
            out.value[0].File? && out.value[1].File? &&
            out.value[0].url == "https://jsr.io/" + moduleName + "/meta.json" &&
            out.value[0].destFilename == Some("meta.json") &&
            out.value[1].url == "https://jsr.io/" + moduleName + "/" + version + "_meta.json" &&
            out.value[1].destFilename == Some(version + "_meta.json") &&
            var base := moduleName + "/" + version;
            out.value[2] == File("https://jsr.io/" + base + dir + "/" + name, Checksum(algorithm, Some(value)),
                                 "vendor/jsr.io/" + base + dir, Some(name))
  {
    JsrKeySplitsAtLastAt(moduleName, version);
    GenerateSingleJsr(key, registry);
    var pkg := JsrPkg(key);
    SingleFileSources(pkg, registry, path, dir, name, checksum, algorithm, value);
  }

  lemma AllSingle<T>(r: Result<T, Error>)
    ensures All([r]) == if r.Ok? then Ok([r.value]) else Err(r.error)
  {
    assert [r][1..] == [];
    if r.Ok? {
      assert [r.value] + [] == [r.value];
    }
  }

  /** With one jsr key and no npm entries the run is that package's conversion. */
  lemma GenerateSingleJsr(key: string, registry: Registry)
    ensures Generate(Lock(Some([key]), Some([])), registry) == JsrSources(JsrPkg(key), registry)
  {
    var lock := Lock(Some([key]), Some([]));
    var pkg := JsrPkg(key);
    assert JsrPkgs([key]) == [pkg];
    assert NpmPkgs([]) == [];
    GenerateAssembles(lock, registry);
    assert NpmResults([], registry) == [];
    assert All(NpmResults([], registry)) == Ok([]);
    assert JsrResults([pkg], registry) == [JsrSources(pkg, registry)];
    AllSingle(JsrSources(pkg, registry));
    if JsrSources(pkg, registry).Ok? {
      var data := JsrSources(pkg, registry).value;
      assert Flatten([data]) == data + Flatten<Source>([]);
      assert Flatten([data]) + Flatten<Source>([]) == data;
    }
  }

  /** The conversion of a jsr package whose version metadata lists one
      manifested path. */
  lemma SingleFileSources(pkg: Pkg, registry: Registry, path: string, dir: string, name: string,
                          checksum: string, algorithm: string, value: string)
    requires path == dir + "/" + name && '/' !in name
    requires checksum == algorithm + "-" + value && '-' !in algorithm
    requires registry.parseVersionMeta(registry.fetch(VersionMetaUrl(pkg))) ==
             Some(VersionMeta([path], map[path := checksum]))
    ensures var base := pkg.moduleName + "/" + TemplateText(pkg.version);
            JsrSources(pkg, registry).Ok? &&
            JsrSources(pkg, registry).value ==
              MetaFiles(pkg, registry.fetch(MetaUrl(pkg)), registry.fetch(VersionMetaUrl(pkg)), registry.digest) +
              [File("https://jsr.io/" + base + dir + "/" + name, Checksum(algorithm, Some(value)),
                    "vendor/jsr.io/" + base + dir, Some(name))]
  {
    var meta := VersionMeta([path], map[path := checksum]);
    GraphFileOf(pkg, dir, name, algorithm, value);
    assert GraphFiles(pkg, meta.moduleGraph, meta.manifest) == [GraphFile(pkg, path, checksum)];
  }
}
