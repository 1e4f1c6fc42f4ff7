/** `npmPkgToFlatpakData`: the two descriptors for one npm package, built from
    the registry document it fetches. The text, its parsed form and the
    SHA-256 digest are inputs. */
module Npm {
  import opened Wrappers
  import opened Strings
  import opened Hex
  import Base64
  import opened Sources
  import opened Lockfile

  /** The part of the registry document the generator reads: for each version
      key of `versions`, its `dist.integrity` string. */
  datatype Packument = Packument(integrity: map<string, string>)

  function RegistryUrl(pkg: Pkg): string
  {
    "https://registry.npmjs.org/" + pkg.moduleName
  }

  /** `deno_dir/npm/registry.npmjs.org/<module>`. */
  function RegistryDir(pkg: Pkg): string
  {
    "deno_dir/npm/registry.npmjs.org/" + pkg.moduleName
  }

  function TarballUrl(pkg: Pkg): string
  {
    RegistryUrl(pkg) + "/-/" + TemplateText(pkg.name) + "-" + TemplateText(pkg.version) + ".tgz"
  }

  /** `if (pkg.cpu) pkgData["only-arches"] = [pkg.cpu]`: JavaScript truthiness,
      so an empty string sets nothing either. */
  function OnlyArches(cpu: Option<string>): (r: Option<seq<string>>)
    ensures r.Some? <==> cpu.Some? && cpu.value != ""
    ensures r.Some? ==> r.value == [cpu.value]
  {
    if cpu.Some? && cpu.value != "" then Some([cpu.value]) else None
  }

  /** The integrity split at its first '-' when it has one. */
  predicate IntegrityParts(integrity: string, algorithm: string, base64Value: string)
  {
    '-' !in algorithm && integrity == algorithm + "-" + base64Value
  }

  /** `npmPkgToFlatpakData(pkg)` once the registry document is fetched and
      parsed: the `registry.json` file and the `tar-gzip` archive, or the
      error that aborts the run. */
  function NpmPkgData(pkg: Pkg, metaText: string, meta: Packument, digest: string -> seq<Byte>): (r: Result<seq<Source>, Error>)
    ensures var v := TemplateText(pkg.version);
            r.Ok? <==> v in meta.integrity &&
                       var parts := SplitOnce(meta.integrity[v], "-");
                       |parts| == 2 && Base64.Decode(parts[1]).Some?
    ensures var v := TemplateText(pkg.version);
            v in meta.integrity && '-' !in meta.integrity[v] ==> r == Err(MalformedIntegrity(meta.integrity[v]))
    ensures var v := TemplateText(pkg.version);
            (v in meta.integrity && |SplitOnce(meta.integrity[v], "-")| == 2 &&
             Base64.Decode(SplitOnce(meta.integrity[v], "-")[1]).None?) ==>
              r == Err(MalformedIntegrity(meta.integrity[v]))
    ensures TemplateText(pkg.version) !in meta.integrity ==>
              r == Err(MissingVersion(pkg.moduleName, TemplateText(pkg.version)))
    ensures r.Ok? ==> |r.value| == 2
    ensures r.Ok? ==> r.value[0] == File(RegistryUrl(pkg), Checksum("sha256", Some(HexEncode(digest(metaText)))),
                                         RegistryDir(pkg), Some("registry.json"))
    ensures r.Ok? ==> var a := r.value[1];
              a.Archive? && a.archiveType == "tar-gzip" &&
              a.url == "https://registry.npmjs.org/" + pkg.moduleName + "/-/" +
                       TemplateText(pkg.name) + "-" + TemplateText(pkg.version) + ".tgz" &&
              a.dest == "deno_dir/npm/registry.npmjs.org/" + pkg.moduleName + "/" + TemplateText(pkg.version) &&
              a.checksum.value.Some? &&
              (exists b64 :: IntegrityParts(meta.integrity[TemplateText(pkg.version)], a.checksum.algorithm, b64) &&
                             HexDecode(a.checksum.value.value) == Base64.Decode(b64)) &&
              (a.onlyArches.Some? <==> pkg.cpu.Some? && pkg.cpu.value != "") &&
              (a.onlyArches.Some? ==> a.onlyArches.value == [pkg.cpu.value])
  {
    var metaData := File(RegistryUrl(pkg), Checksum("sha256", Some(Sha256(digest, metaText))),
                         RegistryDir(pkg), Some("registry.json"));
    var version := TemplateText(pkg.version);
    if version !in meta.integrity then Err(MissingVersion(pkg.moduleName, version))
    else
      var integrity := meta.integrity[version];
      var parts := SplitOnce(integrity, "-");
      ContainsChar(integrity, '-');
      if |parts| == 1 then Err(MalformedIntegrity(integrity))
      else
        SplitOnceLeftPartClean(integrity, "-");
        ContainsChar(parts[0], '-');
        assert IntegrityParts(integrity, parts[0], parts[1]);
        match Base64.Base64ToHex(parts[1])
        case None => Err(MalformedIntegrity(integrity))
        case Some(hex) =>
          Ok([metaData,
              Archive("tar-gzip", TarballUrl(pkg), Checksum(parts[0], Some(hex)),
                      RegistryDir(pkg) + "/" + version, OnlyArches(pkg.cpu))])
  }

  /** An integrity `<algorithm>-<base64 of the digest bytes>` gives an archive
      checksum field named `<algorithm>` holding those bytes in hex. */
  lemma ArchiveChecksumOfIntegrity(pkg: Pkg, metaText: string, meta: Packument, digest: string -> seq<Byte>,
                                   algorithm: string, bytes: seq<Byte>)
    requires '-' !in algorithm
    requires TemplateText(pkg.version) in meta.integrity
    requires meta.integrity[TemplateText(pkg.version)] == algorithm + "-" + Base64.Encode(bytes)
    ensures NpmPkgData(pkg, metaText, meta, digest).Ok?
    ensures NpmPkgData(pkg, metaText, meta, digest).value[1].checksum == Checksum(algorithm, Some(HexEncode(bytes)))
  {
    var integrity := algorithm + "-" + Base64.Encode(bytes);
    assert integrity == algorithm + ['-'] + Base64.Encode(bytes);
    SplitOnceLeftAt(algorithm, '-', Base64.Encode(bytes));
    Base64.Base64ToHexOfEncode(bytes);
    Base64.DecodeEncode(bytes);
  }
}
