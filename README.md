# flatpak-deno-generator, modelled in Dafny

`main.ts` of flatpak-deno-generator reads a Deno lockfile (`deno.lock`) and
writes `deno-sources.json`: a flat array of Flatpak source descriptors that let
flatpak-builder download, offline and checksum-verified, everything a Deno
project needs.

- **jsr packages.** For each key `<module>@<version>` of the lockfile's `jsr`
  section, the generator emits two `file` descriptors, one for `meta.json` and
  one for `<version>_meta.json`. Each carries the `sha256` of its fetched text
  and goes into `vendor/jsr.io/<module>`. Then it emits one `file` descriptor
  per key of `moduleGraph2` that has a `manifest` entry. Its checksum field is
  named by the text before the entry's first `-`. Its destination is the path
  split at its last `/`.
- **npm packages.** The generator keeps each entry of the `npm` section whose
  `os` is absent or starts with `linux`. For each one it emits a `file`
  descriptor for the registry document (`registry.json`). It then emits a
  `tar-gzip` `archive`, whose checksum field comes from the version's
  `dist.integrity`: the algorithm name, then the base64 digest re-encoded as
  lowercase hex. The archive gets `only-arches` when the lockfile names a CPU
  (`x64` becomes `x86_64`, `arm64` becomes `aarch64`).
- **Output.** All jsr lists come first, in lockfile order, then all npm lists.

The modules follow the program's structure:

| module | models |
|---|---|
| `Wrappers` | `Option` (JavaScript `undefined`) and `Result` (a thrown error) |
| `Strings` | `indexOf`, `lastIndexOf`, `splitOnce`, `split`/`join` on one character, `at`, template-literal text of a possibly undefined value |
| `Hex` | bytes, `b.toString(16).padStart(2, "0")`, the hex join in `sha256`, and a hex decoder as its inverse |
| `Base64` | a base64 codec (section 4 of RFC 4648, padded, canonical) standing for `decodeBase64`, and `base64ToHex` |
| `Sources` | the descriptor records, the errors that abort a run, `flat()` |
| `Lockfile` | turning the lockfile's `jsr` keys and `npm` entries into packages |
| `Jsr` | `jsrPkgToFlatpakData`, as a specification function plus the imperative loop proved against it |
| `Npm` | `npmPkgToFlatpakData` |
| `Generator` | the main block: the two `Promise.all` waves and the final flattening |

The world outside the program is a `Registry` value. It holds four functions:
`fetch` (url to body text), `digest` (SHA-256 of a text's UTF-8 bytes), and
the `JSON.parse` of a version-metadata document and of a registry document.
A package that has no version (a key without `@`) or no name is modelled with
`None`. Its template-literal text is then the word `undefined`, as in
JavaScript. A run that the code aborts ends in one of the errors the model
reports, as a `Result`:

- a missing lockfile section (a `TypeError` at `main.ts:176` or `main.ts:182`)
  is `MissingLockSection`;
- a document `JSON.parse` rejects (a `SyntaxError` at `main.ts:106` or
  `main.ts:137`), or one without the fields the code goes on to read, is
  `MalformedDocument`;
- a version the registry document lacks (a `TypeError` at `main.ts:148`) is
  `MissingVersion`;
- an integrity string without '-' or whose base64 does not decode is
  `MalformedIntegrity`. For the first case the code itself throws nothing at
  `main.ts:147-156`; see "## Left out".

Two consequences of the code are worth spelling out:

- `main.ts:202-209` awaits the whole jsr wave before it starts the npm fetches,
  because the array literal's elements are evaluated in order. The two waves
  therefore do not run concurrently, and a jsr failure wins over an npm one.
- A top-level graph file `/mod.ts` has `lastIndexOf("/")` equal to 0, so its
  directory part is empty and its destination is
  `vendor/jsr.io/<module>/<version>`, with no trailing `/`.
  `Generator.SinglePackageRun` proves this for every one-key lockfile
  `<module>@<version>` with one path `<dir>/<name>` and checksum
  `<alg>-<value>`, for example `@scope/pkg@1.0.0`, `/mod.ts` and
  `sha256-deadbeef`.

## Model

| member | source | states |
|---|---|---|
| Strings.ContainsChar | main.ts:190 | `includes` of a one-character string holds exactly when that character occurs |
| Strings.IndexOf | main.ts:72 | -1 exactly when the separator does not occur; otherwise an occurrence with no earlier one |
| Strings.IndexFrom | main.ts:72 | the first occurrence at or after `from`, or -1 when there is none from there on |
| Strings.LastIndexOf | main.ts:73 | -1 exactly when the separator does not occur; otherwise an occurrence with no later one |
| Strings.LastIndexFrom | main.ts:73 | the last occurrence at or before `from`, or -1 when there is none up to there |
| Strings.SplitOnce | main.ts:66-76 | one part, the whole string, exactly when the separator is absent; otherwise two parts that rejoin with the separator to the input, cut at the first (left) or last (right) occurrence |
| Strings.SplitOnceLeftPartClean | main.ts:71-75 | split to the left, the first part holds no occurrence of the separator |
| Strings.SplitOnceRightPartClean | main.ts:71-75 | split to the right, the second part holds no occurrence of the separator |
| Strings.SplitOnceAbsent | main.ts:74 | a string without the separator character comes back whole |
| Strings.SplitOnceLeftAt | main.ts:71-75 | `a + c + b` with `c` not in `a` splits to the left into exactly `[a, b]` |
| Strings.SplitOnceRightAt | main.ts:71-75 | `a + c + b` with `c` not in `b` splits to the right into exactly `[a, b]` |
| Strings.Split | main.ts:178 | `split` always gives at least one part |
| Strings.SplitStep | main.ts:178 | splitting at the first occurrence gives the prefix followed by the split of the rest |
| Strings.SplitJoin | main.ts:178 | joining the parts of `split(c)` with `c` gives back the string |
| Strings.SplitPartsClean | main.ts:178 | no part of `split(c)` contains `c` |
| Strings.SplitAbsent | main.ts:178 | a string without `c` splits into itself alone |
| Strings.SplitAround | main.ts:178 | `a + c + b` with `c` not in `a` splits into `a` followed by the parts of `b` |
| Strings.SplitCount | main.ts:178 | there are at least two parts exactly when `c` occurs |
| Strings.Join | main.ts:178 | the inverse of `split` by `Strings.SplitJoin`: the parts with the character between each two |
| Strings.At | main.ts:186 | `at(i)` is defined exactly for an index in range, and is then that element |
| Strings.TemplateText | main.ts:93 | a template literal shows a defined string as itself and `undefined` as the word "undefined" |
| Hex.HexDigit | main.ts:48 | the digit `toString(16)` writes for a nibble is a lowercase hex digit, a decimal digit exactly below 10 and a letter from 10 up |
| Hex.DigitValue | main.ts:48 | defined exactly on lowercase hex digits, and the inverse of the digit function there |
| Hex.DigitRoundTrip | main.ts:48 | every nibble's digit is a lowercase hex digit that reads back to the nibble |
| Hex.PadStart | main.ts:48 | `padStart` gives the longer of the string and the target length, ends with the string, and every character in front of it is the fill character |
| Hex.ToRadix16Byte | main.ts:48 | `toString(16)` of a byte is one digit below 16 and the two nibble digits from 16 up |
| Hex.PaddedRadix16IsTwoDigits | main.ts:48 | the padded radix-16 text of every byte is exactly two digits, high nibble first, with a leading '0' below 16 |
| Hex.ToRadix16 | main.ts:48 | `b.toString(16)`; its value on a byte is stated by `Hex.ToRadix16Byte` |
| Hex.PaddedRadix16 | main.ts:48 | `b.toString(16).padStart(2, "0")`; `Hex.PaddedRadix16IsTwoDigits` states it is the byte's two nibble digits |
| Hex.JoinedRadix16 | main.ts:47-49 | the map-and-join of the padded byte texts, as written; `Hex.JoinedRadix16IsHexEncode` ties it to `HexEncode` |
| Hex.JoinedRadix16IsHexEncode | main.ts:47-49 | the source's map-and-join of `padStart`ed radix-16 texts equals `HexEncode` on every byte sequence, so all `HexEncode` lemmas apply to it |
| Hex.HexEncode | main.ts:47-49 | the joined hex has two characters per byte |
| Hex.HexEncodeAt | main.ts:47-49 | characters `2i` and `2i+1` are the high and low nibble digits of byte `i` |
| Hex.HexEncodeIsLowerHex | main.ts:47-49 | every character of the output is a lowercase hex digit |
| Hex.HexRoundTrip | main.ts:47-49 | decoding the hex text gives back the bytes |
| Hex.HexDecodeInverse | main.ts:47-49 | any text that decodes to some bytes is exactly the encoding of those bytes, so the encoding is a bijection onto decodable texts |
| Hex.Sha256 | main.ts:42-50 | the result is the source's map-and-join of the digest bytes, has twice as many characters as the digest has bytes, is lowercase hex, and decodes back to the digest of the text |
| Base64.ValueOf | main.ts:60 | an alphabet character's value is below 64 and maps back to the character; the pad character has none |
| Base64.CharRoundTrip | main.ts:60 | each of the 64 values has a non-pad character that reads back to it |
| Base64.Encode | main.ts:60 | the encoding's length is a multiple of 4, and it is empty exactly for no bytes |
| Base64.Decode | main.ts:60 | a successful decode of a non-empty text gives at least one byte |
| Base64.DecodeGroup | main.ts:60 | a full group decodes to exactly three bytes |
| Base64.DecodeLast | main.ts:60 | the last group decodes to one to three bytes |
| Base64.DecodeEncodeGroup | main.ts:60 | a group of three bytes round-trips through its four characters |
| Base64.DecodeEncodeOne | main.ts:60 | one trailing byte (`xx==`) round-trips |
| Base64.DecodeEncodeTwo | main.ts:60 | two trailing bytes (`xxx=`) round-trip |
| Base64.DecodeEncodeStep | main.ts:60 | a round trip of the rest extends to one more leading group |
| Base64.DecodeEncode | main.ts:60 | decoding the encoding of any bytes gives back the bytes |
| Base64.EncodeDecodeGroup | main.ts:60 | a decodable full group is the encoding of its three bytes |
| Base64.EncodeDecodeLast | main.ts:60 | a decodable last group is the encoding of its bytes, so padding bits are zero |
| Base64.EncodeDecode | main.ts:60 | every text that decodes is the encoding of what it decodes to, so decoding is exact and canonical |
| Base64.Base64ToHex | main.ts:58-64 | defined exactly when the base64 text decodes, and the hex text then decodes to the same bytes |
| Base64.Base64ToHexOfEncode | main.ts:58-64 | the base64 of some bytes converts to the hex of those same bytes |
| Sources.Flatten | main.ts:205-209 | `flat()` of a list of lists; specified by `Sources.FlattenAppend`, `Sources.FlattenBlock` and `Sources.FlattenUniform` |
| Sources.FlattenAppend | main.ts:202-209 | `flat()` of two runs of lists is the concatenation of their flats |
| Sources.FlattenBlock | main.ts:202-209 | list `i` appears whole in `flat()`, right after the lists before it |
| Sources.FlattenUniform | main.ts:206-208 | lists of `k` elements each flatten to `k` times as many elements |
| Lockfile.JsrPkg | main.ts:176-180 | the jsr key callback: module and version from the split at the last '@', name as `split("/")[1]`; stated by `Lockfile.JsrKeySplitsAtLastAt`, `Lockfile.JsrKeyWithoutAt` and `Lockfile.JsrName` |
| Lockfile.JsrPkgs | main.ts:176-180 | one package per jsr key, in key order, each parsed from its key |
| Lockfile.JsrKeySplitsAtLastAt | main.ts:177-179 | `<module>@<version>` with no '@' in the version gives that module and version, also for a scoped `@scope/name` module |
| Lockfile.JsrKeyWithoutAt | main.ts:177-179 | a key without '@' is all module, with an undefined version |
| Lockfile.JsrName | main.ts:178 | the name is undefined exactly when the module has no '/', and is `n` for a module `<scope>/<n>` |
| Lockfile.NpmKept | main.ts:183-186 | the npm filter predicate; stated outright by `Lockfile.NpmKeptIff` |
| Lockfile.FirstCpu | main.ts:191 | `val.cpu?.at(0)`; stated by `Lockfile.NpmCpu` |
| Lockfile.MapCpu | main.ts:196 | the `x64`/`arm64` renaming; stated by `Lockfile.NpmCpu` |
| Lockfile.NpmName | main.ts:190 | the npm package name; stated by `Lockfile.NpmNameOf` |
| Lockfile.NpmPkg | main.ts:188-198 | the npm map callback; stated by `Lockfile.NpmKeySplitsAtLastAt`, `Lockfile.NpmNameOf` and `Lockfile.NpmCpu` |
| Lockfile.KeptEntries | main.ts:182-186 | the `.filter(...)`; stated by `Lockfile.KeptEntriesMembers` and `Lockfile.KeptEntriesAppend` |
| Lockfile.PkgsOf | main.ts:188-198 | the `.map(...)`; stated by `Lockfile.PkgsOfAppend` |
| Lockfile.NpmPkgs | main.ts:182-198 | filter then map; stated by `Lockfile.NpmPkgsAppend` and `Lockfile.NpmPkgsSingle` |
| Lockfile.NpmKeptIff | main.ts:183-186 | an npm entry is kept exactly when `os` is absent or its first element is "linux"; an empty `os` is dropped |
| Lockfile.KeptEntriesMembers | main.ts:182-186 | the filter keeps precisely the entries that pass the os test |
| Lockfile.KeptEntriesAppend | main.ts:182-186 | the filter distributes over concatenation, so it keeps order |
| Lockfile.PkgsOfAppend | main.ts:188-198 | the map distributes over concatenation |
| Lockfile.NpmPkgsAppend | main.ts:182-198 | filter-then-map distributes over concatenation of lockfile entries |
| Lockfile.NpmPkgsSingle | main.ts:182-198 | one entry gives its package when kept and nothing otherwise |
| Lockfile.NpmCpu | main.ts:191-196 | no or empty `cpu` gives none; `x64` becomes `x86_64`, `arm64` becomes `aarch64`, anything else passes through |
| Lockfile.NpmNameOf | main.ts:190 | a module without '/' is its own name; `<scope>/<n>` has name `n`; a name taken after a '/' holds no '/' |
| Lockfile.NpmKeySplitsAtLastAt | main.ts:189-195 | `<module>@<version>` with no '@' in the version gives that module and version |
| Jsr.MetaUrl | main.ts:80 | the `meta.json` url of a module |
| Jsr.VersionMetaUrl | main.ts:93 | the `<version>_meta.json` url, with `undefined` for a missing version |
| Jsr.VendorDir | main.ts:89 | the directory of both metadata files |
| Jsr.MetaFiles | main.ts:85-104 | the two metadata descriptors; stated by `Jsr.JsrPkgDataLayout` |
| Jsr.GraphFile | main.ts:109-125 | one graph file's descriptor; stated by `Jsr.GraphFileShape` and `Jsr.GraphFileOf` |
| Jsr.GraphFiles | main.ts:108-126 | the graph descriptors; stated by `Jsr.GraphFilesSnoc` and `Jsr.GraphFilesAreManifestedPaths` |
| Jsr.JsrPkgData | main.ts:78-128 | what `jsrPkgToFlatpakData` returns; the loop is proved equal to it and `Jsr.JsrPkgDataLayout` and `Jsr.JsrPkgDataCount` state it |
| Jsr.ChecksumOf | main.ts:112 | with no '-' the field is named by the whole string and holds undefined; otherwise the name holds no '-' and name, '-' and value rebuild the string |
| Jsr.JsrPkgToFlatpakData | main.ts:78-128 | the two pushes and then the loop of `Jsr.PushGraphFiles` produce exactly `JsrPkgData`: the two metadata descriptors, then one per key with a manifest entry, with the others skipped |
| Jsr.PushGraphFiles | main.ts:108-126 | the loop over the graph keys pushes onto the list exactly `GraphFiles`: one descriptor per key with a manifest entry, in graph order, the others skipped |
| Jsr.GraphFilesSnoc | main.ts:108-126 | one more graph key adds its descriptor at the end when it has a manifest entry, and nothing otherwise |
| Jsr.ManifestedPathsMembers | main.ts:109-111 | the paths that get a descriptor are exactly the graph keys found in the manifest |
| Jsr.GraphFilesAreManifestedPaths | main.ts:108-126 | the graph descriptors are one per manifested path, in graph order |
| Jsr.JsrPkgDataCount | main.ts:78-128 | a jsr package has 2 plus the number of manifested graph keys descriptors |
| Jsr.JsrPkgDataLayout | main.ts:80-126 | descriptors 0 and 1 are `meta.json` and `<version>_meta.json` with the hex SHA-256 of each text under `vendor/jsr.io/<module>`; then come the graph files in order |
| Jsr.GraphFileShape | main.ts:112-125 | url under the version; checksum field as split at the first '-'; file name after the last '/' with its directory appended to the version dir, or undefined with the whole path appended when there is no '/' |
| Jsr.GraphFileOf | main.ts:112-125 | path `<dir>/<name>` and checksum `<alg>-<value>` give exactly the file `name` in `vendor/jsr.io/<module>/<version><dir>` with field `alg` = `value` |
| Npm.RegistryUrl | main.ts:133 | the registry document url of a module |
| Npm.RegistryDir | main.ts:143 | the directory under `deno_dir/npm/registry.npmjs.org` |
| Npm.TarballUrl | main.ts:155 | the tarball url; stated by `Npm.NpmPkgData` |
| Npm.OnlyArches | main.ts:160-162 | `only-arches` is present exactly when the CPU is truthy (defined and non-empty), and is then the one-element list of it |
| Npm.NpmPkgData | main.ts:130-165 | success exactly when the version exists, its integrity has a '-' and the rest decodes; `MissingVersion` for a missing version, `MalformedIntegrity` for an integrity without '-' or whose base64 does not decode; on success the `registry.json` file and a `tar-gzip` archive with the tarball url, the version dest, a checksum field holding hex of the same bytes the integrity's base64 names, and `only-arches` exactly for a truthy CPU |
| Npm.ArchiveChecksumOfIntegrity | main.ts:147-158 | an integrity `<alg>-<base64 of bytes>` yields an archive checksum field `alg` holding the hex of those bytes |
| Generator.JsrResults | main.ts:204 | `jsrPkgs.map(jsrPkgToFlatpakData)`: one result per jsr package, in order, each that package's conversion |
| Generator.NpmResults | main.ts:206 | `npmPkgs.map(npmPkgToFlatpakData)`: one result per npm package, in order, each that package's conversion |
| Generator.JsrSources | main.ts:78-106 | a jsr package's fetches, parse and conversion; a failed parse is `MalformedDocument` of the version-metadata url, otherwise `JsrPkgData`; stated by `Generator.SingleFileSources` and `Generator.GenerateSucceeds` |
| Generator.NpmSources | main.ts:130-137 | an npm package's fetch and parse, then `NpmPkgData`; a failed parse is `MalformedDocument` of the registry url |
| Generator.Assemble | main.ts:202-209 | the two awaited waves, flattened and concatenated; stated by `Generator.AssembleSucceeds`, `Generator.AssembleConcat` and the block lemmas |
| Generator.Generate | main.ts:167-209 | the whole run; stated by `Generator.GenerateSucceeds`, `Generator.GenerateMissingSection`, `Generator.GenerateNpmCount` and `Generator.SinglePackageRun` |
| Generator.All | main.ts:203-206 | `Promise.all` succeeds exactly when every result does, with the values in order; a failure is one of the results, with all results before it successful |
| Generator.AssembleSucceeds | main.ts:202-209 | assembly succeeds exactly when every jsr and npm result does; a jsr failure is the failure reported |
| Generator.AssembleConcat | main.ts:202-209 | the output is the flattened jsr lists followed by the flattened npm lists |
| Generator.AssembleJsrBlocks | main.ts:202-205 | jsr package `i`'s list sits whole in the output right after the lists of the jsr packages before it |
| Generator.AssembleNpmBlocks | main.ts:202-209 | npm package `i`'s list sits whole after all jsr descriptors and the lists of the npm packages before it |
| Generator.GenerateAssembles | main.ts:176-209 | with both lockfile sections present, a run assembles the jsr results of the jsr keys and the npm results of the kept npm entries |
| Generator.JsrWaveSucceeds | main.ts:203-205 | the jsr wave succeeds exactly when every jsr package's conversion does |
| Generator.NpmWaveSucceeds | main.ts:206-208 | the npm wave succeeds exactly when every npm package's conversion does |
| Generator.GenerateSucceeds | main.ts:167-209 | a run succeeds exactly when both lockfile sections exist and every package's conversion succeeds |
| Generator.GenerateMissingSection | main.ts:176-182 | a lockfile without `jsr` aborts with that error; one with `jsr` but without `npm` aborts with the npm error |
| Generator.GenerateNpmCount | main.ts:202-209 | the output is the jsr descriptors followed by exactly two descriptors per kept npm package |
| Generator.GenerateSingleJsr | main.ts:176-209 | a lockfile with one jsr key and no npm entries produces exactly that package's descriptors |
| Generator.SingleFileSources | main.ts:78-128 | a jsr package whose metadata lists one manifested path has its two metadata files and that one graph file |
| Generator.SinglePackageRun | main.ts:78-209 | one jsr key `<module>@<version>` with one manifested path `<dir>/<name>` and checksum `<alg>-<value>` gives exactly three descriptors: `meta.json`, `<version>_meta.json`, and `name` in `vendor/jsr.io/<module>/<version><dir>` with `alg` = `value` |

## Left out

- File and network I/O are parameters of `Registry` or outside the model. This
  covers `fetch`, `Deno.readTextFileSync`, `Deno.writeTextFileSync`,
  `Deno.args`, the missing-argument message and `Deno.exit(1)`.
- `JSON.parse` is a parameter. A document it cannot turn into the fields the
  code reads is `MalformedDocument`. A version-metadata document without
  `moduleGraph2` is one. A document with an empty `moduleGraph2` object and no
  `manifest` is not modelled: the code never reads `manifest` then
  (`main.ts:108-109`) and returns the two metadata descriptors, but the model's
  parser either gives both fields or fails.
- `Registry.fetch` always returns a body text. A rejected `fetch` or `text()`,
  which aborts the run in the code, cannot happen in the model.
- `JSON.stringify` formatting of the output is left out. In the model, a field
  whose value is `undefined` (and which `JSON.stringify` therefore omits) is
  `None`.
- `crypto.subtle.digest` and `TextEncoder` are the abstract parameter `digest`.
  SHA-256 itself is not modelled.
- Generator.All: `Promise.all` runs its promises concurrently and rejects with
  the first rejection in time. The model reports the first failure in lockfile
  order. It does not model which failure wins when several packages fail, or
  any concurrency.
- Base64.Decode: the model's decoder is strict RFC 4648 base64: padded to a
  multiple of 4, standard alphabet, zero padding bits. It stands for
  `decodeBase64` of `@std/encoding`, which is not part of this model. The
  library's handling of malformed or non-canonical text is not modelled; the
  model reports such an integrity as `MalformedIntegrity`.
- Npm.NpmPkgData: an integrity without '-' makes the code pass `undefined` to
  `decodeBase64`. That library behaviour is not part of this model, and the
  model returns `MalformedIntegrity` instead.
- A checksum algorithm name that collides with another descriptor key (for
  example an integrity `url-...`) is not modelled. The code would overwrite
  that key, since the computed key `[checksumType]` shares the object.
- JavaScript objects list integer-like keys before other keys. The model takes
  `Object.keys` and `Object.entries` in the order given. It reads
  `manifest[fileUrl]` as a plain map lookup, so inherited properties such as
  `constructor` are ignored.
- A manifest entry is modelled by its `checksum` string. An entry object that
  has no `checksum` field is not modelled.
- A registry document is modelled by the map from each version to its
  `dist.integrity`. A version whose record lacks `dist` or `integrity` is not
  modelled separately.
- `_urlToDenoCacheFilename` (`main.ts:24-40`) is not modelled. Nothing calls
  it, and the URL parsing it needs is outside the model.
