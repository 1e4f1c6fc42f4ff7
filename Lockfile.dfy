/** The lockfile side of the generator: the `map`/`filter` callbacks that turn
    the `jsr` keys and the `npm` entries of a parsed `deno.lock` into package
    records. */
module Lockfile {
  import opened Wrappers
  import opened Strings

  /** The value of an `npm` lockfile entry, as far as the generator reads it. */
  datatype NpmEntry = NpmEntry(os: Option<seq<string>>, cpu: Option<seq<string>>)

  /** A parsed lockfile: the keys of `lock.jsr` and the entries of `lock.npm`,
      in the document's order; `None` where the field is absent. */
  datatype Lock = Lock(jsr: Option<seq<string>>, npm: Option<seq<(string, NpmEntry)>>)

  /** The `Pkg` record: `version`, `name` and `cpu` may be `undefined`. */
  datatype Pkg = Pkg(moduleName: string, version: Option<string>, name: Option<string>, cpu: Option<string>)

  /** The `lock.jsr` callback: split the key at its last '@'; the name is the
      second '/'-separated segment of the module. */
  function JsrPkg(key: string): Pkg
  {
    var r := SplitOnce(key, "@", Right);
    Pkg(r[0], At(r, 1), At(Split(r[0], '/'), 1), None)
  }

  /** `Object.keys(lock.jsr).map(...)`. */
  function JsrPkgs(keys: seq<string>): (pkgs: seq<Pkg>)
    ensures |pkgs| == |keys|
    ensures forall i :: 0 <= i < |keys| ==> pkgs[i] == JsrPkg(keys[i])
  {
    seq(|keys|, i requires 0 <= i < |keys| => JsrPkg(keys[i]))
  }

  /** A key `<module>@<version>` whose version holds no '@' gives back that
      module and version, even when the module itself starts with '@'. */
  lemma JsrKeySplitsAtLastAt(moduleName: string, version: string)
    requires '@' !in version
    ensures JsrPkg(moduleName + "@" + version).moduleName == moduleName
    ensures JsrPkg(moduleName + "@" + version).version == Some(version)
  {
    SplitOnceRightAt(moduleName, '@', version);
  }

  /** A key without '@' is all module, and its version is undefined. */
  lemma JsrKeyWithoutAt(key: string)
    requires '@' !in key
    ensures JsrPkg(key).moduleName == key && JsrPkg(key).version == None
  {
    SplitOnceAbsent(key, '@', Right);
  }

  /** The name of a jsr package: undefined for a module without '/', and `n`
      for a module `<scope>/<n>` whose parts hold no '/'. */
  lemma JsrName(key: string)
    ensures var m := JsrPkg(key).moduleName;
            JsrPkg(key).name.None? <==> '/' !in m
    ensures var m := JsrPkg(key).moduleName;
            forall scope, n :: m == scope + "/" + n && '/' !in scope && '/' !in n ==> JsrPkg(key).name == Some(n)
  {
    var m := JsrPkg(key).moduleName;
    SplitCount(m, '/');
    forall scope, n | m == scope + "/" + n && '/' !in scope && '/' !in n
      ensures JsrPkg(key).name == Some(n)
    {
      SplitAround(scope, '/', n);
      SplitAbsent(n, '/');
    }
  }

  /** The `lock.npm` filter callback: `val.os === undefined || val.os?.at(0) === "linux"`. */
  predicate NpmKept(entry: NpmEntry)
  {
    entry.os.None? || At(entry.os.value, 0) == Some("linux")
  }

  /** An entry is kept exactly when it lists no `os`, or lists "linux" first;
      an empty `os` list excludes it. */
  lemma NpmKeptIff(entry: NpmEntry)
    ensures NpmKept(entry) <==> entry.os.None? || (|entry.os.value| > 0 && entry.os.value[0] == "linux")
  {
  }

  /** `val.cpu?.at(0)`. */
  function FirstCpu(entry: NpmEntry): Option<string>
  {
    match entry.cpu
    case None => None
    case Some(cpus) => At(cpus, 0)
  }

  /** `cpu === "x64" ? "x86_64" : cpu === "arm64" ? "aarch64" : cpu`. */
  function MapCpu(cpu: Option<string>): Option<string>
  {
    if cpu == Some("x64") then Some("x86_64")
    else if cpu == Some("arm64") then Some("aarch64")
    else cpu
  }

  /** `r[0].includes("/") ? r[0].split("/")[1] : r[0]`. */
  function NpmName(moduleName: string): string
  {
    if IndexOf(moduleName, "/") != -1 then
      ContainsChar(moduleName, '/');
      SplitCount(moduleName, '/');
      Split(moduleName, '/')[1]
    else moduleName
  }

  /** The `lock.npm` map callback. */
  function NpmPkg(key: string, entry: NpmEntry): Pkg
  {
    var r := SplitOnce(key, "@", Right);
    Pkg(r[0], At(r, 1), Some(NpmName(r[0])), MapCpu(FirstCpu(entry)))
  }

  /** `Object.entries(lock.npm).filter(...)`. */
  function KeptEntries(entries: seq<(string, NpmEntry)>): seq<(string, NpmEntry)>
    decreases |entries|
  {
    if entries == [] then []
    else (if NpmKept(entries[0].1) then [entries[0]] else []) + KeptEntries(entries[1..])
  }

  /** The `.map(...)` over the kept entries. */
  function PkgsOf(kept: seq<(string, NpmEntry)>): (pkgs: seq<Pkg>)
  {
    seq(|kept|, i requires 0 <= i < |kept| => NpmPkg(kept[i].0, kept[i].1))
  }

  /** `Object.entries(lock.npm).filter(...).map(...)`. */
  function NpmPkgs(entries: seq<(string, NpmEntry)>): (pkgs: seq<Pkg>)
  {
    PkgsOf(KeptEntries(entries))
  }

  /** The filter keeps precisely the entries that pass `NpmKept`. */
  lemma {:induction false} KeptEntriesMembers(entries: seq<(string, NpmEntry)>)
    ensures forall e :: e in KeptEntries(entries) <==> e in entries && NpmKept(e.1)
    decreases |entries|
  {
    if entries != [] {
      KeptEntriesMembers(entries[1..]);
      assert entries == [entries[0]] + entries[1..];
    }
  }

  /** The filter works entry by entry: filtering a concatenation concatenates
      the filtered parts, so the kept entries keep their input order. */
  lemma {:induction false} KeptEntriesAppend(a: seq<(string, NpmEntry)>, b: seq<(string, NpmEntry)>)
    ensures KeptEntries(a + b) == KeptEntries(a) + KeptEntries(b)
    decreases |a|
  {
    if a == [] {
      assert a + b == b;
    } else {
      KeptEntriesAppend(a[1..], b);
      assert (a + b)[0] == a[0];
      assert (a + b)[1..] == a[1..] + b;
    }
  }

  lemma PkgsOfAppend(a: seq<(string, NpmEntry)>, b: seq<(string, NpmEntry)>)
    ensures PkgsOf(a + b) == PkgsOf(a) + PkgsOf(b)
  {
    var l, r := PkgsOf(a + b), PkgsOf(a) + PkgsOf(b);
    assert |l| == |r|;
    forall i | 0 <= i < |l| ensures l[i] == r[i] {
      if i < |a| {
        assert (a + b)[i] == a[i];
      } else {
        assert (a + b)[i] == b[i - |a|];
      }
    }
  }

  /** The package list, like the filter, works entry by entry: the packages
      of a concatenation are the packages of each part, in order. */
  lemma NpmPkgsAppend(a: seq<(string, NpmEntry)>, b: seq<(string, NpmEntry)>)
    ensures NpmPkgs(a + b) == NpmPkgs(a) + NpmPkgs(b)
  {
    KeptEntriesAppend(a, b);
    PkgsOfAppend(KeptEntries(a), KeptEntries(b));
  }

  /** One entry gives one package when it is kept and none otherwise. */
  lemma NpmPkgsSingle(key: string, entry: NpmEntry)
    ensures NpmPkgs([(key, entry)]) == if NpmKept(entry) then [NpmPkg(key, entry)] else []
  {
    var e := (key, entry);
    assert [e][1..] == [];
    assert KeptEntries([e]) == (if NpmKept(entry) then [e] else []) + KeptEntries([]);
  }

  /** The architecture of a kept npm entry: the first `cpu` element, with "x64"
      and "arm64" renamed to Flatpak's "x86_64" and "aarch64"; unset when
      `cpu` is absent or empty. */
  lemma NpmCpu(key: string, entry: NpmEntry)
    ensures entry.cpu.None? || entry.cpu.value == [] ==> NpmPkg(key, entry).cpu == None
    ensures entry.cpu.Some? && entry.cpu.value != [] ==>
              var first := entry.cpu.value[0];
              NpmPkg(key, entry).cpu ==
                Some(if first == "x64" then "x86_64" else if first == "arm64" then "aarch64" else first)
  {
  }

  /** The name of an npm package: the module itself when it has no '/', and
      `n` for a module `<scope>/<n>` whose parts hold no '/'. */
  lemma NpmNameOf(moduleName: string)
    ensures '/' !in moduleName ==> NpmName(moduleName) == moduleName
    ensures forall scope, n :: moduleName == scope + "/" + n && '/' !in scope && '/' !in n ==> NpmName(moduleName) == n
    ensures '/' in moduleName ==> '/' !in NpmName(moduleName)
  {
    ContainsChar(moduleName, '/');
    forall scope, n | moduleName == scope + "/" + n && '/' !in scope && '/' !in n
      ensures NpmName(moduleName) == n
    {
      SplitAround(scope, '/', n);
      SplitAbsent(n, '/');
    }
    if '/' in moduleName {
      SplitPartsClean(moduleName, '/');
    }
  }

  /** An npm key splits like a jsr key: at its last '@'. */
  lemma NpmKeySplitsAtLastAt(moduleName: string, version: string, entry: NpmEntry)
    requires '@' !in version
    ensures NpmPkg(moduleName + "@" + version, entry).moduleName == moduleName
    ensures NpmPkg(moduleName + "@" + version, entry).version == Some(version)
  {
    SplitOnceRightAt(moduleName, '@', version);
  }
}
