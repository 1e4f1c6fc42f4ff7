/** The records the generator emits: Flatpak source descriptors, one per file
    or archive to download, and the ways the run can fail. */
module Sources {
  import opened Wrappers

  /** The single checksum field of a descriptor. Its key is the algorithm name;
      its value is `None` where the generator computed `undefined`, in which
      case `JSON.stringify` leaves the field out. */
  datatype Checksum = Checksum(algorithm: string, value: Option<string>)

  /** `{type: "file", url, <algorithm>: value, dest, "dest-filename"}` and
      `{type: "archive", "archive-type", url, <algorithm>: value, dest, "only-arches"?}`. */
  datatype Source =
    | File(url: string, checksum: Checksum, dest: string, destFilename: Option<string>)
    | Archive(archiveType: string, url: string, checksum: Checksum, dest: string, onlyArches: Option<seq<string>>)

  /** What aborts a run: a lockfile section that is absent, a fetched document
      that does not parse to the expected shape, a version that the package
      document does not list, and an integrity value that does not decode. */
  datatype Error =
    | MissingLockSection(section: string)
    | MalformedDocument(url: string)
    | MissingVersion(moduleName: string, version: string)
    | MalformedIntegrity(integrity: string)

  /** `lists.flat()`: the lists one after the other. */
  function Flatten<T>(lists: seq<seq<T>>): seq<T>
    decreases |lists|
  {
    if lists == [] then [] else lists[0] + Flatten(lists[1..])
  }

  /** Flattening two runs of lists is flattening each and concatenating. */
  lemma {:induction false} FlattenAppend<T>(a: seq<seq<T>>, b: seq<seq<T>>)
    ensures Flatten(a + b) == Flatten(a) + Flatten(b)
    decreases |a|
  {
    if a == [] {
      assert a + b == b;
    } else {
      FlattenAppend(a[1..], b);
      assert (a + b)[0] == a[0];
      assert (a + b)[1..] == a[1..] + b;
    }
  }

  /** List `i` appears whole in the flattening, right after the lists before
      it: nothing is reordered, dropped or merged. */
  lemma FlattenBlock<T>(lists: seq<seq<T>>, i: nat)
    requires i < |lists|
    ensures var start := |Flatten(lists[..i])|;
            start + |lists[i]| <= |Flatten(lists)| &&
            Flatten(lists)[start..start + |lists[i]|] == lists[i]
  {
    assert lists == lists[..i] + [lists[i]] + lists[i + 1..];
    FlattenAppend(lists[..i] + [lists[i]], lists[i + 1..]);
    FlattenAppend(lists[..i], [lists[i]]);
    assert Flatten([lists[i]]) == lists[i];
  }

  /** Lists that all have `k` elements flatten to `k` times as many. */
  lemma {:induction false} FlattenUniform<T>(lists: seq<seq<T>>, k: nat)
    requires forall i :: 0 <= i < |lists| ==> |lists[i]| == k
    ensures |Flatten(lists)| == k * |lists|
    decreases |lists|
  {
    if lists != [] {
      FlattenUniform(lists[1..], k);
      assert k * |lists| == k + k * |lists[1..]|;
    }
  }
}
