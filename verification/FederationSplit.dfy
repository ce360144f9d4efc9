/** Splitting the federation configuration into the keys of a secret, and mounting them as files. */
module FederationSplit {
  import opened Decimal
  import opened FilePaths
  import opened Sequences
  import opened StringOrder

  const FILENAMES := "_filenames.json"
  const VOLUME := "federation-realm-volume"
  const SECRET := "keystone-multirealm-federation-secret"

  datatype Volume = Volume(name: string, secretName: string)

  datatype Mount = Mount(name: string, mountPath: string, subPath: string)

  // ----- Writing the secret -----

  ghost function Indices(n: nat): set<string> {
    set i: nat | i < n :: Itoa(i)
  }

  lemma {:induction false} IndicesNext(n: nat)
    ensures Indices(n + 1) == Indices(n) + {Itoa(n)}
    ensures FILENAMES !in Indices(n) && Itoa(n) !in Indices(n)
  {
    forall i: nat | i < n
      ensures Itoa(i) != FILENAMES && Itoa(i) != Itoa(n)
    {
      assert FILENAMES[0] == '_';
      if Itoa(i) == Itoa(n) {
        ItoaInjective(i, n);
      }
    }
  }

  /** data holds the contents of the first n files under their positions in the list of names. */
  ghost predicate HoldsFirst(configs: map<string, string>, names: seq<string>, data: map<string, string>, n: nat) {
    && n <= |names|
    && (forall i: nat | i < n :: names[i] in configs && Itoa(i) in data && data[Itoa(i)] == configs[names[i]])
  }

  lemma HoldsNext(configs: map<string, string>, names: seq<string>, data: map<string, string>, key: string,
                  value: string, n: nat)
    requires HoldsFirst(configs, names, data, n) && key !in Indices(n)
    ensures HoldsFirst(configs, names, data[key := value], n)
  {
    forall i: nat | i < n
      ensures Itoa(i) != key
    {
      assert Itoa(i) in Indices(n);
    }
  }

  lemma HoldsMore(configs: map<string, string>, names: seq<string>, data: map<string, string>, n: nat)
    requires HoldsFirst(configs, names, data, n) && n < |names| && names[n] in configs
    requires Itoa(n) in data && data[Itoa(n)] == configs[names[n]]
    ensures HoldsFirst(configs, names, data, n + 1)
  {
  }

  /** data holds the contents under their positions in the list of names, and the list itself. */
  ghost predicate IsSplit(configs: map<string, string>, names: seq<string>, data: map<string, string>,
                          marshal: seq<string> -> string) {
    && Lists(names, configs.Keys)
    && data.Keys == Indices(|names|) + {FILENAMES}
    && data[FILENAMES] == marshal(names)
    && HoldsFirst(configs, names, data, |names|)
  }

  /** The contents of the first n files. */
  ghost function Split(configs: map<string, string>, names: seq<string>, n: nat): map<string, string>
    requires n <= |names| && forall i: nat | i < |names| :: names[i] in configs
  {
    if n == 0 then map[] else Split(configs, names, n - 1)[Itoa(n - 1) := configs[names[n - 1]]]
  }

  lemma {:induction false} SplitKeys(configs: map<string, string>, names: seq<string>, n: nat)
    requires n <= |names| && forall i: nat | i < |names| :: names[i] in configs
    ensures Split(configs, names, n).Keys == Indices(n)
  {
    if n > 0 {
      SplitKeys(configs, names, n - 1);
      IndicesNext(n - 1);
    }
  }

  lemma {:induction false} SplitHolds(configs: map<string, string>, names: seq<string>, n: nat)
    requires n <= |names| && forall i: nat | i < |names| :: names[i] in configs
    ensures HoldsFirst(configs, names, Split(configs, names, n), n)
  {
    if n > 0 {
      SplitHolds(configs, names, n - 1);
      IndicesNext(n - 1);
      HoldsNext(configs, names, Split(configs, names, n - 1), Itoa(n - 1), configs[names[n - 1]], n - 1);
      HoldsMore(configs, names, Split(configs, names, n), n - 1);
    }
  }

  lemma SplitDone(configs: map<string, string>, names: seq<string>, marshal: seq<string> -> string)
    requires Lists(names, configs.Keys)
    ensures forall i: nat | i < |names| :: names[i] in configs
    ensures IsSplit(configs, names, Split(configs, names, |names|)[FILENAMES := marshal(names)], marshal)
  {
    assert forall i: nat | i < |names| :: names[i] in configs.Keys;
    SplitKeys(configs, names, |names|);
    SplitHolds(configs, names, |names|);
    IndicesNext(|names|);
    HoldsNext(configs, names, Split(configs, names, |names|), FILENAMES, marshal(names), |names|);
  }

  /** Its loop over the sorted file names. */
  method FillContents(configs: map<string, string>, names: seq<string>) returns (data: map<string, string>)
    requires forall i: nat | i < |names| :: names[i] in configs
    ensures data == Split(configs, names, |names|)
  {
    data := map[];
    var i := 0;
    while i < |names|
      invariant 0 <= i <= |names| && data == Split(configs, names, i)
    {
      data := data[Itoa(i) := configs[names[i]]];
      i := i + 1;
    }
  }

  /** The part of ensureFederationRealmConfig between parsing the configuration and storing the new
      secret; marshal stands for the JSON encoding of a list. */
  method SplitConfigs(configs: map<string, string>, marshal: seq<string> -> string)
    returns (names: seq<string>, data: map<string, string>)
    ensures names == Listing(configs.Keys) && IsSplit(configs, names, data, marshal)
  {
    names := SortedKeys(configs.Keys);
    SplitDone(configs, names, marshal);
    data := FillContents(configs, names);
    data := data[FILENAMES := marshal(names)];
  }

  // ----- Mounting it -----

  function MountOf(dir: string, names: seq<string>, i: nat): Mount
    requires i < |names|
  {
    Mount(VOLUME + Itoa(i), Join(dir, names[i]), Itoa(i))
  }

  ghost predicate MountsOfFirst(dir: string, names: seq<string>, mounts: seq<Mount>) {
    |mounts| <= |names| && forall i | 0 <= i < |mounts| :: mounts[i] == MountOf(dir, names, i)
  }

  lemma MountsMore(dir: string, names: seq<string>, mounts: seq<Mount>)
    requires MountsOfFirst(dir, names, mounts) && |mounts| < |names|
    ensures MountsOfFirst(dir, names, mounts + [MountOf(dir, names, |mounts|)])
  {
  }

  /** getFederationVolumeMounts */
  method FederationVolumeMounts(dir: string, names: seq<string>) returns (mounts: seq<Mount>)
    ensures MountsOf(dir, names, mounts)
  {
    mounts := [];
    var index := 0;
    while index < |names|
      invariant 0 <= index <= |names| && |mounts| == index && MountsOfFirst(dir, names, mounts)
    {
      MountsMore(dir, names, mounts);
      mounts := mounts + [Mount(VOLUME + Itoa(index), Join(dir, names[index]), Itoa(index))];
      index := index + 1;
    }
  }

  /** getFederationVolumes */
  method FederationVolumes(names: seq<string>) returns (volumes: seq<Volume>)
    ensures VolumesOf(names, volumes)
  {
    volumes := [];
    var index := 0;
    while index < |names|
      invariant 0 <= index <= |names| && |volumes| == index
      invariant forall i | 0 <= i < index :: volumes[i] == Volume(VOLUME + Itoa(i), SECRET)
    {
      volumes := volumes + [Volume(VOLUME + Itoa(index), SECRET)];
      index := index + 1;
    }
  }

  /** The mount of the directory itself, which the deployment puts before those of the files. */
  function DirectoryMount(dir: string): Mount {
    Mount("federation-realm-dir", dir, "")
  }

  // ----- What the container sees -----

  /** A mount shows the named key of the secret behind the volume of its name. */
  ghost predicate Shows(m: Mount, volumes: seq<Volume>, data: map<string, string>, path: string, content: string) {
    && m.mountPath == path
    && Backed(m, volumes)
    && m.subPath in data && data[m.subPath] == content
  }

  ghost predicate Backed(m: Mount, volumes: seq<Volume>) {
    exists v :: v in volumes && v.name == m.name && v.secretName == SECRET
  }

  /** The container has a file at this path with this content. */
  ghost predicate File(volumes: seq<Volume>, mounts: seq<Mount>, data: map<string, string>, path: string,
                       content: string) {
    exists m :: m in mounts && Shows(m, volumes, data, path, content)
  }

  ghost predicate MountsOf(dir: string, names: seq<string>, mounts: seq<Mount>) {
    |mounts| == |names| && MountsOfFirst(dir, names, mounts)
  }

  ghost predicate VolumesOf(names: seq<string>, volumes: seq<Volume>) {
    |volumes| == |names| && forall i | 0 <= i < |names| :: volumes[i] == Volume(VOLUME + Itoa(i), SECRET)
  }

  /** Volume names are unique, and every mount names one of the volumes. */
  ghost predicate Sound(volumes: seq<Volume>, mounts: seq<Mount>) {
    && (forall i, j | 0 <= i < j < |volumes| :: volumes[i].name != volumes[j].name)
    && (forall i | 0 <= i < |mounts| :: Backed(mounts[i], volumes))
  }

  /** No path is mounted twice, which the API server demands. */
  ghost predicate PathsUnique(mounts: seq<Mount>) {
    forall i, j | 0 <= i < j < |mounts| :: mounts[i].mountPath != mounts[j].mountPath
  }

  /** Following two file names from the directory never leads to the same place. */
  ghost predicate DistinctPlaces(dir: string, files: set<string>) {
    forall a, b | a in files && b in files && a != b :: LocationOf(dir, a) != LocationOf(dir, b)
  }

  ghost predicate LeadsBack(dir: string, file: string) {
    LocationOf(dir, file) == LocationOf(dir, "")
  }

  lemma MountsSound(names: seq<string>, dir: string, volumes: seq<Volume>, mounts: seq<Mount>)
    requires MountsOf(dir, names, mounts) && VolumesOf(names, volumes)
    ensures Sound(volumes, mounts)
  {
    forall i, j | 0 <= i < j < |names|
      ensures volumes[i].name != volumes[j].name
    {
      if VOLUME + Itoa(i) == VOLUME + Itoa(j) {
        SuffixInjective(VOLUME, Itoa(i), Itoa(j));
        ItoaInjective(i, j);
      }
    }
    forall i | 0 <= i < |mounts|
      ensures Backed(mounts[i], volumes)
    {
      assert volumes[i] in volumes;
    }
  }

  lemma SuffixInjective(p: string, a: string, b: string)
    requires p + a == p + b
    ensures a == b
  {
    assert (p + a)[|p|..] == a && (p + b)[|p|..] == b;
  }

  /** Mount paths are unique exactly if no two file names lead to the same place. */
  lemma MountsAcceptedIff(names: seq<string>, files: set<string>, dir: string, volumes: seq<Volume>, mounts: seq<Mount>)
    requires Lists(names, files) && MountsOf(dir, names, mounts) && VolumesOf(names, volumes)
    ensures Sound(volumes, mounts) && (PathsUnique(mounts) <==> DistinctPlaces(dir, files))
  {
    MountsSound(names, dir, volumes, mounts);
    if PathsUnique(mounts) {
      forall a, b | a in files && b in files && a != b
        ensures LocationOf(dir, a) != LocationOf(dir, b)
      {
        var i: nat :| i < |names| && names[i] == a;
        var j: nat :| j < |names| && names[j] == b;
        assert mounts[i].mountPath == Join(dir, a) && mounts[j].mountPath == Join(dir, b);
        JoinEqualIff(dir, a, b);
      }
    }
    if DistinctPlaces(dir, files) {
      forall i, j | 0 <= i < j < |mounts|
        ensures mounts[i].mountPath != mounts[j].mountPath
      {
        assert names[i] in files && names[j] in files && names[i] != names[j];
        JoinEqualIff(dir, names[i], names[j]);
      }
    }
  }

  /** The pod also mounts the directory itself, so no file name may lead back to it either. */
  lemma PodAcceptedIff(names: seq<string>, files: set<string>, dir: string, mounts: seq<Mount>)
    requires Lists(names, files) && MountsOf(dir, names, mounts) && dir != "" && Clean(dir) == dir
    ensures PathsUnique([DirectoryMount(dir)] + mounts) <==>
            PathsUnique(mounts) && forall file | file in files :: !LeadsBack(dir, file)
  {
    OneMore(DirectoryMount(dir), mounts);
    forall i | 0 <= i < |names|
      ensures mounts[i].mountPath == dir <==> LeadsBack(dir, names[i])
    {
      AtDirectory(dir, names[i]);
      assert mounts[i].mountPath == Join(dir, names[i]);
    }
    assert forall file :: file in files <==> file in names;
  }

  lemma OneMore(m: Mount, mounts: seq<Mount>)
    ensures PathsUnique([m] + mounts) <==>
            PathsUnique(mounts) && forall i | 0 <= i < |mounts| :: mounts[i].mountPath != m.mountPath
  {
    var all := [m] + mounts;
    if PathsUnique(all) {
      forall i, j | 0 <= i < j < |mounts|
        ensures mounts[i].mountPath != mounts[j].mountPath
      {
        assert all[i + 1].mountPath != all[j + 1].mountPath;
      }
      forall i | 0 <= i < |mounts|
        ensures mounts[i].mountPath != m.mountPath
      {
        assert all[0].mountPath != all[i + 1].mountPath;
      }
    }
  }

  lemma AtDirectory(dir: string, file: string)
    requires dir != "" && Clean(dir) == dir
    ensures Join(dir, file) == dir <==> LeadsBack(dir, file)
  {
    JoinNothing(dir);
    JoinEqualIff(dir, file, "");
  }

  lemma JoinNothing(dir: string)
    requires dir != ""
    ensures Join(dir, "") == Clean(dir)
  {
    JoinIs(dir, "");
    assert Segments("") == [""];
    ResolveOne("", Resolve(Segments(dir), [], Rooted(dir)), Rooted(dir));
  }

  /** Plain file names never clash; a name and the same name after "./" do. */
  lemma PlainFilesAccepted(dir: string, files: set<string>)
    requires dir != ""
    ensures (forall file | file in files :: Plain(file)) ==> DistinctPlaces(dir, files)
    ensures forall file | file in files && Plain(file) && "./" + file in files :: !DistinctPlaces(dir, files)
  {
    forall a, b | a in files && b in files && a != b && Plain(a) && Plain(b)
      ensures LocationOf(dir, a) != LocationOf(dir, b)
    {
      JoinEqualIff(dir, a, b);
      if Join(dir, a) == Join(dir, b) {
        PlainInjective(dir, a, b);
      }
    }
    forall file | file in files && Plain(file) && "./" + file in files
      ensures !DistinctPlaces(dir, files)
    {
      DotCollides(dir, file);
      JoinEqualIff(dir, "./" + file, file);
      assert |"./" + file| == |file| + 2;
    }
  }

  /** Some configured file denotes this path and has this content. */
  ghost predicate Configured(configs: map<string, string>, dir: string, path: string, content: string) {
    exists file :: file in configs && Join(dir, file) == path && configs[file] == content
  }

  /** The files in the container are exactly the configured ones at their paths, with their contents. */
  lemma FilesExactly(configs: map<string, string>, names: seq<string>, data: map<string, string>,
                     marshal: seq<string> -> string, dir: string, volumes: seq<Volume>, mounts: seq<Mount>,
                     path: string, content: string)
    requires IsSplit(configs, names, data, marshal) && MountsOf(dir, names, mounts) && VolumesOf(names, volumes)
    ensures File(volumes, mounts, data, path, content) <==> Configured(configs, dir, path, content)
  {
    if File(volumes, mounts, data, path, content) {
      FileConfigured(configs, names, data, marshal, dir, volumes, mounts, path, content);
    }
    if Configured(configs, dir, path, content) {
      ConfiguredFile(configs, names, data, marshal, dir, volumes, mounts, path, content);
    }
  }

  lemma FileConfigured(configs: map<string, string>, names: seq<string>, data: map<string, string>,
                       marshal: seq<string> -> string, dir: string, volumes: seq<Volume>, mounts: seq<Mount>,
                       path: string, content: string)
    requires IsSplit(configs, names, data, marshal) && MountsOf(dir, names, mounts)
    requires File(volumes, mounts, data, path, content)
    ensures Configured(configs, dir, path, content)
  {
    var m :| m in mounts && Shows(m, volumes, data, path, content);
    var i: nat :| i < |mounts| && mounts[i] == m;
    assert m == MountOf(dir, names, i);
    assert names[i] in configs && Join(dir, names[i]) == path && configs[names[i]] == content;
  }

  lemma ConfiguredFile(configs: map<string, string>, names: seq<string>, data: map<string, string>,
                       marshal: seq<string> -> string, dir: string, volumes: seq<Volume>, mounts: seq<Mount>,
                       path: string, content: string)
    requires IsSplit(configs, names, data, marshal) && MountsOf(dir, names, mounts) && VolumesOf(names, volumes)
    requires Configured(configs, dir, path, content)
    ensures File(volumes, mounts, data, path, content)
  {
    MountsSound(names, dir, volumes, mounts);
    var file :| file in configs && Join(dir, file) == path && configs[file] == content;
    assert file in configs.Keys;
    var i: nat :| i < |names| && names[i] == file;
    assert mounts[i] == MountOf(dir, names, i);
    assert mounts[i] in mounts && Shows(mounts[i], volumes, data, path, content);
  }

  /** Reading the files back gives the configuration, whatever the contents are, if the pod is accepted. */
  lemma RoundTrip(configs: map<string, string>, names: seq<string>, data: map<string, string>,
                  marshal: seq<string> -> string, dir: string, volumes: seq<Volume>, mounts: seq<Mount>)
    requires IsSplit(configs, names, data, marshal) && MountsOf(dir, names, mounts) && VolumesOf(names, volumes)
    requires PathsUnique(mounts)
    ensures forall file, content | file in configs ::
              File(volumes, mounts, data, Join(dir, file), content) <==> configs[file] == content
  {
    MountsAcceptedIff(names, configs.Keys, dir, volumes, mounts);
    forall file, content | file in configs
      ensures File(volumes, mounts, data, Join(dir, file), content) <==> configs[file] == content
    {
      FilesExactly(configs, names, data, marshal, dir, volumes, mounts, Join(dir, file), content);
      if Configured(configs, dir, Join(dir, file), content) {
        var other :| other in configs && Join(dir, other) == Join(dir, file) && configs[other] == content;
        JoinEqualIff(dir, other, file);
        assert other == file;
      }
    }
  }
}
