/** Volume ids "config:path" and snapshot ids "config:path@name". */
module Identifiers {
  import opened Text
  import opened Status

  datatype VolumeInfo = VolumeInfo(ConfigName: string, Path: string)

  function ParseVolumeID(volumeID: string): Result<VolumeInfo> {
    var parts := Split(volumeID, ':');
    if |parts| == 2 then Ok(VolumeInfo(parts[0], parts[1]))
    else if |parts| == 1 then Ok(VolumeInfo("", parts[0]))
    else Err(InvalidArgument)
  }

  function VolumeId(configName: string, path: string): string { configName + ":" + path }

  function SnapshotId(configName: string, path: string, name: string): string {
    configName + ":" + path + "@" + name
  }

  /** The two parts of a snapshot id. */
  function SplitSnapshotId(id: string): Option<(string, string)> {
    var p := Split(id, '@');
    if |p| == 2 then Some((p[0], p[1])) else None
  }

  /** A volume id decodes to what it was made of exactly when neither part has a colon. */
  lemma VolumeIdRoundTrip(configName: string, path: string)
    ensures ParseVolumeID(VolumeId(configName, path)) == Ok(VolumeInfo(configName, path))
            <==> ':' !in configName && ':' !in path
  {
    var id := VolumeId(configName, path);
    if ':' !in configName {
      SplitCons(configName, ':', path);
      if ':' !in path {
        SplitNone(path, ':');
      } else {
        SplitInTwo(path, ':');
      }
    } else {
      SplitInTwo(id, ':');
    }
  }

  /** A snapshot id decodes, through the '@' and then the ':', to what it was made of
      exactly when no '@' is in its parts and no ':' in the first two. */
  lemma SnapshotIdRoundTrip(configName: string, path: string, name: string)
    ensures var s := SplitSnapshotId(SnapshotId(configName, path, name));
            (s.Some? && s.value.1 == name && ParseVolumeID(s.value.0) == Ok(VolumeInfo(configName, path)))
            <==> && '@' !in configName && '@' !in path && '@' !in name
                 && ':' !in configName && ':' !in path
  {
    var id := SnapshotId(configName, path, name);
    var volume := VolumeId(configName, path);
    assert id == volume + "@" + name;
    VolumeIdRoundTrip(configName, path);
    InVolumeId(configName, path);
    if '@' !in volume {
      SplitCons(volume, '@', name);
      if '@' !in name {
        SplitNone(name, '@');
      } else {
        SplitInTwo(name, '@');
      }
    } else {
      SplitInTwo(id, '@');
      if |Split(id, '@')| == 2 {
        VolumePartShorter(id, volume, name);
      }
    }
  }

  lemma InVolumeId(configName: string, path: string)
    ensures '@' in VolumeId(configName, path) <==> '@' in configName || '@' in path
  {
    var v := VolumeId(configName, path);
    if '@' in configName {
      var i :| 0 <= i < |configName| && configName[i] == '@';
      assert v[i] == '@';
    }
    if '@' in path {
      var i :| 0 <= i < |path| && path[i] == '@';
      assert v[|configName| + 1 + i] == '@';
    }
  }

  lemma VolumePartShorter(id: string, volume: string, name: string)
    requires id == volume + "@" + name && '@' in volume && |Split(id, '@')| == 2
    ensures Split(id, '@')[1] != name
  {
    SplitInTwo(id, '@');
    var p := Split(id, '@');
    assert id[..|id| - |p[1]| - 1] == p[0];
    assert id[..|id| - |name| - 1] == volume;
  }

  /** Different snapshots have different ids. */
  lemma SnapshotIdsDiffer(c1: string, p1: string, n1: string, c2: string, p2: string, n2: string)
    requires '@' !in c1 + p1 + n1 && '@' !in c2 + p2 + n2 && ':' !in c1 + p1 && ':' !in c2 + p2
    requires SnapshotId(c1, p1, n1) == SnapshotId(c2, p2, n2)
    ensures c1 == c2 && p1 == p2 && n1 == n2
  {
    Parts(c1, p1, n1);
    Parts(c2, p2, n2);
    SnapshotIdRoundTrip(c1, p1, n1);
    SnapshotIdRoundTrip(c2, p2, n2);
  }

  lemma Parts(c: string, p: string, n: string)
    ensures '@' !in c + p + n ==> '@' !in c && '@' !in p && '@' !in n
    ensures ':' !in c + p ==> ':' !in c && ':' !in p
  {
    forall i | 0 <= i < |c| ensures (c + p + n)[i] == c[i] && (c + p)[i] == c[i] {
    }
    forall i | 0 <= i < |p| ensures (c + p + n)[|c| + i] == p[i] && (c + p)[|c| + i] == p[i] {
    }
    forall i | 0 <= i < |n| ensures (c + p + n)[|c| + |p| + i] == n[i] {
    }
  }
}
