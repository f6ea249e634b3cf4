/**
 * Choosing where a folder's archive goes (server/utils/zip.ts): `<name>.zip` next to
 * the folder, or, when that exists, `<name>(i).zip` for the first i = 1, 2, ... that
 * does not. The archiver itself is not modelled; writing the archive adds its path to
 * the set of existing paths.
 */
module Zip {
  import Strings
  import opened Paths
  import opened PathValidator

  /** The archive name for attempt `i`: `name.zip` first, then `name(i).zip`. */
  function ZipName(name: string, i: nat): (z: string)
    ensures |z| >= |name| + 4 && z[..|name|] == name && z[|z| - 4..] == ".zip"
  {
    if i == 0 then name + ".zip" else name + "(" + Strings.NatToString(i) + ").zip"
  }

  /** The archive path tried at attempt `i`, beside the folder. */
  function Candidate(fullPath: string, i: nat): (c: string)
    ensures Normalize(c) == c
  {
    JoinNormal(Dirname(fullPath), ZipName(Basename(fullPath), i));
    Join(Dirname(fullPath), ZipName(Basename(fullPath), i))
  }

  /** Where attempt `i` lands once resolved. */
  function Location(cwd: AbsolutePath, fullPath: string, i: nat): string {
    Resolve(cwd, [Candidate(fullPath, i)])
  }

  /** An archive name built from a separator-free folder name is a single path component. */
  lemma ZipNamePlain(name: string, i: nat)
    requires '/' !in name
    ensures Plain(ZipName(name, i))
  {
    var z := ZipName(name, i);
    assert z[|z| - 4..] == ".zip";
    assert z != "" && z != "." && z != "..";
    if i > 0 {
      var d := Strings.NatToString(i);
      assert z == name + "(" + d + ").zip";
      forall k | 0 <= k < |z| ensures z[k] != '/' {
        if k < |name| {
          assert z[k] == name[k];
          assert name[k] in name;
        } else if |name| < k < |name| + 1 + |d| {
          assert z[k] == d[k - |name| - 1];
        }
      }
    } else {
      forall k | 0 <= k < |name| ensures z[k] != '/' {
        assert z[k] == name[k];
        assert name[k] in name;
      }
    }
  }

  /** Different attempts give different names. */
  lemma ZipNameInjective(name: string, i: nat, j: nat)
    requires i != j
    ensures ZipName(name, i) != ZipName(name, j)
  {
    if i > 0 && j > 0 {
      var di, dj := Strings.NatToString(i), Strings.NatToString(j);
      if ZipName(name, i) == ZipName(name, j) {
        Strings.DigitsThenText(name + "(", di, ").zip", dj, ").zip");
        Strings.NatToStringInjective(i, j);
      }
    }
  }

  /** Every attempt lies in the folder's parent directory and is named after the folder. */
  lemma CandidateLocation(fullPath: string, i: nat)
    ensures Dirname(Candidate(fullPath, i)) == Dirname(fullPath)
    ensures Basename(Candidate(fullPath, i)) == ZipName(Basename(fullPath), i)
  {
    BasenameNoSlash(fullPath);
    ZipNamePlain(Basename(fullPath), i);
    DirnameBasenameOfJoin(Dirname(fullPath), ZipName(Basename(fullPath), i));
    DirnameNormal(fullPath);
  }

  /** Different attempts resolve to different locations. */
  lemma CandidatesDistinct(cwd: AbsolutePath, fullPath: string, i: nat, j: nat)
    requires i != j
    ensures Location(cwd, fullPath, i) != Location(cwd, fullPath, j)
  {
    var d, b := Dirname(fullPath), Basename(fullPath);
    var zi, zj := ZipName(b, i), ZipName(b, j);
    BasenameNoSlash(fullPath);
    ZipNamePlain(b, i);
    ZipNamePlain(b, j);
    ZipNameInjective(b, i, j);
    var segs := ResolveSegments(cwd, [d]);
    ResolveJoinPlain(cwd, d, zi);
    ResolveJoinPlain(cwd, d, zj);
    ResolveSnoc(segs, zi);
    ResolveSnoc(segs, zj);
    var lead := if segs == [] then "/" else "/" + Strings.Join(segs, "/") + "/";
    assert Resolve(cwd, [Candidate(fullPath, i)]) == lead + zi;
    assert Resolve(cwd, [Candidate(fullPath, j)]) == lead + zj;
    assert (lead + zi)[|lead|..] == zi;
    assert (lead + zj)[|lead|..] == zj;
  }

  lemma {:induction false} SubsetSize(a: set<string>, b: set<string>)
    requires a <= b
    ensures |a| <= |b|
  {
    if a != {} {
      var x :| x in a;
      SubsetSize(a - {x}, b - {x});
    }
  }

  /** The attempts before `i` all exist, and `probed` holds exactly their locations under `loc`. */
  ghost predicate ProbedBy(existing: set<string>, loc: nat -> string, probed: set<string>, i: nat) {
    probed <= existing && |probed| == i &&
    (forall j :: 0 <= j < i ==> loc(j) in probed) &&
    (forall p :: p in probed ==> exists j :: 0 <= j < i && p == loc(j))
  }

  /** One more existing attempt at a new location extends the probed set, which stays within what exists. */
  lemma ProbeStepBy(existing: set<string>, loc: nat -> string, probed: set<string>, i: nat)
    requires ProbedBy(existing, loc, probed, i)
    requires loc(i) in existing && loc(i) !in probed
    ensures ProbedBy(existing, loc, probed + {loc(i)}, i + 1)
    ensures i + 1 <= |existing|
  {
    var next := probed + {loc(i)};
    forall p | p in next ensures exists j :: 0 <= j < i + 1 && p == loc(j) {
      if p != loc(i) {
        var j :| 0 <= j < i && p == loc(j);
      }
    }
    SubsetSize(next, existing);
  }

  /** The attempts' locations for one folder, as a function of the attempt number. */
  function LocationsOf(cwd: AbsolutePath, fullPath: string): nat -> string {
    (i: nat) => Location(cwd, fullPath, i)
  }

  /** The attempts before `i` all exist, and `probed` holds exactly their locations. */
  ghost predicate Probed(existing: set<string>, cwd: AbsolutePath, fullPath: string, probed: set<string>, i: nat) {
    ProbedBy(existing, LocationsOf(cwd, fullPath), probed, i)
  }

  /** An existing first attempt starts the probed set. */
  lemma ProbeStart(existing: set<string>, cwd: AbsolutePath, fullPath: string)
    requires Location(cwd, fullPath, 0) in existing
    ensures Probed(existing, cwd, fullPath, {Location(cwd, fullPath, 0)}, 1)
    ensures 1 <= |existing|
  {
    assert LocationsOf(cwd, fullPath)(0) == Location(cwd, fullPath, 0);
    SubsetSize({LocationsOf(cwd, fullPath)(0)}, existing);
  }

  /** The location of attempt `i` is none of the earlier attempts' locations. */
  lemma NotYetProbed(cwd: AbsolutePath, fullPath: string, probed: set<string>, i: nat)
    requires forall p :: p in probed ==> exists j :: 0 <= j < i && p == LocationsOf(cwd, fullPath)(j)
    ensures Location(cwd, fullPath, i) !in probed
  {
    forall p | p in probed ensures p != Location(cwd, fullPath, i) {
      var j :| 0 <= j < i && p == LocationsOf(cwd, fullPath)(j);
      CandidatesDistinct(cwd, fullPath, j, i);
    }
  }

  /** Every attempt already probed exists. */
  lemma ProbedExists(existing: set<string>, cwd: AbsolutePath, fullPath: string, probed: set<string>, i: nat, j: nat)
    requires Probed(existing, cwd, fullPath, probed, i) && j < i
    ensures DoesPathExist(existing, cwd, Candidate(fullPath, j))
  {
    assert LocationsOf(cwd, fullPath)(j) in probed;
  }

  /** One more existing attempt extends the probed set by a new location. */
  lemma ProbeStep(existing: set<string>, cwd: AbsolutePath, fullPath: string, probed: set<string>, i: nat)
    requires Probed(existing, cwd, fullPath, probed, i)
    requires Location(cwd, fullPath, i) in existing
    ensures Probed(existing, cwd, fullPath, probed + {Location(cwd, fullPath, i)}, i + 1)
    ensures i + 1 <= |existing|
  {
    NotYetProbed(cwd, fullPath, probed, i);
    ProbeStepBy(existing, LocationsOf(cwd, fullPath), probed, i);
  }

  /** The paths that exist on disk, by resolved path, and the working directory they resolve against. */
  class Disk {
    var cwd: AbsolutePath
    var existing: set<string>

    constructor (cwd: AbsolutePath, existing: set<string>)
      ensures this.cwd == cwd && this.existing == existing
    {
      this.cwd := cwd;
      this.existing := existing;
    }

    /** `zip(source, target)`: the archive now exists at the target. */
    method WriteArchive(source: string, target: string)
      modifies this
      ensures cwd == old(cwd)
      ensures existing == old(existing) + {Resolve(cwd, [target])}
    {
      existing := existing + {Resolve(cwd, [target])};
    }
  }

  /**
   * `zipFolder(fullPath)`: writes the archive at the first attempt whose path does not
   * exist, and never over an existing path.
   */
  method ZipFolder(disk: Disk, fullPath: string) returns (target: string, ghost index: nat)
    requires Normalize(fullPath) == fullPath
    modifies disk
    ensures disk.cwd == old(disk.cwd)
    ensures target == Candidate(fullPath, index)
    ensures !DoesPathExist(old(disk.existing), disk.cwd, target)
    ensures forall j :: 0 <= j < index ==> DoesPathExist(old(disk.existing), disk.cwd, Candidate(fullPath, j))
    ensures disk.existing == old(disk.existing) + {Resolve(disk.cwd, [target])}
  {
    var name := Basename(fullPath);
    var dir := Dirname(fullPath);
    var zipName := name + ".zip";
    var defaultZipPath := Join(dir, zipName);
    var zipAlreadyExists := DoesPathExist(disk.existing, disk.cwd, defaultZipPath);
    if !zipAlreadyExists {
      disk.WriteArchive(fullPath, defaultZipPath);
      return defaultZipPath, 0;
    }
    ghost var existing0 := disk.existing;
    ghost var cwd := disk.cwd;
    assert Location(cwd, fullPath, 0) in existing0;
    ProbeStart(existing0, cwd, fullPath);
    ghost var probed: set<string> := {Location(cwd, fullPath, 0)};
    var i := 1;
    while true
      invariant disk.existing == existing0 && disk.cwd == cwd
      invariant 1 <= i <= |existing0|
      invariant Probed(existing0, cwd, fullPath, probed, i)
      decreases |existing0| - i
    {
      var newZipName := name + "(" + Strings.NatToString(i) + ").zip";
      var newZipPath := Join(dir, newZipName);
      assert newZipPath == Candidate(fullPath, i);
      var pathExists := DoesPathExist(disk.existing, disk.cwd, newZipPath);
      if !pathExists {
        forall j | 0 <= j < i ensures DoesPathExist(existing0, cwd, Candidate(fullPath, j)) {
          ProbedExists(existing0, cwd, fullPath, probed, i, j);
        }
        disk.WriteArchive(fullPath, newZipPath);
        target, index := newZipPath, i;
        break;
      }
      ProbeStep(existing0, cwd, fullPath, probed, i);
      probed := probed + {Location(cwd, fullPath, i)};
      i := i + 1;
    }
  }
}
