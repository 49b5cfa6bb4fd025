/** The memoised owner of a directory (`packageName`, scripts/bundle-input-isolation.ts:70-81): whatever
    was asked before, the answer is the name of the nearest named manifest upwards. */
module PackageNames {
  import opened Wrappers

  /** An absolute directory, segment by segment; the root is its own parent. */
  type Path = seq<string>

  /** What `package.json` in a directory holds: nothing there, no valid JSON, no string name, or a name. */
  datatype Manifest = Absent | Broken | Unnamed | Named(name: string)

  type Disk = Path -> Manifest

  /** The uncached walk; the error is the directory whose manifest does not parse. */
  function Nearest(disk: Disk, directory: Path): Result<Option<string>, Path> {
    match disk(directory)
    case Broken => Err(directory)
    case Named(name) => Ok(Some(name))
    case _ => if directory == [] then Ok(None) else Nearest(disk, directory[..|directory| - 1])
  }

  predicate Silent(m: Manifest) { m.Absent? || m.Unnamed? }

  /** The walk's answer comes from the nearest ancestor whose manifest says anything. */
  lemma {:induction false} NearestSpeaks(disk: Disk, directory: Path, k: nat)
    requires k <= |directory| && forall j | k < j <= |directory| :: Silent(disk(directory[..j]))
    ensures disk(directory[..k]).Named? ==> Nearest(disk, directory) == Ok(Some(disk(directory[..k]).name))
    ensures disk(directory[..k]).Broken? ==> Nearest(disk, directory) == Err(directory[..k])
    ensures k == 0 && Silent(disk([])) ==> Nearest(disk, directory) == Ok(None)
  {
    assert directory[..|directory|] == directory;
    if k < |directory| {
      var parent := directory[..|directory| - 1];
      assert Silent(disk(directory[..|directory|]));
      assert forall j | 0 <= j < |directory| :: parent[..j] == directory[..j];
      NearestSpeaks(disk, parent, k);
    } else if k == 0 {
      assert directory == [];
    }
  }

  class BundleInputIsolation {
    var packages: map<Path, Option<string>>

    /** Every remembered answer is the one the walk would give. */
    ghost predicate Agrees(disk: Disk)
      reads this
    {
      forall d | d in packages :: Nearest(disk, d) == Ok(packages[d])
    }

    constructor ()
      ensures packages == map[]
    {
      packages := map[];
    }

    /** Forget everything: right for any disk from here on. */
    method Reset()
      modifies this
      ensures packages == map[] && forall disk: Disk :: Agrees(disk)
    {
      packages := map[];
    }

    method PackageName(disk: Disk, directory: Path) returns (r: Result<Option<string>, Path>)
      requires Agrees(disk)
      modifies this
      ensures Agrees(disk) && r == Nearest(disk, directory)
      ensures r.Ok? ==> directory in packages
      ensures forall d | d in old(packages) :: d in packages && packages[d] == old(packages[d])
      decreases |directory|
    {
      if directory in packages { return Ok(packages[directory]); }
      var manifest := disk(directory);
      if manifest == Broken { return Err(directory); }
      var name := if manifest.Named? then Some(manifest.name) else None;
      if name == None && directory != [] {
        var above := PackageName(disk, directory[..|directory| - 1]);
        if above.Err? { return above; }
        name := above.value;
      }
      packages := packages[directory := name];
      return Ok(name);
    }
  }
}
