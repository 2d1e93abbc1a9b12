/** getNewFilePath of createNote.js: the first path of the form
    `folder/base`, `folder/base (1)`, `folder/base (2)`, ... whose `.md` file
    is not yet in the vault.  The vault's `exists` check is membership in a
    finite set of paths. */
module VaultPaths {
  import opened Strings
  import Decimal

  /** `relativeFilePath.substring(0, i)` with `i` the last `/`; JavaScript's
      substring reads -1 as 0, so a path without `/` has the empty folder. */
  function FolderOf(relativeFilePath: string): string
  {
    var i := LastIndexOf(relativeFilePath, '/');
    if i < 0 then "" else relativeFilePath[..i]
  }

  /** `relativeFilePath.substring(i + 1)`: everything after the last `/`. */
  function BaseOf(relativeFilePath: string): string
  {
    relativeFilePath[LastIndexOf(relativeFilePath, '/') + 1..]
  }

  /** The n-th name tried: the base itself, then `base (1)`, `base (2)`, ... */
  function Candidate(base: string, n: nat): string
  {
    if n == 0 then base else base + " (" + Decimal.Show(n) + ")"
  }

  /** The vault file the script asks about for a name in a folder. */
  function MdPath(folder: string, name: string): string
  {
    folder + "/" + name + ".md"
  }

  /** `n` is the first candidate whose file is absent: all earlier ones exist. */
  ghost predicate IsFirstFree(existing: set<string>, folder: string, base: string, n: nat)
  {
    MdPath(folder, Candidate(base, n)) !in existing &&
    forall k :: 0 <= k < n ==> MdPath(folder, Candidate(base, k)) in existing
  }

  /** The folder and the base put back together give the original path;
      without a `/` the result gains a leading `/`. */
  lemma SplitPath(relativeFilePath: string)
    ensures '/' in relativeFilePath ==> FolderOf(relativeFilePath) + "/" + BaseOf(relativeFilePath) == relativeFilePath
    ensures '/' !in relativeFilePath ==> FolderOf(relativeFilePath) == "" && BaseOf(relativeFilePath) == relativeFilePath
    ensures '/' !in BaseOf(relativeFilePath)
  {
    var i := LastIndexOf(relativeFilePath, '/');
    if i >= 0 {
      assert relativeFilePath == relativeFilePath[..i] + [relativeFilePath[i]] + relativeFilePath[i + 1..];
    }
  }

  /** A folder followed by a name without `/` splits back into the two. */
  lemma SplitJoined(folder: string, name: string)
    requires '/' !in name
    ensures FolderOf(folder + "/" + name) == folder
    ensures BaseOf(folder + "/" + name) == name
  {
    var p := folder + "/" + name;
    assert p[|folder|] == '/';
    assert p[|folder| + 1..] == name;
    var i := LastIndexOf(p, '/');
    assert i == |folder|;
    assert p[..i] == folder;
  }

  /** Different counters name different files. */
  lemma CandidateInjective(folder: string, base: string, j: nat, k: nat)
    requires MdPath(folder, Candidate(base, j)) == MdPath(folder, Candidate(base, k))
    ensures j == k
  {
    var p, q := MdPath(folder, Candidate(base, j)), MdPath(folder, Candidate(base, k));
    var lo := |folder| + 1;
    assert Candidate(base, j) == p[lo..|p| - 3];
    assert Candidate(base, k) == q[lo..|q| - 3];
    if j != 0 && k != 0 {
      var cj, ck := Candidate(base, j), Candidate(base, k);
      assert Decimal.Show(j) == cj[|base| + 2..|cj| - 1];
      assert Decimal.Show(k) == ck[|base| + 2..|ck| - 1];
      Decimal.ShowInjective(j, k);
    }
  }

  /** getNewFilePath: probes `folder/base.md`, then `folder/base (1).md`,
      `folder/base (2).md`, ... and returns the first free name without `.md`. */
  method GetNewFilePath(existing: set<string>, relativeFilePath: string) returns (r: string)
    ensures r + ".md" !in existing
    ensures exists n: nat :: r == FolderOf(relativeFilePath) + "/" + Candidate(BaseOf(relativeFilePath), n) &&
                             IsFirstFree(existing, FolderOf(relativeFilePath), BaseOf(relativeFilePath), n)
  {
    var i := LastIndexOf(relativeFilePath, '/');
    var folderPath := if i < 0 then "" else relativeFilePath[..i];
    var baseFileName := relativeFilePath[i + 1..];

    var newFileName := baseFileName;
    var fileExists := folderPath + "/" + newFileName + ".md" in existing;
    var counter := 1;
    ghost var probed: set<string> := {};

    while fileExists
      invariant counter >= 1
      invariant newFileName == Candidate(baseFileName, counter - 1)
      invariant fileExists == (MdPath(folderPath, newFileName) in existing)
      invariant forall k :: 0 <= k < counter - 1 ==> MdPath(folderPath, Candidate(baseFileName, k)) in existing
      invariant probed <= existing
      invariant forall p :: p in probed ==> exists k :: 0 <= k < counter - 1 && p == MdPath(folderPath, Candidate(baseFileName, k))
      decreases existing - probed
    {
      ghost var current := MdPath(folderPath, newFileName);
      forall p | p in probed ensures p != current {
        var k :| 0 <= k < counter - 1 && p == MdPath(folderPath, Candidate(baseFileName, k));
        if p == current {
          CandidateInjective(folderPath, baseFileName, k, counter - 1);
        }
      }
      probed := probed + {current};

      newFileName := baseFileName + " (" + Decimal.Show(counter) + ")";
      fileExists := folderPath + "/" + newFileName + ".md" in existing;
      counter := counter + 1;
    }

    r := folderPath + "/" + newFileName;
    assert folderPath == FolderOf(relativeFilePath) && baseFileName == BaseOf(relativeFilePath);
    assert r == folderPath + "/" + Candidate(baseFileName, counter - 1);
    assert IsFirstFree(existing, folderPath, baseFileName, counter - 1);
  }
}
