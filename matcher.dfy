/**
 * The package-tree matcher of the merge stage: where in the decoded APK's smali trees the
 * disassembled library's top package belongs (`getFirstApkDirectories`, `getSharedRoot`).
 */
module Matcher {
  import opened Wrappers
  import opened Errors
  import opened Strings
  import opened Paths
  import opened FileTree

  const SmaliMarker := "/smali"

  /** The smali test of a listed path (the regex `\/smali` followed by `.*`): since `.*` matches
      anything, the test holds exactly when the full path contains "/smali". */
  predicate IsSmaliPath(path: string) {
    Contains(path, SmaliMarker)
  }

  /** The entries whose full path passes the smali test, in listing order. */
  function SmaliDirectories(entries: seq<Entry>): seq<Entry> {
    if entries == [] then []
    else (if IsSmaliPath(entries[0].path) then [entries[0]] else []) + SmaliDirectories(entries[1..])
  }

  /** The filter keeps exactly the entries that pass the smali test. */
  lemma {:induction false} SmaliDirectoriesMembers(entries: seq<Entry>)
    ensures forall e :: e in SmaliDirectories(entries) <==> e in entries && IsSmaliPath(e.path)
    decreases |entries|
  {
    if entries != [] {
      SmaliDirectoriesMembers(entries[1..]);
      assert entries == [entries[0]] + entries[1..];
    }
  }

  /**
   * The filter keeps listing order: the `k`-th smali directory is the entry at `idx[k]` and the
   * indices increase; every entry `i` that passes the test is among them, at position `pos[i]`.
   */
  lemma {:induction false} SmaliDirectoriesInOrder(entries: seq<Entry>) returns (idx: seq<nat>, pos: seq<nat>)
    ensures |idx| == |SmaliDirectories(entries)| && |pos| == |entries|
    ensures forall k :: 0 <= k < |idx| ==> idx[k] < |entries| && SmaliDirectories(entries)[k] == entries[idx[k]]
    ensures forall k1, k2 :: 0 <= k1 < k2 < |idx| ==> idx[k1] < idx[k2]
    ensures forall i :: 0 <= i < |entries| && IsSmaliPath(entries[i].path) ==> pos[i] < |idx| && idx[pos[i]] == i
    decreases |entries|
  {
    if entries == [] {
      idx, pos := [], [];
    } else {
      var rest, restPos := SmaliDirectoriesInOrder(entries[1..]);
      var tail := SmaliDirectories(entries[1..]);
      var shifted := ShiftIndices(entries, tail, rest);
      var keep := IsSmaliPath(entries[0].path);
      assert SmaliDirectories(entries) == (if keep then [entries[0]] else []) + tail;
      idx := PrependIndex(entries, keep, tail, shifted, SmaliDirectories(entries));
      pos := CoverIndices(entries, keep, rest, restPos, shifted, idx);
    }
  }

  /** Indices into the whole, preceded by 0 when the head is kept, index the filtered whole. */
  lemma PrependIndex(entries: seq<Entry>, keep: bool, tail: seq<Entry>, shifted: seq<nat>, out: seq<Entry>)
    returns (idx: seq<nat>)
    requires entries != [] && |shifted| == |tail| && out == (if keep then [entries[0]] else []) + tail
    requires forall k :: 0 <= k < |shifted| ==> 1 <= shifted[k] < |entries| && tail[k] == entries[shifted[k]]
    requires forall k1, k2 :: 0 <= k1 < k2 < |shifted| ==> shifted[k1] < shifted[k2]
    ensures idx == (if keep then [0] else []) + shifted
    ensures |idx| == |out|
    ensures forall k :: 0 <= k < |idx| ==> idx[k] < |entries| && out[k] == entries[idx[k]]
    ensures forall k1, k2 :: 0 <= k1 < k2 < |idx| ==> idx[k1] < idx[k2]
  {
    idx := (if keep then [0] else []) + shifted;
    var d := if keep then 1 else 0;
    forall k | 0 <= k < |idx| ensures idx[k] < |entries| && out[k] == entries[idx[k]] {
      if k >= d {
        assert idx[k] == shifted[k - d] && out[k] == tail[k - d];
      }
    }
    forall k1, k2 | 0 <= k1 < k2 < |idx| ensures idx[k1] < idx[k2] {
      assert idx[k2] == shifted[k2 - d];
      if k1 >= d {
        assert idx[k1] == shifted[k1 - d];
      }
    }
  }

  /** Every entry of the tail the tail's indices cover is covered, one place on, in the whole. */
  lemma CoverIndices(entries: seq<Entry>, keep: bool, rest: seq<nat>, restPos: seq<nat>, shifted: seq<nat>,
                     idx: seq<nat>) returns (pos: seq<nat>)
    requires entries != [] && keep == IsSmaliPath(entries[0].path)
    requires |restPos| == |entries| - 1 && |shifted| == |rest|
    requires forall i :: 0 <= i < |entries| - 1 && IsSmaliPath(entries[1..][i].path) ==>
      restPos[i] < |rest| && rest[restPos[i]] == i
    requires forall k :: 0 <= k < |shifted| ==> shifted[k] == rest[k] + 1
    requires idx == (if keep then [0] else []) + shifted
    ensures |pos| == |entries|
    ensures forall i :: 0 <= i < |entries| && IsSmaliPath(entries[i].path) ==> pos[i] < |idx| && idx[pos[i]] == i
  {
    var d := if keep then 1 else 0;
    pos := [0] + seq(|restPos|, i requires 0 <= i < |restPos| => restPos[i] + d);
    forall i | 1 <= i < |entries| && IsSmaliPath(entries[i].path) ensures pos[i] < |idx| && idx[pos[i]] == i {
      assert entries[1..][i - 1] == entries[i];
      assert pos[i] == restPos[i - 1] + d;
      assert idx[restPos[i - 1] + d] == shifted[restPos[i - 1]];
    }
  }

  /** The indices of a filtered tail, moved one place on, index the same entries in the whole. */
  lemma ShiftIndices(entries: seq<Entry>, tail: seq<Entry>, rest: seq<nat>) returns (idx: seq<nat>)
    requires entries != [] && |rest| == |tail|
    requires forall k :: 0 <= k < |rest| ==> rest[k] < |entries| - 1 && tail[k] == entries[1..][rest[k]]
    requires forall k1, k2 :: 0 <= k1 < k2 < |rest| ==> rest[k1] < rest[k2]
    ensures |idx| == |tail|
    ensures forall k :: 0 <= k < |idx| ==> 1 <= idx[k] < |entries| && idx[k] == rest[k] + 1 && tail[k] == entries[idx[k]]
    ensures forall k1, k2 :: 0 <= k1 < k2 < |idx| ==> idx[k1] < idx[k2]
  {
    idx := seq(|rest|, k requires 0 <= k < |rest| => rest[k] + 1);
    forall k | 0 <= k < |idx| ensures tail[k] == entries[idx[k]] {
      assert entries[1..][rest[k]] == entries[rest[k] + 1];
    }
  }

  /** Lists every directory and concatenates the listings; a listing that fails fails the lot. */
  function ListAll(dirs: seq<Entry>): (r: Result<seq<Entry>, Error>)
    ensures r.Ok? <==> forall k :: 0 <= k < |dirs| ==> dirs[k].node.Folder?
    ensures r.Err? ==>
      exists k :: 0 <= k < |dirs| && dirs[k].node.File? && r.error == NotADirectory(dirs[k].path)
        && forall j :: 0 <= j < k ==> dirs[j].node.Folder?
  {
    if dirs == [] then Ok([])
    else
      var first :- ReadDirectory(dirs[0]);
      var rest :- ListAll(dirs[1..]);
      Ok(first + rest)
  }

  /** How many entries the listings of the first `k` directories hold together. */
  function Offset(dirs: seq<Entry>, k: nat): nat
    requires k <= |dirs| && forall j :: 0 <= j < |dirs| ==> dirs[j].node.Folder?
  {
    if k == 0 then 0 else |dirs[0].node.children| + Offset(dirs[1..], k - 1)
  }

  /**
   * The concatenation keeps order: the listing of `dirs[k]` sits, in its own order, right
   * after the listings of the directories before it.
   */
  lemma ListAllInOrder(dirs: seq<Entry>)
    requires ListAll(dirs).Ok?
    ensures |ListAll(dirs).value| == Offset(dirs, |dirs|)
    ensures forall k :: 0 <= k < |dirs| ==> Offset(dirs, k) + |dirs[k].node.children| <= |ListAll(dirs).value|
    ensures forall k, i :: 0 <= k < |dirs| && 0 <= i < |dirs[k].node.children| ==>
      ListAll(dirs).value[Offset(dirs, k) + i] == Child(dirs[k], i)
  {
    ListAllLength(dirs);
    forall k | 0 <= k < |dirs| ensures Offset(dirs, k) + |dirs[k].node.children| <= |ListAll(dirs).value| {
      OffsetBound(dirs, k);
    }
    forall k, i | 0 <= k < |dirs| && 0 <= i < |dirs[k].node.children|
      ensures ListAll(dirs).value[Offset(dirs, k) + i] == Child(dirs[k], i)
    {
      ListAllAt(dirs, k, i);
    }
  }

  lemma {:induction false} ListAllLength(dirs: seq<Entry>)
    requires ListAll(dirs).Ok?
    ensures |ListAll(dirs).value| == Offset(dirs, |dirs|)
    decreases |dirs|
  {
    if dirs != [] {
      assert ListAll(dirs).value == ReadDirectory(dirs[0]).value + ListAll(dirs[1..]).value;
      ListAllLength(dirs[1..]);
    }
  }

  lemma {:induction false} OffsetBound(dirs: seq<Entry>, k: nat)
    requires ListAll(dirs).Ok? && k < |dirs|
    ensures Offset(dirs, k) + |dirs[k].node.children| <= |ListAll(dirs).value|
    decreases k
  {
    assert ListAll(dirs).value == ReadDirectory(dirs[0]).value + ListAll(dirs[1..]).value;
    if k > 0 {
      assert dirs[1..][k - 1] == dirs[k];
      OffsetBound(dirs[1..], k - 1);
    }
  }

  lemma {:induction false} ListAllAt(dirs: seq<Entry>, k: nat, i: nat)
    requires ListAll(dirs).Ok? && k < |dirs| && i < |dirs[k].node.children|
    ensures Offset(dirs, k) + i < |ListAll(dirs).value| && ListAll(dirs).value[Offset(dirs, k) + i] == Child(dirs[k], i)
    decreases k
  {
    var first := ReadDirectory(dirs[0]).value;
    var rest := ListAll(dirs[1..]).value;
    assert ListAll(dirs).value == first + rest;
    if k > 0 {
      assert dirs[1..][k - 1] == dirs[k];
      ListAllAt(dirs[1..], k - 1, i);
    }
  }

  /** `getFirstApkDirectories(startDir)`: the children of every smali directory of `startDir`. */
  function FirstApkDirectories(decoded: Entry): Result<seq<Entry>, Error> {
    var top :- ReadDirectory(decoded);
    ListAll(SmaliDirectories(top))
  }

  /**
   * `path.match(/[^\/]+?(?=$)/)[0]`, which throws when the match is null: a path that is
   * empty or ends in a separator has no segment.
   */
  function SegmentOf(path: string): (r: Result<string, Error>)
    ensures r.Ok? <==> path != "" && path[|path| - 1] != Separator
    ensures r.Err? ==> r.error == NoPathSegment(path)
  {
    match LastSegment(path)
    case Some(seg) => Ok(seg)
    case None => Err(NoPathSegment(path))
  }

  /** The segment is non-empty and separator-free, the whole path or what follows its last separator. */
  lemma SegmentShape(path: string)
    requires SegmentOf(path).Ok?
    ensures var seg := SegmentOf(path).value;
      && seg != "" && Separator !in seg
      && |seg| <= |path| && path[|path| - |seg|..] == seg
      && (|seg| == |path| || path[|path| - |seg| - 1] == Separator)
  {
  }

  /** `pkgs.filter(p => p.match(re)[0] === name)`, throwing at the first path without a segment. */
  function SameSegment(pkgs: seq<Entry>, name: string): Result<seq<Entry>, Error> {
    if pkgs == [] then Ok([])
    else
      var seg :- SegmentOf(pkgs[0].path);
      var rest :- SameSegment(pkgs[1..], name);
      Ok(if seg == name then [pkgs[0]] + rest else rest)
  }

  /** The filter throws exactly when some candidate path has no last segment. */
  lemma {:induction false} SameSegmentOk(pkgs: seq<Entry>, name: string)
    ensures SameSegment(pkgs, name).Ok? <==> forall k :: 0 <= k < |pkgs| ==> SegmentOf(pkgs[k].path).Ok?
    decreases |pkgs|
  {
    if pkgs != [] {
      SameSegmentOk(pkgs[1..], name);
      SameSegmentStep(pkgs, name);
      if forall k :: 0 <= k < |pkgs| ==> SegmentOf(pkgs[k].path).Ok? {
        forall k | 0 <= k < |pkgs| - 1 ensures SegmentOf(pkgs[1..][k].path).Ok? {
          assert pkgs[1..][k] == pkgs[k + 1];
        }
      } else {
        var k :| 0 <= k < |pkgs| && SegmentOf(pkgs[k].path).Err?;
        if k > 0 {
          assert pkgs[1..][k - 1] == pkgs[k];
        }
      }
    }
  }

  /** The filter succeeds on a non-empty list exactly when the head has a segment and the rest succeeds. */
  lemma SameSegmentStep(pkgs: seq<Entry>, name: string)
    requires pkgs != []
    ensures SameSegment(pkgs, name).Ok? <==> SegmentOf(pkgs[0].path).Ok? && SameSegment(pkgs[1..], name).Ok?
  {
  }

  /** A result `if (root)` accepts: an error propagates, `undefined` and "" do not stop the loop. */
  predicate Decisive(r: Result<Option<string>, Error>) {
    r.Err? || (r.value.Some? && r.value.value != "")
  }

  /**
   * `getSharedRoot(aarStartPath, apkStartPath, isApkRootPath)`. Both listings are read first
   * (library, then target); at the top level the target listing is the smali candidates.
   */
  function SharedRoot(aar: Entry, apk: Entry, isApkRoot: bool): Result<Option<string>, Error>
    decreases aar.node, 1, 0
  {
    var aarPackages :- ReadDirectory(aar);
    var apkPackages :- if isApkRoot then FirstApkDirectories(apk) else ReadDirectory(apk);
    ScanPackages(aar, 0, apkPackages, apk.path)
  }

  /** The `for (const aarPackage of aarPackages)` loop, from the `i`-th library package on. */
  function ScanPackages(aar: Entry, i: nat, apkPackages: seq<Entry>, apkStart: string): Result<Option<string>, Error>
    requires aar.node.Folder? && i <= |aar.node.children|
    decreases aar.node, 0, |aar.node.children| - i
  {
    if i == |aar.node.children| then Ok(None)
    else
      var outcome :- PackageOutcome(Child(aar, i), apkPackages, apkStart);
      if outcome.Some? then Ok(outcome) else ScanPackages(aar, i + 1, apkPackages, apkStart)
  }

  /** One iteration of that loop: a unique match answers `apkStart`, several are tried in turn. */
  function PackageOutcome(aarPackage: Entry, apkPackages: seq<Entry>, apkStart: string): Result<Option<string>, Error>
    decreases aarPackage.node, 3, 0
  {
    var name :- SegmentOf(aarPackage.path);
    var matched :- SameSegment(apkPackages, name);
    if |matched| == 1 then Ok(Some(apkStart)) else TryCandidates(aarPackage, matched, 0)
  }

  /** The inner `for (const apkPackage of matchedApkPackages)` loop, from the `j`-th match on. */
  function TryCandidates(aarPackage: Entry, matched: seq<Entry>, j: nat): Result<Option<string>, Error>
    requires j <= |matched|
    decreases aarPackage.node, 2, |matched| - j
  {
    if j == |matched| then Ok(None)
    else
      var root := SharedRoot(aarPackage, matched[j], false);
      if Decisive(root) then root else TryCandidates(aarPackage, matched, j + 1)
  }
}
