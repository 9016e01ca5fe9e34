/**
 * The top level of the shared-root search as the merge step needs it. The merge step copies
 * `<aarDecompileDir>/<last segment of the root>` into the root
 * (`src/tasks/code-merge-task.ts:42-44`), so a root is only usable when its last segment names
 * a library package. The descent (lines 75-78) answers such a root: a same-named candidate.
 * A unique match at the top level (line 73) answers `apkStartPath`, the decoded directory,
 * instead. Here that one branch answers the matched candidate; everything else, the descent
 * included, is the search as written.
 */
module CorrectedRoot {
  import opened Wrappers
  import opened Errors
  import opened Paths
  import opened FileTree
  import opened Matcher
  import opened MatcherFacts

  /** One top-level iteration, a unique match answering that match. */
  function CorrectedOutcome(aarPackage: Entry, cands: seq<Entry>): Result<Option<string>, Error> {
    var name :- SegmentOf(aarPackage.path);
    var matched :- SameSegment(cands, name);
    if |matched| == 1 then Ok(Some(matched[0].path)) else TryCandidates(aarPackage, matched, 0)
  }

  /** The top-level loop over the library packages, from the `i`-th on. */
  function CorrectedScan(aar: Entry, i: nat, cands: seq<Entry>): Result<Option<string>, Error>
    requires aar.node.Folder? && i <= |aar.node.children|
    decreases |aar.node.children| - i
  {
    if i == |aar.node.children| then Ok(None)
    else
      var outcome :- CorrectedOutcome(Child(aar, i), cands);
      if outcome.Some? then Ok(outcome) else CorrectedScan(aar, i + 1, cands)
  }

  /** `getSharedRoot(aarDir, apkDir, true)` with the top-level unique match corrected. */
  function CorrectedSharedRoot(aar: Entry, apk: Entry): Result<Option<string>, Error> {
    var aarPackages :- ReadDirectory(aar);
    var cands :- FirstApkDirectories(apk);
    CorrectedScan(aar, 0, cands)
  }

  // ---- closed form ----

  /** What the corrected iteration for `kid` answers on real trees. */
  function CorrectedAnswer(kid: Entry, cands: seq<Entry>): Outcome {
    if UniqueMatch(kid, cands) then Ok(Some(Named(cands, kid.node.name)[0].path))
    else FirstDecisive(CandidateRoots(kid, cands))
  }

  ghost function CorrectedOutcomes(aar: Entry, cands: seq<Entry>): (os: seq<Outcome>)
    requires aar.node.Folder?
    ensures |os| == |aar.node.children|
    ensures forall k :: 0 <= k < |os| ==> os[k] == CorrectedOutcome(Child(aar, k), cands)
  {
    seq(|aar.node.children|, k requires 0 <= k < |aar.node.children| => CorrectedOutcome(Child(aar, k), cands))
  }

  function CorrectedAnswers(lib: Entry, cands: seq<Entry>): (os: seq<Outcome>)
    requires lib.node.Folder?
    ensures |os| == |lib.node.children|
    ensures forall k :: 0 <= k < |os| ==> os[k] == CorrectedAnswer(Child(lib, k), cands)
  {
    seq(|lib.node.children|, k requires 0 <= k < |lib.node.children| => CorrectedAnswer(Child(lib, k), cands))
  }

  lemma CorrectedStep(aar: Entry, i: nat, cands: seq<Entry>)
    requires aar.node.Folder? && i < |aar.node.children|
    ensures CorrectedScan(aar, i, cands) ==
      var here := CorrectedOutcome(Child(aar, i), cands);
      if here == Ok(None) then CorrectedScan(aar, i + 1, cands) else here
  {
    var here := CorrectedOutcome(Child(aar, i), cands);
    if here.Err? {
      assert CorrectedScan(aar, i, cands) == Err(here.error);
    } else if here.value.Some? {
      assert CorrectedScan(aar, i, cands) == here;
    }
  }

  /** The corrected loop answers with the first package whose iteration answers. */
  lemma {:induction false} CorrectedScanIsSettle(aar: Entry, i: nat, cands: seq<Entry>)
    requires aar.node.Folder? && i <= |aar.node.children|
    ensures CorrectedScan(aar, i, cands) == Settle(CorrectedOutcomes(aar, cands)[i..])
    decreases |aar.node.children| - i
  {
    var os := CorrectedOutcomes(aar, cands);
    if i < |aar.node.children| {
      CorrectedStep(aar, i, cands);
      CorrectedScanIsSettle(aar, i + 1, cands);
      assert os[i..][1..] == os[i + 1..];
    }
  }

  /** On real trees an iteration answers the unique same-named candidate, or else descends as written. */
  lemma CorrectedOutcomeAtTop(kid: Entry, decoded: Entry)
    requires Tidy(kid) && WellFormed(decoded.node) && FirstApkDirectories(decoded).Ok?
    ensures CorrectedOutcome(kid, FirstApkDirectories(decoded).value)
      == CorrectedAnswer(kid, FirstApkDirectories(decoded).value)
  {
    var cands := FirstApkDirectories(decoded).value;
    forall c | c in cands ensures PathNamesNode(c) {
      CandidatesTidy(decoded, c);
    }
    assert SegmentOf(kid.path) == Ok(kid.node.name);
    SameSegmentTidy(cands, kid.node.name);
    if !UniqueMatch(kid, cands) {
      PackageOutcomeAtTop(kid, decoded);
      assert CorrectedOutcome(kid, cands) == PackageOutcome(kid, cands, decoded.path);
    }
  }

  /** The corrected search in closed form, with the errors of the search as written. */
  lemma CorrectedClosedForm(lib: Entry, decoded: Entry)
    requires WellFormed(lib.node) && WellFormed(decoded.node)
    ensures CorrectedSharedRoot(lib, decoded) ==
      if lib.node.File? then Err(NotADirectory(lib.path))
      else match FirstApkDirectories(decoded)
        case Err(e) => Err(e)
        case Ok(cands) => Settle(CorrectedAnswers(lib, cands))
  {
    if lib.node.Folder? && FirstApkDirectories(decoded).Ok? {
      var cands := FirstApkDirectories(decoded).value;
      var os := CorrectedOutcomes(lib, cands);
      forall k | 0 <= k < |os| ensures os[k] == CorrectedAnswer(Child(lib, k), cands) {
        ChildTidy(lib, k);
        CorrectedOutcomeAtTop(Child(lib, k), decoded);
      }
      assert os == CorrectedAnswers(lib, cands);
      CorrectedScanIsSettle(lib, 0, cands);
      assert os[0..] == os;
    }
  }

  /**
   * Whatever the corrected search finds is a candidate carrying the name of a library package,
   * so its last segment names that package: the package of the first library entry whose
   * iteration answers.
   */
  lemma CorrectedFound(lib: Entry, decoded: Entry, p: string) returns (k: nat, m: Entry)
    requires WellFormed(lib.node) && WellFormed(decoded.node)
    requires CorrectedSharedRoot(lib, decoded) == Ok(Some(p))
    ensures lib.node.Folder? && FirstApkDirectories(decoded).Ok? && k < |lib.node.children|
    ensures m in FirstApkDirectories(decoded).value && m.node.name == lib.node.children[k].name
    ensures p == m.path && LastSegment(p) == Some(lib.node.children[k].name)
    ensures UniqueMatch(Child(lib, k), FirstApkDirectories(decoded).value)
      || DescendsTo(Child(lib, k), FirstApkDirectories(decoded).value, m)
  {
    CorrectedClosedForm(lib, decoded);
    var cands := FirstApkDirectories(decoded).value;
    var os := CorrectedAnswers(lib, cands);
    k := SettleFirst(os);
    var kid := Child(lib, k);
    var matched := Named(cands, kid.node.name);
    if UniqueMatch(kid, cands) {
      m := matched[0];
      assert m in matched;
    } else {
      assert CorrectedAnswer(kid, cands) == PackageAnswer(kid, cands, decoded.path);
      PackageAnswerSome(kid, cands, decoded.path, p);
      m :| DescendsTo(kid, cands, m) && p == m.path;
    }
    CandidatesTidy(decoded, m);
  }

  /** An empty library, or one whose every package is quiet, finds nothing either way. */
  lemma CorrectedNoMatch(lib: Entry, decoded: Entry)
    requires WellFormed(lib.node) && WellFormed(decoded.node)
    ensures CorrectedSharedRoot(lib, decoded) == Ok(None) <==>
      && lib.node.Folder? && FirstApkDirectories(decoded).Ok?
      && forall k :: 0 <= k < |lib.node.children| ==> Quiet(Child(lib, k), FirstApkDirectories(decoded).value)
  {
    CorrectedClosedForm(lib, decoded);
    if lib.node.Folder? && FirstApkDirectories(decoded).Ok? {
      var cands := FirstApkDirectories(decoded).value;
      forall c | c in cands ensures PathNamesNode(c) {
        CandidatesTidy(decoded, c);
      }
      var os := CorrectedAnswers(lib, cands);
      SettleNone(os);
      forall k | 0 <= k < |os| ensures os[k] == Ok(None) <==> Quiet(Child(lib, k), cands) {
        var kid := Child(lib, k);
        if UniqueMatch(kid, cands) {
          assert Named(cands, kid.node.name)[0] in Named(cands, kid.node.name);
        } else {
          assert os[k] == PackageAnswer(kid, cands, decoded.path);
          PackageAnswerNone(kid, cands, decoded.path);
        }
      }
    }
  }

  /**
   * The two searches differ only where the search as written answers the decoded directory
   * through a unique top-level match: when the first library package has one, the corrected
   * search answers that candidate instead.
   */
  lemma CorrectedUniqueMatch(lib: Entry, decoded: Entry)
    requires WellFormed(lib.node) && WellFormed(decoded.node)
    requires lib.node.Folder? && |lib.node.children| > 0 && FirstApkDirectories(decoded).Ok?
    requires UniqueMatch(Child(lib, 0), FirstApkDirectories(decoded).value)
    ensures var cands := FirstApkDirectories(decoded).value;
      CorrectedSharedRoot(lib, decoded) == Ok(Some(Named(cands, Child(lib, 0).node.name)[0].path))
    ensures SharedRoot(lib, decoded, true) == Ok(Some(decoded.path))
  {
    CorrectedClosedForm(lib, decoded);
    TopLevelUniqueMatch(lib, decoded);
  }
}
