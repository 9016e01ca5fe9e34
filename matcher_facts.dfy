/** Facts about the matcher. */
module MatcherFacts {
  import opened Wrappers
  import opened Errors
  import opened Strings
  import opened Paths
  import opened FileTree
  import opened Matcher

  // ---- the top-level candidates ----

  /** `c` is the `i`-th child of `dirs[k]`. */
  predicate ListedAt(dirs: seq<Entry>, k: int, i: int, c: Entry) {
    0 <= k < |dirs| && 0 <= i && dirs[k].node.Folder? && i < |dirs[k].node.children| && c == Child(dirs[k], i)
  }

  lemma {:induction false} ListAllMembers(dirs: seq<Entry>, c: Entry)
    requires ListAll(dirs).Ok?
    ensures c in ListAll(dirs).value <==> exists k, i :: ListedAt(dirs, k, i, c)
    decreases |dirs|
  {
    if dirs != [] {
      ListAllMembers(dirs[1..], c);
      var first := ReadDirectory(dirs[0]).value;
      assert ListAll(dirs).value == first + ListAll(dirs[1..]).value;
      if c in first {
        var i :| 0 <= i < |first| && first[i] == c;
        assert ListedAt(dirs, 0, i, c);
      } else if c in ListAll(dirs[1..]).value {
        var k, i :| ListedAt(dirs[1..], k, i, c);
        assert ListedAt(dirs, k + 1, i, c);
      }
      if exists k, i :: ListedAt(dirs, k, i, c) {
        var k, i :| ListedAt(dirs, k, i, c);
        if k == 0 {
          assert first[i] == c;
        } else {
          assert ListedAt(dirs[1..], k - 1, i, c);
        }
      }
    }
  }

  /** The `k`-th entry of the decoded directory is a smali directory. */
  predicate SmaliRoot(decoded: Entry, k: nat) {
    && decoded.node.Folder? && k < |decoded.node.children|
    && IsSmaliPath(Child(decoded, k).path) && Child(decoded, k).node.Folder?
  }

  /** `c` is the `i`-th child of the `k`-th entry of the decoded directory, a smali directory. */
  predicate CandidateAt(decoded: Entry, k: int, i: int, c: Entry) {
    0 <= k && SmaliRoot(decoded, k) && 0 <= i < |Child(decoded, k).node.children| && c == Child(Child(decoded, k), i)
  }

  lemma SmaliIndex(decoded: Entry, e: Entry) returns (k: nat)
    requires decoded.node.Folder? && e in SmaliDirectories(ReadDirectory(decoded).value)
    ensures k < |decoded.node.children| && Child(decoded, k) == e && IsSmaliPath(e.path)
  {
    var top := ReadDirectory(decoded).value;
    SmaliDirectoriesMembers(top);
    assert e in top;
    var m :| 0 <= m < |top| && top[m] == e;
    k := m;
  }

  /**
   * Listing the candidates succeeds exactly when the decoded directory and each of its entries
   * that passes the smali test are directories.
   */
  lemma CandidatesOk(decoded: Entry)
    ensures FirstApkDirectories(decoded).Ok? <==>
      decoded.node.Folder? &&
      forall k :: 0 <= k < |decoded.node.children| && IsSmaliPath(Child(decoded, k).path) ==>
        Child(decoded, k).node.Folder?
  {
    if decoded.node.Folder? {
      var top := ReadDirectory(decoded).value;
      var smali := SmaliDirectories(top);
      SmaliDirectoriesMembers(top);
      if ListAll(smali).Ok? {
        forall k | 0 <= k < |decoded.node.children| && IsSmaliPath(Child(decoded, k).path)
          ensures Child(decoded, k).node.Folder?
        {
          assert top[k] in smali;
          var m :| 0 <= m < |smali| && smali[m] == top[k];
        }
      } else {
        var m :| 0 <= m < |smali| && smali[m].node.File?;
        var k := SmaliIndex(decoded, smali[m]);
      }
    }
  }

  /** A path is a top-level candidate exactly when it is a child of a smali directory. */
  lemma CandidatesAre(decoded: Entry, c: Entry)
    requires FirstApkDirectories(decoded).Ok?
    ensures c in FirstApkDirectories(decoded).value <==> exists k, i :: CandidateAt(decoded, k, i, c)
  {
    var top := ReadDirectory(decoded).value;
    var smali := SmaliDirectories(top);
    SmaliDirectoriesMembers(top);
    assert FirstApkDirectories(decoded) == ListAll(smali);
    ListAllMembers(smali, c);
    if c in ListAll(smali).value {
      var m, i :| ListedAt(smali, m, i, c);
      assert smali[m] in smali;
      var k := SmaliIndex(decoded, smali[m]);
      assert CandidateAt(decoded, k, i, c);
    }
    if exists k, i :: CandidateAt(decoded, k, i, c) {
      var k, i :| CandidateAt(decoded, k, i, c);
      assert top[k] in smali;
      var m :| 0 <= m < |smali| && smali[m] == top[k];
      assert ListedAt(smali, m, i, c);
    }
  }

  /**
   * The candidates in order: the smali directories are the entries at increasing positions
   * `idx` of the decoded directory, every smali entry among them, and the candidates are the
   * listings of those directories, block after block, each block in its listing's order.
   */
  lemma CandidatesInOrder(decoded: Entry) returns (idx: seq<nat>, pos: seq<nat>)
    requires FirstApkDirectories(decoded).Ok?
    ensures decoded.node.Folder? && |idx| == |SmaliDirectories(ReadDirectory(decoded).value)|
    ensures forall k :: 0 <= k < |idx| ==>
      SmaliRoot(decoded, idx[k]) && SmaliDirectories(ReadDirectory(decoded).value)[k] == Child(decoded, idx[k])
    ensures forall k1, k2 :: 0 <= k1 < k2 < |idx| ==> idx[k1] < idx[k2]
    ensures |pos| == |decoded.node.children|
    ensures forall j :: 0 <= j < |decoded.node.children| && IsSmaliPath(Child(decoded, j).path) ==>
      pos[j] < |idx| && idx[pos[j]] == j
    ensures var smali := SmaliDirectories(ReadDirectory(decoded).value);
      forall k :: 0 <= k < |smali| ==>
        Offset(smali, k) + |smali[k].node.children| <= |FirstApkDirectories(decoded).value|
    ensures var smali := SmaliDirectories(ReadDirectory(decoded).value);
      forall k, i :: 0 <= k < |smali| && 0 <= i < |smali[k].node.children| ==>
        FirstApkDirectories(decoded).value[Offset(smali, k) + i] == Child(smali[k], i)
  {
    idx, pos := SmaliPositions(decoded);
    var smali := SmaliDirectories(ReadDirectory(decoded).value);
    assert FirstApkDirectories(decoded) == ListAll(smali);
    ListAllInOrder(smali);
  }

  /** Where the smali directories sit in the decoded directory's listing. */
  lemma SmaliPositions(decoded: Entry) returns (idx: seq<nat>, pos: seq<nat>)
    requires FirstApkDirectories(decoded).Ok?
    ensures decoded.node.Folder? && |idx| == |SmaliDirectories(ReadDirectory(decoded).value)|
    ensures forall k :: 0 <= k < |idx| ==>
      SmaliRoot(decoded, idx[k]) && SmaliDirectories(ReadDirectory(decoded).value)[k] == Child(decoded, idx[k])
    ensures forall k1, k2 :: 0 <= k1 < k2 < |idx| ==> idx[k1] < idx[k2]
    ensures |pos| == |decoded.node.children|
    ensures forall j :: 0 <= j < |decoded.node.children| && IsSmaliPath(Child(decoded, j).path) ==>
      pos[j] < |idx| && idx[pos[j]] == j
  {
    var top := ReadDirectory(decoded).value;
    var smali := SmaliDirectories(top);
    idx, pos := SmaliDirectoriesInOrder(top);
    ListingIsChildren(decoded);
    assert FirstApkDirectories(decoded) == ListAll(smali);
    SmaliDirectoriesMembers(top);
    forall k | 0 <= k < |idx| ensures SmaliRoot(decoded, idx[k]) {
      assert smali[k] in smali;
      assert smali[k] == Child(decoded, idx[k]);
    }
  }

  /** Well-formed trees give tidy candidates: each path ends in its own node's name. */
  lemma CandidatesTidy(decoded: Entry, c: Entry)
    requires WellFormed(decoded.node) && FirstApkDirectories(decoded).Ok?
    requires c in FirstApkDirectories(decoded).value
    ensures Tidy(c)
  {
    CandidatesAre(decoded, c);
    var k, i :| CandidateAt(decoded, k, i, c);
    ChildTidy(decoded, k);
    ChildTidy(Child(decoded, k), i);
  }

  // ---- matching by name ----

  /** The entries whose node carries `name`, in order. */
  function Named(es: seq<Entry>, name: string): (r: seq<Entry>)
    ensures forall e :: e in r <==> e in es && e.node.name == name
  {
    if es == [] then [] else (if es[0].node.name == name then [es[0]] else []) + Named(es[1..], name)
  }

  /** On tidy entries the segment filter never throws and selects by node name. */
  lemma {:induction false} SameSegmentTidy(es: seq<Entry>, name: string)
    requires forall e :: e in es ==> PathNamesNode(e)
    ensures SameSegment(es, name) == Ok(Named(es, name))
    decreases |es|
  {
    if es != [] {
      assert es[0] in es;
      assert SegmentOf(es[0].path) == Ok(es[0].node.name);
      SameSegmentTidy(es[1..], name);
      var rest := Named(es[1..], name);
      assert Named(es, name) == if es[0].node.name == name then [es[0]] + rest else rest;
    }
  }

  predicate DistinctEntryNames(es: seq<Entry>) {
    forall i, j :: 0 <= i < j < |es| ==> es[i].node.name != es[j].node.name
  }

  /** Within one directory a name matches at most one entry. */
  lemma {:induction false} NamedAtMostOne(es: seq<Entry>, name: string)
    requires DistinctEntryNames(es)
    ensures |Named(es, name)| <= 1
    ensures |Named(es, name)| == 1 <==> exists j :: 0 <= j < |es| && es[j].node.name == name
    decreases |es|
  {
    if es != [] {
      NamedAtMostOne(es[1..], name);
      if es[0].node.name == name {
        forall j | 0 <= j < |es[1..]| ensures es[1..][j].node.name != name {
          assert es[1..][j] == es[j + 1];
        }
      } else if exists j :: 0 <= j < |es| && es[j].node.name == name {
        var j :| 0 <= j < |es| && es[j].node.name == name;
        assert es[1..][j - 1].node.name == name;
      }
    }
  }

  /** `b` is a directory with an entry called `name`. */
  predicate HasChildNamed(b: Node, name: string) {
    b.Folder? && exists j :: 0 <= j < |b.children| && b.children[j].name == name
  }

  /** Both are directories and some entry name occurs in each. */
  predicate SharesName(a: Node, b: Node) {
    a.Folder? && exists i :: 0 <= i < |a.children| && HasChildNamed(b, a.children[i].name)
  }

  lemma ListingTidy(dir: Entry)
    requires WellFormed(dir.node) && dir.node.Folder?
    ensures forall e :: e in ReadDirectory(dir).value ==> Tidy(e) && PathNamesNode(e)
    ensures DistinctEntryNames(ReadDirectory(dir).value)
  {
    var es := ReadDirectory(dir).value;
    forall e | e in es ensures Tidy(e) && PathNamesNode(e) {
      var i :| 0 <= i < |es| && es[i] == e;
      ChildTidy(dir, i);
    }
  }

  // ---- the first decisive result, in listing order ----

  type Outcome = Result<Option<string>, Error>

  /** The first outcome that is not `undefined`, or `undefined` when there is none. */
  function Settle(os: seq<Outcome>): Outcome {
    if os == [] then Ok(None) else if os[0] == Ok(None) then Settle(os[1..]) else os[0]
  }

  /** The first outcome that `if (root)` accepts, or `undefined` when there is none. */
  function FirstDecisive(rs: seq<Outcome>): Outcome {
    if rs == [] then Ok(None) else if Decisive(rs[0]) then rs[0] else FirstDecisive(rs[1..])
  }

  lemma {:induction false} SettleNone(os: seq<Outcome>)
    ensures Settle(os) == Ok(None) <==> forall k :: 0 <= k < |os| ==> os[k] == Ok(None)
  {
    if os != [] {
      SettleNone(os[1..]);
      assert forall k :: 1 <= k < |os| ==> os[k] == os[1..][k - 1];
    }
  }

  lemma {:induction false} SettleFirst(os: seq<Outcome>) returns (k: nat)
    requires Settle(os) != Ok(None)
    ensures k < |os| && Settle(os) == os[k] && os[k] != Ok(None)
    ensures forall j :: 0 <= j < k ==> os[j] == Ok(None)
  {
    if os[0] == Ok(None) {
      var k' := SettleFirst(os[1..]);
      k := k' + 1;
      assert forall j :: 1 <= j < k ==> os[j] == os[1..][j - 1];
    } else {
      k := 0;
    }
  }

  /** When every outcome is `undefined` or the same answer, the loop answers it iff some package does. */
  lemma {:induction false} SettleUniform(os: seq<Outcome>, p: string)
    requires forall k :: 0 <= k < |os| ==> os[k] == Ok(None) || os[k] == Ok(Some(p))
    ensures Settle(os) == Ok(if exists k :: 0 <= k < |os| && os[k] == Ok(Some(p)) then Some(p) else None)
  {
    if os != [] {
      SettleUniform(os[1..], p);
      assert forall k :: 1 <= k < |os| ==> os[k] == os[1..][k - 1];
      if os[0] == Ok(None) && exists k :: 0 <= k < |os| && os[k] == Ok(Some(p)) {
        var k :| 0 <= k < |os| && os[k] == Ok(Some(p));
        assert os[1..][k - 1] == Ok(Some(p));
      }
    }
  }

  lemma {:induction false} FirstDecisiveNone(rs: seq<Outcome>)
    ensures FirstDecisive(rs) == Ok(None) <==> forall k :: 0 <= k < |rs| ==> !Decisive(rs[k])
  {
    if rs != [] {
      FirstDecisiveNone(rs[1..]);
      assert forall k :: 1 <= k < |rs| ==> rs[k] == rs[1..][k - 1];
    }
  }

  lemma {:induction false} FirstDecisiveFirst(rs: seq<Outcome>) returns (k: nat)
    requires FirstDecisive(rs) != Ok(None)
    ensures k < |rs| && FirstDecisive(rs) == rs[k] && Decisive(rs[k])
    ensures forall j :: 0 <= j < k ==> !Decisive(rs[j])
  {
    if !Decisive(rs[0]) {
      var k' := FirstDecisiveFirst(rs[1..]);
      k := k' + 1;
      assert forall j :: 1 <= j < k ==> rs[j] == rs[1..][j - 1];
    } else {
      k := 0;
    }
  }

  /** What each library package's iteration answers, in listing order. */
  ghost function Outcomes(aar: Entry, pkgs: seq<Entry>, start: string): (os: seq<Outcome>)
    requires aar.node.Folder?
    ensures |os| == |aar.node.children|
    ensures forall k :: 0 <= k < |os| ==> os[k] == PackageOutcome(Child(aar, k), pkgs, start)
  {
    seq(|aar.node.children|, k requires 0 <= k < |aar.node.children| => PackageOutcome(Child(aar, k), pkgs, start))
  }

  /** What the recursive call on each same-named target answers, in listing order. */
  ghost function Roots(aarPackage: Entry, matched: seq<Entry>): (rs: seq<Outcome>)
    ensures |rs| == |matched|
    ensures forall k :: 0 <= k < |rs| ==> rs[k] == SharedRoot(aarPackage, matched[k], false)
  {
    seq(|matched|, k requires 0 <= k < |matched| => SharedRoot(aarPackage, matched[k], false))
  }

  lemma ScanStep(aar: Entry, i: nat, pkgs: seq<Entry>, start: string)
    requires aar.node.Folder? && i < |aar.node.children|
    ensures ScanPackages(aar, i, pkgs, start) ==
      var here := PackageOutcome(Child(aar, i), pkgs, start);
      if here == Ok(None) then ScanPackages(aar, i + 1, pkgs, start) else here
  {
    var here := PackageOutcome(Child(aar, i), pkgs, start);
    if here.Err? {
      assert ScanPackages(aar, i, pkgs, start) == Err(here.error);
    } else if here.value.Some? {
      assert ScanPackages(aar, i, pkgs, start) == here;
    }
  }

  /**
   * The library loop answers with the first library package whose iteration answers, and with
   * `undefined` when none does; later packages are never consulted.
   */
  lemma {:induction false} ScanIsSettle(aar: Entry, i: nat, pkgs: seq<Entry>, start: string)
    requires aar.node.Folder? && i <= |aar.node.children|
    ensures ScanPackages(aar, i, pkgs, start) == Settle(Outcomes(aar, pkgs, start)[i..])
    decreases |aar.node.children| - i
  {
    var os := Outcomes(aar, pkgs, start);
    if i < |aar.node.children| {
      ScanStep(aar, i, pkgs, start);
      ScanIsSettle(aar, i + 1, pkgs, start);
      assert os[i..][1..] == os[i + 1..];
    }
  }

  /**
   * The loop over same-named targets answers with the first recursive result that `if (root)`
   * accepts, and with `undefined` when there is none.
   */
  lemma {:induction false} TryIsFirstDecisive(aarPackage: Entry, matched: seq<Entry>, j: nat)
    requires j <= |matched|
    ensures TryCandidates(aarPackage, matched, j) == FirstDecisive(Roots(aarPackage, matched)[j..])
    decreases |matched| - j
  {
    var rs := Roots(aarPackage, matched);
    if j < |matched| {
      TryIsFirstDecisive(aarPackage, matched, j + 1);
      assert rs[j..][1..] == rs[j + 1..];
    }
  }

  // ---- below the top level ----

  lemma PackageOutcomeBelowTop(aarPackage: Entry, apk: Entry)
    requires Tidy(aarPackage) && WellFormed(apk.node) && apk.node.Folder?
    ensures PackageOutcome(aarPackage, ReadDirectory(apk).value, apk.path)
      == Ok(if HasChildNamed(apk.node, aarPackage.node.name) then Some(apk.path) else None)
  {
    var name := aarPackage.node.name;
    var pkgs := ReadDirectory(apk).value;
    ListingTidy(apk);
    SameSegmentTidy(pkgs, name);
    NamedAtMostOne(pkgs, name);
    assert SegmentOf(aarPackage.path) == Ok(name);
    var matched := Named(pkgs, name);
    if HasChildNamed(apk.node, name) {
      var j :| 0 <= j < |apk.node.children| && apk.node.children[j].name == name;
      assert pkgs[j].node.name == name;
      assert |matched| == 1;
    } else {
      forall j | 0 <= j < |pkgs| ensures pkgs[j].node.name != name {
        assert pkgs[j].node == apk.node.children[j];
      }
      assert matched == [];
      assert TryCandidates(aarPackage, matched, 0) == Ok(None);
    }
  }

  lemma ScanBelowTop(aar: Entry, apk: Entry)
    requires WellFormed(aar.node) && aar.node.Folder?
    requires WellFormed(apk.node) && apk.node.Folder?
    ensures ScanPackages(aar, 0, ReadDirectory(apk).value, apk.path)
      == Ok(if SharesName(aar.node, apk.node) then Some(apk.path) else None)
  {
    var pkgs := ReadDirectory(apk).value;
    var os := Outcomes(aar, pkgs, apk.path);
    forall k | 0 <= k < |os|
      ensures os[k] == Ok(if HasChildNamed(apk.node, aar.node.children[k].name) then Some(apk.path) else None)
    {
      ChildTidy(aar, k);
      PackageOutcomeBelowTop(Child(aar, k), apk);
    }
    ScanIsSettle(aar, 0, pkgs, apk.path);
    assert os[0..] == os;
    SettleByName(os, aar.node, apk.node, apk.path);
  }

  /** Outcomes that answer `p` exactly for the entries the other directory also names settle on `p` iff a name is shared. */
  lemma SettleByName(os: seq<Outcome>, a: Node, b: Node, p: string)
    requires a.Folder? && |os| == |a.children|
    requires forall k :: 0 <= k < |os| ==> os[k] == Ok(if HasChildNamed(b, a.children[k].name) then Some(p) else None)
    ensures Settle(os) == Ok(if SharesName(a, b) then Some(p) else None)
  {
    SettleUniform(os, p);
  }

  /**
   * Below the top level a call looks only at the two directories' entry names: each name
   * matches at most one entry of a real directory, so no call recurses further. The answer is
   * the target directory itself when the two share an entry name, and `undefined` otherwise;
   * reading a file instead of a directory rejects, the library side first.
   */
  lemma BelowTopClosedForm(aar: Entry, apk: Entry)
    requires WellFormed(aar.node) && WellFormed(apk.node)
    ensures SharedRoot(aar, apk, false) ==
      if aar.node.File? then Err(NotADirectory(aar.path))
      else if apk.node.File? then Err(NotADirectory(apk.path))
      else Ok(if SharesName(aar.node, apk.node) then Some(apk.path) else None)
  {
    if aar.node.Folder? && apk.node.Folder? {
      ScanBelowTop(aar, apk);
    }
  }

  // ---- the top level ----

  /** What the recursive call on a same-named candidate answers, by the closed form above. */
  function CandidateRoot(kid: Entry, m: Entry): Outcome {
    if kid.node.File? then Err(NotADirectory(kid.path))
    else if m.node.File? then Err(NotADirectory(m.path))
    else Ok(if SharesName(kid.node, m.node) then Some(m.path) else None)
  }

  /** Exactly one candidate carries the package's name. */
  predicate UniqueMatch(kid: Entry, cands: seq<Entry>) {
    |Named(cands, kid.node.name)| == 1
  }

  /** Several candidates carry the package's name, and `m`, one of them, shares an entry name with it. */
  predicate DescendsTo(kid: Entry, cands: seq<Entry>, m: Entry) {
    && |Named(cands, kid.node.name)| >= 2 && m in Named(cands, kid.node.name)
    && kid.node.Folder? && m.node.Folder? && SharesName(kid.node, m.node)
  }

  /** The package's iteration answers `undefined`: no unique match, and no same-named candidate shares a name. */
  predicate Quiet(kid: Entry, cands: seq<Entry>) {
    && !UniqueMatch(kid, cands)
    && forall m :: m in Named(cands, kid.node.name) ==> CandidateQuiet(kid, m)
  }

  /** The recursive call on candidate `m` answers `undefined`. */
  predicate CandidateQuiet(kid: Entry, m: Entry) {
    kid.node.Folder? && m.node.Folder? && !SharesName(kid.node, m.node)
  }

  function CandidateRoots(kid: Entry, cands: seq<Entry>): (rs: seq<Outcome>)
    ensures |rs| == |Named(cands, kid.node.name)|
    ensures forall j :: 0 <= j < |rs| ==> rs[j] == CandidateRoot(kid, Named(cands, kid.node.name)[j])
  {
    var matched := Named(cands, kid.node.name);
    seq(|matched|, j requires 0 <= j < |matched| => CandidateRoot(kid, matched[j]))
  }

  /**
   * What the top-level iteration for library package `kid` answers: the decoded directory
   * itself when exactly one candidate carries the package's name, and otherwise the first
   * same-named candidate that shares an entry name with the package.
   */
  function PackageAnswer(kid: Entry, cands: seq<Entry>, start: string): Outcome {
    if UniqueMatch(kid, cands) then Ok(Some(start)) else FirstDecisive(CandidateRoots(kid, cands))
  }

  function TopAnswers(lib: Entry, cands: seq<Entry>, start: string): (os: seq<Outcome>)
    requires lib.node.Folder?
    ensures |os| == |lib.node.children|
    ensures forall k :: 0 <= k < |os| ==> os[k] == PackageAnswer(Child(lib, k), cands, start)
  {
    seq(|lib.node.children|, k requires 0 <= k < |lib.node.children| => PackageAnswer(Child(lib, k), cands, start))
  }

  lemma PackageOutcomeAtTop(kid: Entry, decoded: Entry)
    requires Tidy(kid) && WellFormed(decoded.node) && FirstApkDirectories(decoded).Ok?
    ensures PackageOutcome(kid, FirstApkDirectories(decoded).value, decoded.path)
      == PackageAnswer(kid, FirstApkDirectories(decoded).value, decoded.path)
  {
    var cands := FirstApkDirectories(decoded).value;
    forall c | c in cands ensures PathNamesNode(c) {
      CandidatesTidy(decoded, c);
    }
    assert SegmentOf(kid.path) == Ok(kid.node.name);
    SameSegmentTidy(cands, kid.node.name);
    var matched := Named(cands, kid.node.name);
    if |matched| != 1 {
      TryIsFirstDecisive(kid, matched, 0);
      var rs := Roots(kid, matched);
      assert rs[0..] == rs;
      forall j | 0 <= j < |rs| ensures rs[j] == CandidateRoot(kid, matched[j]) {
        assert matched[j] in cands;
        CandidatesTidy(decoded, matched[j]);
        BelowTopClosedForm(kid, matched[j]);
      }
      assert rs == CandidateRoots(kid, cands);
    }
  }

  /**
   * `getSharedRoot(aarDir, apkDir, true)` in closed form: reading the library directory, then
   * listing the candidates, may reject; otherwise the answer is the first library package's
   * answer that is not `undefined`.
   */
  lemma TopLevelClosedForm(lib: Entry, decoded: Entry)
    requires WellFormed(lib.node) && WellFormed(decoded.node)
    ensures SharedRoot(lib, decoded, true) ==
      if lib.node.File? then Err(NotADirectory(lib.path))
      else match FirstApkDirectories(decoded)
        case Err(e) => Err(e)
        case Ok(cands) => Settle(TopAnswers(lib, cands, decoded.path))
  {
    if lib.node.Folder? && FirstApkDirectories(decoded).Ok? {
      var cands := FirstApkDirectories(decoded).value;
      var os := Outcomes(lib, cands, decoded.path);
      forall k | 0 <= k < |os| ensures os[k] == PackageAnswer(Child(lib, k), cands, decoded.path) {
        ChildTidy(lib, k);
        PackageOutcomeAtTop(Child(lib, k), decoded);
      }
      assert os == TopAnswers(lib, cands, decoded.path);
      ScanIsSettle(lib, 0, cands, decoded.path);
      assert os[0..] == os;
    }
  }

  lemma PackageAnswerSome(kid: Entry, cands: seq<Entry>, start: string, p: string)
    requires PackageAnswer(kid, cands, start) == Ok(Some(p))
    ensures (UniqueMatch(kid, cands) && p == start) || exists m :: DescendsTo(kid, cands, m) && p == m.path
  {
    var matched := Named(cands, kid.node.name);
    if !UniqueMatch(kid, cands) {
      var rs := CandidateRoots(kid, cands);
      var j := FirstDecisiveFirst(rs);
      assert matched[j] in matched;
      assert DescendsTo(kid, cands, matched[j]);
    }
  }

  lemma RootQuiet(kid: Entry, m: Entry)
    requires PathNamesNode(m)
    ensures !Decisive(CandidateRoot(kid, m)) <==> CandidateQuiet(kid, m)
  {
    assert m.path != "";
  }

  lemma QuietAnswersNone(kid: Entry, cands: seq<Entry>, start: string)
    requires forall c :: c in cands ==> PathNamesNode(c)
    requires Quiet(kid, cands)
    ensures PackageAnswer(kid, cands, start) == Ok(None)
  {
    var matched := Named(cands, kid.node.name);
    var rs := CandidateRoots(kid, cands);
    forall j | 0 <= j < |rs| ensures !Decisive(rs[j]) {
      assert matched[j] in matched;
      RootQuiet(kid, matched[j]);
    }
    FirstDecisiveNone(rs);
  }

  lemma NoneIsQuiet(kid: Entry, cands: seq<Entry>, start: string)
    requires forall c :: c in cands ==> PathNamesNode(c)
    requires PackageAnswer(kid, cands, start) == Ok(None)
    ensures Quiet(kid, cands)
  {
    var matched := Named(cands, kid.node.name);
    var rs := CandidateRoots(kid, cands);
    FirstDecisiveNone(rs);
    forall m | m in matched ensures CandidateQuiet(kid, m) {
      var j :| 0 <= j < |matched| && matched[j] == m;
      RootQuiet(kid, m);
      assert !Decisive(rs[j]);
    }
  }

  lemma PackageAnswerNone(kid: Entry, cands: seq<Entry>, start: string)
    requires forall c :: c in cands ==> PathNamesNode(c)
    ensures PackageAnswer(kid, cands, start) == Ok(None) <==> Quiet(kid, cands)
  {
    if Quiet(kid, cands) {
      QuietAnswersNone(kid, cands, start);
    }
    if PackageAnswer(kid, cands, start) == Ok(None) {
      NoneIsQuiet(kid, cands, start);
    }
  }

  /**
   * A top-level answer is either the decoded directory, when some library package has exactly
   * one same-named candidate, or a same-named candidate that shares an entry name with the
   * package, and then the answer's last segment is the package's name. It comes from the first
   * library package whose iteration answers; the packages before it are quiet.
   */
  lemma TopLevelFound(lib: Entry, decoded: Entry, p: string) returns (k: nat)
    requires WellFormed(lib.node) && WellFormed(decoded.node)
    requires SharedRoot(lib, decoded, true) == Ok(Some(p))
    ensures lib.node.Folder? && FirstApkDirectories(decoded).Ok? && k < |lib.node.children|
    ensures forall j :: 0 <= j < k ==> Quiet(Child(lib, j), FirstApkDirectories(decoded).value)
    ensures var kid := Child(lib, k); var cands := FirstApkDirectories(decoded).value;
      || (UniqueMatch(kid, cands) && p == decoded.path)
      || (exists m :: DescendsTo(kid, cands, m) && p == m.path && LastSegment(p) == Some(kid.node.name))
  {
    TopLevelClosedForm(lib, decoded);
    var cands := FirstApkDirectories(decoded).value;
    forall c | c in cands ensures PathNamesNode(c) {
      CandidatesTidy(decoded, c);
    }
    var os := TopAnswers(lib, cands, decoded.path);
    k := SettleFirst(os);
    forall j | 0 <= j < k ensures Quiet(Child(lib, j), cands) {
      PackageAnswerNone(Child(lib, j), cands, decoded.path);
    }
    var kid := Child(lib, k);
    PackageAnswerSome(kid, cands, decoded.path, p);
    if !(UniqueMatch(kid, cands) && p == decoded.path) {
      var m :| DescendsTo(kid, cands, m) && p == m.path;
      assert m in cands;
    }
  }

  /** The top-level call answers `undefined` exactly when every library package is quiet. */
  lemma TopLevelNoMatch(lib: Entry, decoded: Entry)
    requires WellFormed(lib.node) && WellFormed(decoded.node)
    ensures SharedRoot(lib, decoded, true) == Ok(None) <==>
      && lib.node.Folder? && FirstApkDirectories(decoded).Ok?
      && forall k :: 0 <= k < |lib.node.children| ==> Quiet(Child(lib, k), FirstApkDirectories(decoded).value)
  {
    TopLevelClosedForm(lib, decoded);
    if lib.node.Folder? && FirstApkDirectories(decoded).Ok? {
      var cands := FirstApkDirectories(decoded).value;
      forall c | c in cands ensures PathNamesNode(c) {
        CandidatesTidy(decoded, c);
      }
      var os := TopAnswers(lib, cands, decoded.path);
      SettleNone(os);
      forall k | 0 <= k < |os| ensures os[k] == Ok(None) <==> Quiet(Child(lib, k), cands) {
        PackageAnswerNone(Child(lib, k), cands, decoded.path);
      }
    }
  }

  /**
   * When the first library package has exactly one same-named candidate, the top-level call
   * answers the decoded directory itself, not the smali directory holding that candidate.
   */
  lemma TopLevelUniqueMatch(lib: Entry, decoded: Entry)
    requires WellFormed(lib.node) && WellFormed(decoded.node)
    requires lib.node.Folder? && |lib.node.children| > 0 && FirstApkDirectories(decoded).Ok?
    requires UniqueMatch(Child(lib, 0), FirstApkDirectories(decoded).value)
    ensures SharedRoot(lib, decoded, true) == Ok(Some(decoded.path))
  {
    TopLevelClosedForm(lib, decoded);
  }
}
