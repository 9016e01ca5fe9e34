/**
 * The filesystem as an immutable tree, and `readDirectory` over it: listing a directory
 * yields, in listing order, each child's path joined onto the directory's path.
 */
module FileTree {
  import opened Wrappers
  import opened Errors
  import opened Paths

  datatype Node = File(name: string) | Folder(name: string, children: seq<Node>)

  /** A path together with what the filesystem holds there. */
  datatype Entry = Entry(path: string, node: Node)

  /** The `i`-th entry of a directory listing. */
  function Child(dir: Entry, i: nat): Entry
    requires dir.node.Folder? && i < |dir.node.children|
  {
    var n := dir.node.children[i];
    Entry(Join(dir.path, n.name), n)
  }

  /**
   * `readDirectory(dir)`: one entry per child, holding that child, in listing order; on a
   * file, the error `fs.readdir` gives.
   */
  function ReadDirectory(dir: Entry): (r: Result<seq<Entry>, Error>)
    ensures r.Err? <==> dir.node.File?
    ensures r.Err? ==> r.error == NotADirectory(dir.path)
    ensures r.Ok? ==> |r.value| == |dir.node.children|
    ensures r.Ok? ==> forall i :: 0 <= i < |r.value| ==> r.value[i].node == dir.node.children[i]
  {
    match dir.node
    case File(_) => Err(NotADirectory(dir.path))
    case Folder(_, kids) => Ok(seq(|kids|, i requires 0 <= i < |kids| => Child(dir, i)))
  }

  /**
   * Each listed path starts with the directory's path and, on a real tree, ends in the name
   * of the child listed with it.
   */
  lemma ListingNamed(dir: Entry)
    requires dir.node.Folder?
    ensures forall i :: 0 <= i < |dir.node.children| ==> dir.path <= ReadDirectory(dir).value[i].path
    ensures WellFormed(dir.node) ==>
      forall i :: 0 <= i < |dir.node.children| ==> PathNamesNode(ReadDirectory(dir).value[i])
  {
    var listing := ReadDirectory(dir).value;
    forall i | 0 <= i < |dir.node.children| ensures dir.path <= listing[i].path {
      JoinExtends(dir.path, dir.node.children[i].name);
    }
    if WellFormed(dir.node) {
      forall i | 0 <= i < |dir.node.children| ensures PathNamesNode(listing[i]) {
        assert WellFormed(dir.node.children[i]);
        LastSegmentOfJoin(dir.path, dir.node.children[i].name);
      }
    }
  }

  /** The listing is the directory's children joined onto its path. */
  lemma ListingIsChildren(dir: Entry)
    requires dir.node.Folder?
    ensures forall i :: 0 <= i < |dir.node.children| ==> ReadDirectory(dir).value[i] == Child(dir, i)
  {
  }

  predicate DistinctNames(kids: seq<Node>) {
    forall i, j :: 0 <= i < j < |kids| ==> kids[i].name != kids[j].name
  }

  /** What a real directory tree satisfies: proper entry names, no two alike in one directory. */
  ghost predicate WellFormed(n: Node) {
    && IsEntryName(n.name)
    && (n.Folder? ==>
          && DistinctNames(n.children)
          && forall i :: 0 <= i < |n.children| ==> WellFormed(n.children[i]))
  }

  /** The entry's path ends in its node's own name. */
  predicate PathNamesNode(e: Entry) {
    LastSegment(e.path) == Some(e.node.name)
  }

  /** An entry whose node is well formed and whose path ends in the node's own name. */
  ghost predicate Tidy(e: Entry) {
    WellFormed(e.node) && PathNamesNode(e)
  }

  lemma ChildTidy(dir: Entry, i: nat)
    requires WellFormed(dir.node) && dir.node.Folder? && i < |dir.node.children|
    ensures Tidy(Child(dir, i))
  {
    LastSegmentOfJoin(dir.path, dir.node.children[i].name);
  }
}
