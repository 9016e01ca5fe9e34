/** Paths as the program builds and takes them apart (`path.join` and a last-segment regex). */
module Paths {
  import opened Wrappers

  const Separator: char := '/'

  /** What a directory listing can hold: never empty, never "." or "..", never a separator. */
  predicate IsEntryName(name: string) {
    name != "" && Separator !in name && name != "." && name != ".."
  }

  /** `path.join(dir, name)` for a directory path and one entry name. */
  function Join(dir: string, name: string): string {
    if dir == "" then name
    else if dir[|dir| - 1] == Separator then dir + name
    else dir + [Separator] + name
  }

  /** A joined path starts with the directory's path. */
  lemma JoinExtends(dir: string, name: string)
    ensures dir <= Join(dir, name)
  {
    if dir != "" && dir[|dir| - 1] != Separator {
      assert Join(dir, name) == dir + ([Separator] + name);
    }
  }

  /** A joined path ends with the name. */
  lemma JoinEndsWith(dir: string, name: string)
    ensures |name| <= |Join(dir, name)| && Join(dir, name)[|Join(dir, name)| - |name|..] == name
  {
    var j := Join(dir, name);
    if dir == "" {
      assert j == name;
    } else if dir[|dir| - 1] == Separator {
      assert j == dir + name && j[|dir|..] == name;
    } else {
      assert j == (dir + [Separator]) + name && j[|dir| + 1..] == name;
    }
  }

  /** The longest suffix of `p` that holds no separator. */
  function Tail(p: string): (t: string)
    ensures |t| <= |p| && p[|p| - |t|..] == t
    ensures Separator !in t
    ensures |t| == |p| || p[|p| - |t| - 1] == Separator
    decreases |p|
  {
    if p == "" || p[|p| - 1] == Separator then ""
    else Tail(p[..|p| - 1]) + [p[|p| - 1]]
  }

  /**
   * `p.match(/[^\/]+?(?=$)/)`: the earliest non-empty run of non-separators that reaches the
   * end of `p`, i.e. the final path component. There is none when `p` is empty or ends in a
   * separator, and then `match` gives null.
   */
  function LastSegment(p: string): (r: Option<string>)
    ensures r.Some? <==> p != "" && p[|p| - 1] != Separator
    ensures r.Some? ==> r.value != "" && Separator !in r.value
    ensures r.Some? ==> |r.value| <= |p| && p[|p| - |r.value|..] == r.value
    ensures r.Some? ==> |r.value| == |p| || p[|p| - |r.value| - 1] == Separator
  {
    var t := Tail(p);
    if t == "" then None else Some(t)
  }

  /** One more non-separator extends the tail by it. */
  lemma TailSnoc(p: string, c: char)
    requires c != Separator
    ensures Tail(p + [c]) == Tail(p) + [c]
  {
    var y := p + [c];
    assert y[..|y| - 1] == p;
  }

  lemma {:induction false} TailAfterSeparator(x: string, name: string)
    requires x == "" || x[|x| - 1] == Separator
    requires Separator !in name
    ensures Tail(x + name) == name
    decreases |name|
  {
    if name == "" {
      assert x + name == x;
    } else {
      var init := name[..|name| - 1];
      var last := name[|name| - 1];
      assert name == init + [last];
      assert x + name == (x + init) + [last];
      TailSnoc(x + init, last);
      TailAfterSeparator(x, init);
    }
  }

  lemma LastSegmentOfJoin(dir: string, name: string)
    requires IsEntryName(name)
    ensures LastSegment(Join(dir, name)) == Some(name)
  {
    if dir == "" {
      TailAfterSeparator("", name);
      assert "" + name == name;
    } else if dir[|dir| - 1] == Separator {
      TailAfterSeparator(dir, name);
    } else {
      TailAfterSeparator(dir + [Separator], name);
    }
  }
}
