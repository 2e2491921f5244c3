/** The image tree on disk and `next_sequential_name`, the allocator that
    finds the first free `{prefix}-{n}.{ext}` and reserves it with an
    exclusive create. */
module Storage {
  import opened Base64
  import Decimal
  import Text

  /** One directory: file name to contents. */
  type Dir = map<string, seq<byte>>

  /** The image root: directory name to directory. */
  type Tree = map<string, Dir>

  /** `os.makedirs(path, exist_ok=True)` on the tree: the directory exists
      afterwards and nothing else changes. */
  function EnsureDir(tree: Tree, dir: string): (t: Tree)
    ensures dir in t && t.Keys == tree.Keys + {dir}
    ensures forall d :: d in tree ==> t[d] == tree[d]
    ensures dir !in tree ==> t[dir] == map[]
  {
    if dir in tree then tree else tree[dir := map[]]
  }

  /** Creating a directory and then replacing it is replacing it. */
  lemma EnsureDirThenSet(tree: Tree, dir: string, contents: Dir)
    ensures EnsureDir(tree, dir)[dir := contents] == tree[dir := contents]
  {
    if dir !in tree {
      assert tree[dir := map[]][dir := contents] == tree[dir := contents];
    }
  }

  /** The file store of the service. Its only state is the tree, which the
      handler changes in place by creating directories and files. */
  class FileStore {
    var tree: Tree

    constructor (initial: Tree)
      ensures tree == initial
    {
      tree := initial;
    }

    /** `os.path.exists(os.path.join(dir, name))`. */
    function Exists(dir: string, name: string): (b: bool)
      reads this
      ensures b <==> dir in tree && name in tree[dir]
    {
      dir in tree && name in tree[dir]
    }

    /** `os.makedirs(dir, exist_ok=True)`. */
    method MakeDirs(dir: string)
      modifies this
      ensures tree == EnsureDir(old(tree), dir)
    {
      tree := EnsureDir(tree, dir);
    }

    /** `open(path, "xb")` followed by an empty write: creates an empty file
        if and only if none exists under that name. */
    method CreateExclusive(dir: string, name: string) returns (created: bool)
      requires dir in tree
      modifies this
      ensures created <==> name !in old(tree)[dir]
      ensures tree == if created then old(tree)[dir := old(tree)[dir][name := []]] else old(tree)
    {
      created := name !in tree[dir];
      if created {
        tree := tree[dir := tree[dir][name := []]];
      }
    }

    /** `open(path, "wb")` and a write of `data`: creates or truncates. */
    method WriteFile(dir: string, name: string, data: seq<byte>)
      requires dir in tree
      modifies this
      ensures tree == old(tree)[dir := old(tree)[dir][name := data]]
    {
      tree := tree[dir := tree[dir][name := data]];
    }
  }

  /** The candidate `f"{prefix}-{n}.{ext}"`. */
  function Candidate(prefix: string, n: nat, ext: string): string {
    prefix + "-" + Decimal.NatToString(n) + "." + ext
  }

  /** Different indices give different candidate names: the decimal part
      ends at the first `.` after the prefix and its dash. */
  lemma CandidateInjective(prefix: string, ext: string, m: nat, n: nat)
    ensures Candidate(prefix, m, ext) == Candidate(prefix, n, ext) ==> m == n
  {
    if Candidate(prefix, m, ext) == Candidate(prefix, n, ext) {
      var a, b := Decimal.NatToString(m), Decimal.NatToString(n);
      var k := |prefix| + 1;
      var x := Candidate(prefix, m, ext);
      assert x[k..] == a + ['.'] + ext == b + ['.'] + ext;
      Text.FirstIndexOfSplit(a, '.', ext);
      Text.FirstIndexOfSplit(b, '.', ext);
      assert a == x[k..][..|a|] && b == x[k..][..|b|];
      Decimal.NatToStringInjective(m, n);
    }
  }

  /** Every candidate ends with `.` and the extension. */
  lemma CandidateSuffix(prefix: string, n: nat, ext: string)
    ensures var c := Candidate(prefix, n, ext);
      |c| > |ext| && c[|c| - |ext| - 1..] == "." + ext
  {
    var head := prefix + "-" + Decimal.NatToString(n);
    assert Candidate(prefix, n, ext) == head + ("." + ext);
  }

  /** The least index `>= n` whose candidate is not among `names`. Each step
      drops the taken candidate from `names`, so the recursion ends. */
  function FirstFree(names: set<string>, prefix: string, ext: string, n: nat): (r: nat)
    ensures r >= n
    ensures Candidate(prefix, r, ext) !in names
    ensures forall k :: n <= k < r ==> Candidate(prefix, k, ext) in names
    decreases |names|
  {
    var c := Candidate(prefix, n, ext);
    if c !in names then n
    else
      var r := FirstFree(names - {c}, prefix, ext, n + 1);
      CandidateInjective(prefix, ext, r, n);
      r
  }

  /** An index that is free while every index from `n` up to it is taken
      is the one `FirstFree` finds. */
  lemma FirstFreeLeast(names: set<string>, prefix: string, ext: string, n: nat, m: nat)
    requires n <= m
    requires forall k :: n <= k < m ==> Candidate(prefix, k, ext) in names
    requires Candidate(prefix, m, ext) !in names
    ensures FirstFree(names, prefix, ext, n) == m
  {
  }

  /** With exactly the files `1..N` of a prefix present, the next name is
      number `N + 1`. */
  lemma FirstFreeAfterRun(prefix: string, ext: string, count: nat)
    ensures FirstFree(set k | 1 <= k <= count :: Candidate(prefix, k, ext), prefix, ext, 1) == count + 1
  {
    var names := set k | 1 <= k <= count :: Candidate(prefix, k, ext);
    if Candidate(prefix, count + 1, ext) in names {
      var k :| 1 <= k <= count && Candidate(prefix, k, ext) == Candidate(prefix, count + 1, ext);
      CandidateInjective(prefix, ext, k, count + 1);
    }
    FirstFreeLeast(names, prefix, ext, 1, count + 1);
  }

  /** `max(1, start)`. */
  function StartIndex(start: int): (n: nat)
    ensures n >= 1 && n >= start
    ensures start >= 1 ==> n == start
    ensures start < 1 ==> n == 1
  {
    if start < 1 then 1 else start
  }

  /** `next_sequential_name`: probes `{prefix}-{n}.{ext}` for
      `n = max(1, start), ...` with an exclusive create and returns the first
      name it could create, now an empty file. The ghost `n` is the index
      of that name. */
  method NextSequentialName(fs: FileStore, dir: string, prefix: string, ext: string, start: int)
    returns (name: string, ghost n: nat)
    requires dir in fs.tree
    modifies fs
    ensures n == FirstFree(old(fs.tree)[dir].Keys, prefix, ext, StartIndex(start))
    ensures name == Candidate(prefix, n, ext)
    ensures name !in old(fs.tree)[dir]
    ensures fs.tree == old(fs.tree)[dir := old(fs.tree)[dir][name := []]]
  {
    var k := StartIndex(start);
    ghost var rest := fs.tree[dir].Keys;
    while true
      invariant fs.tree == old(fs.tree)
      invariant FirstFree(rest, prefix, ext, k) == FirstFree(old(fs.tree)[dir].Keys, prefix, ext, StartIndex(start))
      invariant forall j :: k <= j ==> (Candidate(prefix, j, ext) in rest <==> Candidate(prefix, j, ext) in fs.tree[dir])
      decreases rest
    {
      var candidate := Candidate(prefix, k, ext);
      var created := fs.CreateExclusive(dir, candidate);
      if created {
        return candidate, k;
      }
      forall j | k + 1 <= j
        ensures Candidate(prefix, j, ext) in rest - {candidate} <==> Candidate(prefix, j, ext) in fs.tree[dir]
      {
        CandidateInjective(prefix, ext, j, k);
      }
      rest := rest - {candidate};
      k := k + 1;
    }
  }
}
