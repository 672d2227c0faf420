/**
 * The OakTree path builder (packages/oak/src/index.ts): a full path is root, trunk and
 * branch path glued together; `:name` placeholders are filled from the arguments, one per
 * argument, each time the leftmost one that is left; the router path drops the first character.
 */
module Oak {
  import opened Wrappers

  /** An `OakTree`: its three constructor arguments, kept as given. */
  datatype OakTree = OakTree(root: string, trunk: string, branches: map<string, string>)

  /** `getFullPath(path)`: root, trunk and path, concatenated. */
  function GetFullPath(tree: OakTree, path: string): (full: string)
    ensures |full| == |tree.root| + |tree.trunk| + |path|
    ensures full[..|tree.root|] == tree.root
    ensures full[|tree.root|..|tree.root| + |tree.trunk|] == tree.trunk
    ensures full[|tree.root| + |tree.trunk|..] == path
  {
    tree.root + tree.trunk + path
  }

  /** `getRouterPath(path)`: the full path without its first character (`substring(1)`). */
  function GetRouterPath(tree: OakTree, path: string): (r: string)
    ensures |r| == if |GetFullPath(tree, path)| == 0 then 0 else |GetFullPath(tree, path)| - 1
    ensures |GetFullPath(tree, path)| > 0 ==> [GetFullPath(tree, path)[0]] + r == GetFullPath(tree, path)
  {
    var full := GetFullPath(tree, path);
    if |full| == 0 then "" else assert [full[0]] + full[1..] == full; full[1..]
  }

  /** A router path is the full path with its leading slash taken off. */
  lemma RouterPathRestoresSlash(tree: OakTree, path: string)
    requires |GetFullPath(tree, path)| > 0 && GetFullPath(tree, path)[0] == '/'
    ensures "/" + GetRouterPath(tree, path) == GetFullPath(tree, path)
  {
    var full := GetFullPath(tree, path);
    assert [full[0]] + full[1..] == full;
  }

  /** `\w`: an ASCII letter, a digit or `_`. */
  predicate IsWordChar(c: char)
  {
    ('a' <= c <= 'z') || ('A' <= c <= 'Z') || ('0' <= c <= '9') || c == '_'
  }

  /** A placeholder `:\w+` starts at `i`: a ':' followed by at least one word character. */
  predicate PlaceholderAt(s: string, i: nat)
  {
    i + 1 < |s| && s[i] == ':' && IsWordChar(s[i + 1])
  }

  /** The end of the run of word characters that starts at `j` (the greedy `\w+`). */
  function WordRunEnd(s: string, j: nat): (e: nat)
    requires j <= |s|
    ensures j <= e <= |s|
    decreases |s| - j
  {
    if j == |s| || !IsWordChar(s[j]) then j else WordRunEnd(s, j + 1)
  }

  /** The run is made of word characters and stops before the first other character (`\w+` is greedy). */
  lemma {:induction false} WordRunIsGreedy(s: string, j: nat)
    requires j <= |s|
    ensures forall k :: j <= k < WordRunEnd(s, j) ==> IsWordChar(s[k])
    ensures WordRunEnd(s, j) == |s| || !IsWordChar(s[WordRunEnd(s, j)])
    decreases |s| - j
  {
    if j < |s| && IsWordChar(s[j]) {
      WordRunIsGreedy(s, j + 1);
    }
  }

  /** The leftmost match of `/:\w+/` at or after `j`, as its start and end. */
  function FindPlaceholderFrom(s: string, j: nat): (r: Option<(nat, nat)>)
    requires j <= |s|
    ensures r.Some? ==> j <= r.value.0 && PlaceholderAt(s, r.value.0) && r.value.1 == WordRunEnd(s, r.value.0 + 1)
    decreases |s| - j
  {
    if j + 1 >= |s| then None
    else if PlaceholderAt(s, j) then Some((j, WordRunEnd(s, j + 1)))
    else FindPlaceholderFrom(s, j + 1)
  }

  /** The search finds the leftmost placeholder: there is none before the one it returns. */
  lemma {:induction false} FindFromIsLeftmost(s: string, j: nat, k: nat)
    requires j <= k <= |s|
    requires var r := FindPlaceholderFrom(s, j); r.None? || k < r.value.0
    ensures !PlaceholderAt(s, k)
    decreases |s| - j
  {
    if j + 1 < |s| && j < k {
      FindFromIsLeftmost(s, j + 1, k);
    }
  }

  /** The leftmost placeholder of `s`, if any. */
  function FindPlaceholder(s: string): Option<(nat, nat)>
  {
    FindPlaceholderFrom(s, 0)
  }

  /** `s.replace(/:\w+/, arg)`, for an `arg` without `$` patterns. */
  function ReplaceFirst(s: string, arg: string): (r: string)
    ensures FindPlaceholder(s).None? ==> r == s
    ensures FindPlaceholder(s).Some? ==>
              var (i, e) := FindPlaceholder(s).value; |r| == |s| - (e - i) + |arg| && r[..i] == s[..i]
  {
    match FindPlaceholder(s)
    case None => s
    case Some((i, e)) => s[..i] + arg + s[e..]
  }

  /**
   * The leftmost placeholder is replaced as a whole and the text around it is kept: the
   * result is the text before it, the argument, and the text after its word run.
   */
  lemma ReplaceFirstSplices(s: string, arg: string)
    requires FindPlaceholder(s).Some?
    ensures var (i, e) := FindPlaceholder(s).value;
            && s[i] == ':' && i + 1 < e <= |s|
            && (forall k :: i < k < e ==> IsWordChar(s[k]))
            && (e == |s| || !IsWordChar(s[e]))
            && (forall k :: 0 <= k < i ==> !PlaceholderAt(s, k))
            && ReplaceFirst(s, arg) == s[..i] + arg + s[e..]
  {
    var (i, e) := FindPlaceholder(s).value;
    WordRunIsGreedy(s, i + 1);
    forall k | 0 <= k < i
      ensures !PlaceholderAt(s, k)
    {
      FindFromIsLeftmost(s, 0, k);
    }
  }

  /** A path without any placeholder is left as it is. */
  lemma NoPlaceholderUnchanged(s: string, arg: string)
    requires forall k :: 0 <= k < |s| ==> !PlaceholderAt(s, k)
    ensures ReplaceFirst(s, arg) == s
  {
  }

  /** The path after the loop of lines 13-15 has replaced one placeholder per argument, in order. */
  function FillArgs(path: string, args: seq<string>): (r: string)
    ensures (forall k :: 0 <= k < |path| ==> !PlaceholderAt(path, k)) ==> r == path
    decreases |args|
  {
    if args == [] then path else ReplaceFirst(FillArgs(path, args[..|args| - 1]), args[|args| - 1])
  }

  /** With no arguments there is nothing to fill. */
  lemma FillNoArgs(path: string)
    ensures FillArgs(path, []) == path
  {
  }

  /**
   * `getFullPathWithArgs(path, ...args)` (lines 12-18): the loop replaces the leftmost
   * placeholder once per argument, then the full path is built from the result.
   */
  method GetFullPathWithArgs(tree: OakTree, path: string, args: seq<string>) returns (full: string)
    requires forall a :: a in args ==> '$' !in a
    ensures full == GetFullPath(tree, FillArgs(path, args))
  {
    var p := path;
    var k := 0;
    while k < |args|
      invariant 0 <= k <= |args|
      invariant p == FillArgs(path, args[..k])
    {
      assert args[..k + 1][..k] == args[..k];
      p := ReplaceFirst(p, args[k]);
      k := k + 1;
    }
    assert args[..|args|] == args;
    full := GetFullPath(tree, p);
  }

  /** Searching from `|x| + k` in `x + y` is searching from `k` in `y`, shifted by `|x|`. */
  lemma {:induction false} FindFromShift(x: string, y: string, k: nat)
    requires k <= |y|
    ensures Shifted(FindPlaceholderFrom(y, k), |x|) == FindPlaceholderFrom(x + y, |x| + k)
    decreases |y| - k
  {
    var s := x + y;
    if |x| + k + 1 < |s| {
      assert s[|x| + k] == y[k] && s[|x| + k + 1] == y[k + 1];
      if PlaceholderAt(y, k) {
        WordRunShift(x, y, k + 1);
      } else {
        FindFromShift(x, y, k + 1);
      }
    }
  }

  /** A match moved `n` positions to the right. */
  function Shifted(r: Option<(nat, nat)>, n: nat): Option<(nat, nat)>
  {
    if r.None? then None else Some((r.value.0 + n, r.value.1 + n))
  }

  /** The word run from `|x| + j` in `x + y` is the word run from `j` in `y`, shifted. */
  lemma {:induction false} WordRunShift(x: string, y: string, j: nat)
    requires j <= |y|
    ensures WordRunEnd(x + y, |x| + j) == |x| + WordRunEnd(y, j)
    decreases |y| - j
  {
    if j < |y| && IsWordChar(y[j]) {
      assert (x + y)[|x| + j] == y[j];
      WordRunShift(x, y, j + 1);
    }
  }

  /** Positions without a placeholder can be skipped by the search. */
  lemma {:induction false} FindFromSkips(s: string, j: nat, m: nat)
    requires j <= m <= |s|
    requires forall k :: j <= k < m ==> !PlaceholderAt(s, k)
    ensures FindPlaceholderFrom(s, j) == FindPlaceholderFrom(s, m)
    decreases m - j
  {
    if j < m && j + 1 < |s| {
      FindFromSkips(s, j + 1, m);
    }
  }

  /**
   * Placeholders are filled left to right: when the argument holds no ':' and cannot join
   * a ':' just before the placeholder into a new one, the next placeholder searched for
   * is the first one after the replaced word run.
   */
  lemma NextPlaceholderAfterArg(s: string, arg: string, i: nat, e: nat)
    requires FindPlaceholder(s) == Some((i, e))
    requires ':' !in arg
    requires !(i > 0 && s[i - 1] == ':' && arg != [] && IsWordChar(arg[0]))
    ensures e <= |s|
    ensures FindPlaceholder(ReplaceFirst(s, arg)) == Shifted(FindPlaceholder(s[e..]), i + |arg|)
  {
    var r := FrontSkipped(s, arg, i, e);
    SplicedSearch(s[..i] + arg, s[e..], r);
  }

  /** A search past the spliced-in argument is a search of the text after the word run, shifted. */
  lemma SplicedSearch(front: string, rest: string, r: string)
    requires r == front + rest
    ensures FindPlaceholderFrom(r, |front|) == Shifted(FindPlaceholder(rest), |front|)
  {
    FindFromShift(front, rest, 0);
  }

  /** The search in the spliced path passes over the text before the argument and the argument. */
  lemma FrontSkipped(s: string, arg: string, i: nat, e: nat) returns (r: string)
    requires FindPlaceholder(s) == Some((i, e))
    requires ':' !in arg
    requires !(i > 0 && s[i - 1] == ':' && arg != [] && IsWordChar(arg[0]))
    ensures e <= |s| && r == s[..i] + arg + s[e..] && r == ReplaceFirst(s, arg)
    ensures FindPlaceholder(r) == FindPlaceholderFrom(r, |s[..i] + arg|)
  {
    r := s[..i] + arg + s[e..];
    NoPlaceholdersInFront(s, arg, i, e);
    FindFromSkips(r, 0, i + |arg|);
  }

  /** No placeholder starts anywhere before the end of the spliced-in argument. */
  lemma NoPlaceholdersInFront(s: string, arg: string, i: nat, e: nat)
    requires FindPlaceholder(s) == Some((i, e))
    requires ':' !in arg
    requires !(i > 0 && s[i - 1] == ':' && arg != [] && IsWordChar(arg[0]))
    ensures forall k :: 0 <= k < i + |arg| ==> !PlaceholderAt(s[..i] + arg + s[e..], k)
  {
    forall k | 0 <= k < i + |arg|
      ensures !PlaceholderAt(s[..i] + arg + s[e..], k)
    {
      NoPlaceholderInFront(s, arg, i, e, k);
    }
  }

  /** No placeholder starts before the end of the argument once it is spliced in. */
  lemma NoPlaceholderInFront(s: string, arg: string, i: nat, e: nat, k: nat)
    requires FindPlaceholder(s) == Some((i, e))
    requires ':' !in arg
    requires !(i > 0 && s[i - 1] == ':' && arg != [] && IsWordChar(arg[0]))
    requires k < i + |arg|
    ensures !PlaceholderAt(s[..i] + arg + s[e..], k)
  {
    var r := s[..i] + arg + s[e..];
    WordRunIsGreedy(s, i + 1);
    if k + 1 < i {
      assert r[k] == s[k] && r[k + 1] == s[k + 1];
      FindFromIsLeftmost(s, 0, k);
    } else if k + 1 == i {
      if arg == [] {
        assert e == |s| || r[k + 1] == s[e];
      } else {
        assert r[k + 1] == arg[0];
      }
    } else {
      assert r[k] == arg[k - i];
    }
  }

  /** The example tree of the package's own data: root `/root`, trunk `/trunk`. */
  function ExampleTree(): OakTree
  {
    OakTree("/root", "/trunk", map["branch1" := "/branch1", "branch2" := "/branch2/:id"])
  }

  /** The placeholder of `/branch2/:id` is `:id`, at positions 9 to 12. */
  lemma BranchPlaceholder()
    ensures FindPlaceholder("/branch2/:id") == Some((9, 12))
  {
    var s := "/branch2/:id";
    assert PlaceholderAt(s, 9);
    assert WordRunEnd(s, 10) == 12;
    forall k | 0 <= k < 9
      ensures !PlaceholderAt(s, k)
    {
      assert s[k] != ':';
    }
    FindFromSkips(s, 0, 9);
  }

  /** `/branch2/:id` with argument `'123'` gives `/root/trunk/branch2/123`. */
  lemma FilledBranchExample()
    ensures GetFullPath(ExampleTree(), FillArgs("/branch2/:id", ["123"])) == "/root/trunk/branch2/123"
  {
    var s := "/branch2/:id";
    BranchPlaceholder();
    assert ["123"][..0] == [];
    var r := ReplaceFirst(s, "123");
    assert FillArgs(s, ["123"]) == r;
    assert s[..9] == "/branch2/" && s[12..] == "";
    assert r == "/branch2/" + "123" + "";
  }

  /** `getRouterPath('/branch1')` of the example tree is `root/trunk/branch1`. */
  lemma RouterPathExample()
    ensures GetRouterPath(ExampleTree(), "/branch1") == "root/trunk/branch1"
  {
    var full := GetFullPath(ExampleTree(), "/branch1");
    assert full == "/root/trunk/branch1";
    assert full[1..] == "root/trunk/branch1";
  }
}
