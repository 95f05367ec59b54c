/** `fs_mkdirs` of file_mkdir.c over an abstract directory tree: create every directory that a path
    names before a slash, refusing symbolic links. */
module MakeDirs {

  type Path = seq<string>

  datatype Kind = Dir | File | Symlink

  type Tree = map<Path, Kind>

  const EINVAL := 22
  const ENOTDIR := 20
  const ELOOP := 40

  datatype Call = Stat | Mkdir | Open

  /** System calls that fail for reasons outside the tree, with their error numbers: any fstatat
      error but ENOENT, any mkdirat error but EEXIST, any openat error. */
  type Faults = map<(Call, Path), int>

  /** What other processes do: a path that is absent when a call looks for it, and is in `races`,
      has appeared with that kind when the call tries to create it. */
  datatype Env = Env(faults: Faults, races: Tree)

  // ----- The components of a path -----

  function FirstSlash(s: string): (k: nat)
    requires '/' in s
    ensures k < |s| && s[k] == '/' && '/' !in s[..k]
  {
    if s[0] == '/' then 0
    else
      var k := FirstSlash(s[1..]);
      assert s[..1 + k] == [s[0]] + s[1..][..k];
      1 + k
  }

  function SkipSlashes(s: string): (r: string)
    ensures |r| <= |s| && r == s[|s| - |r|..] && (r != [] ==> r[0] != '/')
  {
    if s != [] && s[0] == '/' then SkipSlashes(s[1..]) else s
  }

  /** The names in `s` that are followed by a slash. */
  function Components(s: string): Path
    decreases |s|
  {
    if '/' !in s then []
    else
      var k := FirstSlash(s);
      [s[..k]] + Components(SkipSlashes(s[k + 1..]))
  }

  predicate IsName(name: string) {
    name != "" && name != "." && name != ".."
  }

  // ----- What making the directories does -----

  datatype Outcome = Outcome(res: int, tree: Tree)

  predicate IsFile(tree: Tree, p: Path) {
    p in tree && tree[p] == File
  }

  /** Opening `child` after nothing was found there and mkdirat made it, or met what another
      process made.  O_NOFOLLOW refuses a symbolic link; nothing refuses a file. */
  function OpenMade(tree: Tree, env: Env, child: Path): Outcome
    requires child in tree
  {
    if (Open, child) in env.faults then Outcome(-env.faults[(Open, child)], tree)
    else if tree[child] == Symlink then Outcome(-ELOOP, tree)
    else Outcome(0, tree)
  }

  /** Make directory `name` under `dir` and step into it: 0 or a negative error number. */
  function MakeOne(tree: Tree, env: Env, dir: Path, name: string): Outcome {
    var child := dir + [name];
    if !IsName(name) then Outcome(-EINVAL, tree)
    else if (Stat, child) in env.faults then Outcome(-env.faults[(Stat, child)], tree)
    else if IsFile(tree, dir) then Outcome(-ENOTDIR, tree)
    else if child in tree then
      if tree[child] == Symlink then Outcome(-ELOOP, tree)
      else if tree[child] != Dir then Outcome(-ENOTDIR, tree)
      else OpenMade(tree, env, child)
    else if child in env.races then OpenMade(tree[child := env.races[child]], env, child)
    else if (Mkdir, child) in env.faults then Outcome(-env.faults[(Mkdir, child)], tree)
    else OpenMade(tree[child := Dir], env, child)
  }

  function MakeAll(tree: Tree, env: Env, dir: Path, names: Path): Outcome
    decreases |names|
  {
    if names == [] then Outcome(0, tree)
    else
      var one := MakeOne(tree, env, dir, names[0]);
      if one.res != 0 then one else MakeAll(one.tree, env, dir + [names[0]], names[1..])
  }

  ghost predicate ErrorsPositive(env: Env) {
    forall f :: f in env.faults ==> env.faults[f] > 0
  }

  /** What `p` is once a call has passed it. */
  function Became(tree: Tree, env: Env, p: Path): Kind {
    if p in tree then tree[p] else if p in env.races then env.races[p] else Dir
  }

  lemma OneEffect(tree: Tree, env: Env, dir: Path, name: string)
    ensures var one, child := MakeOne(tree, env, dir, name), dir + [name];
      && (one.tree == tree
          || (child !in tree && !IsFile(tree, dir) && one.tree == tree[child := Became(tree, env, child)]))
      && (one.res == 0 && ErrorsPositive(env) ==>
            child in one.tree && one.tree[child] == Became(tree, env, child) != Symlink
            && IsName(name) && !IsFile(tree, dir) && (child in tree ==> tree[child] == Dir))
  {
  }

  /** Which error number each refusal gives, in the order of the calls. */
  lemma OneRefused(tree: Tree, env: Env, dir: Path, name: string)
    ensures var res, child, faults := MakeOne(tree, env, dir, name).res, dir + [name], env.faults;
      && (!IsName(name) ==> res == -22)
      && (IsName(name) && (Stat, child) in faults ==> res == -faults[(Stat, child)])
      && (IsName(name) && (Stat, child) !in faults ==>
            && (IsFile(tree, dir) || IsFile(tree, child) ==> res == -20)
            && (!IsFile(tree, dir) && child in tree && tree[child] == Symlink ==> res == -40)
            && (!IsFile(tree, dir) && child !in tree && child !in env.races && (Mkdir, child) in faults ==>
                  res == -faults[(Mkdir, child)])
            && (!IsFile(tree, dir) && (child in tree ==> tree[child] == Dir)
                && (child !in tree ==> child in env.races || (Mkdir, child) !in faults) ==>
                  res == if (Open, child) in faults then -faults[(Open, child)]
                         else if Became(tree, env, child) == Symlink then -40 else 0))
  {
  }

  /** The scan stops at the first name that is refused: its result is that name's, and the names before
      it are made. */
  lemma {:induction false} FirstRefusal(tree: Tree, env: Env, dir: Path, names: Path, k: nat)
    requires k < |names| && MakeAll(tree, env, dir, names[..k]).res == 0
    ensures var one := MakeOne(MakeAll(tree, env, dir, names[..k]).tree, env, dir + names[..k], names[k]);
      && (one.res != 0 ==> MakeAll(tree, env, dir, names) == one)
      && (one.res == 0 ==> MakeAll(tree, env, dir, names)
                           == MakeAll(one.tree, env, dir + names[..k + 1], names[k + 1..]))
    decreases k
  {
    hide MakeOne;
    if k == 0 {
      assert dir + names[..0] == dir && dir + names[..1] == dir + [names[0]];
    } else {
      var sub, rest := dir + [names[0]], names[1..];
      assert names[..k][1..] == rest[..k - 1] && names[..k][0] == names[0];
      assert dir + names[..k] == sub + rest[..k - 1] && dir + names[..k + 1] == sub + rest[..k];
      assert rest[k..] == names[k + 1..];
      FirstRefusal(MakeOne(tree, env, dir, names[0]).tree, env, sub, rest, k - 1);
    }
  }

  /** `p` is one of the directories that `names` leads through from `dir`. */
  ghost predicate Through(dir: Path, names: Path, p: Path) {
    exists k :: 0 < k <= |names| && p == dir + names[..k]
  }

  lemma ThroughFirst(dir: Path, names: Path)
    requires names != []
    ensures Through(dir, names, dir + [names[0]])
  {
    assert dir + [names[0]] == dir + names[..1];
  }

  lemma ThroughRest(dir: Path, names: Path, p: Path)
    requires names != [] && Through(dir + [names[0]], names[1..], p)
    ensures Through(dir, names, p)
  {
    var sub, rest := dir + [names[0]], names[1..];
    var k :| 0 < k <= |rest| && p == sub + rest[..k];
    assert sub + rest[..k] == dir + names[..k + 1];
  }

  /** Nothing that existed is changed, and whatever is new is a path the call names: a directory, or
      what another process put there. */
  lemma {:induction false} OnlyAdds(tree: Tree, env: Env, dir: Path, names: Path)
    ensures var t := MakeAll(tree, env, dir, names).tree;
      && (forall p :: p in tree ==> p in t && t[p] == tree[p])
      && (forall p :: p in t && p !in tree ==> t[p] == Became(tree, env, p) && Through(dir, names, p))
    decreases |names|
  {
    if names != [] {
      hide Through, MakeOne;
      var one := MakeOne(tree, env, dir, names[0]);
      var sub := dir + [names[0]];
      ThroughFirst(dir, names);
      OneEffect(tree, env, dir, names[0]);
      if one.res == 0 {
        var t := MakeAll(one.tree, env, sub, names[1..]).tree;
        OnlyAdds(one.tree, env, sub, names[1..]);
        forall p | p in t && p !in tree
          ensures t[p] == Became(tree, env, p) && Through(dir, names, p)
        {
          if p !in one.tree {
            ThroughRest(dir, names, p);
          }
        }
      }
    }
  }

  lemma FileStops(tree: Tree, env: Env, dir: Path, names: Path)
    requires IsFile(tree, dir) && ErrorsPositive(env)
    ensures MakeAll(tree, env, dir, names).tree == tree
    ensures MakeAll(tree, env, dir, names).res == 0 <==> names == []
  {
  }

  /** The path as a whole is one that another process made a file of while the call looked away. */
  predicate EndsInFile(tree: Tree, env: Env, p: Path) {
    p !in tree && p in env.races && env.races[p] == File
  }

  /** Success means that every prefix is in place under a proper name, and is a directory unless it
      is the whole path and another process made it a file. */
  lemma {:induction false} SuccessMakesAll(tree: Tree, env: Env, dir: Path, names: Path, k: nat)
    requires MakeAll(tree, env, dir, names).res == 0 && ErrorsPositive(env) && 0 < k <= |names|
    ensures var t, p := MakeAll(tree, env, dir, names).tree, dir + names[..k];
      && p in t && IsName(names[k - 1])
      && t[p] == (if k == |names| && EndsInFile(tree, env, p) then File else Dir)
    decreases |names|
  {
    hide Through, MakeOne, ErrorsPositive;
    var one := MakeOne(tree, env, dir, names[0]);
    var sub, rest := dir + [names[0]], names[1..];
    OneEffect(tree, env, dir, names[0]);
    OnlyAdds(one.tree, env, sub, rest);
    if k == 1 {
      assert dir + names[..1] == sub;
      if IsFile(one.tree, sub) {
        FileStops(one.tree, env, sub, rest);
      }
    } else {
      SuccessMakesAll(one.tree, env, sub, rest, k - 1);
      assert sub + rest[..k - 1] == dir + names[..k];
      assert |dir + names[..k]| > |sub|;
    }
  }

  /** A second call changes nothing.  If the first succeeded, so does the second, unless another
      process made the whole path a file; and if other processes made only directories, both give
      the same result. */
  lemma {:induction false} Idempotent(tree: Tree, env: Env, dir: Path, names: Path)
    requires ErrorsPositive(env)
    ensures var first := MakeAll(tree, env, dir, names);
      var second := MakeAll(first.tree, env, dir, names);
      && second.tree == first.tree
      && (first.res == 0 ==> (second.res == 0 <==> names == [] || !EndsInFile(tree, env, dir + names)))
      && ((forall p :: p in env.races ==> env.races[p] == Dir) ==> second == first)
    decreases |names|
  {
    if names != [] {
      hide Through, ErrorsPositive;
      var first := MakeAll(tree, env, dir, names);
      var one := MakeOne(tree, env, dir, names[0]);
      var sub, rest := dir + [names[0]], names[1..];
      OneEffect(tree, env, dir, names[0]);
      if one.res == 0 {
        OnlyAdds(one.tree, env, sub, rest);
        assert names == [names[0]] + rest;
        assert dir + names == sub + rest;
        if IsFile(one.tree, sub) {
          FileStops(one.tree, env, sub, rest);
          FileAgain(tree, env, dir, names[0]);
          assert rest == [] ==> dir + names == sub;
        } else {
          AgainOne(tree, env, dir, names[0], first.tree);
          hide MakeOne;
          Idempotent(one.tree, env, sub, rest);
          assert rest == [] ==> dir + names == sub;
          assert rest != [] ==> dir + names != sub && EndsInFile(one.tree, env, dir + names)
                                                      == EndsInFile(tree, env, dir + names);
        }
      }
    }
  }

  /** A step that succeeded with a directory succeeds again in any later tree. */
  lemma AgainOne(tree: Tree, env: Env, dir: Path, name: string, later: Tree)
    requires ErrorsPositive(env) && MakeOne(tree, env, dir, name).res == 0
    requires !IsFile(MakeOne(tree, env, dir, name).tree, dir + [name])
    requires dir + [name] in later && later[dir + [name]] == MakeOne(tree, env, dir, name).tree[dir + [name]]
    requires IsFile(later, dir) ==> IsFile(tree, dir)
    ensures MakeOne(later, env, dir, name) == Outcome(0, later)
  {
  }

  lemma FileAgain(tree: Tree, env: Env, dir: Path, name: string)
    requires ErrorsPositive(env) && MakeOne(tree, env, dir, name).res == 0
    requires IsFile(MakeOne(tree, env, dir, name).tree, dir + [name])
    ensures var t := MakeOne(tree, env, dir, name).tree;
      MakeOne(t, env, dir, name) == Outcome(-ENOTDIR, t) && EndsInFile(tree, env, dir + [name])
  {
    assert |dir + [name]| > |dir|;
  }

  /** In a proper tree everything lies in a directory. */
  ghost predicate WellFormed(tree: Tree) {
    && [] in tree && tree[[]] == Dir
    && forall p :: p in tree && p != [] ==> p[..|p| - 1] in tree && tree[p[..|p| - 1]] == Dir
  }

  lemma OneKeepsWellFormed(tree: Tree, env: Env, dir: Path, name: string)
    requires WellFormed(tree) && dir in tree && tree[dir] != Symlink && ErrorsPositive(env)
    ensures var one := MakeOne(tree, env, dir, name);
      WellFormed(one.tree) && (one.res == 0 ==> dir + [name] in one.tree && one.tree[dir + [name]] != Symlink)
  {
    OneEffect(tree, env, dir, name);
    hide MakeOne, ErrorsPositive, Became;
    var sub := dir + [name];
    assert sub[..|sub| - 1] == dir;
  }

  lemma {:induction false} KeepsWellFormed(tree: Tree, env: Env, dir: Path, names: Path)
    requires WellFormed(tree) && dir in tree && tree[dir] != Symlink && ErrorsPositive(env)
    ensures WellFormed(MakeAll(tree, env, dir, names).tree)
    decreases |names|
  {
    if names != [] {
      var one := MakeOne(tree, env, dir, names[0]);
      var sub := dir + [names[0]];
      OneKeepsWellFormed(tree, env, dir, names[0]);
      hide WellFormed, MakeOne;
      if one.res == 0 {
        KeepsWellFormed(one.tree, env, sub, names[1..]);
      }
    }
  }

  /** The `k`-th name is proper, what it leads to is absent or a directory, its parent does not turn
      into a file, and it does not turn into a symbolic link. */
  ghost predicate Passable(tree: Tree, env: Env, dir: Path, names: Path, k: int)
    requires 0 < k <= |names|
  {
    var p := dir + names[..k];
    && IsName(names[k - 1])
    && Became(tree, env, dir + names[..k - 1]) != File
    && (p in tree ==> tree[p] == Dir)
    && Became(tree, env, p) != Symlink
  }

  /** Without faults, exactly the paths whose every step is passable succeed, whatever other
      processes create meanwhile. */
  lemma {:induction false} SucceedsIff(tree: Tree, env: Env, dir: Path, names: Path)
    requires dir in tree && env.faults == map[]
    ensures MakeAll(tree, env, dir, names).res == 0 <==>
      forall k :: 0 < k <= |names| ==> Passable(tree, env, dir, names, k)
    decreases |names|
  {
    if names != [] {
      FirstPassable(tree, env, dir, names);
      OneEffect(tree, env, dir, names[0]);
      var one := MakeOne(tree, env, dir, names[0]);
      if one.res == 0 {
        var sub, rest := dir + [names[0]], names[1..];
        SucceedsIff(one.tree, env, sub, rest);
        hide Passable, MakeOne;
        forall k | 0 < k <= |rest|
          ensures Passable(one.tree, env, sub, rest, k) == Passable(tree, env, dir, names, k + 1)
        {
          RestPassable(tree, env, dir, names, k);
        }
        if forall k :: 0 < k <= |rest| ==> Passable(one.tree, env, sub, rest, k) {
          forall k | 0 < k <= |names|
            ensures Passable(tree, env, dir, names, k)
          {
            if k > 1 {
              assert Passable(one.tree, env, sub, rest, k - 1);
            }
          }
        }
      }
    }
  }

  lemma FirstPassable(tree: Tree, env: Env, dir: Path, names: Path)
    requires names != [] && dir in tree && env.faults == map[]
    ensures MakeOne(tree, env, dir, names[0]).res == 0 <==> Passable(tree, env, dir, names, 1)
  {
    assert dir + names[..1] == dir + [names[0]];
    assert dir + names[..0] == dir;
  }

  lemma RestPassable(tree: Tree, env: Env, dir: Path, names: Path, k: int)
    requires names != [] && 0 < k < |names| && env.faults == map[]
    requires MakeOne(tree, env, dir, names[0]).res == 0
    ensures Passable(MakeOne(tree, env, dir, names[0]).tree, env, dir + [names[0]], names[1..], k)
            == Passable(tree, env, dir, names, k + 1)
  {
    hide MakeOne;
    var sub, rest := dir + [names[0]], names[1..];
    OneEffect(tree, env, dir, names[0]);
    assert sub + rest[..k] == dir + names[..k + 1];
    assert sub + rest[..k - 1] == dir + names[..k];
    assert |sub + rest[..k]| > |sub|;
  }

  // ----- Components and their spelling -----

  /** A name and how many slashes follow it besides the first. */
  datatype Segment = Segment(name: string, more: nat)

  function Slashes(n: nat): string {
    if n == 0 then "" else "/" + Slashes(n - 1)
  }

  /** Each name followed by its slashes. */
  function Spell(segments: seq<Segment>): string {
    if segments == [] then ""
    else segments[0].name + "/" + (Slashes(segments[0].more) + Spell(segments[1..]))
  }

  function Names(segments: seq<Segment>): Path {
    if segments == [] then [] else [segments[0].name] + Names(segments[1..])
  }

  /** Names that a spelling keeps apart. */
  ghost predicate Spellable(segments: seq<Segment>, last: string) {
    (forall i :: 0 <= i < |segments| ==> segments[i].name != "" && '/' !in segments[i].name) && '/' !in last
  }

  lemma SlashesNext(n: nat)
    ensures Slashes(0) == "" && Slashes(n + 1) == "/" + Slashes(n)
  {
  }

  lemma {:induction false} SkipRuns(n: nat, rest: string)
    ensures SkipSlashes(Slashes(n) + rest) == SkipSlashes(rest)
  {
    hide SkipSlashes, Slashes;
    if n == 0 {
      SlashesNext(0);
      assert "" + rest == rest;
    } else {
      var slashes := Slashes(n - 1);
      SlashesNext(n - 1);
      SkipRuns(n - 1, rest);
      SkipSlash(slashes + rest);
      assert "/" + slashes + rest == "/" + (slashes + rest);
    }
  }

  lemma SkipSlash(s: string)
    ensures SkipSlashes("/" + s) == SkipSlashes(s)
  {
    assert ("/" + s)[1..] == s;
  }

  lemma {:induction false} SkippedAre(s: string)
    ensures s == Slashes(|s| - |SkipSlashes(s)|) + SkipSlashes(s)
  {
    hide SkipSlashes, Slashes;
    if s != [] && s[0] == '/' {
      var t := s[1..];
      SkippedAre(t);
      assert s == "/" + t;
      SkipSlash(t);
      SlashesNext(|t| - |SkipSlashes(t)|);
      assert "/" + Slashes(|t| - |SkipSlashes(t)|) + SkipSlashes(t) == "/" + t;
    } else {
      assert s[0..] == s;
      SkipNone(s, 0);
      SlashesNext(0);
      assert "" + s == s;
    }
  }

  lemma FirstSlashIs(s: string, k: nat)
    requires k < |s| && s[k] == '/' && '/' !in s[..k]
    ensures '/' in s && FirstSlash(s) == k
  {
    var f := FirstSlash(s);
    forall i | 0 <= i < k
      ensures s[i] != '/'
    {
      assert s[i] == s[..k][i];
    }
    forall i | 0 <= i < f
      ensures s[i] != '/'
    {
      assert s[i] == s[..f][i];
    }
  }

  lemma ComponentsCons(name: string, rest: string)
    requires '/' !in name
    ensures Components(name + "/" + rest) == [name] + Components(SkipSlashes(rest))
  {
    hide Components, SkipSlashes;
    var s := name + "/" + rest;
    var k := |name|;
    assert s[0..] == s && s[0..k] == name && s[k] == '/' && s[k + 1..] == rest;
    ComponentsNext(s, 0, k);
  }

  lemma NoLeadingSlash(segments: seq<Segment>, last: string)
    requires Spellable(segments, last)
    ensures SkipSlashes(Spell(segments) + last) == Spell(segments) + last
  {
    var s := Spell(segments) + last;
    if segments == [] {
      assert s == last;
    } else {
      assert s[0] == segments[0].name[0];
    }
  }

  /** Spelling names out with any number of slashes and taking the components gives the names back;
      what follows the last slash is not a component. */
  lemma {:induction false} ComponentsOfSpelling(segments: seq<Segment>, last: string)
    requires Spellable(segments, last)
    ensures Components(Spell(segments) + last) == Names(segments)
    decreases |segments|
  {
    if segments == [] {
      assert Spell(segments) + last == last;
    } else {
      var rest := Spell(segments[1..]) + last;
      var slashes := Slashes(segments[0].more);
      assert Spell(segments) + last == segments[0].name + "/" + (slashes + rest);
      NoLeadingSlash(segments[1..], last);
      ComponentsCons(segments[0].name, slashes + rest);
      hide Spell, SkipSlashes, Components, Slashes;
      SkipRuns(segments[0].more, rest);
      ComponentsOfSpelling(segments[1..], last);
    }
  }

  /** Everything that does not start with a slash is such a spelling. */
  lemma {:induction false} EverythingIsSpelled(s: string) returns (segments: seq<Segment>, last: string)
    requires s == "" || s[0] != '/'
    ensures Spellable(segments, last) && s == Spell(segments) + last
    decreases |s|
  {
    hide SkipSlashes, Slashes, FirstSlash, Spell, Spellable;
    if '/' !in s {
      segments, last := [], s;
      SpellNone(s);
    } else {
      var k := FirstSlash(s);
      var name, rest := s[..k], s[k + 1..];
      var after := SkipSlashes(rest);
      SkippedAre(rest);
      var more: seq<Segment>;
      more, last := EverythingIsSpelled(after);
      var n := |rest| - |after|;
      segments := [Segment(name, n)] + more;
      SpellCons(name, n, more, last);
      CutAtSlash(s, k);
    }
  }

  lemma CutAtSlash(s: string, k: nat)
    requires k < |s| && s[k] == '/'
    ensures s == s[..k] + "/" + s[k + 1..]
  {
  }

  lemma SpellNone(last: string)
    ensures Spell([]) + last == last && ('/' !in last ==> Spellable([], last))
  {
    assert "" + last == last;
  }

  lemma SpellCons(name: string, n: nat, more: seq<Segment>, last: string)
    ensures Spell([Segment(name, n)] + more) + last == name + "/" + (Slashes(n) + (Spell(more) + last))
    ensures name != "" && '/' !in name && Spellable(more, last) ==> Spellable([Segment(name, n)] + more, last)
  {
    hide Slashes;
    assert ([Segment(name, n)] + more)[1..] == more;
    var a, b := Slashes(n), Spell(more);
    assert name + "/" + (a + b) + last == name + "/" + (a + (b + last));
  }

  // ----- The scan -----

  /** What the whole call should do. */
  function Expected(tree: Tree, env: Env, path: string): Outcome {
    if path == "" || path[0] != '/' then Outcome(-EINVAL, tree)
    else if (Open, []) in env.faults then Outcome(-env.faults[(Open, [])], tree)
    else MakeAll(tree, env, [], Components(path[1..]))
  }

  lemma {:induction false} NeverPositive(tree: Tree, env: Env, dir: Path, names: Path)
    requires ErrorsPositive(env)
    ensures MakeAll(tree, env, dir, names).res <= 0
    decreases |names|
  {
    hide ErrorsPositive;
    if names != [] {
      OneNeverPositive(tree, env, dir, names[0]);
      hide MakeOne;
      NeverPositive(MakeOne(tree, env, dir, names[0]).tree, env, dir + [names[0]], names[1..]);
    }
  }

  lemma OneNeverPositive(tree: Tree, env: Env, dir: Path, name: string)
    requires ErrorsPositive(env)
    ensures MakeOne(tree, env, dir, name).res <= 0
  {
  }

  /** A call on any path that is not absolute, or starts with two slashes, is refused and makes
      nothing. */
  lemma RefusedPaths(tree: Tree, env: Env, path: string)
    ensures path == "" || path[0] != '/' ==> Expected(tree, env, path) == Outcome(-22, tree)
    ensures |path| > 1 && path[0] == path[1] == '/' && (Open, []) !in env.faults ==>
              Expected(tree, env, path) == Outcome(-22, tree)
  {
    if |path| > 1 && path[0] == path[1] == '/' {
      ComponentsNext(path, 1, 1);
    }
  }

  /** A call that succeeds has an absolute path, and every name in it that a slash follows, spelled with
      any number of slashes, is a directory afterwards, unless it is the last of them and another
      process made it a file. */
  lemma CallMakesAll(tree: Tree, env: Env, segments: seq<Segment>, last: string, k: nat)
    requires Spellable(segments, last) && ErrorsPositive(env)
    requires 0 < k <= |Names(segments)|
    requires Expected(tree, env, "/" + (Spell(segments) + last)).res == 0
    ensures var t, names := Expected(tree, env, "/" + (Spell(segments) + last)).tree, Names(segments);
      && names[..k] in t && IsName(names[k - 1])
      && t[names[..k]] == (if k == |names| && EndsInFile(tree, env, names) then File else Dir)
  {
    hide Spell, Components, MakeAll, Names;
    SpelledCall(tree, env, segments, last);
    var names := Names(segments);
    SuccessMakesAll(tree, env, [], names, k);
    assert [] + names[..k] == names[..k];
    assert k == |names| ==> names[..k] == names;
  }

  lemma SpelledCall(tree: Tree, env: Env, segments: seq<Segment>, last: string)
    requires Spellable(segments, last) && ErrorsPositive(env)
    ensures Expected(tree, env, "/" + (Spell(segments) + last))
            == if (Open, []) in env.faults then Outcome(-env.faults[(Open, [])], tree)
               else MakeAll(tree, env, [], Names(segments))
  {
    hide Spell, Components, MakeAll, Names;
    ComponentsOfSpelling(segments, last);
    assert ("/" + (Spell(segments) + last))[1..] == Spell(segments) + last;
  }

  /** Without faults a call succeeds if and only if its path is absolute, has no second slash at the
      start, and is passable at every name that a slash follows; otherwise its result is negative. */
  lemma CallSucceedsIff(tree: Tree, env: Env, path: string) returns (segments: seq<Segment>, last: string)
    requires [] in tree && env.faults == map[]
    ensures path != "" && path[0] == '/' && (|path| > 1 ==> path[1] != '/') ==>
              Spellable(segments, last) && path == "/" + (Spell(segments) + last)
    ensures Expected(tree, env, path).res == 0 <==>
              && path != "" && path[0] == '/' && (|path| > 1 ==> path[1] != '/')
              && forall k :: 0 < k <= |Names(segments)| ==> Passable(tree, env, [], Names(segments), k)
    ensures Expected(tree, env, path).res <= 0
  {
    hide Spell, Components, MakeAll, Names, Passable;
    segments, last := [], "";
    RefusedPaths(tree, env, path);
    if path != "" && path[0] == '/' && (|path| > 1 ==> path[1] != '/') {
      segments, last := EverythingIsSpelled(path[1..]);
      assert path == "/" + (Spell(segments) + last);
      SpelledCall(tree, env, segments, last);
      SucceedsIff(tree, env, [], Names(segments));
      NeverPositive(tree, env, [], Names(segments));
    }
  }

  /** The exception is real: "/a/" succeeds over a file that appears at "/a" during the call. */
  lemma RaceLeavesFile()
    ensures var end := Expected(map[[] := Dir], Env(map[], map[["a"] := File]), "/a/");
      end.res == 0 && IsFile(end.tree, ["a"])
  {
    SpelledA();
    hide Components;
    var tree, env := map[[] := Dir], Env(map[], map[["a"] := File]);
    assert [] + ["a"] == ["a"];
    assert MakeOne(tree, env, [], "a") == Outcome(0, tree[["a"] := File]);
    assert ["a"][1..] == [];
  }

  lemma SpelledA()
    ensures Components("/a/"[1..]) == ["a"]
  {
    hide Components, SkipSlashes;
    var path := "/a/";
    ComponentsNext(path, 1, 2);
    assert path[1..2] == "a" && path[3..] == "";
    NothingLeft();
  }

  lemma NothingLeft()
    ensures Components(SkipSlashes("")) == []
  {
  }

  class FileSystem {
    var tree: Tree
    const env: Env

    constructor (tree: Tree, env: Env)
      ensures this.tree == tree && this.env == env
    {
      this.tree := tree;
      this.env := env;
    }

    /** fstatat, mkdirat and openat on one segment. */
    method Enter(fd: Path, segment: string) returns (res: int)
      modifies this
      ensures Outcome(res, tree) == MakeOne(old(tree), env, fd, segment)
    {
      var child := fd + [segment];
      if segment == ".." || segment == "." || segment == "" {
        return -EINVAL;
      }
      if (Stat, child) in env.faults {
        return -env.faults[(Stat, child)];
      }
      if IsFile(tree, fd) {
        return -ENOTDIR;
      }
      if child !in tree {
        if child in env.races {
          tree := tree[child := env.races[child]]; // EEXIST is ignored
        } else if (Mkdir, child) in env.faults {
          return -env.faults[(Mkdir, child)];
        } else {
          tree := tree[child := Dir];
        }
      } else {
        if tree[child] == Symlink {
          return -ELOOP;
        }
        if tree[child] != Dir {
          return -ENOTDIR;
        }
      }
      if (Open, child) in env.faults {
        return -env.faults[(Open, child)];
      }
      if tree[child] == Symlink {
        return -ELOOP; // O_NOFOLLOW
      }
      return 0;
    }

    /** `fs_mkdirs` on the C string `path`, scanned in a private copy. */
    method MkDirs(path: string) returns (res: int, buf: array<char>)
      requires '\0' !in path && ErrorsPositive(env)
      modifies this
      ensures fresh(buf) && Outcome(res, tree) == Expected(old(tree), env, path)
      ensures res == 0 ==> buf[..] == path + ['\0'] && path != "" && path[0] == '/'
      ensures path == "" || path[0] != '/' ==> res == -22 && tree == old(tree)
      ensures res <= 0
    {
      hide MakeAll, MakeOne, Components, SkipSlashes;
      if path != "" {
        NeverPositive(tree, env, [], Components(path[1..]));
      }
      var n := |path|;
      buf := new char[n + 1](i requires 0 <= i <= n => if i < n then path[i] else '\0');
      assert buf[..] == path + ['\0'];
      if buf[0] != '/' {
        return -EINVAL, buf;
      }
      if (Open, []) in env.faults {
        return -env.faults[(Open, [])], buf;
      }
      var segment, p := 1, 1;
      var fd: Path := [];
      while buf[p] != '\0'
        invariant 1 <= segment <= p <= n
        invariant buf[..] == path + ['\0']
        invariant '/' !in path[segment..p]
        invariant Expected(old(tree), env, path) == MakeAll(tree, env, fd, Components(path[segment..]))
        decreases n - p
      {
        assert buf[p] == path[p];
        if buf[p] != '/' {
          assert path[segment..p + 1] == path[segment..p] + [path[p]];
          p := p + 1;
          continue;
        }
        buf[p] := '\0';
        var name := buf[segment..p];
        assert name == path[segment..p];
        ScanStep(tree, env, fd, path, segment, p);
        res := Enter(fd, name);
        if res != 0 {
          return res, buf;
        }
        fd := fd + [name];
        buf[p] := '/';
        assert buf[..] == path + ['\0'];
        p := SkipRun(buf, p + 1, path);
        segment := p;
      }
      assert buf[p] == (path + ['\0'])[p];
      assert p == n;
      assert path[segment..] == path[segment..p];
      NoComponents(path[segment..]);
      return 0, buf;
    }

    /** Move past a run of slashes. */
    method SkipRun(buf: array<char>, start: nat, ghost path: string) returns (p: nat)
      requires start <= |path| && buf[..] == path + ['\0']
      ensures start <= p <= |path| && SkipSlashes(path[start..]) == path[p..]
    {
      hide SkipSlashes;
      p := start;
      while buf[p] == '/'
        invariant start <= p <= |path|
        invariant SkipSlashes(path[start..]) == SkipSlashes(path[p..])
        decreases |path| - p
      {
        assert buf[p] == (path + ['\0'])[p];
        SkipOne(path, p);
        p := p + 1;
      }
      assert buf[p] == (path + ['\0'])[p];
      SkipNone(path, p);
    }
  }

  lemma SkipOne(path: string, p: nat)
    requires p < |path| && path[p] == '/'
    ensures SkipSlashes(path[p..]) == SkipSlashes(path[p + 1..])
  {
    assert path[p..][1..] == path[p + 1..];
  }

  lemma SkipNone(path: string, p: nat)
    requires p <= |path| && (p < |path| ==> path[p] != '/')
    ensures SkipSlashes(path[p..]) == path[p..]
  {
  }

  lemma NoComponents(s: string)
    requires '/' !in s
    ensures forall tree, env, dir :: MakeAll(tree, env, dir, Components(s)) == Outcome(0, tree)
  {
  }

  /** One segment of the scan is one directory of the specification. */
  lemma ScanStep(tree: Tree, env: Env, fd: Path, path: string, segment: nat, p: nat)
    requires segment <= p < |path| && path[p] == '/' && '/' !in path[segment..p]
    ensures var one := MakeOne(tree, env, fd, path[segment..p]);
      MakeAll(tree, env, fd, Components(path[segment..]))
      == if one.res != 0 then one
         else MakeAll(one.tree, env, fd + [path[segment..p]], Components(SkipSlashes(path[p + 1..])))
  {
    hide Components, MakeOne;
    ComponentsNext(path, segment, p);
    var rest := Components(SkipSlashes(path[p + 1..]));
    assert ([path[segment..p]] + rest)[1..] == rest;
  }

  /** The components from a segment whose end is at `p`. */
  lemma ComponentsNext(path: string, segment: nat, p: nat)
    requires segment <= p < |path| && path[p] == '/' && '/' !in path[segment..p]
    ensures Components(path[segment..]) == [path[segment..p]] + Components(SkipSlashes(path[p + 1..]))
  {
    var s := path[segment..];
    var k := p - segment;
    assert s[..k] == path[segment..p] && s[k] == '/' && s[k + 1..] == path[p + 1..];
    FirstSlashIs(s, k);
  }
}
