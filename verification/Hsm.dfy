/** The hierarchical state machine of glb_hsm.c: start-up, the search for the least common
    ancestor during a transition, the entry retrace, and the bubbling of events. */
module Hsm {
  import opened Basics
  import opened StateTree

  const MAX_NEST_DEPTH := 4

  datatype Status = Super | Handled | Ignored | Unhandled | Tran

  /** What a state's handler answers to an event. */
  datatype Response = AskSuper | IsHandled | IsIgnored | IsUnhandled | GoTo(target: State)

  datatype Action = Enter(state: State) | Exit(state: State)

  function Enters(s: seq<State>): (a: seq<Action>)
    ensures |a| == |s|
    ensures forall i :: 0 <= i < |s| ==> a[i] == Enter(s[|s| - 1 - i])
  {
    seq(|s|, i requires 0 <= i < |s| => Enter(s[|s| - 1 - i]))
  }

  function Exits(s: seq<State>): (a: seq<Action>)
    ensures |a| == |s|
    ensures forall i :: 0 <= i < |s| ==> a[i] == Exit(s[i])
  {
    seq(|s|, i requires 0 <= i < |s| => Exit(s[i]))
  }

  /** The actions of one transition: exits innermost first, then entries outermost first. */
  ghost function TransitionActions(t: Tree, source: State, target: State): seq<Action>
    requires t.WellFormed()
  {
    Exits(Exited(t, source, target)) + Enters(Entered(t, source, target))
  }

  /** The actions of start-up. */
  ghost function StartActions(t: Tree, initial: State): seq<Action>
    requires t.WellFormed()
  {
    RootIsAncestor(t, initial);
    Enters(Chain(t, initial, t.root))
  }

  // ----- What the search does -----

  /** Case (g): neither the source nor its superstate is an ancestor of the target. */
  ghost predicate NeedsClimb(t: Tree, s: State, target: State)
    requires t.WellFormed()
  {
    s != target && !IsAncestor(t, s, target) && !IsAncestor(t, t.parent(s), target)
  }

  /** How many levels a transition leaves on the source side. */
  ghost function Climb(t: Tree, s: State, target: State): (n: nat)
    requires t.WellFormed()
    ensures n <= t.depth(s) && Up(t, s, n) == Lca(t, s, target)
  {
    LcaIsCommon(t, s, target);
    AncestorIsUp(t, Lca(t, s, target), s);
    t.depth(s) - t.depth(Lca(t, s, target))
  }

  /** Every state that case (g) has to exit reports EVT_STATUS_HANDLED. */
  ghost predicate ClimbHandled(t: Tree, handled: State -> bool, s: State, target: State)
    requires t.WellFormed()
  {
    forall k :: 1 <= k < Climb(t, s, target) ==> handled(Up(t, s, k))
  }

  /** Whether the search ends: it does not climb, or every exit of the climb is handled, or the first
      one is not and the target lies deeper than just under the root. */
  ghost predicate Terminates(t: Tree, handled: State -> bool, s: State, target: State)
    requires t.WellFormed()
  {
    || !NeedsClimb(t, s, target)
    || ClimbHandled(t, handled, s, target)
    || (!handled(t.parent(s)) && t.depth(target) > 1)
  }

  /** What the search exits when it ends: what the transition should, unless the first exit of a climb
      is unhandled, which cuts the climb short. */
  ghost function ExitedBy(t: Tree, handled: State -> bool, s: State, target: State): seq<State>
    requires t.WellFormed()
  {
    if !NeedsClimb(t, s, target) || ClimbHandled(t, handled, s, target) then Exited(t, s, target)
    else [s, t.parent(s)]
  }

  /** What it leaves to be entered: after a cut-off climb, everything below the root. */
  ghost function EnteredBy(t: Tree, handled: State -> bool, s: State, target: State): seq<State>
    requires t.WellFormed()
  {
    RootIsAncestor(t, target);
    if !NeedsClimb(t, s, target) || ClimbHandled(t, handled, s, target) then Entered(t, s, target)
    else Chain(t, target, t.root)
  }

  /** The condition, in terms of the hierarchy and the exit actions alone, for the search to do what
      the transition should. */
  ghost predicate IsRight(t: Tree, handled: State -> bool, s: State, target: State)
    requires t.WellFormed()
  {
    || !NeedsClimb(t, s, target)
    || ClimbHandled(t, handled, s, target)
    || (!handled(t.parent(s)) && t.depth(s) == 2 && t.depth(target) > 1)
  }

  /** A superstate of the source is one of the target exactly from the least common ancestor up. */
  lemma CommonFromLca(tree: Tree, s: State, target: State, k: nat)
    requires tree.WellFormed() && k <= tree.depth(s)
    ensures IsAncestor(tree, Up(tree, s, k), target) <==> k >= Climb(tree, s, target)
  {
    hide Up, IsAncestor, Lca;
    var n := Climb(tree, s, target);
    var l := Lca(tree, s, target);
    LcaIsCommon(tree, s, target);
    if k >= n {
      UpFromBelow(tree, s, n, k);
      AncestorTransitive(tree, Up(tree, s, k), l, target);
    } else if IsAncestor(tree, Up(tree, s, k), target) {
      AncestorIsUp(tree, Up(tree, s, k), s);
      LcaIsLeast(tree, s, target, Up(tree, s, k));
      AncestorIsUp(tree, Up(tree, s, k), l);
    }
  }

  /** Case (g) is reached exactly when more than one level has to be left. */
  lemma NeedsClimbIff(tree: Tree, s: State, target: State)
    requires tree.WellFormed() && s != tree.root
    ensures NeedsClimb(tree, s, target) <==> Climb(tree, s, target) >= 2
  {
    hide IsAncestor, Lca, Climb;
    OnlyRootAtZero(tree, s);
    UpZero(tree, s);
    UpNext(tree, s, 0);
    CommonFromLca(tree, s, target, 0);
    CommonFromLca(tree, s, target, 1);
    AncestorIsUp(tree, target, target);
    UpZero(tree, target);
  }

  /** `exited` is the way from `s` up to just below `t`, all outside the target's ancestors. */
  ghost predicate Climbed(tree: Tree, s: State, target: State, exited: seq<State>, t: State)
    requires tree.WellFormed()
  {
    && 1 <= |exited| <= tree.depth(s) && t == Up(tree, s, |exited|)
    && (forall k :: 0 <= k < |exited| ==> exited[k] == Up(tree, s, k))
    && !IsAncestor(tree, exited[|exited| - 1], target)
  }

  lemma ClimbedFirst(tree: Tree, s: State, target: State)
    requires tree.WellFormed() && s != tree.root && NeedsClimb(tree, s, target)
    ensures Climbed(tree, s, target, [s] + [], tree.parent(s))
  {
    hide IsAncestor;
    OnlyRootAtZero(tree, s);
    assert Up(tree, s, 0) == s && Up(tree, s, 1) == tree.parent(s);
  }

  lemma ClimbedNext(tree: Tree, s: State, target: State, exited: seq<State>, t: State)
    requires tree.WellFormed() && Climbed(tree, s, target, exited, t) && t != tree.root
    requires !IsAncestor(tree, t, target)
    ensures Climbed(tree, s, target, exited + [t], tree.parent(t))
    ensures tree.depth(tree.parent(t)) < tree.depth(t)
  {
    hide IsAncestor;
    OnlyRootAtZero(tree, t);
    UpNext(tree, s, |exited|);
  }

  lemma ClimbedAll(tree: Tree, handled: State -> bool, s: State, target: State, exited: seq<State>, m: nat)
    requires tree.WellFormed() && s != target && m <= tree.depth(target)
    requires Climbed(tree, s, target, exited, Up(tree, target, m)) && ClimbHandled(tree, handled, s, target)
    ensures exited == ExitedBy(tree, handled, s, target)
    ensures |EnteredBy(tree, handled, s, target)| == m
    ensures forall i :: 0 <= i < m ==> EnteredBy(tree, handled, s, target)[i] == Up(tree, target, i)
  {
    hide IsAncestor, Exited, Entered, Up;
    TransitionShape(tree, s, target, |exited|, m);
  }

  /** A state of the climb that is outside the target's ancestors is one the transition exits. */
  lemma ClimbedHandled(tree: Tree, handled: State -> bool, s: State, target: State, exited: seq<State>, t: State)
    requires tree.WellFormed() && Climbed(tree, s, target, exited, t) && ClimbHandled(tree, handled, s, target)
    requires !IsAncestor(tree, t, target)
    ensures handled(t)
  {
    hide IsAncestor, Lca, Up;
    CommonFromLca(tree, s, target, |exited|);
  }

  lemma ClimbedShort(tree: Tree, handled: State -> bool, s: State, target: State)
    requires tree.WellFormed() && s != tree.root && NeedsClimb(tree, s, target) && !handled(tree.parent(s))
    ensures ExitedBy(tree, handled, s, target) == [s] + [tree.parent(s)]
    ensures |EnteredBy(tree, handled, s, target)| == tree.depth(target)
    ensures forall i :: 0 <= i < tree.depth(target) ==> EnteredBy(tree, handled, s, target)[i] == Up(tree, target, i)
  {
    NotHandledFirst(tree, handled, s, target);
    RootIsAncestor(tree, target);
    ChainIsUps(tree, target, tree.root);
  }

  lemma NotHandledFirst(tree: Tree, handled: State -> bool, s: State, target: State)
    requires tree.WellFormed() && s != tree.root && NeedsClimb(tree, s, target) && !handled(tree.parent(s))
    ensures !ClimbHandled(tree, handled, s, target)
  {
    hide NeedsClimb, Climb;
    NeedsClimbIff(tree, s, target);
    OnlyRootAtZero(tree, s);
    UpZero(tree, s);
    UpNext(tree, s, 0);
  }

  lemma SourceAbove(tree: Tree, s: State, target: State, k: nat)
    requires tree.WellFormed() && s != target && k <= tree.depth(target) && s == Up(tree, target, k)
    ensures !NeedsClimb(tree, s, target) && Exited(tree, s, target) == []
    ensures |Entered(tree, s, target)| == k
    ensures forall i :: 0 <= i < k ==> Entered(tree, s, target)[i] == Up(tree, target, i)
  {
    hide Exited, Entered, IsAncestor;
    AncestorIsUp(tree, s, target);
    UpZero(tree, s);
    TransitionShape(tree, s, target, 0, k);
  }

  lemma SuperShared(tree: Tree, s: State, target: State, k: nat)
    requires tree.WellFormed() && s != tree.root && !IsAncestor(tree, s, target)
    requires k <= tree.depth(target) && tree.parent(s) == Up(tree, target, k)
    ensures !NeedsClimb(tree, s, target) && Exited(tree, s, target) == [s]
    ensures |Entered(tree, s, target)| == k
    ensures forall i :: 0 <= i < k ==> Entered(tree, s, target)[i] == Up(tree, target, i)
  {
    hide Exited, Entered, IsAncestor;
    AncestorIsUp(tree, tree.parent(s), target);
    AncestorIsUp(tree, target, target);
    OnlyRootAtZero(tree, s);
    assert Up(tree, s, 0) == s && Up(tree, s, 1) == tree.parent(s) && Up(tree, target, 0) == target;
    TransitionShape(tree, s, target, 1, k);
  }

  /** What a cut-off climb exits and enters is what the transition should exactly for a source two
      levels below the root. */
  lemma CutOffIsRightIff(tree: Tree, s: State, target: State)
    requires tree.WellFormed() && s != tree.root && target != tree.root && NeedsClimb(tree, s, target)
    ensures IsAncestor(tree, tree.root, target)
    ensures [s, tree.parent(s)] == Exited(tree, s, target) && Chain(tree, target, tree.root) == Entered(tree, s, target)
            <==> tree.depth(s) == 2
  {
    var l := Lca(tree, s, target);
    LcaIsCommon(tree, s, target);
    ChainIsUps(tree, s, l);
    ChainIsUps(tree, target, l);
    RootIsAncestor(tree, target);
    ChainIsUps(tree, target, tree.root);
    AncestorIsUp(tree, l, s);
    AncestorIsUp(tree, tree.parent(s), s);
    OnlyRootAtZero(tree, s);
    OnlyRootAtZero(tree, l);
    assert l != s && l != tree.parent(s);
    assert Up(tree, s, 0) == s && Up(tree, s, 1) == tree.parent(s);
    if tree.depth(s) == 2 {
      assert Exited(tree, s, target) == [s, tree.parent(s)];
    } else {
      assert |Exited(tree, s, target)| == 2 ==> tree.depth(l) > 0;
    }
  }

  /** For every hierarchy, every choice of exit actions, every source and target: the search ends and
      does what the transition should if and only if it does not climb, or all exits of the climb are
      handled, or the first is not, the source is two levels below the root and the target deeper than
      one. */
  lemma SearchIsRightIff(tree: Tree, handled: State -> bool, s: State, target: State)
    requires tree.WellFormed() && s != tree.root && target != tree.root
    ensures Terminates(tree, handled, s, target)
            && ExitedBy(tree, handled, s, target) == Exited(tree, s, target)
            && EnteredBy(tree, handled, s, target) == Entered(tree, s, target)
            <==> IsRight(tree, handled, s, target)
  {
    hide Exited, Entered, IsAncestor, Chain, NeedsClimb, ClimbHandled;
    if NeedsClimb(tree, s, target) && !ClimbHandled(tree, handled, s, target) {
      CutOffIsRightIff(tree, s, target);
    }
  }

  // ----- When the search does not end -----

  /** The first unhandled state of the chain from `s`, between levels `k` and `n`. */
  ghost function FirstUnhandled(t: Tree, handled: State -> bool, s: State, k: nat, n: nat): (j: nat)
    requires t.WellFormed() && k <= n <= t.depth(s)
    requires !forall i :: k <= i < n ==> handled(Up(t, s, i))
    ensures k <= j < n && !handled(Up(t, s, j))
    ensures forall i :: k <= i < j ==> handled(Up(t, s, i))
    decreases n - k
  {
    if !handled(Up(t, s, k)) then k else FirstUnhandled(t, handled, s, k + 1, n)
  }

  /** The level at which a search that does not end gets stuck. */
  ghost function StuckAt(t: Tree, handled: State -> bool, s: State, target: State): (j: nat)
    requires t.WellFormed() && s != t.root && !Terminates(t, handled, s, target)
    ensures 1 <= j < Climb(t, s, target) && !handled(Up(t, s, j))
    ensures forall i :: 1 <= i < j ==> handled(Up(t, s, i))
    ensures j == 1 ==> t.depth(target) <= 1
  {
    NeedsClimbIff(t, s, target);
    OnlyRootAtZero(t, s);
    UpZero(t, s);
    UpNext(t, s, 0);
    FirstUnhandled(t, handled, s, 1, Climb(t, s, target))
  }

  /** The state exited in round `i` of case (g): the climb goes up to level `j` and stays there. */
  ghost function RoundExit(t: Tree, s: State, j: nat, i: nat): State
    requires t.WellFormed() && j <= t.depth(s)
  {
    Up(t, s, if i + 1 < j then i + 1 else j)
  }

  ghost function RoundExits(t: Tree, s: State, j: nat, rounds: nat): (a: seq<Action>)
    requires t.WellFormed() && j <= t.depth(s)
    ensures |a| == rounds
  {
    seq(rounds, i requires 0 <= i < rounds => Exit(RoundExit(t, s, j, i)))
  }

  lemma ExitsCons(s: seq<State>)
    requires s != []
    ensures Exits(s) == [Exit(s[0])] + Exits(s[1..])
  {
  }

  /** The sample hierarchy: three states, each inside the one before, under the root 0. */
  const LEVELS := Tree(0, s => if s == 0 then 0 else s - 1, s => s)

  class Machine {
    const tree: Tree
    /** Which states' exit actions report EVT_STATUS_HANDLED, as the search expects of all. */
    const exitHandled: State -> bool
    var curState: State
    var nextState: State
    ghost var trace: seq<Action>

    ghost predicate Bound()
    {
      tree.WellFormed()
    }

    /** The constructor: before start-up the current state is the root. */
    constructor (tree: Tree, exitHandled: State -> bool, initial: State)
      requires tree.WellFormed()
      ensures this.tree == tree && this.exitHandled == exitHandled
      ensures curState == tree.root && nextState == initial && trace == []
    {
      this.tree := tree;
      this.exitHandled := exitHandled;
      curState := tree.root;
      nextState := initial;
      trace := [];
    }

    /** Ask `s` for its superstate; the root ignores every signal. */
    method GetSuperState(s: State) returns (status: Status)
      modifies this`nextState
      ensures s == tree.root ==> status == Ignored && nextState == old(nextState)
      ensures s != tree.root ==> status == Super && nextState == tree.parent(s)
    {
      if s == tree.root {
        status := Ignored;
      } else {
        nextState := tree.parent(s);
        status := Super;
      }
    }

    method OnExit(s: State) returns (status: Status)
      requires s != tree.root
      modifies this`trace
      ensures trace == old(trace) + [Exit(s)] && (status == Handled <==> exitHandled(s))
    {
      trace := trace + [Exit(s)];
      status := if exitHandled(s) then Handled else Super;
    }

    method OnEntry(s: State)
      requires s != tree.root
      modifies this`trace
      ensures trace == old(trace) + [Enter(s)]
    {
      trace := trace + [Enter(s)];
    }

    /** Enter `path[ip]`, ..., `path[0]`. */
    method Retrace(path: array<State>, last: int)
      requires -1 <= last < path.Length
      requires forall k :: 0 <= k <= last ==> path[k] != tree.root
      modifies this`trace
      ensures trace == old(trace) + Enters(path[..last + 1])
    {
      var ip := last;
      while ip >= 0
        invariant -1 <= ip <= last
        invariant trace == old(trace) + Enters(path[..last + 1])[..last - ip]
      {
        ghost var done := Enters(path[..last + 1]);
        assert done[..last - ip + 1] == done[..last - ip] + [Enter(path[ip])];
        OnEntry(path[ip]);
        ip := ip - 1;
      }
    }

    /** Start-up: climb from the initial state to the root, then enter the states climbed, from
        the outermost to the initial one. */
    method Init()
      requires Bound() && curState == tree.root && nextState != tree.root
      requires tree.depth(nextState) <= MAX_NEST_DEPTH
      modifies this
      ensures curState == nextState == old(nextState)
      ensures trace == old(trace) + StartActions(tree, nextState)
    {
      hide Up, Chain, IsAncestor, Tree.WellFormed;
      ghost var initial := nextState;
      var path := new State[MAX_NEST_DEPTH];
      var ip := 0;
      path[0] := nextState;
      UpZero(tree, initial);
      OnlyRootAtZero(tree, initial);
      UpNext(tree, initial, 0);
      var _ := GetSuperState(nextState);
      while nextState != curState
        invariant 0 <= ip < tree.depth(initial) <= MAX_NEST_DEPTH
        invariant curState == tree.root && trace == old(trace)
        invariant nextState == Up(tree, initial, ip + 1)
        invariant forall k :: 0 <= k <= ip ==> path[k] == Up(tree, initial, k)
        decreases tree.depth(nextState)
      {
        OnlyRootAtZero(tree, nextState);
        ip := ip + 1;
        path[ip] := nextState;
        UpNext(tree, initial, ip);
        var _ := GetSuperState(nextState);
      }
      nextState := path[0];
      RootIsAncestor(tree, initial);
      ChainIsUps(tree, initial, tree.root);
      assert path[..ip + 1] == Chain(tree, initial, tree.root);
      Retrace(path, ip);
      curState := path[0];
      nextState := curState;
    }

    /** Search the recorded path for `t`, from the top down. */
    method FindInPath(path: array<State>, t: State, ip: int) returns (found: bool, below: int)
      requires 0 <= ip < path.Length
      ensures found ==> -1 <= below < ip && path[below + 1] == t && forall k :: below + 1 < k <= ip ==> path[k] != t
      ensures !found ==> below == ip && t !in path[..ip + 1]
    {
      var iq := ip;
      found, below := false, ip;
      while iq >= 0
        invariant -1 <= iq <= ip
        invariant !found ==> below == ip && forall k :: iq < k <= ip ==> path[k] != t
        invariant found ==> iq == -1 && -1 <= below < ip && path[below + 1] == t
        invariant found ==> forall k :: below + 1 < k <= ip ==> path[k] != t
      {
        if t == path[iq] {
          found, below, iq := true, iq - 1, -1;
        } else {
          iq := iq - 1;
        }
      }
    }

    /** The transition search.  On entry `path[0]` is the target and `path[2]` the source.  It exits
        the source side as it goes and returns the index of the outermost state to enter, with the
        states to enter recorded in `path` from the target up. */
    method Transit(path: array<State>) returns (ip: int)
      requires Bound() && path.Length >= 3
      requires path[0] != tree.root && path[2] != tree.root
      requires tree.depth(path[0]) < path.Length
      requires Terminates(tree, exitHandled, path[2], path[0])
      modifies this`nextState, this`trace, path
      ensures -1 <= ip < path.Length
      ensures path[..ip + 1] == EnteredBy(tree, exitHandled, old(path[2]), old(path[0]))
      ensures path[0] == old(path[0])
      ensures trace == old(trace) + Exits(ExitedBy(tree, exitHandled, old(path[2]), old(path[0])))
    {
      hide Up, Exited, Entered, IsAncestor, NeedsClimb, ClimbHandled, Exits, Chain, Tree.WellFormed;
      var s := path[2];
      ghost var target := path[0];
      var found;
      ip, found := SearchNear(path);
      if !found {
        ghost var before := trace;
        ip := ClimbOut(path, s, ip);
        ghost var exited := ExitedBy(tree, exitHandled, s, target);
        ExitsCons(exited);
        assert before + Exits(exited[1..]) == old(trace) + ([Exit(s)] + Exits(exited[1..]));
      }
    }

    /** The search with case (g) cut off after a number of rounds, where it does not end: however many
        rounds it is given, it finds nothing; it climbs to the first unhandled exit and exits that state
        again in every further round. */
    method TransitFor(path: array<State>, rounds: nat) returns (found: bool)
      requires Bound() && path.Length >= 3
      requires path[0] != tree.root && path[2] != tree.root
      requires tree.depth(path[0]) < path.Length
      requires !Terminates(tree, exitHandled, path[2], path[0])
      modifies this`nextState, this`trace, path
      ensures !found
      ensures trace == old(trace) + [Exit(old(path[2]))]
                       + RoundExits(tree, old(path[2]), StuckAt(tree, exitHandled, old(path[2]), old(path[0])), rounds)
    {
      hide Up, IsAncestor, NeedsClimb, ClimbHandled, Climb, StuckAt, RoundExits, Exited, Entered, Tree.WellFormed;
      var s := path[2];
      ghost var target := path[0];
      ghost var j := StuckAt(tree, exitHandled, s, target);
      DoesClimb(tree, exitHandled, s, target);
      var ip;
      ip, found := SearchNear(path);
      ghost var before := trace;
      RoundsNone(tree, s, j);
      OnlyRootAtZero(tree, s);
      UpZero(tree, s);
      UpNext(tree, s, 0);
      var t := tree.parent(s);
      for i := 0 to rounds
        invariant !found && t == RoundExit(tree, s, j, i)
        invariant i > 0 || j == 1 ==> nextState == t
        invariant ip == tree.depth(target) < path.Length && path[0] == target
        invariant forall k :: 0 <= k <= ip ==> path[k] == Up(tree, target, k)
        invariant trace == before + RoundExits(tree, s, j, i)
      {
        RoundNext(tree, exitHandled, s, target, j, i);
        t := ExitAndClimb(t);
        ghost var top := ip;
        found, ip := FindInPath(path, t, ip);
        RoundMisses(tree, s, target, j, i + 1, path[..top + 1]);
      }
    }

    /** Cases (a) to (f).  When they find nothing, the source has been exited and all superstates of the
        target are recorded. */
    method SearchNear(path: array<State>) returns (ip: int, found: bool)
      requires Bound() && path.Length >= 3
      requires path[0] != tree.root && path[2] != tree.root
      requires tree.depth(path[0]) < path.Length
      modifies this`nextState, this`trace, path
      ensures -1 <= ip < path.Length && path[0] == old(path[0])
      ensures found <==> !NeedsClimb(tree, old(path[2]), path[0])
      ensures found ==> path[..ip + 1] == Entered(tree, old(path[2]), path[0])
      ensures found ==> trace == old(trace) + Exits(Exited(tree, old(path[2]), path[0]))
      ensures !found ==> ip == tree.depth(path[0]) && trace == old(trace) + [Exit(old(path[2]))]
      ensures !found ==> forall k :: 0 <= k <= ip ==> path[k] == Up(tree, path[0], k)
      ensures !found ==> nextState == if ip > 1 then tree.root else tree.parent(old(path[2]))
    {
      ip, found := -1, true;
      var t := path[0];
      var s := path[2];
      ghost var target := path[0];
      if s == t {
        // (a) transition to self
        var _ := OnExit(s);
        ip := 0;
      } else {
        var status := GetSuperState(t);
        t := nextState;
        if s == t {
          // (b) source is the target's superstate
          assert s == Up(tree, target, 1);
          SourceAbove(tree, s, target, 1);
          ip := 0;
        } else {
          status := GetSuperState(s);
          if nextState == t {
            // (c) siblings
            NotAbove(tree, s, target);
            assert nextState == Up(tree, target, 1);
            SuperShared(tree, s, target, 1);
            var _ := OnExit(s);
            ip := 0;
          } else if nextState == path[0] {
            // (d) target is the source's superstate
            NotAbove(tree, s, target);
            assert nextState == Up(tree, target, 0);
            SuperShared(tree, s, target, 0);
            var _ := OnExit(s);
          } else {
            ip, found := SearchFar(path, s, t);
          }
        }
      }
    }

    /** Cases (e) and (f). */
    method SearchFar(path: array<State>, s: State, super: State) returns (ip: int, found: bool)
      requires Bound() && path.Length >= 2
      requires path[0] != tree.root && s != tree.root && s != path[0]
      requires super == tree.parent(path[0]) && nextState == tree.parent(s) && s != super
      requires tree.depth(path[0]) < path.Length
      modifies this`nextState, this`trace, path
      ensures -1 <= ip < path.Length && path[0] == old(path[0])
      ensures found <==> !NeedsClimb(tree, s, path[0])
      ensures found ==> path[..ip + 1] == Entered(tree, s, path[0])
      ensures found ==> trace == old(trace) + Exits(Exited(tree, s, path[0]))
      ensures !found ==> ip == tree.depth(path[0]) && trace == old(trace) + [Exit(s)]
      ensures !found ==> forall k :: 0 <= k <= ip ==> path[k] == Up(tree, path[0], k)
      ensures !found ==> nextState == if ip > 1 then tree.root else tree.parent(s)
    {
      hide Up, Exited, Entered, IsAncestor, Exits, Tree.WellFormed;
      ghost var target := path[0];
      var t := nextState;
      var isSource;
      ip, isSource := RecordPath(path, s, super);
      if isSource {
        SourceAbove(tree, s, target, ip + 1);
        assert path[..ip + 1] == Entered(tree, s, target);
        assert Exits([]) == [];
        found := true;
      } else {
        // (f) look for the source's superstate among the recorded ones
        ghost var recorded := path[..ip + 1];
        NotRecorded(tree, s, target, recorded);
        var _ := OnExit(s);
        found, ip := FindInPath(path, t, ip);
        if found {
          SuperShared(tree, s, target, ip + 1);
          assert path[..ip + 1] == Entered(tree, s, target);
          assert Exits([s]) == [Exit(s)];
        } else {
          NotRecorded(tree, t, target, recorded);
        }
      }
    }

    /** Case (e): look for the source among the target's superstates, recording them. */
    method RecordPath(path: array<State>, s: State, super: State) returns (ip: int, isSource: bool)
      requires Bound() && path.Length >= 2
      requires path[0] != tree.root && s != path[0] && super == tree.parent(path[0]) && s != super
      requires tree.depth(path[0]) < path.Length
      modifies this`nextState, path
      ensures 1 <= ip <= tree.depth(path[0]) && path[0] == old(path[0])
      ensures forall k :: 0 <= k <= ip ==> path[k] == Up(tree, path[0], k) != s
      ensures isSource ==> ip < tree.depth(path[0]) && s == Up(tree, path[0], ip + 1)
      ensures !isSource ==> ip == tree.depth(path[0]) && nextState == if ip > 1 then tree.root else old(nextState)
    {
      hide Up, Tree.WellFormed;
      ghost var target := path[0];
      UpZero(tree, target);
      OnlyRootAtZero(tree, target);
      OnlyRootAtZero(tree, super);
      UpNext(tree, target, 0);
      if super != tree.root {
        UpNext(tree, target, 1);
      }
      isSource := false;
      ip := 1;
      path[1] := super;
      var status := GetSuperState(path[1]);
      while status == Super
        invariant 1 <= ip <= tree.depth(target)
        invariant forall k :: 0 <= k <= ip ==> path[k] == Up(tree, target, k) != s
        invariant !isSource && status == Super ==> ip < tree.depth(target) && nextState == Up(tree, target, ip + 1)
        invariant !isSource && status != Super ==>
                    ip == tree.depth(target) && nextState == (if ip > 1 then tree.root else old(nextState))
        invariant isSource ==> status == Handled && ip < tree.depth(target) && s == Up(tree, target, ip + 1)
        decreases status == Super, tree.depth(target) - ip
      {
        ip := ip + 1;
        path[ip] := nextState;
        if nextState == s {
          isSource := true;
          ip := ip - 1;
          status := Handled;
        } else {
          OnlyRootAtZero(tree, nextState);
          if nextState != tree.root {
            UpNext(tree, target, ip);
          }
          status := GetSuperState(nextState);
        }
      }
    }

    /** Case (g): exit superstates of the source one by one until a recorded one is met. */
    method ClimbOut(path: array<State>, s: State, top: int) returns (ip: int)
      requires Bound() && s != tree.root
      requires 0 <= top < path.Length && top == tree.depth(path[0])
      requires forall k :: 0 <= k <= top ==> path[k] == Up(tree, path[0], k)
      requires nextState == if top > 1 then tree.root else tree.parent(s)
      requires NeedsClimb(tree, s, path[0]) && Terminates(tree, exitHandled, s, path[0])
      modifies this`nextState, this`trace
      ensures -1 <= ip < path.Length
      ensures path[..ip + 1] == EnteredBy(tree, exitHandled, s, path[0])
      ensures var exited := ExitedBy(tree, exitHandled, s, path[0]);
        exited != [] && exited[0] == s && trace == old(trace) + Exits(exited[1..])
    {
      hide Up, Exited, Entered, EnteredBy, ExitedBy, IsAncestor, NeedsClimb, Climbed, ClimbHandled, Exits,
        Tree.WellFormed;
      ghost var target := path[0];
      ghost var recorded := path[..top + 1];
      ghost var more: seq<State> := [];
      var super := tree.parent(s);
      ClimbStarts(tree, exitHandled, s, target, recorded);
      ghost var straight := exitHandled(super);
      var t, found := super, false;
      ip := top;
      while !found
        invariant straight ==> Climbed(tree, s, target, [s] + more, t)
        invariant trace == old(trace) + Exits(more)
        invariant found ==> -1 <= ip < top && recorded[ip + 1] == t
        invariant !found ==> ip == top && t !in recorded
        invariant !straight && !found ==> more == [] && t == super && nextState == tree.root
        invariant !straight && found ==> more == [super] && ip == top - 1
        decreases !found, tree.depth(t)
      {
        OnlyRootAtZero(tree, t);
        OnlyRootAtZero(tree, tree.root);
        ExitsNext(more, t);
        if straight {
          NotRecorded(tree, t, target, recorded);
          ClimbedHandled(tree, exitHandled, s, target, [s] + more, t);
          ClimbedNext(tree, s, target, [s] + more, t);
          assert [s] + more + [t] == [s] + (more + [t]);
        }
        more := more + [t];
        t := ExitAndClimb(t);
        found, ip := FindInPath(path, t, ip);
      }
      if straight {
        ClimbedAll(tree, exitHandled, s, target, [s] + more, ip + 1);
      } else {
        ClimbedShort(tree, exitHandled, s, target);
      }
      assert path[..ip + 1] == EnteredBy(tree, exitHandled, s, target);
    }

    /** Exit `t` and, when the exit was handled, ask for its superstate. */
    method ExitAndClimb(t: State) returns (super: State)
      requires t != tree.root
      modifies this`nextState, this`trace
      ensures super == nextState == (if exitHandled(t) then tree.parent(t) else old(nextState))
      ensures trace == old(trace) + [Exit(t)]
    {
      var status := OnExit(t);
      if status == Handled {
        var _ := GetSuperState(t);
      }
      super := nextState;
    }

    /** Take the transition to `target` from the current state and retrace the entry path. */
    method Transition(target: State)
      requires Bound() && curState != tree.root && target != tree.root
      requires tree.depth(target) < MAX_NEST_DEPTH
      requires IsRight(tree, exitHandled, curState, target)
      modifies this
      ensures curState == nextState == target
      ensures trace == old(trace) + TransitionActions(tree, old(curState), target)
      ensures old(curState) == target ==> trace == old(trace) + [Exit(target), Enter(target)]
    {
      var path := new State[MAX_NEST_DEPTH];
      path[0] := target;
      path[1] := curState;
      path[2] := curState;
      ghost var source := curState;
      SearchIsRightIff(tree, exitHandled, source, target);
      var ip := Transit(path);
      NeverRoot(tree, source, target);
      forall k | 0 <= k <= ip
        ensures path[k] != tree.root
      {
        assert path[k] == path[..ip + 1][k];
      }
      Retrace(path, ip);
      SelfTransition(tree, target);
      nextState := path[0];
      curState := nextState;
    }

    /** Offer an event to the current state and then to each superstate, until one answers
        with something else than "ask my superstate" or "guard failed". */
    method Bubble(respond: State -> Response) returns (asked: State, status: Status)
      requires Bound() && respond(tree.root) == IsIgnored
      modifies this`nextState
      ensures IsAncestor(tree, asked, old(nextState)) && respond(asked) != AskSuper && respond(asked) != IsHandled
      ensures forall a :: IsAncestor(tree, a, old(nextState)) && IsAncestor(tree, asked, a) && a != asked
                ==> respond(a) == AskSuper || respond(a) == IsHandled
      ensures status == Tran <==> respond(asked).GoTo?
      ensures status == Ignored <==> respond(asked) == IsIgnored
      ensures status == Unhandled <==> respond(asked) == IsUnhandled
      ensures nextState == if respond(asked).GoTo? then respond(asked).target else asked
    {
      ghost var start := nextState;
      ghost var k := 0;
      UpZero(tree, start);
      AncestorIsUp(tree, start, start);
      while true
        invariant k <= tree.depth(start) && nextState == Up(tree, start, k)
        invariant forall i :: 0 <= i < k ==> !Decides(respond, Up(tree, start, i))
        decreases tree.depth(nextState)
      {
        asked := nextState;
        OnlyRootAtZero(tree, asked);
        if asked != tree.root {
          UpNext(tree, start, k);
        }
        match respond(asked) {
          case AskSuper =>
            nextState := tree.parent(asked);
            status := Super;
          case IsHandled => status := GetSuperState(asked);
          case IsIgnored => status := Ignored;
          case IsUnhandled => status := Unhandled;
          case GoTo(target) =>
            nextState := target;
            status := Tran;
        }
        if status != Super {
          break;
        }
        k := k + 1;
      }
      AncestorIsUp(tree, asked, start);
      forall a | IsAncestor(tree, a, start) && IsAncestor(tree, asked, a) && a != asked
        ensures !Decides(respond, a)
      {
        AncestorIsUp(tree, a, start);
        AncestorIsUp(tree, asked, a);
      }
    }
  }

  /** Whether a state's answer ends the search for a handler. */
  predicate Decides(respond: State -> Response, s: State) {
    !respond(s).AskSuper? && !respond(s).IsHandled?
  }

  /** What case (g) starts from. */
  lemma ClimbStarts(tree: Tree, handled: State -> bool, s: State, target: State, recorded: seq<State>)
    requires tree.WellFormed() && s != tree.root && NeedsClimb(tree, s, target)
    requires Terminates(tree, handled, s, target) && |recorded| == tree.depth(target) + 1
    requires forall k :: 0 <= k < |recorded| ==> recorded[k] == Up(tree, target, k)
    ensures Climbed(tree, s, target, [s] + [], tree.parent(s))
    ensures tree.parent(s) !in recorded && recorded[tree.depth(target)] == tree.root && s != target
    ensures if handled(tree.parent(s)) then ClimbHandled(tree, handled, s, target) else tree.depth(target) > 1
  {
    hide IsAncestor, ClimbHandled, Up;
    ClimbedFirst(tree, s, target);
    OnlyRootAtZero(tree, recorded[tree.depth(target)]);
    forall k | 0 <= k < |recorded|
      ensures recorded[k] != tree.parent(s)
    {
      AncestorIsUp(tree, recorded[k], target);
    }
    if !handled(tree.parent(s)) {
      NotHandledFirst(tree, handled, s, target);
    }
  }

  lemma DoesClimb(tree: Tree, handled: State -> bool, s: State, target: State)
    requires tree.WellFormed() && !Terminates(tree, handled, s, target)
    ensures NeedsClimb(tree, s, target)
  {
  }

  lemma RoundsNone(tree: Tree, s: State, j: nat)
    requires tree.WellFormed() && j <= tree.depth(s)
    ensures RoundExits(tree, s, j, 0) == []
  {
  }

  /** One more round: the state to exit is not the root, and the next one is its superstate while its
      exit is handled and the same state from the stuck level on. */
  lemma RoundNext(tree: Tree, handled: State -> bool, s: State, target: State, j: nat, i: nat)
    requires tree.WellFormed() && 1 <= j < Climb(tree, s, target) && !handled(Up(tree, s, j))
    requires forall k :: 1 <= k < j ==> handled(Up(tree, s, k))
    ensures var t := RoundExit(tree, s, j, i);
      && t != tree.root
      && RoundExit(tree, s, j, i + 1) == (if handled(t) then tree.parent(t) else t)
      && (!handled(t) ==> i > 0 || j == 1)
      && RoundExits(tree, s, j, i + 1) == RoundExits(tree, s, j, i) + [Exit(t)]
  {
    hide Climb;
    var k := if i + 1 < j then i + 1 else j;
    OnlyRootAtZero(tree, Up(tree, s, k));
    if k < j {
      UpNext(tree, s, k);
    }
  }

  /** No round meets the recorded path. */
  lemma RoundMisses(tree: Tree, s: State, target: State, j: nat, i: nat, recorded: seq<State>)
    requires tree.WellFormed() && 1 <= j < Climb(tree, s, target) && |recorded| == tree.depth(target) + 1
    requires forall k :: 0 <= k < |recorded| ==> recorded[k] == Up(tree, target, k)
    ensures RoundExit(tree, s, j, i) !in recorded
  {
    hide IsAncestor, Climb, Up;
    CommonFromLca(tree, s, target, if i + 1 < j then i + 1 else j);
    forall k | 0 <= k < |recorded|
      ensures recorded[k] != RoundExit(tree, s, j, i)
    {
      AncestorIsUp(tree, recorded[k], target);
    }
  }

  lemma ExitsNext(s: seq<State>, t: State)
    ensures Exits(s + [t]) == Exits(s) + [Exit(t)]
  {
  }

  lemma NotAbove(tree: Tree, s: State, target: State)
    requires tree.WellFormed() && s != target && tree.depth(s) >= tree.depth(target)
    ensures !IsAncestor(tree, s, target)
  {
    AncestorIsUp(tree, s, target);
  }

  lemma NotRecorded(tree: Tree, s: State, target: State, path: seq<State>)
    requires tree.WellFormed() && |path| == tree.depth(target) + 1
    requires forall k :: 0 <= k < |path| ==> path[k] == Up(tree, target, k)
    requires s !in path
    ensures !IsAncestor(tree, s, target)
  {
    AncestorIsUp(tree, s, target);
    if tree.depth(s) <= tree.depth(target) {
      assert path[tree.depth(target) - tree.depth(s)] != s;
    }
  }

  /** If the `j`-th superstate of the source is the `m`-th of the target, and no nearer
      superstate of the source is one of the target, the transition exits the `j` states below
      it on the source side and enters the `m` states below it on the target side. */
  lemma TransitionShape(tree: Tree, s: State, target: State, j: nat, m: nat)
    requires tree.WellFormed() && s != target
    requires j <= tree.depth(s) && m <= tree.depth(target)
    requires Up(tree, s, j) == Up(tree, target, m)
    requires j == 0 || !IsAncestor(tree, Up(tree, s, j - 1), target)
    ensures |Exited(tree, s, target)| == j && |Entered(tree, s, target)| == m
    ensures forall i :: 0 <= i < j ==> Exited(tree, s, target)[i] == Up(tree, s, i)
    ensures forall i :: 0 <= i < m ==> Entered(tree, s, target)[i] == Up(tree, target, i)
  {
    hide IsAncestor, Lca;
    var x := Up(tree, s, j);
    AncestorIsUp(tree, x, target);
    AncestorIsUp(tree, x, s);
    FirstCommonIsLca(tree, s, target, j);
    ChainIsUps(tree, s, x);
    ChainIsUps(tree, target, x);
  }

  lemma {:induction false} ChainBelowRoot(tree: Tree, s: State, top: State)
    requires tree.WellFormed() && IsAncestor(tree, top, s)
    ensures tree.root !in Chain(tree, s, top)
    decreases tree.depth(s)
  {
    if s != top {
      ChainBelowRoot(tree, tree.parent(s), top);
    }
  }

  lemma NeverRoot(tree: Tree, s: State, target: State)
    requires tree.WellFormed() && s != tree.root && target != tree.root
    ensures tree.root !in Exited(tree, s, target) && tree.root !in Entered(tree, s, target)
  {
    LcaIsCommon(tree, s, target);
    ChainBelowRoot(tree, s, Lca(tree, s, target));
    ChainBelowRoot(tree, target, Lca(tree, s, target));
  }

  // ----- What a transition's actions are -----

  /** A transition to self exits the state and enters it again. */
  lemma SelfTransition(tree: Tree, s: State)
    requires tree.WellFormed()
    ensures TransitionActions(tree, s, s) == [Exit(s), Enter(s)]
  {
  }

  /** Any other transition, in order: out of the source up to but excluding the first superstate that
      is also one of the target, then from just below that down to the target. */
  lemma TransitionInOrder(tree: Tree, s: State, target: State, n: nat, m: nat)
    requires tree.WellFormed() && s != target
    requires n <= tree.depth(s) && m <= tree.depth(target) && Up(tree, s, n) == Up(tree, target, m)
    requires forall i: nat :: i < n ==> !IsAncestor(tree, Up(tree, s, i), target)
    ensures var actions := TransitionActions(tree, s, target);
      && |actions| == n + m
      && (forall i: nat :: i < n ==> actions[i] == Exit(Up(tree, s, i)))
      && (forall i: nat :: n <= i < n + m ==> actions[i] == Enter(Up(tree, target, n + m - 1 - i)))
  {
    hide IsAncestor, Up, Exited, Entered;
    TransitionShape(tree, s, target, n, m);
  }

  /** The states a transition from `s` to `target` has to leave: the source itself for a transition
      to self, otherwise those around the source that are not around the target. */
  ghost predicate Leaves(tree: Tree, s: State, target: State, a: State)
    requires tree.WellFormed()
  {
    if s == target then a == s else IsAncestor(tree, a, s) && !IsAncestor(tree, a, target)
  }

  /** A transition exits each state it has to leave once and no other, and enters each state it would
      have to leave on the way back once and no other. */
  lemma TransitionCounts(tree: Tree, s: State, target: State, a: State)
    requires tree.WellFormed()
    ensures var actions := multiset(TransitionActions(tree, s, target));
      && actions[Exit(a)] == (if Leaves(tree, s, target, a) then 1 else 0)
      && actions[Enter(a)] == (if Leaves(tree, target, s, a) then 1 else 0)
  {
    hide Exits, Enters, IsAncestor, Lca, Chain, Leaves;
    var exits, enters := Exits(Exited(tree, s, target)), Enters(Entered(tree, s, target));
    assert multiset(exits + enters) == multiset(exits) + multiset(enters);
    ExitsCount(Exited(tree, s, target), a);
    EntersCount(Entered(tree, s, target), a);
    LeftOnce(tree, s, target, a);
    LeftOnce(tree, target, s, a);
    LcaSymmetric(tree, s, target);
  }

  lemma LeftOnce(tree: Tree, s: State, target: State, a: State)
    requires tree.WellFormed()
    ensures multiset(Exited(tree, s, target))[a] == if Leaves(tree, s, target, a) then 1 else 0
  {
    hide IsAncestor, Lca, Chain;
    if s != target {
      var l := Lca(tree, s, target);
      LcaIsCommon(tree, s, target);
      ChainCount(tree, s, l, a);
      if IsAncestor(tree, a, s) {
        if IsAncestor(tree, a, target) {
          LcaIsLeast(tree, s, target, a);
        } else if IsAncestor(tree, a, l) {
          AncestorTransitive(tree, a, l, target);
        }
      }
    }
  }

  /** A chain holds each state around `s` that is not around `top` once. */
  lemma {:induction false} ChainCount(tree: Tree, s: State, top: State, a: State)
    requires tree.WellFormed() && IsAncestor(tree, top, s)
    ensures multiset(Chain(tree, s, top))[a]
            == if IsAncestor(tree, a, s) && !IsAncestor(tree, a, top) then 1 else 0
    decreases tree.depth(s)
  {
    if s != top {
      var up := tree.parent(s);
      ChainCount(tree, up, top, a);
      assert multiset([s] + Chain(tree, up, top)) == multiset([s]) + multiset(Chain(tree, up, top));
      AncestorIsUp(tree, s, up);
      AncestorIsUp(tree, top, up);
      AncestorIsUp(tree, s, top);
    }
  }

  lemma {:induction false} ExitsCount(s: seq<State>, a: State)
    ensures multiset(Exits(s))[Exit(a)] == multiset(s)[a] && multiset(Exits(s))[Enter(a)] == 0
  {
    hide Exits;
    if s == [] {
      assert Exits(s) == [];
    } else {
      var head, rest := [Exit(s[0])], Exits(s[1..]);
      ExitsCount(s[1..], a);
      ExitsCons(s);
      assert multiset(head + rest) == multiset(head) + multiset(rest);
      assert s == [s[0]] + s[1..];
    }
  }

  lemma {:induction false} EntersCount(s: seq<State>, a: State)
    ensures multiset(Enters(s))[Enter(a)] == multiset(s)[a] && multiset(Enters(s))[Exit(a)] == 0
  {
    hide Enters;
    if s == [] {
      assert Enters(s) == [];
    } else {
      var last, rest := [Enter(s[0])], Enters(s[1..]);
      EntersCount(s[1..], a);
      assert Enters(s) == rest + last;
      assert multiset(rest + last) == multiset(rest) + multiset(last);
      assert s == [s[0]] + s[1..];
    }
  }

  /** Start-up enters the states around the initial one, outermost first. */
  lemma StartInOrder(tree: Tree, initial: State)
    requires tree.WellFormed()
    ensures var actions := StartActions(tree, initial);
      && |actions| == tree.depth(initial)
      && forall i: nat :: i < |actions| ==> actions[i] == Enter(Up(tree, initial, |actions| - 1 - i))
  {
    hide Up, Chain, IsAncestor;
    RootIsAncestor(tree, initial);
    ChainIsUps(tree, initial, tree.root);
  }

  // ----- Whole runs -----

  /** Replay actions on a nested configuration whose innermost state is `at`: only a direct
      substate may be entered and only the innermost state may be exited. */
  ghost function Replay(tree: Tree, at: State, trace: seq<Action>): Option<State>
    decreases |trace|
  {
    if trace == [] then Some(at)
    else match trace[0]
      case Enter(s) => if s != tree.root && tree.parent(s) == at then Replay(tree, s, trace[1..]) else None
      case Exit(s) => if s == at && s != tree.root then Replay(tree, tree.parent(s), trace[1..]) else None
  }

  /** Replay actions on a plain set of active states: a state may be entered only while
      inactive and exited only while active. */
  ghost function Activate(active: set<State>, trace: seq<Action>): Option<set<State>>
    decreases |trace|
  {
    if trace == [] then Some(active)
    else match trace[0]
      case Enter(s) => if s !in active then Activate(active + {s}, trace[1..]) else None
      case Exit(s) => if s in active then Activate(active - {s}, trace[1..]) else None
  }

  /** The configuration of `s`: itself and its superstates below the root. */
  ghost function Configuration(tree: Tree, s: State): set<State>
    requires tree.WellFormed()
    decreases tree.depth(s)
  {
    if s == tree.root then {} else {s} + Configuration(tree, tree.parent(s))
  }

  /** A configuration holds exactly the non-root ancestors-or-self. */
  lemma {:induction false} ConfigurationIs(tree: Tree, s: State, a: State)
    requires tree.WellFormed()
    ensures a in Configuration(tree, s) <==> IsAncestor(tree, a, s) && a != tree.root
    decreases tree.depth(s)
  {
    if s != tree.root {
      ConfigurationIs(tree, tree.parent(s), a);
    }
  }

  lemma {:induction false} ReplayConcat(tree: Tree, at: State, a: seq<Action>, b: seq<Action>)
    requires Replay(tree, at, a).Some?
    ensures Replay(tree, at, a + b) == Replay(tree, Replay(tree, at, a).value, b)
    decreases |a|
  {
    if a == [] {
      assert a + b == b;
    } else {
      assert (a + b)[1..] == a[1..] + b;
      match a[0]
      case Enter(s) => ReplayConcat(tree, s, a[1..], b);
      case Exit(s) => ReplayConcat(tree, tree.parent(s), a[1..], b);
    }
  }

  lemma {:induction false} ReplayExits(tree: Tree, s: State, top: State)
    requires tree.WellFormed() && IsAncestor(tree, top, s)
    ensures Replay(tree, s, Exits(Chain(tree, s, top))) == Some(top)
    decreases tree.depth(s)
  {
    if s != top {
      var rest := Chain(tree, tree.parent(s), top);
      assert Exits([s] + rest)[1..] == Exits(rest);
      ReplayExits(tree, tree.parent(s), top);
    }
  }

  lemma {:induction false} ReplayEnters(tree: Tree, s: State, top: State)
    requires tree.WellFormed() && IsAncestor(tree, top, s)
    ensures Replay(tree, top, Enters(Chain(tree, s, top))) == Some(s)
    decreases tree.depth(s)
  {
    if s != top {
      var rest := Chain(tree, tree.parent(s), top);
      assert Enters([s] + rest) == Enters(rest) + [Enter(s)];
      ReplayEnters(tree, tree.parent(s), top);
      ReplayConcat(tree, top, Enters(rest), [Enter(s)]);
    }
  }

  /** One transition leads from the configuration of its source to that of its target. */
  lemma ReplayTransition(tree: Tree, s: State, target: State)
    requires tree.WellFormed() && s != tree.root && target != tree.root
    ensures Replay(tree, s, TransitionActions(tree, s, target)) == Some(target)
  {
    var exits, enters := Exits(Exited(tree, s, target)), Enters(Entered(tree, s, target));
    if s == target {
      assert exits + enters == [Exit(s), Enter(s)];
      assert [Exit(s), Enter(s)][1..] == [Enter(s)];
      assert Replay(tree, tree.parent(s), [Enter(s)]) == Replay(tree, s, [Enter(s)][1..]);
    } else {
      hide Replay, Chain;
      var l := Lca(tree, s, target);
      LcaIsCommon(tree, s, target);
      ReplayExits(tree, s, l);
      ReplayEnters(tree, target, l);
      ReplayConcat(tree, s, exits, enters);
    }
  }

  /** A nested replay is in particular a proper replay on the set of active states. */
  lemma {:induction false} ReplayIsProper(tree: Tree, at: State, trace: seq<Action>)
    requires tree.WellFormed() && Replay(tree, at, trace).Some?
    ensures Activate(Configuration(tree, at), trace)
            == Some(Configuration(tree, Replay(tree, at, trace).value))
    decreases |trace|
  {
    if trace != [] {
      var s := trace[0].state;
      ConfigurationIs(tree, tree.parent(s), s);
      AncestorIsUp(tree, s, tree.parent(s));
      match trace[0] {
        case Enter(_) =>
          assert Configuration(tree, at) + {s} == Configuration(tree, s);
          ReplayIsProper(tree, s, trace[1..]);
        case Exit(_) =>
          assert Configuration(tree, at) - {s} == Configuration(tree, tree.parent(s));
          ReplayIsProper(tree, tree.parent(s), trace[1..]);
      }
    }
  }

  /** The state after start-up and a sequence of transitions. */
  function Last(initial: State, targets: seq<State>): State {
    if targets == [] then initial else targets[|targets| - 1]
  }

  /** The actions of start-up followed by transitions to each target in turn. */
  ghost function RunActions(tree: Tree, initial: State, targets: seq<State>): seq<Action>
    requires tree.WellFormed()
    decreases |targets|
  {
    if targets == [] then StartActions(tree, initial)
    else
      var before := targets[..|targets| - 1];
      RunActions(tree, initial, before)
      + TransitionActions(tree, Last(initial, before), targets[|targets| - 1])
  }

  lemma {:induction false} RunReplays(tree: Tree, initial: State, targets: seq<State>)
    requires tree.WellFormed() && initial != tree.root && tree.root !in targets
    ensures Replay(tree, tree.root, RunActions(tree, initial, targets)) == Some(Last(initial, targets))
    decreases |targets|
  {
    if targets == [] {
      RootIsAncestor(tree, initial);
      ReplayEnters(tree, initial, tree.root);
    } else {
      hide Replay;
      var before, target := targets[..|targets| - 1], targets[|targets| - 1];
      RunReplays(tree, initial, before);
      ReplayTransition(tree, Last(initial, before), target);
      ReplayConcat(tree, tree.root, RunActions(tree, initial, before),
                   TransitionActions(tree, Last(initial, before), target));
    }
  }

  /** One more transition adds to a run what the transition has to leave and enter, once each, as a
      nested walk from the current state to the target. */
  lemma RunNext(tree: Tree, initial: State, targets: seq<State>, target: State, a: State)
    requires tree.WellFormed() && initial != tree.root && tree.root !in targets && target != tree.root
    ensures var before, after := RunActions(tree, initial, targets), RunActions(tree, initial, targets + [target]);
      && |before| <= |after| && after[..|before|] == before
      && var at, added := Last(initial, targets), after[|before|..];
         && Replay(tree, at, added) == Some(target)
         && multiset(added)[Exit(a)] == (if Leaves(tree, at, target, a) then 1 else 0)
         && multiset(added)[Enter(a)] == (if Leaves(tree, target, at, a) then 1 else 0)
  {
    hide TransitionActions, Leaves, Replay;
    var at := Last(initial, targets);
    assert (targets + [target])[..|targets|] == targets;
    ReplayTransition(tree, at, target);
    TransitionCounts(tree, at, target, a);
    var before, after := RunActions(tree, initial, targets), RunActions(tree, initial, targets + [target]);
    assert after == before + TransitionActions(tree, at, target);
    assert after[|before|..] == TransitionActions(tree, at, target);
  }

  lemma {:induction false} ReplayPrefix(tree: Tree, at: State, trace: seq<Action>, k: nat)
    requires k <= |trace| && Replay(tree, at, trace).Some?
    ensures Replay(tree, at, trace[..k]).Some?
    decreases |trace|
  {
    if k > 0 {
      assert trace[..k][1..] == trace[1..][..k - 1];
      match trace[0]
      case Enter(s) => ReplayPrefix(tree, s, trace[1..], k - 1);
      case Exit(s) => ReplayPrefix(tree, tree.parent(s), trace[1..], k - 1);
    }
  }

  /** Safety of whole runs: after start-up and any sequence of transitions the active states are
      exactly the configuration of the current state; at every moment in between they are the
      configuration of some state; and no state is ever entered while active or exited while
      inactive. */
  lemma RunKeepsConfiguration(tree: Tree, initial: State, targets: seq<State>, k: nat)
    requires tree.WellFormed() && initial != tree.root && tree.root !in targets
    requires k <= |RunActions(tree, initial, targets)|
    ensures Activate({}, RunActions(tree, initial, targets))
            == Some(Configuration(tree, Last(initial, targets)))
    ensures exists s :: Activate({}, RunActions(tree, initial, targets)[..k]) == Some(Configuration(tree, s))
  {
    hide Replay, Activate, RunActions;
    var trace := RunActions(tree, initial, targets);
    RunReplays(tree, initial, targets);
    ReplayIsProper(tree, tree.root, trace);
    ReplayPrefix(tree, tree.root, trace, k);
    ReplayIsProper(tree, tree.root, trace[..k]);
  }

  /** The machine performs exactly such runs, as long as each search is right. */
  method Run(tree: Tree, exitHandled: State -> bool, initial: State, targets: seq<State>) returns (m: Machine)
    requires tree.WellFormed() && initial != tree.root && tree.depth(initial) <= MAX_NEST_DEPTH
    requires forall i :: 0 <= i < |targets| ==> targets[i] != tree.root && tree.depth(targets[i]) < MAX_NEST_DEPTH
    requires forall i :: 0 <= i < |targets| ==> IsRight(tree, exitHandled, Last(initial, targets[..i]), targets[i])
    ensures m.tree == tree && m.curState == m.nextState == Last(initial, targets)
    ensures m.trace == RunActions(tree, initial, targets)
  {
    hide TransitionActions, StartActions, IsRight;
    m := new Machine(tree, exitHandled, initial);
    m.Init();
    for i := 0 to |targets|
      invariant m.tree == tree && m.exitHandled == exitHandled
      invariant m.curState == m.nextState == Last(initial, targets[..i])
      invariant m.curState != tree.root
      invariant fresh(m) && m.trace == RunActions(tree, initial, targets[..i])
    {
      assert targets[..i + 1][..i] == targets[..i];
      m.Transition(targets[i]);
    }
    assert targets[..|targets|] == targets;
  }

  /** The sample's exit action handles nothing: its transition from the third level to the first exits
      the second level in every round and finds nothing, however many rounds it is given. */
  method SampleNeverEnds(rounds: nat) returns (m: Machine, found: bool)
    ensures m.tree == LEVELS && !found && m.trace == [Exit(3)] + seq(rounds, _ => Exit(2))
  {
    m := new Machine(LEVELS, _ => false, 3);
    var path := new State[MAX_NEST_DEPTH];
    path[0], path[1], path[2] := 1, 3, 3;
    SampleIsStuck();
    found := m.TransitFor(path, rounds);
    SampleRounds(rounds);
  }

  lemma SampleIsStuck()
    ensures LEVELS.WellFormed() && !Terminates(LEVELS, _ => false, 3, 1) && StuckAt(LEVELS, _ => false, 3, 1) == 1
  {
    AncestorIsUp(LEVELS, 3, 1);
    AncestorIsUp(LEVELS, 2, 1);
    NeedsClimbIff(LEVELS, 3, 1);
    assert Up(LEVELS, 3, 1) == 2;
  }

  lemma SampleRounds(rounds: nat)
    requires LEVELS.WellFormed()
    ensures RoundExits(LEVELS, 3, 1, rounds) == seq(rounds, _ => Exit(2))
  {
    assert Up(LEVELS, 3, 1) == 2;
  }
}
