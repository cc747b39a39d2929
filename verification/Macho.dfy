/**
 * The hierarchical state machine engine of inet/common/Macho.
 *
 * A state is described by a value: its place below its superstate, its history strategy and the
 * kind of its box.  What the engine keeps per state and machine - the remembered history and the
 * allocated box - are maps and sets of the machine, keyed by the state.
 */
module Macho {

  import opened Options

  datatype Strategy = NoHistory | Shallow | Deep

  datatype BoxKind = EmptyBox | OwnBox | PersistentBox

  datatype State = Root | Sub(id: nat, parent: State, strategy: Strategy, box: BoxKind)

  function Depth(s: State): nat { if s.Root? then 0 else 1 + Depth(s.parent) }

  /** Whether `a` is `s` or one of its superstates. */
  predicate IsChild(s: State, a: State)
  {
    s == a || (s.Sub? && IsChild(s.parent, a))
  }

  /** The states a machine is in when its current state is `s`, innermost first. */
  function Ancestry(s: State): seq<State>
  {
    if s.Root? then [] else [s] + Ancestry(s.parent)
  }

  /** The substate of `a` on the way to `c`. */
  function Towards(a: State, c: State): State
    requires IsChild(c, a) && c != a
  {
    if c.parent == a then c else Towards(a, c.parent)
  }

  /** Whether `s` or a superstate of it keeps a history. */
  predicate AnyHistory(s: State) { s.Sub? && (s.strategy != NoHistory || AnyHistory(s.parent)) }

  lemma {:induction false} ChildIsDeeper(s: State, a: State)
    requires IsChild(s, a)
    ensures Depth(a) <= Depth(s) && (Depth(a) == Depth(s) ==> a == s)
  {
    if s != a {
      ChildIsDeeper(s.parent, a);
    }
  }

  lemma {:induction false} ChildIsTransitive(s: State, a: State, b: State)
    requires IsChild(s, a) && IsChild(a, b)
    ensures IsChild(s, b)
  {
    if s != a {
      ChildIsTransitive(s.parent, a, b);
    }
  }

  lemma {:induction false} InAncestry(s: State, a: State)
    ensures a in Ancestry(s) <==> a.Sub? && IsChild(s, a)
  {
    if s.Sub? {
      InAncestry(s.parent, a);
    }
  }

  // ------------------------------------------------------------ exit and entry

  /** An entry or exit action, and whether the state had its box when it was performed. */
  datatype Action = Enter(state: State, boxed: bool) | Leave(state: State, boxed: bool)

  /** The states left on a transition to `next`, in this order. */
  function Exits(s: State, next: State): seq<State>
  {
    if s.Root? || (s != next && IsChild(next, s)) then [] else [s] + Exits(s.parent, next)
  }

  /** The states entered on a transition from `previous`, in this order. */
  function Entries(s: State, previous: State, first: bool): seq<State>
  {
    if s.Root? || !(first || !IsChild(previous, s)) then [] else Entries(s.parent, previous, false) + [s]
  }

  lemma ExitsStep(s: State, next: State)
    ensures s.Root? ==> Exits(s, next) == [] && Kept(s, next) == [] && Entered(s) == Reverse(Kept(s, next))
    ensures s.Sub? && (s == next || !IsChild(next, s)) ==>
      Exits(s, next) == [s] + Exits(s.parent, next) && Kept(s, next) == Kept(s.parent, next)
    ensures s.Sub? && !(s == next || !IsChild(next, s)) ==> Exits(s, next) == [] && Entered(s) == Reverse(Kept(s, next))
  {
  }

  /**
   * Exactly these states are left when `c` is the current one: the target, if it is entered, and all that are not
   * among its superstates.
   */
  lemma {:induction false} ExitsAre(c: State, next: State, s: State)
    ensures s in Exits(c, next) <==> s.Sub? && IsChild(c, s) && (s == next || !IsChild(next, s))
  {
    if c.Sub? {
      if c != next && IsChild(next, c) {
        if s.Sub? && IsChild(c, s) {
          ChildIsTransitive(next, c, s);
          ChildIsDeeper(next, c);
          ChildIsDeeper(c, s);
        }
      } else {
        ExitsAre(c.parent, next, s);
      }
    }
  }

  /** Exactly these states are entered: the target, and its superstates that are not entered yet. */
  lemma {:induction false} EntriesAre(t: State, previous: State, first: bool, s: State)
    ensures s in Entries(t, previous, first) <==> s.Sub? && IsChild(t, s) && ((first && s == t) || !IsChild(previous, s))
  {
    if t.Sub? {
      if first || !IsChild(previous, t) {
        EntriesAre(t.parent, previous, false, s);
      } else if IsChild(t, s) {
        ChildIsTransitive(previous, t, s);
      }
    }
  }

  /** The target is the last state to be entered. */
  lemma TargetIsLast(t: State, previous: State)
    requires t.Sub?
    ensures var entries := Entries(t, previous, true); |entries| > 0 && entries[|entries| - 1] == t
  {
  }

  /** The states that stay entered, innermost first. */
  function Kept(s: State, next: State): seq<State>
  {
    if s.Root? then [] else if s != next && IsChild(next, s) then Ancestry(s) else Kept(s.parent, next)
  }

  /** What is entered already when the entry actions for `s` begin. */
  function Base(s: State, previous: State, first: bool): seq<State>
  {
    if s.Root? then [] else if first || !IsChild(previous, s) then Base(s.parent, previous, false) else Ancestry(s)
  }

  lemma {:induction false} BaseOfChild(s: State, c: State)
    requires IsChild(s, c)
    ensures Base(s, c, false) == Ancestry(c)
  {
    if s != c {
      ChildIsDeeper(s.parent, c);
      if IsChild(c, s) { ChildIsDeeper(c, s); }
      BaseOfChild(s.parent, c);
    } else {
      assert s.Sub? ==> IsChild(c, s);
    }
  }

  lemma {:induction false} BaseOfParent(s: State, c: State)
    requires c.Sub? && !IsChild(s, c)
    ensures Base(s, c, false) == Base(s, c.parent, false)
  {
    if s.Sub? {
      BaseOfParent(s.parent, c);
    }
  }

  lemma {:induction false} BaseOfRoot(s: State)
    ensures Base(s, Root, false) == []
  {
    if s.Sub? {
      BaseOfRoot(s.parent);
    }
  }

  /** What the exit actions leave entered is what the entry actions build on. */
  lemma {:induction false} KeptIsBase(c: State, next: State)
    ensures Kept(c, next) == Base(next, c, true)
  {
    if next.Root? {
      if c.Sub? {
        KeptIsBase(c.parent, next);
      }
    } else if c.Root? {
      BaseOfRoot(next.parent);
    } else if c != next && IsChild(next, c) {
      BaseOfChild(next.parent, c);
    } else {
      if c == next && IsChild(next.parent, c) { ChildIsDeeper(next.parent, c); }
      BaseOfParent(next.parent, c);
      KeptIsBase(c.parent, next);
    }
  }

  function Reverse(s: seq<State>): seq<State>
  {
    if s == [] then [] else Reverse(s[1..]) + [s[0]]
  }

  function Innermost(open: seq<State>): State { if open == [] then Root else open[|open| - 1] }

  /**
   * The states entered and not left yet, outermost first.  Only a substate of the innermost of them can be
   * entered, and only the innermost one can be left; None if the actions do not fit together like that.
   */
  function Replay(trace: seq<Action>): Option<seq<State>>
  {
    if trace == [] then Some([])
    else
      match Replay(trace[..|trace| - 1])
      case None => None
      case Some(open) =>
        match trace[|trace| - 1]
        case Enter(s, _) => if s.Sub? && s.parent == Innermost(open) then Some(open + [s]) else None
        case Leave(s, _) => if s.Sub? && s == Innermost(open) then Some(open[..|open| - 1]) else None
  }

  function Entered(s: State): seq<State> { Reverse(Ancestry(s)) }

  lemma EnteredGrows(s: State)
    requires s.Sub?
    ensures Entered(s) == Entered(s.parent) + [s]
  {
    assert Ancestry(s)[1..] == Ancestry(s.parent);
  }

  lemma {:induction false} InReverse(s: seq<State>, a: State)
    ensures a in Reverse(s) <==> a in s
  {
    if s != [] {
      InReverse(s[1..], a);
    }
  }

  lemma InnermostEntered(s: State)
    ensures Innermost(Entered(s)) == s && (Entered(s) == [] <==> s.Root?)
  {
    if s.Sub? { EnteredGrows(s); }
  }

  /** A trace that fits leaves exactly a state and its superstates entered. */
  lemma {:induction false} ReplayIsChain(trace: seq<Action>)
    requires Replay(trace).Some?
    ensures Replay(trace).value == Entered(Innermost(Replay(trace).value))
  {
    if trace != [] {
      var before, action := trace[..|trace| - 1], trace[|trace| - 1];
      ReplayIsChain(before);
      var s := Innermost(Replay(before).value);
      assert trace == before + [action];
      match action
      case Enter(t, boxed) =>
        ReplayEnter(before, s, t, boxed);
        InnermostEntered(t);
      case Leave(t, boxed) =>
        ReplayLeave(before, s, t, boxed);
        InnermostEntered(t.parent);
    }
  }

  /** Of the states that are entered only the innermost one can be left. */
  lemma ReplayLeave(trace: seq<Action>, s: State, t: State, boxed: bool)
    requires Replay(trace) == Some(Entered(s))
    ensures Replay(trace + [Leave(t, boxed)]) == if t.Sub? && t == s then Some(Entered(t.parent)) else None
  {
    InnermostEntered(s);
    if s.Sub? { EnteredGrows(s); }
    assert (trace + [Leave(t, boxed)])[..|trace|] == trace;
  }

  /** Only a direct substate of the innermost state can be entered; so no state is entered twice. */
  lemma ReplayEnter(trace: seq<Action>, s: State, t: State, boxed: bool)
    requires Replay(trace) == Some(Entered(s))
    ensures Replay(trace + [Enter(t, boxed)]) == if t.Sub? && t.parent == s then Some(Entered(t)) else None
    ensures t.Sub? && t.parent == s ==> t !in Entered(s)
  {
    InnermostEntered(s);
    if t.Sub? && t.parent == s {
      EnteredGrows(t);
      InReverse(Ancestry(s), t);
      InAncestry(s, t);
      NotAboveItself(t);
    }
    assert (trace + [Enter(t, boxed)])[..|trace|] == trace;
  }

  /** The action of a state, which has its box then if it is to have one. */
  function ActionOf(s: State, entering: bool): Action
  {
    if entering then Enter(s, s.Sub? && s.box != EmptyBox) else Leave(s, s.Sub? && s.box != EmptyBox)
  }

  function Actions(states: seq<State>, entering: bool): (r: seq<Action>)
    ensures |r| == |states|
  {
    seq(|states|, i requires 0 <= i < |states| => ActionOf(states[i], entering))
  }

  lemma NoActions()
    ensures Actions([], true) == [] == Actions([], false)
    ensures Entered(Root) == Reverse([]) == []
  {
  }

  lemma ActionsOfFirst(s: State, rest: seq<State>, entering: bool)
    ensures Actions([s] + rest, entering) == [ActionOf(s, entering)] + Actions(rest, entering)
  {
  }

  lemma ActionsOfLast(rest: seq<State>, s: State, entering: bool)
    ensures Actions(rest + [s], entering) == Actions(rest, entering) + [ActionOf(s, entering)]
  {
  }

  /** The states entered on a transition, outermost first, complete the list of entered states. */
  lemma {:induction false} EntriesCompleteBase(s: State, previous: State, first: bool)
    ensures Entered(s) == Reverse(Base(s, previous, first)) + Entries(s, previous, first)
  {
    if s.Sub? && (first || !IsChild(previous, s)) {
      EntriesCompleteBase(s.parent, previous, false);
      EnteredGrows(s);
    }
  }

  // ------------------------------------------------------------ histories

  function Remembered(history: map<State, State>, a: State): Option<State>
  {
    if a in history then Some(history[a]) else None
  }

  /** What `a` remembers after `c` was left: its substate towards `c`, or `c` itself, or what it remembered before. */
  function RememberedAfter(history: map<State, State>, c: State, a: State): Option<State>
  {
    if IsChild(c, a) && c != a && a.Sub? && a.strategy == Shallow then Some(Towards(a, c))
    else if IsChild(c, a) && c != a && a.Sub? && a.strategy == Deep then Some(c)
    else Remembered(history, a)
  }

  lemma {:induction false} TowardsIsBetween(a: State, c: State)
    requires IsChild(c, a) && c != a
    ensures IsChild(c, Towards(a, c)) && Towards(a, c).Sub? && Towards(a, c).parent == a
  {
    if c.parent != a {
      TowardsIsBetween(a, c.parent);
    }
  }

  /** `s` and its superstates remember what they have to when `c` is left; nobody else's memory changes. */
  ghost predicate SavedFrom(before: map<State, State>, after: map<State, State>, s: State, c: State)
  {
    && (forall a | IsChild(s, a) :: Remembered(after, a) == RememberedAfter(before, c, a))
    && (forall a | !IsChild(s, a) :: Remembered(after, a) == Remembered(before, a))
  }

  lemma SavedInSteps(before: map<State, State>, between: map<State, State>, after: map<State, State>, s: State, c: State)
    requires s.Sub? && IsChild(c, s) && c != s && SavedFrom(between, after, s.parent, c)
    requires forall a | a != s :: Remembered(between, a) == Remembered(before, a)
    requires Remembered(between, s) == RememberedAfter(before, c, s)
    ensures SavedFrom(before, after, s, c)
  {
    NotAboveItself(s);
    forall a ensures Remembered(after, a) == if IsChild(s, a) then RememberedAfter(before, c, a) else Remembered(before, a) {
      if a != s {
        assert Remembered(between, a) == Remembered(before, a);
        assert RememberedAfter(between, c, a) == RememberedAfter(before, c, a);
      }
    }
  }

  lemma SavedFromParent(before: map<State, State>, after: map<State, State>, c: State)
    requires if c.Sub? then SavedFrom(before, after, c.parent, c) else after == before
    ensures forall a :: Remembered(after, a) == RememberedAfter(before, c, a)
  {
    if c.Sub? { NotAboveItself(c); }
  }

  // ------------------------------------------------------------ the machine

  datatype Initializer = Default | History | Parameters

  datatype Pending = Pending(state: State, init: Initializer)

  /** An event, by what its handler does: request a transition, dispatch another event. */
  datatype Event = Event(target: Option<Pending>, next: Option<Event>)

  function Length(e: Option<Event>): nat { if e.None? then 0 else 1 + Length(e.value.next) }

  // ------------------------------------------------------------ runs

  datatype Config = Config(current: State, history: map<State, State>, pending: Option<Pending>, event: Option<Event>)

  /** What a transition does; only the init action of the target is free to ask for more or not. */
  ghost predicate Moves(c: Config, d: Config)
  {
    && c.pending.Some? && d.current == c.pending.value.state && d.event == c.event
    && (d.pending.Some? ==> d.current.Sub? && DeeperThan(d.pending.value.state, d.current))
    && var p := c.pending.value;
    && (forall a | a != p.state || p.init == Parameters :: Remembered(d.history, a) == RememberedAfter(c.history, c.current, a))
    && (p.init != Parameters ==> Remembered(d.history, p.state) == None)
    && (p.init == History && RememberedAfter(c.history, c.current, p.state).Some? ==>
          d.pending == Some(Pending(RememberedAfter(c.history, c.current, p.state).value, Default)))
  }

  /** A transition comes before an event. */
  ghost predicate Steps(c: Config, d: Config)
  {
    if c.pending.Some? then Moves(c, d)
    else c.event.Some? && d == Config(c.current, c.history, c.event.value.target, c.event.value.next)
  }

  function ActionsOf(c: Config, d: Config): seq<Action>
  {
    if c.pending.None? then []
    else Actions(Exits(c.current, d.current), false) + Actions(Entries(d.current, c.current, true), true)
  }

  ghost predicate IsRun(path: seq<Config>)
  {
    0 < |path| && forall i, j | 0 <= i < j == i + 1 < |path| :: Steps(path[i], path[j])
  }

  function TraceOf(path: seq<Config>): seq<Action>
  {
    if |path| <= 1 then [] else TraceOf(path[..|path| - 1]) + ActionsOf(path[|path| - 2], path[|path| - 1])
  }

  lemma RunBegins(c: Config)
    ensures IsRun([c]) && TraceOf([c]) == []
  {
  }

  lemma RunGrows(path: seq<Config>, c: Config)
    requires IsRun(path) && Steps(path[|path| - 1], c)
    ensures IsRun(path + [c]) && TraceOf(path + [c]) == TraceOf(path) + ActionsOf(path[|path| - 1], c)
  {
    hide Steps, ActionsOf;
    var more := path + [c];
    assert more[..|path|] == path;
    forall i, j | 0 <= i < j == i + 1 < |more| ensures Steps(more[i], more[j]) {
      assert more[i] == path[i] && (j < |path| ==> more[j] == path[j]);
    }
  }

  /** The state that the last request asks for, or `s` if there is none. */
  function Goal(s: State, p: Option<Pending>, e: Option<Event>): State
    decreases e
  {
    var t := if p.Some? then p.value.state else s;
    if e.None? then t else Goal(t, e.value.target, e.value.next)
  }

  lemma {:induction false} GoalStaysInside(s: State, t: State, p: Option<Pending>, e: Option<Event>)
    requires IsChild(t, s)
    ensures IsChild(Goal(t, p, e), Goal(s, p, e))
    decreases e
  {
    if e.Some? && p.None? { GoalStaysInside(s, t, e.value.target, e.value.next); }
  }

  /** A run ends in the last state that was requested, or in a substate of it. */
  lemma {:induction false} RunReachesGoal(path: seq<Config>)
    requires IsRun(path) && path[|path| - 1].pending.None? && path[|path| - 1].event.None?
    ensures IsChild(path[|path| - 1].current, Goal(path[0].current, path[0].pending, path[0].event))
    decreases |path|
  {
    if |path| > 1 {
      var c, d := path[0], path[1];
      var rest := path[1..];
      assert forall i | 0 <= i < |rest| :: rest[i] == path[i + 1];
      RunReachesGoal(rest);
      if c.pending.Some? {
        var t := if d.pending.Some? then d.pending.value.state else d.current;
        if c.event.Some? {
          GoalStaysInside(d.current, t, c.event.value.target, c.event.value.next);
        }
        ChildIsTransitive(path[|path| - 1].current, Goal(d.current, d.pending, d.event), Goal(c.current, c.pending, c.event));
      }
    }
  }

  /** Own boxes exist while their state is entered; persistent ones at least that long. */
  predicate BoxesFit(boxes: set<State>, open: seq<State>)
  {
    && (forall s {:trigger s in boxes} | s in boxes :: s.Sub? && s.box != EmptyBox && (s.box == OwnBox ==> s in open))
    && (forall s {:trigger s in boxes} | s in open && s.Sub? && s.box != EmptyBox :: s in boxes)
  }

  class Machine {
    const instances: seq<State>   // all states of the machine, Root first
    ghost const height: nat       // no state lies deeper
    var current: Option<State>
    var pendingState: Option<Pending>
    var pendingEvent: Option<Event>
    var history: map<State, State>
    var boxes: set<State>
    ghost var trace: seq<Action>  // all entry and exit actions so far

    ghost predicate Hierarchy() {
      && Root in instances
      && (forall s {:trigger s in instances} | s in instances :: Depth(s) <= height && (s.Sub? ==> s.parent in instances))
    }

    constructor (instances: seq<State>, ghost height: nat)
      requires Root in instances
      requires forall s | s in instances :: Depth(s) <= height && (s.Sub? ==> s.parent in instances)
      ensures this.instances == instances && Stopped() && Hierarchy()
    {
      this.instances, this.height := instances, height;
      current, pendingState, pendingEvent := None, None, None;
      history, boxes, trace := map[], {}, [];
    }

    /** A remembered state is a proper substate of the one that remembers it. */
    ghost predicate HistoryOk()
      reads this`history
    {
      forall a {:trigger a in history} | a in history ::
        && a in instances && a.Sub? && a.strategy != NoHistory && history[a] in instances && IsChild(history[a], a) && history[a] != a
        && (a.strategy == Shallow ==> history[a].Sub? && history[a].parent == a)
    }

    /** The entered states are exactly the current state and its superstates, entered outermost first. */
    ghost predicate InState(s: State)
      reads this`trace, this`boxes
    {
      s in instances && Replay(trace) == Some(Entered(s)) && BoxesFit(boxes, Entered(s))
    }

    ghost predicate Stopped()
      reads this
    {
      && Hierarchy() && HistoryOk() && current.None? && pendingState.None? && pendingEvent.None?
      && InState(Root)
    }

    ghost predicate Running()
      reads this
    {
      Hierarchy() && HistoryOk() && current.Some? && InState(current.value)
    }

    predicate CanGo(p: Option<Pending>) { p.Some? ==> p.value.state in instances }

    predicate CanDispatch(e: Option<Event>)
      decreases e
    {
      e.Some? ==> CanGo(e.value.target) && CanDispatch(e.value.next)
    }

    ghost predicate Idle()
      reads this
    {
      Running() && pendingState.None? && pendingEvent.None?
    }

    ghost function Now(): Config
      requires current.Some?
      reads this
    {
      Config(current.value, history, pendingState, pendingEvent)
    }

    /** The machine has come along `path`, and its trace is `before` and the actions on the way. */
    ghost predicate Follows(path: seq<Config>, before: seq<Action>)
      reads this
    {
      current.Some? && 0 < |path| && IsRun(path) && path[|path| - 1] == Now() && trace == before + TraceOf(path)
    }

    method Exit(s: State, next: State)
      requires Replay(trace) == Some(Entered(s)) && BoxesFit(boxes, Entered(s))
      modifies this`trace, this`boxes
      ensures Replay(trace) == Some(Reverse(Kept(s, next))) && BoxesFit(boxes, Reverse(Kept(s, next)))
      ensures trace == old(trace) + Actions(Exits(s, next), false)
      ensures forall x: State | x.Sub? :: x in boxes <==> x in old(boxes) && !(x in Exits(s, next) && x.box == OwnBox)
    {
      ExitsStep(s, next);
      hide BoxesFit, Replay, Actions, Exits, Kept, Entered, IsChild;
      if s.Root? {
        NoActions();
        return;
      }
      if s == next || !IsChild(next, s) {
        BoxFits(boxes, s);
        ReplayLeave(trace, s, s, s in boxes);
        trace := trace + [Leave(s, s in boxes)];
        LeaveBoxes(boxes, s);
        ActionsOfFirst(s, Exits(s.parent, next), false);
        if s.box != EmptyBox {
          if s.box != PersistentBox {
            boxes := boxes - {s};
          }
        }
        Exit(s.parent, next);
      } else {
        NoActions();
      }
    }

    method Entry(s: State, previous: State, first: bool)
      requires Replay(trace) == Some(Reverse(Base(s, previous, first))) && BoxesFit(boxes, Reverse(Base(s, previous, first)))
      modifies this`trace, this`boxes
      ensures Replay(trace) == Some(Entered(s)) && BoxesFit(boxes, Entered(s))
      ensures trace == old(trace) + Actions(Entries(s, previous, first), true)
      ensures forall x: State | x.Sub? :: x in boxes <==> x in old(boxes) || (x in Entries(s, previous, first) && x.box != EmptyBox)
    {
      hide BoxesFit, Replay, Actions;
      if s.Root? {
        NoActions();
        return;
      }
      if first || !IsChild(previous, s) {
        Entry(s.parent, previous, false);
        EnterBoxes(boxes, s);
        ActionsOfLast(Entries(s.parent, previous, false), s, true);
        if s.box != EmptyBox {
          boxes := boxes + {s};
        }
        BoxFits(boxes, s);
        ReplayEnter(trace, s.parent, s, s in boxes);
        trace := trace + [Enter(s, s in boxes)];
      } else {
        NoActions();
      }
    }

    /** Tells the superstate of `s` that the machine leaves `deep`. */
    method SetHistorySuper(s: State, deep: State)
      requires IsChild(deep, s)
      modifies this`history
      ensures if s.Sub? then SavedFrom(old(history), history, s.parent, deep) else history == old(history)
      decreases s, 1
    {
      if s.Sub? {
        SaveHistory(s.parent, s, deep);
      }
    }

    /** `s` remembers what its strategy asks for and passes the news on if a superstate wants to know. */
    method SaveHistory(s: State, shallow: State, deep: State)
      requires IsChild(deep, shallow) && shallow.Sub? && shallow.parent == s
      modifies this`history
      ensures SavedFrom(old(history), history, s, deep)
      decreases s, 2
    {
      if s.Root? {
        RootHasNoSuper();
        return;
      }
      TowardsShallow(s, shallow, deep);
      NotAboveItself(s);
      match s.strategy {
        case Shallow => history := history[s := shallow];
        case Deep => history := history[s := deep];
        case NoHistory =>
      }
      ghost var between := history;
      if AnyHistory(s.parent) {
        SetHistorySuper(s, deep);
      } else {
        NothingAbove(s.parent, history, deep);
      }
      SavedInSteps(old(history), between, history, s, deep);
    }

    method SetPendingState(p: Pending)
      requires pendingState.None?
      modifies this`pendingState
      ensures pendingState == Some(p)
    {
      pendingState := Some(p);
    }

    method SetPendingEvent(e: Event)
      requires pendingEvent.None?
      modifies this`pendingEvent
      ensures pendingEvent == Some(e)
    {
      pendingEvent := Some(e);
    }

    /** The init action of a state: it may ask for a transition to a proper substate. */
    method UserInit(s: State)
      requires s in instances && pendingState.None?
      modifies this`pendingState
      ensures CanGo(pendingState) && (pendingState.Some? ==> s.Sub? && DeeperThan(pendingState.value.state, s))
    {
      var p: Option<Pending> := *;
      if s.Sub? && p.Some? && p.value.state in instances && DeeperThan(p.value.state, s) {
        SetPendingState(p.value);
      }
    }

    method Init(s: State, useHistory: bool)
      requires s in instances && pendingState.None? && HistoryOk()
      modifies this`pendingState, this`history
      ensures CanGo(pendingState) && (pendingState.Some? ==> s.Sub? && DeeperThan(pendingState.value.state, s)) && HistoryOk()
      ensures useHistory && s in old(history) ==> pendingState == Some(Pending(old(history)[s], Default))
      ensures history == old(history) - {s}
    {
      if useHistory && s in history {
        SetPendingState(Pending(history[s], Default));
      } else {
        UserInit(s);
      }
      history := history - {s};
    }

    method Execute(init: Initializer, s: State)
      requires s in instances && pendingState.None? && HistoryOk()
      modifies this`pendingState, this`history
      ensures CanGo(pendingState) && (pendingState.Some? ==> s.Sub? && DeeperThan(pendingState.value.state, s)) && HistoryOk()
      ensures init == History && s in old(history) ==> pendingState == Some(Pending(old(history)[s], Default))
      ensures history == if init == Parameters then old(history) else old(history) - {s}
    {
      match init
      case Default => Init(s, false);
      case History => Init(s, true);
      case Parameters => UserInit(s);
    }

    /** Performs the pending transition. */
    method Transit()
      requires Running() && pendingState.Some? && CanGo(pendingState)
      modifies this`current, this`pendingState, this`history, this`boxes, this`trace
      ensures Running() && current == Some(old(pendingState.value.state)) && CanGo(pendingState)
      ensures Moves(old(Now()), Now()) && trace == old(trace) + ActionsOf(old(Now()), Now())
      ensures var next := current.value; next.Sub? ==>
        |trace| > |old(trace)| && trace[|trace| - 1] == Enter(next, next.box != EmptyBox)
      ensures var next := current.value; next.Sub? && IsChild(old(current.value), next) ==>
        exists i :: |old(trace)| <= i < |trace| - 1 && trace[i] == Leave(next, next.box != EmptyBox)
      ensures KeepsPersistent(old(boxes), boxes)
      ensures var c, next := old(current.value), current.value; forall x: State | x.Sub? ::
        x in boxes <==> (x in old(boxes) && !(x in Exits(c, next) && x.box == OwnBox)) || (x in Entries(next, c, true) && x.box != EmptyBox)
    {
      hide Replay, BoxesFit, Actions, Exits, Entries, Kept, Base, RememberedAfter, SavedFrom, IsChild, Moves;
      var c, p := current.value, pendingState.value;
      Exit(c, p.state);
      SetHistorySuper(c, c);
      SavedFromParent(old(history), history, c);
      ghost var saved := history;
      current := Some(p.state);
      KeptIsBase(c, p.state);
      Entry(p.state, c, true);
      pendingState := None;
      SavedHistoryOk(old(history), c);
      Execute(p.init, p.state);
      SavedThenInitialized(old(Now()), saved, Now());
      if p.state.Sub? { LeftAndEntered(old(trace), c, p.state); }
    }

    /** Performs the pending transition and those that the init actions ask for, deeper and deeper. */
    method Settle(ghost path: seq<Config>, ghost before: seq<Action>) returns (ghost more: seq<Config>)
      requires Running() && CanGo(pendingState) && Follows(path, before)
      modifies this`current, this`pendingState, this`history, this`boxes, this`trace
      ensures Running() && pendingState.None? && Follows(more, before) && path <= more && |more| <= |path| + height + 1
      ensures if old(pendingState).Some? then IsChild(current.value, old(pendingState.value.state)) else more == path
      ensures KeepsPersistent(old(boxes), boxes) && (more == path ==> boxes == old(boxes))
    {
      hide Moves, IsRun, TraceOf, ActionsOf, Replay, BoxesFit, HistoryOk;
      ghost var target := pendingState;
      more := path;
      while pendingState.Some?
        invariant Running() && CanGo(pendingState) && Follows(more, before) && path <= more
        invariant KeepsPersistent(old(boxes), boxes) && (|more| == |path| ==> boxes == old(boxes))
        invariant |more| <= |path| + if pendingState.Some? then Depth(pendingState.value.state) else height + 1
        invariant target.None? ==> pendingState.None? && more == path
        invariant target.Some? ==>
          IsChild(if pendingState.Some? then pendingState.value.state else current.value, target.value.state)
        decreases if pendingState.Some? then 1 + height - Depth(pendingState.value.state) else 0
      {
        ghost var p := pendingState.value.state;
        Transit();
        MoveIsDeeper(more[|more| - 1], Now());
        RunGrows(more, Now());
        more := more + [Now()];
        if pendingState.Some? {
          ChildIsDeeper(pendingState.value.state, p);
          ChildIsTransitive(pendingState.value.state, p, target.value.state);
        }
      }
    }

    /** Performs pending transitions, and events that handlers dispatched, until none is left. */
    method RattleOn() returns (ghost path: seq<Config>)
      requires Running() && CanGo(pendingState) && CanDispatch(pendingEvent)
      modifies this`current, this`pendingState, this`pendingEvent, this`history, this`boxes, this`trace
      ensures Idle() && Follows(path, old(trace)) && path[0] == old(Now())
      ensures IsChild(current.value, Goal(old(current.value), old(pendingState), old(pendingEvent)))
      ensures KeepsPersistent(old(boxes), boxes) && (|path| == 1 ==> boxes == old(boxes))
    {
      hide Moves, IsRun, TraceOf, Replay, BoxesFit, HistoryOk;
      path := [Now()];
      RunBegins(Now());
      while pendingState.Some? || pendingEvent.Some?
        invariant Running() && CanGo(pendingState) && CanDispatch(pendingEvent)
        invariant Follows(path, old(trace)) && path[0] == old(Now())
        invariant KeepsPersistent(old(boxes), boxes) && (|path| == 1 ==> boxes == old(boxes))
        decreases Length(pendingEvent), if pendingState.Some? then 1 else 0
      {
        path := Settle(path, old(trace));
        if pendingEvent.Some? {
          var event := pendingEvent.value;
          pendingEvent := None;
          Handle(event);
          RunGrows(path, Now());
          path := path + [Now()];
        }
      }
      RunReachesGoal(path);
    }

    /** The handler of an event, as described by the event. */
    method Handle(event: Event)
      requires pendingState.None? && pendingEvent.None? && CanDispatch(Some(event))
      modifies this`pendingState, this`pendingEvent
      ensures pendingState == event.target && pendingEvent == event.next
      ensures CanGo(pendingState) && CanDispatch(pendingEvent)
    {
      if event.target.Some? {
        SetPendingState(event.target.value);
      }
      if event.next.Some? {
        SetPendingEvent(event.next.value);
      }
    }

    method SetState(p: Pending) returns (ghost path: seq<Config>)
      requires Idle() && p.state in instances
      modifies this`current, this`pendingState, this`pendingEvent, this`history, this`boxes, this`trace
      ensures Idle() && IsChild(current.value, p.state)
      ensures Follows(path, old(trace)) && path[0] == old(Now()).(pending := Some(p))
    {
      SetPendingState(p);
      path := RattleOn();
    }

    /** Goes to what `s` remembers, as an alias for the history of `s` does. */
    method SetStateHistory(s: State)
      requires Idle() && s in instances
      modifies this`current, this`pendingState, this`pendingEvent, this`history, this`boxes, this`trace
      ensures Idle() && IsChild(current.value, if s in old(history) then old(history)[s] else s)
    {
      ghost var path := SetState(Pending(if s in history then history[s] else s, History));
    }

    /** An event from outside. */
    method Dispatch(event: Event) returns (ghost path: seq<Config>)
      requires Idle() && CanDispatch(Some(event))
      modifies this`current, this`pendingState, this`pendingEvent, this`history, this`boxes, this`trace
      ensures Idle() && Follows(path, old(trace))
      ensures path[0] == old(Now()).(pending := event.target, event := event.next)
      ensures IsChild(current.value, Goal(old(current.value), event.target, event.next))
    {
      Handle(event);
      path := RattleOn();
    }

    method Start(p: Pending)
      requires Stopped() && p.state in instances
      modifies this`current, this`pendingState, this`pendingEvent, this`history, this`boxes, this`trace
      ensures Idle() && IsChild(current.value, p.state)
    {
      current := Some(Root);
      ghost var path := SetState(p);
    }

    /** Leaves every state. */
    method Shutdown()
      requires Idle()
      modifies this`current, this`pendingState, this`pendingEvent, this`history, this`boxes, this`trace
      ensures Stopped() && Replay(trace) == Some([])
      ensures trace == old(trace) + Actions(Ancestry(old(current.value)), false)
      ensures boxes == set s | s in old(boxes) && s.Sub? && s.box == PersistentBox
    {
      ghost var c := current.value;
      SetPendingState(Pending(Root, Default));
      TransitToRoot();
      ghost var path := RattleOn();
      assert |path| <= 1 || Steps(path[0], path[1]);
      assert Entered(Root) == [];
      current := None;
    }

    method TransitToRoot()
      requires Running() && pendingState == Some(Pending(Root, Default)) && pendingEvent.None?
      modifies this`current, this`pendingState, this`history, this`boxes, this`trace
      ensures Idle() && current == Some(Root) && trace == old(trace) + Actions(Ancestry(old(current.value)), false)
      ensures KeepsPersistent(old(boxes), boxes) && boxes <= old(boxes)
    {
      ghost var c := current.value;
      AllExit(c);
      Transit();
    }

    method ClearHistory(s: State)
      requires HistoryOk()
      modifies this`history
      ensures HistoryOk() && history == old(history) - {s}
    {
      history := history - {s};
    }

    /** `s` and all its substates forget. */
    method ClearHistoryDeep(s: State)
      requires HistoryOk()
      modifies this`history
      ensures HistoryOk() && history == map a | a in old(history) && !IsChild(a, s) :: old(history)[a]
    {
      for i := 0 to |instances|
        invariant history == map a | a in old(history) && !(IsChild(a, s) && a in instances[..i]) :: old(history)[a]
      {
        if IsChild(instances[i], s) {
          history := history - {instances[i]};
        }
      }
    }

    lemma SavedHistoryOk(was: map<State, State>, c: State)
      requires Hierarchy() && c in instances
      requires forall a {:trigger a in was} | a in was ::
        && a in instances && a.Sub? && a.strategy != NoHistory && was[a] in instances && IsChild(was[a], a) && was[a] != a
        && (a.strategy == Shallow ==> was[a].Sub? && was[a].parent == a)
      requires forall a :: Remembered(history, a) == RememberedAfter(was, c, a)
      ensures HistoryOk()
    {
      forall a | a in history
        ensures && a in instances && a.Sub? && a.strategy != NoHistory && history[a] in instances && IsChild(history[a], a) && history[a] != a
                && (a.strategy == Shallow ==> history[a].Sub? && history[a].parent == a)
      {
        assert Remembered(history, a) == Some(history[a]);
        if c != a && IsChild(c, a) {
          TowardsIsBetween(a, c);
          SuperInstance(c, Towards(a, c));
          SuperInstance(c, a);
        }
      }
    }

    lemma {:induction false} SuperInstance(s: State, a: State)
      requires Hierarchy() && s in instances && IsChild(s, a)
      ensures a in instances
    {
      if s != a {
        SuperInstance(s.parent, a);
      }
    }
  }

  lemma {:induction false} AllExit(c: State)
    ensures Exits(c, Root) == Ancestry(c)
  {
    if c.Sub? {
      AllExit(c.parent);
    }
  }

  /** Saving the history of the state that is left and then executing the initializer makes a move. */
  lemma SavedThenInitialized(c: Config, saved: map<State, State>, d: Config)
    requires c.pending.Some? && d.current == c.pending.value.state && d.event == c.event
    requires forall a :: Remembered(saved, a) == RememberedAfter(c.history, c.current, a)
    requires d.pending.Some? ==> d.current.Sub? && DeeperThan(d.pending.value.state, d.current)
    requires d.history == if c.pending.value.init == Parameters then saved else saved - {d.current}
    requires c.pending.value.init == History && d.current in saved ==> d.pending == Some(Pending(saved[d.current], Default))
    ensures Moves(c, d)
  {
    forall a | a != d.current || c.pending.value.init == Parameters
      ensures Remembered(d.history, a) == RememberedAfter(c.history, c.current, a)
    {
      assert Remembered(d.history, a) == Remembered(saved, a);
    }
    assert Remembered(saved, d.current) == RememberedAfter(c.history, c.current, d.current);
  }

  lemma MoveIsDeeper(c: Config, d: Config)
    requires Moves(c, d)
    ensures Steps(c, d) && d.current == c.pending.value.state
    ensures d.pending.Some? ==> DeeperThan(d.pending.value.state, d.current)
  {
  }

  /** A target other than the root is the last state entered, and is left before that if it was entered. */
  lemma LeftAndEntered(before: seq<Action>, c: State, next: State)
    requires next.Sub?
    ensures var trace := before + Actions(Exits(c, next), false) + Actions(Entries(next, c, true), true);
      && |trace| > |before| && trace[|trace| - 1] == Enter(next, next.box != EmptyBox)
      && (IsChild(c, next) ==> exists i :: |before| <= i < |trace| - 1 && trace[i] == Leave(next, next.box != EmptyBox))
  {
    hide Exits, Entries, IsChild;
    var exits, entries := Exits(c, next), Entries(next, c, true);
    var trace := before + Actions(exits, false) + Actions(entries, true);
    TargetIsLast(next, c);
    ExitsAre(c, next, next);
    if IsChild(c, next) {
      var k :| 0 <= k < |exits| && exits[k] == next;
      assert trace[|before| + k] == ActionOf(next, false);
    }
  }

  /** What a state with history remembers after a transition: its substate towards the state that was left, or that one itself. */
  lemma MoveRemembers(c: Config, d: Config, a: State)
    requires Moves(c, d) && (a != d.current || c.pending.value.init == Parameters)
    ensures a.Sub? && IsChild(c.current, a) && a != c.current && a.strategy == Shallow ==>
      a in d.history && d.history[a].Sub? && d.history[a].parent == a && IsChild(c.current, d.history[a])
    ensures a.Sub? && IsChild(c.current, a) && a != c.current && a.strategy == Deep ==>
      a in d.history && d.history[a] == c.current
    ensures a.Root? || !IsChild(c.current, a) || a == c.current || a.strategy == NoHistory ==>
      (a in d.history <==> a in c.history) && (a in d.history ==> d.history[a] == c.history[a])
  {
    assert Remembered(d.history, a) == RememberedAfter(c.history, c.current, a);
    if IsChild(c.current, a) && a != c.current { TowardsIsBetween(a, c.current); }
  }

  predicate KeepsPersistent(before: set<State>, after: set<State>)
  {
    forall s | s in before && s.Sub? && s.box == PersistentBox :: s in after
  }

  predicate DeeperThan(s: State, a: State) { IsChild(s, a) && s != a }

  lemma BoxFits(boxes: set<State>, s: State)
    requires s.Sub? && BoxesFit(boxes, Entered(s))
    ensures s in boxes <==> s.box != EmptyBox
  {
    EnteredGrows(s);
  }

  lemma EnterBoxes(boxes: set<State>, s: State)
    requires s.Sub? && BoxesFit(boxes, Entered(s.parent))
    ensures BoxesFit(if s.box != EmptyBox then boxes + {s} else boxes, Entered(s))
  {
    EnteredGrows(s);
  }

  lemma RootHasNoSuper()
    ensures forall a :: IsChild(Root, a) <==> a == Root
  {
  }

  lemma NotAboveItself(s: State)
    requires s.Sub?
    ensures !IsChild(s.parent, s)
  {
    if IsChild(s.parent, s) { ChildIsDeeper(s.parent, s); }
  }

  lemma {:induction false} TowardsShallow(s: State, shallow: State, deep: State)
    requires IsChild(deep, shallow) && shallow.Sub? && shallow.parent == s
    ensures IsChild(deep, s) && deep != s && Towards(s, deep) == shallow
  {
    NotAboveItself(shallow);
    if deep != shallow {
      TowardsShallow(s, shallow, deep.parent);
      ChildIsDeeper(deep.parent, s);
    }
  }

  /** Without any history above `s` nobody there has anything to remember. */
  lemma {:induction false} NothingAbove(s: State, history: map<State, State>, c: State)
    requires !AnyHistory(s)
    ensures forall a | IsChild(s, a) :: RememberedAfter(history, c, a) == Remembered(history, a)
  {
    if s.Sub? {
      NothingAbove(s.parent, history, c);
    }
  }

  lemma LeaveBoxes(boxes: set<State>, s: State)
    requires s.Sub? && BoxesFit(boxes, Entered(s))
    ensures BoxesFit(if s.box == OwnBox then boxes - {s} else boxes, Entered(s.parent))
  {
    EnteredGrows(s);
    InReverse(Ancestry(s.parent), s);
    InAncestry(s.parent, s);
    if IsChild(s.parent, s) { ChildIsDeeper(s.parent, s); }
  }
}
