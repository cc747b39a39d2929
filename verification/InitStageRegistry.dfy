/**
 * The numbering of initialization stages in inet/common/InitStageRegistry: repeated passes over the stages,
 * each of which numbers the stages whose predecessors are numbered already.
 */
module InitStages {

  import opened Options

  /** A declared stage; stages are told apart by their identity, and referred to in dependencies by their name. */
  datatype InitStage = InitStage(id: nat, name: string)

  /** `source` comes after `target`. */
  datatype Dependency = Dependency(source: string, target: string)

  datatype Result<T> = Ok(value: T) | UnknownStage(name: string) | Circle | UnknownDeclaration

  // ------------------------------------------------------------ the dependency graph

  /** The place of the first stage with a name. */
  function Place(names: seq<string>, name: string): (i: nat)
    ensures i <= |names| && (i < |names| ==> names[i] == name) && forall j :: 0 <= j < i ==> names[j] != name
  {
    if names == [] || names[0] == name then 0 else 1 + Place(names[1..], name)
  }

  predicate AllKnown(names: seq<string>, deps: seq<Dependency>)
  {
    forall k :: 0 <= k < |deps| ==> deps[k].source in names && deps[k].target in names
  }

  /** The first name of a dependency, in the order in which they were added, that no stage has. */
  ghost predicate IsFirstUnknown(name: string, names: seq<string>, deps: seq<Dependency>)
  {
    exists k :: 0 <= k < |deps| && AllKnown(names, deps[..k]) && IsUnknownIn(name, names, deps[k])
  }

  predicate IsUnknownIn(name: string, names: seq<string>, d: Dependency)
  {
    name !in names && (name == d.source || (name == d.target && d.source in names))
  }

  /** Stage `i` has to come after stage `j`. */
  predicate Follows(names: seq<string>, deps: seq<Dependency>, i: nat, j: nat)
  {
    exists k :: 0 <= k < |deps| && Place(names, deps[k].source) == i && Place(names, deps[k].target) == j
  }

  /** Stages of which each has to come after the next one. */
  predicate IsPath(names: seq<string>, deps: seq<Dependency>, c: seq<nat>)
  {
    && c != [] && (forall k :: 0 <= k < |c| ==> c[k] < |names|)
    && (forall k, m :: 0 <= k < m == k + 1 < |c| ==> Follows(names, deps, c[k], c[m]))
  }

  predicate IsCircle(names: seq<string>, deps: seq<Dependency>, c: seq<nat>)
  {
    IsPath(names, deps, c) && Follows(names, deps, c[|c| - 1], c[0])
  }

  ghost predicate HasCircle(names: seq<string>, deps: seq<Dependency>) { exists c :: IsCircle(names, deps, c) }

  /** An order of the stages that respects all dependencies. */
  predicate InOrder(names: seq<string>, deps: seq<Dependency>)
  {
    forall i, j :: 0 <= i < |names| && 0 <= j < |names| && Follows(names, deps, i, j) ==> j < i
  }

  /** A complete numbering: each number below the number of stages is used once, and respects the dependencies. */
  predicate IsNumbering(names: seq<string>, deps: seq<Dependency>, numbers: seq<int>)
  {
    && |numbers| == |names| && (forall i :: 0 <= i < |numbers| ==> 0 <= numbers[i] < |names|)
    && (forall i, j :: 0 <= i < j < |numbers| ==> numbers[i] != numbers[j])
    && Respects(names, deps, numbers)
  }

  predicate Respects(names: seq<string>, deps: seq<Dependency>, numbers: seq<int>)
    requires |numbers| == |names|
  {
    forall i, j {:trigger Follows(names, deps, i, j)} ::
      0 <= i < |names| && 0 <= j < |names| && Follows(names, deps, i, j) ==> numbers[j] < numbers[i]
  }

  /** A numbering rules out circles. */
  lemma {:induction false} NumbersFallAlongPath(names: seq<string>, deps: seq<Dependency>, numbers: seq<int>, c: seq<nat>)
    requires |numbers| == |names| && Respects(names, deps, numbers)
    requires IsPath(names, deps, c)
    ensures numbers[c[|c| - 1]] <= numbers[c[0]]
  {
    if |c| > 1 {
      var d := c[..|c| - 1];
      assert Follows(names, deps, c[|c| - 2], c[|c| - 1]);
      NumbersFallAlongPath(names, deps, numbers, d);
    }
  }

  lemma NumberedHasNoCircle(names: seq<string>, deps: seq<Dependency>, numbers: seq<int>)
    requires |numbers| == |names| && Respects(names, deps, numbers)
    ensures !HasCircle(names, deps)
  {
    forall c | IsCircle(names, deps, c) ensures false {
      NumbersFallAlongPath(names, deps, numbers, c);
    }
  }

  // ------------------------------------------------------------ pigeonholes

  predicate Distinct(s: seq<nat>) { forall i, j :: 0 <= i < j < |s| ==> s[i] != s[j] }

  predicate Below(s: seq<nat>, n: nat) { forall i :: 0 <= i < |s| ==> s[i] < n }

  ghost function Members(s: seq<nat>): (m: set<nat>)
    ensures forall x :: x in m <==> x in s
  {
    if s == [] then {} else Members(s[..|s| - 1]) + {s[|s| - 1]}
  }

  lemma {:induction false} DistinctMembers(s: seq<nat>)
    requires Distinct(s)
    ensures |Members(s)| == |s|
  {
    if s != [] {
      var t := s[..|s| - 1];
      DistinctMembers(t);
      assert s[|s| - 1] !in t;
    }
  }

  ghost function UpTo(n: nat): (s: set<nat>)
    ensures |s| == n && forall i: nat :: i in s <==> i < n
  {
    if n == 0 then {} else UpTo(n - 1) + {n - 1}
  }

  lemma SubsetSize(a: set<nat>, b: set<nat>)
    requires a <= b
    ensures |a| <= |b| && (|a| == |b| ==> a == b)
  {
    var c := b - a;
    assert b == a + c && a !! c;
  }

  lemma DistinctIsShort(s: seq<nat>, n: nat)
    requires Distinct(s) && Below(s, n)
    ensures |s| <= n && (|s| == n ==> forall i :: 0 <= i < n ==> i in s)
  {
    DistinctMembers(s);
    SubsetSize(Members(s), UpTo(n));
    if |s| == n {
      forall i | 0 <= i < n ensures i in s { assert i in UpTo(n); }
    }
  }

  /** Where each stage of a set waits for another one of the set, there is a circle. */
  lemma WaitingMakesCircle(names: seq<string>, deps: seq<Dependency>, waiting: set<nat>)
    requires waiting != {} && forall i :: i in waiting ==> Waits(names, deps, waiting, i)
    ensures HasCircle(names, deps)
  {
    hide Follows;
    var start :| start in waiting;
    var w := Walk(names, deps, waiting, start, |names|);
    if Distinct(w) {
      DistinctIsShort(w, |names|);
    }
    var i, j :| 0 <= i < j < |w| && w[i] == w[j];
    CircleInWalk(names, deps, w, i, j);
  }

  lemma CircleInWalk(names: seq<string>, deps: seq<Dependency>, w: seq<nat>, i: nat, j: nat)
    requires IsPath(names, deps, w) && i < j < |w| && w[i] == w[j]
    ensures HasCircle(names, deps)
  {
    hide Follows;
    var c := w[i..j];
    var last := j - 1;
    assert Follows(names, deps, w[last], w[j]);
    forall k, m | 0 <= k < m == k + 1 < |c| ensures Follows(names, deps, c[k], c[m]) {
      var k', m' := i + k, i + m;
      assert Follows(names, deps, w[k'], w[m']);
    }
    assert IsCircle(names, deps, c);
  }

  ghost predicate Waits(names: seq<string>, deps: seq<Dependency>, waiting: set<nat>, i: nat)
  {
    i < |names| && exists j :: j in waiting && Follows(names, deps, i, j)
  }

  lemma {:induction false} Walk(names: seq<string>, deps: seq<Dependency>, waiting: set<nat>, start: nat, n: nat) returns (w: seq<nat>)
    requires start in waiting && forall i :: i in waiting ==> Waits(names, deps, waiting, i)
    ensures |w| == n + 1 && w[0] == start && IsPath(names, deps, w)
    decreases n
  {
    hide Follows;
    assert Waits(names, deps, waiting, start);
    w := [start];
    if n > 0 {
      var next :| next in waiting && Follows(names, deps, start, next);
      var rest := Walk(names, deps, waiting, next, n - 1);
      w := [start] + rest;
      PathExtends(names, deps, start, rest);
    }
  }

  lemma PathExtends(names: seq<string>, deps: seq<Dependency>, start: nat, rest: seq<nat>)
    requires start < |names| && IsPath(names, deps, rest) && Follows(names, deps, start, rest[0])
    ensures IsPath(names, deps, [start] + rest)
  {
    hide Follows;
    var w := [start] + rest;
    forall k, m | 0 <= k < m == k + 1 < |w| ensures Follows(names, deps, w[k], w[m]) {
      if k > 0 { assert w[k] == rest[k - 1] && w[m] == rest[m - 1]; }
    }
  }

  // ------------------------------------------------------------ the numbering

  /** The stages in `order` have the numbers 0, 1, ... and everything they come after has a smaller one. */
  predicate IsPartial(names: seq<string>, deps: seq<Dependency>, numbers: seq<int>, order: seq<nat>)
  {
    && |numbers| == |names| && Distinct(order) && Below(order, |numbers|)
    && (forall v :: 0 <= v < |order| ==> numbers[order[v]] == v)
    && (forall i :: 0 <= i < |numbers| ==> i in order || numbers[i] == -1)
    && forall i, j {:trigger Follows(names, deps, i, j)} ::
      0 <= i < |names| && 0 <= j < |names| && numbers[i] != -1 && Follows(names, deps, i, j) ==> 0 <= numbers[j] < numbers[i]
  }

  /** All that stage `i` comes after has been numbered. */
  predicate IsReady(names: seq<string>, deps: seq<Dependency>, numbers: seq<int>, i: nat)
    requires |numbers| == |names|
  {
    forall j {:trigger Follows(names, deps, i, j)} :: 0 <= j < |names| && Follows(names, deps, i, j) ==> numbers[j] != -1
  }

  predicate NoneReady(names: seq<string>, deps: seq<Dependency>, numbers: seq<int>)
    requires |numbers| == |names|
  {
    forall i :: 0 <= i < |names| && numbers[i] == -1 ==> !IsReady(names, deps, numbers, i)
  }

  lemma NumberNext(names: seq<string>, deps: seq<Dependency>, numbers: seq<int>, order: seq<nat>, i: nat)
    requires IsPartial(names, deps, numbers, order) && i < |names| && numbers[i] == -1 && IsReady(names, deps, numbers, i)
    ensures IsPartial(names, deps, numbers[i := |order|], order + [i])
  {
    hide Follows;
    var more := numbers[i := |order|];
    assert i !in order;
    forall j | 0 <= j < |names| && numbers[j] != -1 ensures 0 <= numbers[j] < |order| && j != i {
      var v :| 0 <= v < |order| && order[v] == j;
    }
    assert forall j :: 0 <= j < |more| ==> j in order + [i] || more[j] == -1;
  }

  lemma FullIsNumbering(names: seq<string>, deps: seq<Dependency>, numbers: seq<int>, order: seq<nat>)
    requires IsPartial(names, deps, numbers, order) && |order| == |names|
    ensures IsNumbering(names, deps, numbers) && forall i :: 0 <= i < |names| ==> i in order
  {
    hide Follows;
    DistinctIsShort(order, |names|);
    forall i | 0 <= i < |names| ensures 0 <= numbers[i] < |names| && order[numbers[i]] == i {
      assert i in order;
      var v :| 0 <= v < |order| && order[v] == i;
    }
  }

  /** A pass that numbers nothing leaves stages that wait for each other in a circle. */
  lemma StuckIsCircle(names: seq<string>, deps: seq<Dependency>, numbers: seq<int>, order: seq<nat>)
    requires IsPartial(names, deps, numbers, order) && |order| < |names|
    requires NoneReady(names, deps, numbers)
    ensures HasCircle(names, deps)
  {
    hide Follows;
    var waiting := set i: nat | i < |names| && numbers[i] == -1;
    forall i | i in waiting ensures Waits(names, deps, waiting, i) {
      var j :| 0 <= j < |names| && Follows(names, deps, i, j) && numbers[j] == -1;
      assert j in waiting;
    }
    if waiting == {} {
      assert forall i: nat :: i < |names| ==> i !in waiting;
      assert UpTo(|names|) <= Members(order) by {
        forall i | i in UpTo(|names|) ensures i in Members(order) { assert i in order; }
      }
      DistinctMembers(order);
      SubsetSize(UpTo(|names|), Members(order));
    }
    WaitingMakesCircle(names, deps, waiting);
  }

  /** In a numbering the stage that a dependency names as its source comes after the one that it names as its target. */
  lemma TargetComesFirst(names: seq<string>, deps: seq<Dependency>, numbers: seq<int>, k: nat, i: nat, j: nat)
    requires IsNumbering(names, deps, numbers) && k < |deps| && i < |names| && j < |names|
    requires names[i] == deps[k].source && deps[k].source !in names[..i]
    requires names[j] == deps[k].target && deps[k].target !in names[..j]
    ensures numbers[j] < numbers[i]
  {
    PlaceOf(names, i);
    PlaceOf(names, j);
    assert Follows(names, deps, i, j);
  }

  lemma PlaceOf(names: seq<string>, i: nat)
    requires i < |names| && names[i] !in names[..i]
    ensures Place(names, names[i]) == i
  {
    forall p | 0 <= p < i ensures names[p] != names[i] { assert names[..i][p] == names[p]; }
  }

  // ------------------------------------------------------------ the passes

  /** A stage that is numbered in its pass has been numbered when stage `k` is looked at in pass `q`. */
  predicate Earlier(pass: seq<nat>, j: nat, q: int, k: nat)
    requires j < |pass|
  {
    pass[j] < q || (pass[j] == q && j < k)
  }

  /**
   * The pass in which each stage is numbered: the first one in which all that it comes after has been numbered when
   * it is looked at.
   */
  ghost predicate ArePasses(names: seq<string>, deps: seq<Dependency>, pass: seq<nat>)
  {
    && |pass| == |names|
    && (forall i, j {:trigger Follows(names, deps, i, j)} ::
          0 <= i < |names| && 0 <= j < |names| && Follows(names, deps, i, j) ==> Earlier(pass, j, pass[i], i))
    && forall i :: 0 <= i < |names| && pass[i] > 0 ==>
         exists j :: 0 <= j < |names| && Follows(names, deps, i, j) && !Earlier(pass, j, pass[i] - 1, i)
  }

  /** The numbers go up from pass to pass, and within a pass from place to place. */
  ghost predicate ByPasses(names: seq<string>, deps: seq<Dependency>, numbers: seq<int>)
  {
    exists pass: seq<nat> :: ArePasses(names, deps, pass) && NumbersGoUp(pass, numbers)
  }

  predicate NumbersGoUp(pass: seq<nat>, numbers: seq<int>)
  {
    |pass| == |numbers| && forall i, j :: 0 <= i < |pass| && 0 <= j < |pass| ==> (numbers[i] < numbers[j] <==> Earlier(pass, i, pass[j], j))
  }

  /** The passes are determined by the dependencies and the order of the declarations. */
  lemma PassesAreUnique(names: seq<string>, deps: seq<Dependency>, p: seq<nat>, q: seq<nat>)
    requires ArePasses(names, deps, p) && ArePasses(names, deps, q)
    ensures p == q
  {
    forall i | 0 <= i < |p| ensures p[i] == q[i] {
      NotLater(names, deps, p, q, i);
      NotLater(names, deps, q, p, i);
    }
  }

  lemma {:induction false} NotLater(names: seq<string>, deps: seq<Dependency>, p: seq<nat>, q: seq<nat>, i: nat)
    requires ArePasses(names, deps, p) && ArePasses(names, deps, q) && i < |names|
    ensures q[i] <= p[i]
    decreases p[i], i
  {
    hide Follows;
    if p[i] < q[i] {
      var j :| 0 <= j < |names| && Follows(names, deps, i, j) && !Earlier(q, j, q[i] - 1, i);
      assert Earlier(p, j, p[i], i);
      NotLater(names, deps, p, q, j);
    }
  }

  /** Stage `k` could not be numbered when it was looked at in pass `q`. */
  ghost predicate Blocked(names: seq<string>, deps: seq<Dependency>, pass: seq<nat>, order: seq<nat>, q: int, k: nat)
    requires |pass| == |names|
  {
    exists j :: 0 <= j < |names| && Follows(names, deps, k, j) && (j !in order || !Earlier(pass, j, q, k))
  }

  /** The stages in `order` have been numbered in their passes, before stage `i` is looked at in pass `p`. */
  ghost predicate Reached(names: seq<string>, deps: seq<Dependency>, pass: seq<nat>, order: seq<nat>, p: nat, i: nat)
  {
    && |pass| == |names| && Below(order, |names|)
    && InPasses(names, deps, pass, order, p, i) && WereBlocked(names, deps, pass, order) && AreBlocked(names, deps, pass, order, p, i)
  }

  ghost predicate InPasses(names: seq<string>, deps: seq<Dependency>, pass: seq<nat>, order: seq<nat>, p: nat, i: nat)
    requires |pass| == |names| && Below(order, |names|)
  {
    && (forall v, w :: 0 <= v < w < |order| ==> Earlier(pass, order[v], pass[order[w]], order[w]))
    && (forall k :: 0 <= k < |names| && k in order ==> Earlier(pass, k, p, i))
    && forall k, j {:trigger Follows(names, deps, k, j)} ::
         0 <= k < |names| && 0 <= j < |names| && k in order && Follows(names, deps, k, j) ==> j in order && Earlier(pass, j, pass[k], k)
  }

  ghost predicate WereBlocked(names: seq<string>, deps: seq<Dependency>, pass: seq<nat>, order: seq<nat>)
    requires |pass| == |names|
  {
    forall k :: 0 <= k < |names| && k in order && pass[k] > 0 ==> Blocked(names, deps, pass, order, pass[k] - 1, k)
  }

  ghost predicate AreBlocked(names: seq<string>, deps: seq<Dependency>, pass: seq<nat>, order: seq<nat>, p: nat, i: nat)
    requires |pass| == |names|
  {
    forall k :: 0 <= k < |names| && k !in order ==>
      (k < i ==> Blocked(names, deps, pass, order, p, k)) && (k >= i && p > 0 ==> Blocked(names, deps, pass, order, p - 1, k))
  }

  lemma ReachedStart(names: seq<string>, deps: seq<Dependency>)
    ensures Reached(names, deps, seq(|names|, _ => 0), [], 0, 0)
  {
  }

  lemma ReachedNextPass(names: seq<string>, deps: seq<Dependency>, pass: seq<nat>, order: seq<nat>, p: nat)
    requires Reached(names, deps, pass, order, p, |names|)
    ensures Reached(names, deps, pass, order, p + 1, 0)
  {
    hide Follows, Blocked;
  }

  /** A stage that has a number already, or is not ready, is passed over. */
  lemma ReachedOver(names: seq<string>, deps: seq<Dependency>, numbers: seq<int>, pass: seq<nat>, order: seq<nat>, p: nat, i: nat)
    requires Reached(names, deps, pass, order, p, i) && IsPartial(names, deps, numbers, order) && i < |names|
    requires numbers[i] != -1 || !IsReady(names, deps, numbers, i)
    ensures Reached(names, deps, pass, order, p, i + 1)
  {
    hide Follows, InPasses, WereBlocked, AreBlocked, Blocked;
    if numbers[i] != -1 {
      assert i in order;
    } else {
      NotReadyIsBlocked(names, deps, numbers, pass, order, p, i);
    }
    InPassesOver(names, deps, pass, order, p, i);
    AreBlockedOver(names, deps, pass, order, p, i);
  }

  lemma NotReadyIsBlocked(names: seq<string>, deps: seq<Dependency>, numbers: seq<int>, pass: seq<nat>, order: seq<nat>, p: nat, i: nat)
    requires |pass| == |names| && IsPartial(names, deps, numbers, order) && i < |names| && !IsReady(names, deps, numbers, i)
    ensures Blocked(names, deps, pass, order, p, i)
  {
    hide Follows;
    var j :| 0 <= j < |names| && Follows(names, deps, i, j) && numbers[j] == -1;
    assert j !in order;
  }

  lemma InPassesOver(names: seq<string>, deps: seq<Dependency>, pass: seq<nat>, order: seq<nat>, p: nat, i: nat)
    requires |pass| == |names| && Below(order, |names|) && InPasses(names, deps, pass, order, p, i)
    ensures InPasses(names, deps, pass, order, p, i + 1)
  {
    hide Follows;
  }

  lemma AreBlockedOver(names: seq<string>, deps: seq<Dependency>, pass: seq<nat>, order: seq<nat>, p: nat, i: nat)
    requires |pass| == |names| && i < |names| && AreBlocked(names, deps, pass, order, p, i)
    requires i in order || Blocked(names, deps, pass, order, p, i)
    ensures AreBlocked(names, deps, pass, order, p, i + 1)
  {
    hide Blocked;
  }

  /** A pass that numbers nothing finds no stage ready. */
  lemma NothingReached(names: seq<string>, deps: seq<Dependency>, numbers: seq<int>, pass: seq<nat>, order: seq<nat>, p: nat)
    requires Reached(names, deps, pass, order, p, 0) && Reached(names, deps, pass, order, p, |names|)
    requires IsPartial(names, deps, numbers, order)
    ensures NoneReady(names, deps, numbers)
  {
    hide Follows, WereBlocked;
    forall k | 0 <= k < |names| && numbers[k] == -1 ensures !IsReady(names, deps, numbers, k) {
      assert k !in order;
      assert Blocked(names, deps, pass, order, p, k);
      var j :| 0 <= j < |names| && Follows(names, deps, k, j) && (j !in order || !Earlier(pass, j, p, k));
      assert numbers[j] == -1;
    }
  }

  /** Stages that stand in order are numbered in a single pass, by their places. */
  lemma InOrderIsOnePass(names: seq<string>, deps: seq<Dependency>, pass: seq<nat>, order: seq<nat>, p: nat, i: nat)
    requires InOrder(names, deps) && Reached(names, deps, pass, order, p, i) && |order| == |names|
    requires forall k :: 0 <= k < |names| ==> k in order
    ensures order == FirstNumbers(|names|)
  {
    hide Follows, Blocked;
    forall k | 0 <= k < |names| ensures pass[k] == 0 { InFirstPass(names, deps, pass, order, k); }
    forall v | 0 <= v < |order| ensures order[v] == v {
      AtLeastPlace(order, v);
      AtMostPlace(order, v);
    }
  }

  lemma {:induction false} InFirstPass(names: seq<string>, deps: seq<Dependency>, pass: seq<nat>, order: seq<nat>, i: nat)
    requires InOrder(names, deps) && |pass| == |names| && WereBlocked(names, deps, pass, order) && i < |names|
    requires forall k :: 0 <= k < |names| ==> k in order
    ensures pass[i] == 0
  {
    hide Follows;
    if pass[i] > 0 {
      assert Blocked(names, deps, pass, order, pass[i] - 1, i);
      var j :| 0 <= j < |names| && Follows(names, deps, i, j) && !Earlier(pass, j, pass[i] - 1, i);
      InFirstPass(names, deps, pass, order, j);
    }
  }

  predicate Rising(s: seq<nat>) { forall v, w :: 0 <= v < w < |s| ==> s[v] < s[w] }

  lemma {:induction false} AtLeastPlace(s: seq<nat>, v: nat)
    requires Rising(s) && v < |s|
    ensures s[v] >= v
  {
    if v > 0 { AtLeastPlace(s, v - 1); }
  }

  lemma {:induction false} AtMostPlace(s: seq<nat>, v: nat)
    requires Rising(s) && Below(s, |s|) && v < |s|
    ensures s[v] <= v
    decreases |s| - v
  {
    if v + 1 < |s| { AtMostPlace(s, v + 1); }
  }

  lemma LengthOfPasses(names: seq<string>, deps: seq<Dependency>, pass: seq<nat>, order: seq<nat>, p: nat, i: nat)
    requires Reached(names, deps, pass, order, p, i)
    ensures |pass| == |names|
  {
  }

  /** A stage that is ready is numbered in this pass. */
  lemma ReachedBy(names: seq<string>, deps: seq<Dependency>, numbers: seq<int>, pass: seq<nat>, order: seq<nat>, p: nat, i: nat)
    requires Reached(names, deps, pass, order, p, i) && IsPartial(names, deps, numbers, order) && i < |names|
    requires numbers[i] == -1 && IsReady(names, deps, numbers, i)
    ensures Reached(names, deps, pass[i := p], order + [i], p, i + 1)
  {
    hide Follows, InPasses, WereBlocked, AreBlocked;
    assert i !in order;
    forall j | 0 <= j < |names| && Follows(names, deps, i, j) ensures j in order {
      assert numbers[j] != -1;
    }
    InPassesBy(names, deps, pass, order, p, i);
    assert forall k :: 0 <= k < |names| && k in order ==> pass[k] <= p by { NotBeyond(names, deps, pass, order, p, i); }
    WereBlockedBy(names, deps, pass, order, p, i);
    AreBlockedBy(names, deps, pass, order, p, i);
  }

  /** Stage `i` is next: it has no number, and all that it comes after has one. */
  predicate IsNext(names: seq<string>, deps: seq<Dependency>, order: seq<nat>, i: nat)
  {
    i < |names| && i !in order && forall j {:trigger Follows(names, deps, i, j)} ::
      0 <= j < |names| && Follows(names, deps, i, j) ==> j in order
  }

  lemma InPassesBy(names: seq<string>, deps: seq<Dependency>, pass: seq<nat>, order: seq<nat>, p: nat, i: nat)
    requires |pass| == |names| && Below(order, |names|) && IsNext(names, deps, order, i) && InPasses(names, deps, pass, order, p, i)
    ensures InPasses(names, deps, pass[i := p], order + [i], p, i + 1)
  {
    hide Follows;
    assert forall k :: k in order + [i] <==> k in order || k == i;
    assert forall v :: 0 <= v < |order| ==> order[v] in order;
  }

  lemma NotBeyond(names: seq<string>, deps: seq<Dependency>, pass: seq<nat>, order: seq<nat>, p: nat, i: nat)
    requires |pass| == |names| && Below(order, |names|) && InPasses(names, deps, pass, order, p, i)
    ensures forall k :: 0 <= k < |names| && k in order ==> pass[k] <= p
  {
  }

  lemma WereBlockedBy(names: seq<string>, deps: seq<Dependency>, pass: seq<nat>, order: seq<nat>, p: nat, i: nat)
    requires |pass| == |names| && IsNext(names, deps, order, i)
    requires WereBlocked(names, deps, pass, order) && AreBlocked(names, deps, pass, order, p, i)
    requires forall k :: 0 <= k < |names| && k in order ==> pass[k] <= p
    ensures WereBlocked(names, deps, pass[i := p], order + [i])
  {
    hide Follows, Blocked;
    assert forall k :: k in order + [i] <==> k in order || k == i;
    forall k, q | 0 <= k < |names| && q < p && Blocked(names, deps, pass, order, q, k)
      ensures Blocked(names, deps, pass[i := p], order + [i], q, k)
    {
      StaysBlocked(names, deps, pass, order, p, i, q, k);
    }
  }

  lemma AreBlockedBy(names: seq<string>, deps: seq<Dependency>, pass: seq<nat>, order: seq<nat>, p: nat, i: nat)
    requires |pass| == |names| && IsNext(names, deps, order, i) && AreBlocked(names, deps, pass, order, p, i)
    ensures AreBlocked(names, deps, pass[i := p], order + [i], p, i + 1)
  {
    hide Follows, Blocked;
    assert forall k :: k in order + [i] <==> k in order || k == i;
    forall k, q | 0 <= k < |names| && k != i && q == (if k < i then p else p - 1) && Blocked(names, deps, pass, order, q, k)
      ensures Blocked(names, deps, pass[i := p], order + [i], q, k)
    {
      StaysBlocked(names, deps, pass, order, p, i, q, k);
    }
  }

  /** What was not there when a stage was looked at is not made to have been there by a later number. */
  lemma StaysBlocked(names: seq<string>, deps: seq<Dependency>, pass: seq<nat>, order: seq<nat>, p: nat, i: nat, q: int, k: nat)
    requires |pass| == |names| && IsNext(names, deps, order, i) && k < |names|
    requires q < p || (q == p && k < i)
    requires Blocked(names, deps, pass, order, q, k)
    ensures Blocked(names, deps, pass[i := p], order + [i], q, k)
  {
    hide Follows;
    var pass' := pass[i := p];
    var j :| 0 <= j < |names| && Follows(names, deps, k, j) && (j !in order || !Earlier(pass, j, q, k));
    assert j !in order + [i] || !Earlier(pass', j, q, k);
  }

  /** When all stages are numbered, their numbers go by the passes. */
  lemma AllReached(names: seq<string>, deps: seq<Dependency>, numbers: seq<int>, pass: seq<nat>, order: seq<nat>, p: nat, i: nat)
    requires Reached(names, deps, pass, order, p, i) && IsPartial(names, deps, numbers, order)
    requires forall k :: 0 <= k < |names| ==> k in order
    ensures ByPasses(names, deps, numbers)
  {
    hide Follows, InPasses, WereBlocked, AreBlocked;
    PassesReached(names, deps, pass, order, p, i);
    NumbersReached(names, deps, numbers, pass, order, p, i);
    hide ArePasses, NumbersGoUp, IsPartial;
  }

  lemma PassesReached(names: seq<string>, deps: seq<Dependency>, pass: seq<nat>, order: seq<nat>, p: nat, i: nat)
    requires |pass| == |names| && Below(order, |names|)
    requires InPasses(names, deps, pass, order, p, i) && WereBlocked(names, deps, pass, order)
    requires forall k :: 0 <= k < |names| ==> k in order
    ensures ArePasses(names, deps, pass)
  {
    hide Follows;
    forall k | 0 <= k < |names| && pass[k] > 0
      ensures exists j :: 0 <= j < |names| && Follows(names, deps, k, j) && !Earlier(pass, j, pass[k] - 1, k)
    {
      assert Blocked(names, deps, pass, order, pass[k] - 1, k);
    }
  }

  lemma NumbersReached(names: seq<string>, deps: seq<Dependency>, numbers: seq<int>, pass: seq<nat>, order: seq<nat>, p: nat, i: nat)
    requires |pass| == |names| && Below(order, |names|) && InPasses(names, deps, pass, order, p, i)
    requires IsPartial(names, deps, numbers, order) && forall k :: 0 <= k < |names| ==> k in order
    ensures NumbersGoUp(pass, numbers)
  {
    hide Follows;
    forall k, j | 0 <= k < |names| && 0 <= j < |names| ensures numbers[k] < numbers[j] <==> Earlier(pass, k, pass[j], j) {
      assert k in order && j in order;
      var v :| 0 <= v < |order| && order[v] == k;
      var w :| 0 <= w < |order| && order[w] == j;
    }
  }

  lemma NothingNumbered(names: seq<string>, deps: seq<Dependency>, numbers: seq<int>)
    requires |numbers| == |names| && forall i :: 0 <= i < |numbers| ==> numbers[i] == -1
    ensures IsPartial(names, deps, numbers, [])
  {
    hide Follows;
  }

  lemma PartialIsShort(names: seq<string>, deps: seq<Dependency>, numbers: seq<int>, order: seq<nat>)
    requires IsPartial(names, deps, numbers, order)
    ensures |order| <= |names|
  {
    hide Follows;
    DistinctIsShort(order, |names|);
  }

  lemma NumberingHasNoCircle(names: seq<string>, deps: seq<Dependency>, numbers: seq<int>)
    requires IsNumbering(names, deps, numbers)
    ensures !HasCircle(names, deps)
  {
    NumberedHasNoCircle(names, deps, numbers);
  }

  lemma NumberingIsDistinct(names: seq<string>, deps: seq<Dependency>, numbers: seq<int>)
    requires IsNumbering(names, deps, numbers)
    ensures forall i :: 0 <= i < |numbers| ==> 0 <= numbers[i] < |numbers|
    ensures forall i, j :: 0 <= i < j < |numbers| ==> numbers[i] != numbers[j]
  {
  }

  /** With distinct names the sorted stages stand in order, so that numbering them again changes nothing. */
  lemma SortedIsInOrder(names: seq<string>, deps: seq<Dependency>, numbers: seq<int>, sorted: seq<string>)
    requires IsNumbering(names, deps, numbers) && AllKnown(names, deps) && |sorted| == |names|
    requires forall i :: 0 <= i < |names| ==> sorted[numbers[i]] == names[i]
    requires forall k, m :: 0 <= k < m < |names| ==> names[k] != names[m]
    ensures InOrder(sorted, deps)
  {
    hide Place;
    SortedIsDistinct(names, numbers, sorted);
    forall i, j | 0 <= i < |sorted| && 0 <= j < |sorted| && Follows(sorted, deps, i, j) ensures j < i {
      var k :| 0 <= k < |deps| && Place(sorted, deps[k].source) == i && Place(sorted, deps[k].target) == j;
      var a, b := Place(names, deps[k].source), Place(names, deps[k].target);
      assert Follows(names, deps, a, b);
      assert sorted[numbers[a]] == names[a] == sorted[i] && sorted[numbers[b]] == names[b] == sorted[j];
    }
  }

  lemma SortedIsDistinct(names: seq<string>, numbers: seq<int>, sorted: seq<string>)
    requires |numbers| == |sorted| == |names| && forall i :: 0 <= i < |numbers| ==> 0 <= numbers[i] < |numbers|
    requires forall i, j :: 0 <= i < j < |numbers| ==> numbers[i] != numbers[j]
    requires forall i :: 0 <= i < |names| ==> sorted[numbers[i]] == names[i]
    requires forall k, m :: 0 <= k < m < |names| ==> names[k] != names[m]
    ensures forall k, m :: 0 <= k < m < |sorted| ==> sorted[k] != sorted[m]
  {
    forall k, m | 0 <= k < m < |sorted| ensures sorted[k] != sorted[m] {
      var i := NumberIsUsed(numbers, k);
      var j := NumberIsUsed(numbers, m);
      assert sorted[k] == names[i] && sorted[m] == names[j];
    }
  }

  lemma NumberIsUsed(numbers: seq<int>, k: int) returns (i: nat)
    requires forall i :: 0 <= i < |numbers| ==> 0 <= numbers[i] < |numbers|
    requires forall i, j :: 0 <= i < j < |numbers| ==> numbers[i] != numbers[j]
    requires 0 <= k < |numbers|
    ensures i < |numbers| && numbers[i] == k
  {
    var nats: seq<nat> := seq(|numbers|, i requires 0 <= i < |numbers| => numbers[i]);
    DistinctIsShort(nats, |numbers|);
    assert k in nats;
    i :| 0 <= i < |nats| && nats[i] == k;
  }

  /** The places in the order of their numbers. */
  lemma Inverse(numbers: seq<int>) returns (order: seq<nat>)
    requires forall i :: 0 <= i < |numbers| ==> 0 <= numbers[i] < |numbers|
    requires forall i, j :: 0 <= i < j < |numbers| ==> numbers[i] != numbers[j]
    ensures |order| == |numbers| && forall v :: 0 <= v < |order| ==> order[v] < |numbers| && numbers[order[v]] == v
  {
    order := [];
    while |order| < |numbers|
      invariant |order| <= |numbers| && forall v :: 0 <= v < |order| ==> order[v] < |numbers| && numbers[order[v]] == v
    {
      var i := NumberIsUsed(numbers, |order|);
      order := order + [i];
    }
  }

  /** The dependencies and the order of the declarations determine all numbers. */
  lemma NumberingIsDetermined(names: seq<string>, deps: seq<Dependency>, numbers: seq<int>, others: seq<int>)
    requires IsNumbering(names, deps, numbers) && ByPasses(names, deps, numbers)
    requires IsNumbering(names, deps, others) && ByPasses(names, deps, others)
    ensures numbers == others
  {
    NumberingIsDistinct(names, deps, numbers);
    NumberingIsDistinct(names, deps, others);
    var p :| ArePasses(names, deps, p) && NumbersGoUp(p, numbers);
    var q :| ArePasses(names, deps, q) && NumbersGoUp(q, others);
    PassesAreUnique(names, deps, p, q);
    hide ArePasses, IsNumbering;
    SameOrderIsSame(p, numbers, others);
  }

  lemma SameOrderIsSame(pass: seq<nat>, numbers: seq<int>, others: seq<int>)
    requires NumbersGoUp(pass, numbers) && NumbersGoUp(pass, others)
    requires forall i :: 0 <= i < |numbers| ==> 0 <= numbers[i] < |numbers| && 0 <= others[i] < |numbers|
    requires forall i, j :: 0 <= i < j < |numbers| ==> numbers[i] != numbers[j]
    ensures numbers == others
  {
    var order := Inverse(numbers);
    var t: seq<nat> := seq(|order|, v requires 0 <= v < |order| => others[order[v]]);
    assert Rising(t) by {
      forall v, w | 0 <= v < w < |t| ensures t[v] < t[w] {
        assert numbers[order[v]] < numbers[order[w]];
      }
    }
    forall i | 0 <= i < |numbers| ensures others[i] == numbers[i] {
      var v := numbers[i];
      assert order[v] == i by { assert numbers[order[v]] == v; }
      AtLeastPlace(t, v);
      AtMostPlace(t, v);
    }
  }

  // ------------------------------------------------------------ the registry

  class Stage {
    const stageDecl: InitStage
    var number: int
    var precedingStages: seq<Stage>

    constructor (stageDecl: InitStage)
      ensures this.stageDecl == stageDecl && number == -1 && precedingStages == []
    {
      this.stageDecl, number, precedingStages := stageDecl, -1, [];
    }
  }

  function NamesOf(stages: seq<Stage>): (names: seq<string>)
    ensures |names| == |stages| && forall i :: 0 <= i < |stages| ==> names[i] == stages[i].stageDecl.name
  {
    seq(|stages|, i requires 0 <= i < |stages| => stages[i].stageDecl.name)
  }

  ghost function NumbersOf(stages: seq<Stage>): (numbers: seq<int>)
    reads stages`number
    ensures |numbers| == |stages| && forall i :: 0 <= i < |stages| ==> numbers[i] == stages[i].number
  {
    if stages == [] then [] else NumbersOf(stages[..|stages| - 1]) + [stages[|stages| - 1].number]
  }

  class InitStageRegistry {
    var stages: seq<Stage>
    var dependencies: seq<Dependency>
    /** The number of stages, or -1 as long as they are not numbered. */
    var numInitStages: int

    ghost predicate AreDistinct()
      reads `stages
    {
      forall i, j :: 0 <= i < j < |stages| ==> stages[i] != stages[j]
    }

    /** Some stages, or all of them, have been numbered; the numbers are the places if and only if all have been. */
    ghost predicate AreNumbered()
      reads `stages, `numInitStages, stages`number
    {
      && 0 <= numInitStages <= |stages| && (IsSorted(stages) <==> numInitStages == |stages|)
      && forall i :: 0 <= i < |stages| ==> -1 <= stages[i].number < numInitStages
    }

    ghost predicate Valid()
      reads `stages, `numInitStages, stages`number
    {
      AreDistinct() && (numInitStages == -1 || AreNumbered())
    }

    ghost function Names(): (names: seq<string>)
      reads `stages
      ensures |names| == |stages| && forall i :: 0 <= i < |stages| ==> names[i] == stages[i].stageDecl.name
    {
      NamesOf(stages)
    }

    ghost function Numbers(): (numbers: seq<int>)
      reads `stages, stages`number
      ensures |numbers| == |stages| && forall i :: 0 <= i < |stages| ==> numbers[i] == stages[i].number
    {
      NumbersOf(stages)
    }

    /** The lists of preceding stages say what the first `k` dependencies say. */
    ghost predicate Linked(k: nat)
      reads `stages, `dependencies, stages`precedingStages
      requires k <= |dependencies|
    {
      forall i, j :: 0 <= i < |stages| && 0 <= j < |stages| ==>
        (stages[j] in stages[i].precedingStages <==> Follows(Names(), dependencies[..k], i, j))
    }

    ghost predicate OnlyStages()
      reads `stages, stages`precedingStages
    {
      forall i, q :: 0 <= i < |stages| && q in stages[i].precedingStages ==> q in stages
    }

    constructor ()
      ensures Valid() && stages == [] && dependencies == [] && numInitStages == -1
    {
      stages, dependencies, numInitStages := [], [], -1;
    }

    method AddInitStage(initStage: InitStage)
      requires Valid()
      modifies this
      ensures Valid() && |stages| == |old(stages)| + 1 && stages[..|old(stages)|] == old(stages) && fresh(stages[|old(stages)|])
      ensures stages[|old(stages)|].stageDecl == initStage && numInitStages == -1 && dependencies == old(dependencies)
    {
      var stage := new Stage(initStage);
      stages := stages + [stage];
      numInitStages := -1;
    }

    method AddInitStageDependency(source: string, target: string)
      requires Valid()
      modifies this
      ensures Valid() && dependencies == old(dependencies) + [Dependency(source, target)] && numInitStages == -1 && stages == old(stages)
    {
      dependencies := dependencies + [Dependency(source, target)];
      numInitStages := -1;
    }

    method GetInitStage(name: string) returns (stage: Stage?)
      ensures Place(Names(), name) < |stages| ==> stage == stages[Place(Names(), name)]
      ensures stage == null <==> name !in Names()
    {
      var i := 0;
      while i < |stages|
        invariant i <= |stages| && Place(Names(), name) == i + Place(Names()[i..], name)
      {
        assert Names()[i..][0] == stages[i].stageDecl.name && Names()[i..][1..] == Names()[i + 1..];
        if stages[i].stageDecl.name == name {
          return stages[i];
        }
        i := i + 1;
      }
      return null;
    }

    method Reset()
      requires AreDistinct()
      modifies stages
      ensures forall i :: 0 <= i < |stages| ==> stages[i].number == -1 && stages[i].precedingStages == []
    {
      var i := 0;
      while i < |stages|
        invariant i <= |stages|
        invariant forall k :: 0 <= k < i ==> stages[k].number == -1 && stages[k].precedingStages == []
      {
        stages[i].number := -1;
        stages[i].precedingStages := [];
        i := i + 1;
      }
    }

    /** Takes one dependency into the lists of preceding stages. */
    method LinkDependency(k: nat) returns (unknown: Option<string>)
      requires AreDistinct() && k < |dependencies| && Linked(k) && OnlyStages()
      modifies stages`precedingStages
      ensures unknown.None? <==> dependencies[k].source in Names() && dependencies[k].target in Names()
      ensures unknown.Some? ==> IsUnknownIn(unknown.value, Names(), dependencies[k])
      ensures unknown.None? ==> Linked(k + 1) && OnlyStages()
    {
      hide Follows, Place;
      var dependency := dependencies[k];
      var following := GetInitStage(dependency.source);
      if following == null {
        return Some(dependency.source);
      }
      var preceding := GetInitStage(dependency.target);
      if preceding == null {
        return Some(dependency.target);
      }
      ghost var names := Names();
      ghost var a, b := Place(names, dependency.source), Place(names, dependency.target);
      assert a < |names| && b < |names|;
      OneMoreDependency(names, dependencies, k);
      following.precedingStages := following.precedingStages + [preceding];
      assert Names() == names;
      forall i, j | 0 <= i < |stages| && 0 <= j < |stages|
        ensures stages[j] in stages[i].precedingStages <==> Follows(names, dependencies[..k + 1], i, j)
      {
        assert stages[i] == following <==> i == a;
        assert stages[j] == preceding <==> j == b;
      }
      return None;
    }

    /** Forgets all numbers and fills in the lists of preceding stages. */
    method Link() returns (unknown: Option<string>)
      requires AreDistinct()
      modifies stages
      ensures unknown.None? <==> AllKnown(Names(), dependencies)
      ensures unknown.Some? ==> IsFirstUnknown(unknown.value, Names(), dependencies)
      ensures unknown.None? ==> Linked(|dependencies|) && OnlyStages()
      ensures forall i :: 0 <= i < |stages| ==> stages[i].number == -1
    {
      hide Follows, Place, AllKnown;
      Reset();
      NothingFollows(Names());
      var k := 0;
      while k < |dependencies|
        invariant k <= |dependencies| && Linked(k) && OnlyStages() && AllKnown(Names(), dependencies[..k])
        invariant forall i :: 0 <= i < |stages| ==> stages[i].number == -1
      {
        KnownNext(Names(), dependencies, k);
        unknown := LinkDependency(k);
        if unknown.Some? {
          return;
        }
        k := k + 1;
      }
      assert dependencies[..|dependencies|] == dependencies;
      return None;
    }

    ghost predicate Partial(order: seq<nat>)
      reads this, stages`number
    {
      IsPartial(Names(), dependencies, Numbers(), order) && numInitStages == |order|
    }

    /** Whether all preceding stages have a number. */
    method Ready(i: nat) returns (ready: bool)
      requires AreDistinct() && i < |stages| && Linked(|dependencies|) && OnlyStages()
      ensures ready <==> IsReady(Names(), dependencies, Numbers(), i)
    {
      hide Follows;
      assert dependencies[..|dependencies|] == dependencies;
      var preceding := stages[i].precedingStages;
      var k := 0;
      while k < |preceding|
        invariant k <= |preceding| && forall m :: 0 <= m < k ==> preceding[m].number != -1
      {
        if preceding[k].number == -1 {
          assert preceding[k] in stages[i].precedingStages && preceding[k] in stages;
          ghost var j :| 0 <= j < |stages| && stages[j] == preceding[k];
          assert Follows(Names(), dependencies, i, j) && Numbers()[j] == -1;
          return false;
        }
        k := k + 1;
      }
      return true;
    }

    /** Gives the next number to a stage that has none, if all its preceding stages have one. */
    method NumberStage(i: nat, ghost order: seq<nat>, ghost pass: seq<nat>, ghost p: nat)
      returns (progress: bool, ghost next: seq<nat>, ghost passes: seq<nat>)
      requires AreDistinct() && i < |stages| && Linked(|dependencies|) && OnlyStages() && Partial(order)
      requires Reached(Names(), dependencies, pass, order, p, i)
      modifies this`numInitStages, stages`number
      ensures Partial(next) && next == if progress then order + [i] else order
      ensures Reached(Names(), dependencies, passes, next, p, i + 1)
      ensures !progress ==> passes == pass
    {
      hide Follows, IsReady, Linked, OnlyStages, Reached;
      ghost var numbers := Numbers();
      if stages[i].number != -1 {
        ReachedOver(Names(), dependencies, numbers, pass, order, p, i);
        return false, order, pass;
      }
      var ready := Ready(i);
      if !ready {
        ReachedOver(Names(), dependencies, numbers, pass, order, p, i);
        return false, order, pass;
      }
      ReachedBy(Names(), dependencies, numbers, pass, order, p, i);
      NumberNext(Names(), dependencies, numbers, order, i);
      LengthOfPasses(Names(), dependencies, pass, order, p, i);
      hide IsPartial;
      stages[i].number := numInitStages;
      numInitStages := numInitStages + 1;
      assert Numbers() == numbers[i := |order|];
      return true, order + [i], pass[i := p];
    }

    /** One pass over the stages. */
    method Pass(ghost order: seq<nat>, ghost pass: seq<nat>, ghost p: nat)
      returns (progress: bool, ghost next: seq<nat>, ghost passes: seq<nat>)
      requires AreDistinct() && Linked(|dependencies|) && OnlyStages() && Partial(order)
      requires Reached(Names(), dependencies, pass, order, p, 0)
      modifies this`numInitStages, stages`number
      ensures Reached(Names(), dependencies, passes, next, p + 1, 0)
      ensures Partial(next) && |next| >= |order| && (progress <==> |next| > |order|)
      ensures !progress ==> NoneReady(Names(), dependencies, Numbers())
    {
      hide Follows, IsPartial, IsReady, Linked, OnlyStages, NoneReady, AreDistinct, Reached, Names, Numbers, NamesOf, NumbersOf;
      progress, next, passes := false, order, pass;
      var i := 0;
      while i < |stages|
        invariant i <= |stages| && Partial(next) && |next| >= |order| && (progress <==> |next| > |order|)
        invariant Reached(Names(), dependencies, passes, next, p, i) && (!progress ==> next == order && passes == pass)
      {
        var numbered;
        numbered, next, passes := NumberStage(i, next, passes, p);
        if numbered {
          progress := true;
        }
        i := i + 1;
      }
      if !progress {
        NothingReached(Names(), dependencies, Numbers(), passes, next, p);
      }
      ReachedNextPass(Names(), dependencies, passes, next, p);
    }

    /** Pass after pass, until all stages are numbered or a pass numbers none. */
    method NumberStages() returns (ok: bool, ghost order: seq<nat>)
      requires AreDistinct() && Linked(|dependencies|) && OnlyStages() && Partial([])
      modifies this`numInitStages, stages`number
      ensures ok <==> !HasCircle(Names(), dependencies)
      ensures if ok then numInitStages == |stages| else 0 <= numInitStages < |stages|
      ensures Partial(order) && (ok ==> IsNumbering(Names(), dependencies, Numbers()) && ByPasses(Names(), dependencies, Numbers()))
      ensures ok && InOrder(Names(), dependencies) ==> order == FirstNumbers(|stages|)
    {
      hide Follows, IsPartial, IsReady, InOrder, Linked, OnlyStages, IsNumbering, HasCircle, Reached, ByPasses;
      order := [];
      ghost var passes: seq<nat>, p := seq(|stages|, _ => 0), 0;
      ReachedStart(Names(), dependencies);
      while numInitStages < |stages|
        invariant Partial(order) && |order| <= |stages| && Reached(Names(), dependencies, passes, order, p, 0)
        decreases |stages| - numInitStages
      {
        var progress;
        progress, order, passes := Pass(order, passes, p);
        p := p + 1;
        PartialIsShort(Names(), dependencies, Numbers(), order);
        if !progress {
          StuckIsCircle(Names(), dependencies, Numbers(), order);
          return false, order;
        }
      }
      FullIsNumbering(Names(), dependencies, Numbers(), order);
      AllReached(Names(), dependencies, Numbers(), passes, order, p, 0);
      if InOrder(Names(), dependencies) {
        InOrderIsOnePass(Names(), dependencies, passes, order, p, 0);
      }
      NumberingHasNoCircle(Names(), dependencies, Numbers());
      return true, order;
    }

    /** Numbers all stages and sorts them by number; or finds out that it cannot be done. */
    method AssignInitStageNumbers() returns (r: Result<()>)
      requires Valid() && numInitStages == -1
      modifies this`numInitStages, this`stages, stages
      ensures Valid() && dependencies == old(dependencies) && SameStages(old(stages), stages)
      ensures Assigns(r, old(Names()), dependencies)
      ensures r.UnknownStage? ==> numInitStages == -1
      ensures r.Circle? ==> 0 <= numInitStages < |stages|
      ensures !r.Ok? ==> stages == old(stages)
      ensures r.Ok? ==> numInitStages == |stages| && IsNumbering(old(Names()), dependencies, NumbersOf(old(stages)))
      ensures r.Ok? ==> ArePlaced(old(stages), stages) && ByPasses(old(Names()), dependencies, NumbersOf(old(stages)))
      ensures r.Ok? && InOrder(old(Names()), dependencies) ==> stages == old(stages)
    {
      hide Follows, IsPartial, InOrder, Linked, OnlyStages, IsNumbering, Place, HasCircle, ArePlaced, IsSorted, AllKnown, AreDistinct, AreNumbered, SameStages, ByPasses;
      ghost var was, names := stages, Names();
      SameAsItself(stages);
      var unknown := Link();
      if unknown.Some? {
        return UnknownStage(unknown.value);
      }
      var ok;
      ghost var order;
      ok, order := NumberFromZero();
      if !ok {
        return Circle;
      }
      assert IsNumbering(names, dependencies, NumbersOf(was)) && ByPasses(names, dependencies, NumbersOf(was));
      SortStages(order);
      Complete();
      return Ok(());
    }

    /** The linked stages get their numbers. */
    method NumberFromZero() returns (ok: bool, ghost order: seq<nat>)
      requires AreDistinct() && Linked(|dependencies|) && OnlyStages()
      requires forall i :: 0 <= i < |stages| ==> stages[i].number == -1
      modifies this`numInitStages, stages`number
      ensures ok <==> !HasCircle(Names(), dependencies)
      ensures Partial(order) && (ok ==> numInitStages == |stages| && IsNumbering(Names(), dependencies, Numbers()))
      ensures ok ==> ByPasses(Names(), dependencies, Numbers())
      ensures !ok ==> AreNumbered() && numInitStages < |stages|
      ensures ok && InOrder(Names(), dependencies) ==> order == FirstNumbers(|stages|)
    {
      hide Follows, IsPartial, InOrder, Linked, OnlyStages, IsNumbering, HasCircle, AreDistinct, AreNumbered, ByPasses;
      numInitStages := 0;
      NothingNumbered(Names(), dependencies, Numbers());
      ok, order := NumberStages();
      PartialNumbers(Names(), dependencies, Numbers(), order);
      if !ok {
        Incomplete();
      }
    }

    lemma Incomplete()
      requires 0 <= numInitStages < |stages| && exists i :: 0 <= i < |stages| && Numbers()[i] == -1
      requires forall i :: 0 <= i < |stages| ==> -1 <= Numbers()[i] < numInitStages
      ensures AreNumbered()
    {
    }

    lemma Complete()
      requires numInitStages == |stages| && IsSorted(stages)
      ensures AreNumbered()
    {
    }

    /** `std::sort` over the stages. */
    method SortStages(ghost order: seq<nat>)
      requires AreDistinct() && Partial(order) && IsNumbering(Names(), dependencies, Numbers())
      modifies this`stages
      ensures AreDistinct() && |stages| == |old(stages)| && IsSorted(stages)
      ensures SameStages(old(stages), stages) && ArePlaced(old(stages), stages)
      ensures order == FirstNumbers(|old(stages)|) ==> stages == old(stages)
    {
      hide Follows, IsPartial, ArePlaced, IsSorted, SortedByNumber, IsNumbering;
      NumberingIsDistinct(Names(), dependencies, Numbers());
      ghost var numbers := Numbers();
      assert forall i :: 0 <= i < |stages| ==> numbers[i] == stages[i].number;
      var sorted := Sort(stages);
      SortedPlaces(stages, sorted);
      SameMembers(stages, sorted);
      if order == FirstNumbers(|stages|) {
        StayInPlace(Names(), dependencies, numbers);
        StaySorted(stages, sorted);
      }
      stages := sorted;
    }

    /**
     * Numbers the stages if that has not been done.  After a circle has been found the count is no longer -1:
     * the next call takes the incomplete numbering for a complete one.
     */
    method EnsureInitStageNumbersAssigned() returns (r: Result<()>)
      requires Valid()
      modifies this`numInitStages, this`stages, stages
      ensures Valid() && dependencies == old(dependencies) && SameStages(old(stages), stages)
      ensures old(numInitStages) != -1 ==>
        r.Ok? && stages == old(stages) && numInitStages == old(numInitStages) && Numbers() == old(Numbers())
      ensures old(numInitStages) == -1 ==> Assigns(r, old(Names()), dependencies)
      ensures r.UnknownStage? ==> numInitStages == -1 && stages == old(stages)
      ensures r.Circle? ==> 0 <= numInitStages < |stages| && stages == old(stages)
      ensures old(numInitStages) == -1 && r.Ok? ==>
        && numInitStages == |stages| && IsNumbering(old(Names()), dependencies, NumbersOf(old(stages)))
        && ArePlaced(old(stages), stages) && ByPasses(old(Names()), dependencies, NumbersOf(old(stages)))
        && (InOrder(old(Names()), dependencies) ==> stages == old(stages))
    {
      hide HasCircle, AllKnown, IsNumbering, ByPasses, InOrder, ArePlaced, AreDistinct, AreNumbered;
      if numInitStages == -1 {
        r := AssignInitStageNumbers();
      } else {
        r := Ok(());
      }
    }

    method GetNumInitStages() returns (r: Result<int>)
      requires Valid()
      modifies this`numInitStages, this`stages, stages
      ensures Valid() && dependencies == old(dependencies) && SameStages(old(stages), stages)
      ensures old(numInitStages) != -1 ==> r == Ok(old(numInitStages)) && numInitStages == old(numInitStages) && Numbers() == old(Numbers())
      ensures old(numInitStages) == -1 ==> Assigns(r, old(Names()), dependencies)
      ensures r.Ok? && old(numInitStages) == -1 ==> r.value == numInitStages == |stages|
      ensures r.Circle? ==> 0 <= numInitStages < |stages|
    {
      hide HasCircle, AllKnown, IsNumbering, ByPasses, InOrder, ArePlaced, AreDistinct, AreNumbered;
      var assignment := EnsureInitStageNumbersAssigned();
      match assignment {
        case Ok(_) => return Ok(numInitStages);
        case UnknownStage(name) => return UnknownStage(name);
        case Circle => return Circle;
        case UnknownDeclaration => return UnknownDeclaration;
      }
    }

    /** The number of a stage: its place, provided that all stages are numbered. */
    method GetNumber(initStage: InitStage) returns (r: Result<int>)
      requires Valid()
      modifies this`numInitStages, this`stages, stages
      ensures Valid() && dependencies == old(dependencies) && SameStages(old(stages), stages)
      ensures old(numInitStages) != -1 ==>
        stages == old(stages) && numInitStages == old(numInitStages) && Numbers() == old(Numbers()) && !r.UnknownStage? && !r.Circle?
      ensures old(numInitStages) == -1 ==>
        && (r.UnknownStage? <==> !AllKnown(old(Names()), dependencies))
        && (r.Circle? <==> AllKnown(old(Names()), dependencies) && HasCircle(old(Names()), dependencies))
      ensures old(numInitStages) == -1 && !r.UnknownStage? && !r.Circle? ==> numInitStages == |stages|
      ensures r.Circle? ==> 0 <= numInitStages < |stages|
      ensures !r.UnknownStage? && !r.Circle? ==>
        r == var i := DeclPlace(stages, initStage); if i == |stages| then UnknownDeclaration else Ok(stages[i].number)
      ensures numInitStages == |stages| && r.Ok? ==> r.value == DeclPlace(stages, initStage)
    {
      hide HasCircle, AllKnown, IsNumbering, InOrder, ArePlaced, AreDistinct, SameStages;
      var assignment := EnsureInitStageNumbersAssigned();
      if assignment.UnknownStage? {
        return UnknownStage(assignment.name);
      }
      if assignment.Circle? {
        return Circle;
      }
      var i := FindDeclaration(initStage);
      if i == |stages| {
        return UnknownDeclaration;
      }
      return Ok(stages[i].number);
    }

    method FindDeclaration(initStage: InitStage) returns (i: nat)
      ensures i == DeclPlace(stages, initStage)
    {
      i := 0;
      while i < |stages| && stages[i].stageDecl != initStage
        invariant i <= |stages| && DeclPlace(stages, initStage) == i + DeclPlace(stages[i..], initStage)
      {
        assert stages[i..][1..] == stages[i + 1..];
        i := i + 1;
      }
    }
  }

  /** What a numbering comes to: the graph alone decides it. */
  ghost predicate Assigns<T>(r: Result<T>, names: seq<string>, deps: seq<Dependency>)
  {
    && (r.Ok? <==> AllKnown(names, deps) && !HasCircle(names, deps))
    && (r.UnknownStage? <==> !AllKnown(names, deps)) && (r.UnknownStage? ==> IsFirstUnknown(r.name, names, deps))
    && !r.UnknownDeclaration?
  }

  /** The stages are the same, possibly in another order. */
  ghost predicate SameStages(s: seq<Stage>, t: seq<Stage>)
  {
    |s| == |t| && multiset(s) == multiset(t) && (forall x | x in s :: x in t) && (forall x | x in t :: x in s)
  }

  /** The place of the first stage with a declaration. */
  function DeclPlace(stages: seq<Stage>, d: InitStage): (i: nat)
    ensures i <= |stages| && (i < |stages| ==> stages[i].stageDecl == d) && forall j :: 0 <= j < i ==> stages[j].stageDecl != d
  {
    if stages == [] || stages[0].stageDecl == d then 0 else 1 + DeclPlace(stages[1..], d)
  }

  /** In a partial numbering some stage has no number. */
  lemma PartialNumbers(names: seq<string>, deps: seq<Dependency>, numbers: seq<int>, order: seq<nat>)
    requires IsPartial(names, deps, numbers, order)
    ensures forall i :: 0 <= i < |numbers| ==> -1 <= numbers[i] < |order|
    ensures |order| < |names| ==> exists i :: 0 <= i < |numbers| && numbers[i] == -1
  {
    hide Follows;
    forall i | 0 <= i < |numbers| ensures -1 <= numbers[i] < |order| {
      if numbers[i] != -1 {
        var v :| 0 <= v < |order| && order[v] == i;
      }
    }
    if forall i :: 0 <= i < |numbers| ==> numbers[i] != -1 {
      assert UpTo(|names|) <= Members(order) by {
        forall i | i in UpTo(|names|) ensures i in Members(order) { assert i in order; }
      }
      DistinctMembers(order);
      SubsetSize(UpTo(|names|), Members(order));
    }
  }

  lemma SameAsItself(s: seq<Stage>)
    ensures SameStages(s, s)
  {
  }

  /** A stage that comes after itself: the first question for its number finds the circle, the next one gets -1. */
  method CircleIsForgotten() returns (first: Result<int>, second: Result<int>)
    ensures first == Circle && second == Ok(-1)
  {
    hide HasCircle, AllKnown, Assigns;
    var stage := InitStage(0, "a");
    var registry := AfterItself(stage);
    ghost var only := registry.stages[0];
    first := registry.GetNumber(stage);
    assert registry.stages[0] in registry.stages;
    assert registry.stages[0] == only;
    second := registry.GetNumber(stage);
  }

  method AfterItself(stage: InitStage) returns (registry: InitStageRegistry)
    ensures fresh(registry) && registry.Valid() && registry.numInitStages == -1
    ensures |registry.stages| == 1 && registry.stages[0].stageDecl == stage && fresh(registry.stages[0])
    ensures AllKnown(registry.Names(), registry.dependencies) && HasCircle(registry.Names(), registry.dependencies)
  {
    registry := new InitStageRegistry();
    registry.AddInitStage(stage);
    registry.AddInitStageDependency(stage.name, stage.name);
    OneCircle(registry.Names(), registry.dependencies);
  }

  lemma OneCircle(names: seq<string>, deps: seq<Dependency>)
    requires |names| == 1 && deps == [Dependency(names[0], names[0])]
    ensures AllKnown(names, deps) && HasCircle(names, deps)
  {
    assert Follows(names, deps, 0, 0) by { assert deps[0].source == names[0]; }
    assert IsCircle(names, deps, [0]);
  }

  /** The stages stand at the places of their numbers. */
  ghost predicate IsSorted(s: seq<Stage>)
    reads s`number
  {
    forall k :: 0 <= k < |s| ==> s[k].number == k
  }

  ghost predicate ArePlaced(s: seq<Stage>, t: seq<Stage>)
    reads s`number
  {
    |t| == |s| && forall i :: 0 <= i < |s| ==> 0 <= s[i].number < |t| && t[s[i].number] == s[i]
  }

  lemma StayInPlace(names: seq<string>, deps: seq<Dependency>, numbers: seq<int>)
    requires IsPartial(names, deps, numbers, FirstNumbers(|names|))
    ensures forall i :: 0 <= i < |numbers| ==> numbers[i] == i
  {
    hide Follows;
    forall i | 0 <= i < |numbers| ensures numbers[i] == i { assert FirstNumbers(|names|)[i] == i; }
  }

  lemma StaySorted(s: seq<Stage>, t: seq<Stage>)
    requires ArePlaced(s, t) && forall i :: 0 <= i < |s| ==> s[i].number == i
    ensures t == s
  {
    forall i | 0 <= i < |s| ensures t[i] == s[i] { assert s[i].number == i; }
  }

  ghost predicate SortedByNumber(s: seq<Stage>)
    reads s`number
  {
    forall i, j :: 0 <= i < j < |s| ==> s[i].number <= s[j].number
  }

  /** The library's sort, by number. */
  method Sort(s: seq<Stage>) returns (t: seq<Stage>)
    ensures multiset(t) == multiset(s) && SortedByNumber(t)
  {
    hide SortedByNumber;
    t := [];
    SortedNothing();
    var i := 0;
    while i < |s|
      invariant i <= |s| && multiset(t) == multiset(s[..i]) && SortedByNumber(t)
    {
      t := Insert(t, s[i]);
      assert s[..i + 1] == s[..i] + [s[i]];
      i := i + 1;
    }
    assert s[..i] == s;
  }

  lemma SortedNothing()
    ensures SortedByNumber([])
  {
  }

  method Insert(t: seq<Stage>, x: Stage) returns (r: seq<Stage>)
    requires SortedByNumber(t)
    ensures multiset(r) == multiset(t) + multiset{x} && SortedByNumber(r)
  {
    hide SortedByNumber;
    var k := |t|;
    while k > 0 && t[k - 1].number > x.number
      invariant 0 <= k <= |t| && forall j :: k <= j < |t| ==> t[j].number > x.number
    {
      k := k - 1;
    }
    InsertedIsSorted(t, k, x);
    InsertedMembers(t, k, x);
    r := t[..k] + [x] + t[k..];
  }

  ghost predicate FitsAt(t: seq<Stage>, k: nat, x: Stage)
    reads t`number, x`number
    requires k <= |t|
  {
    (k > 0 ==> t[k - 1].number <= x.number) && forall j :: k <= j < |t| ==> x.number <= t[j].number
  }

  lemma InsertedIsSorted(t: seq<Stage>, k: nat, x: Stage)
    requires k <= |t| && SortedByNumber(t) && FitsAt(t, k, x)
    ensures SortedByNumber(t[..k] + [x] + t[k..])
  {
    var r := t[..k] + [x] + t[k..];
    forall i, j | 0 <= i < j < |r| ensures r[i].number <= r[j].number {
      var a, b := if i <= k then i else i - 1, if j <= k then j else j - 1;
      assert r[i] == if i == k then x else t[a];
      assert r[j] == if j == k then x else t[b];
      if i < k {
        assert t[i].number <= t[k - 1].number;
      }
    }
  }

  lemma InsertedMembers(t: seq<Stage>, k: nat, x: Stage)
    requires k <= |t|
    ensures multiset(t[..k] + [x] + t[k..]) == multiset(t) + multiset{x}
  {
    assert t == t[..k] + t[k..];
  }

  /** Stages with the numbers 0, 1, ... stand at the places of their numbers once they are sorted. */
  lemma SortedPlaces(s: seq<Stage>, t: seq<Stage>)
    requires forall i, j :: 0 <= i < j < |s| ==> s[i] != s[j] && s[i].number != s[j].number
    requires forall i :: 0 <= i < |s| ==> 0 <= s[i].number < |s|
    requires multiset(t) == multiset(s) && SortedByNumber(t)
    ensures |t| == |s| && ArePlaced(s, t) && IsSorted(t)
    ensures forall i, j :: 0 <= i < j < |t| ==> t[i] != t[j]
  {
    SameMembers(s, t);
    SameSize(s, t);
    forall i, j | 0 <= i < j < |t| ensures t[i] != t[j] && t[i].number < t[j].number {
      TwiceIsTwice(s, t, i, j);
    }
    forall i | 0 <= i < |t| ensures 0 <= t[i].number < |s| { assert t[i] in t; }
    var n := |t|;
    var k := 0;
    while k < n
      invariant 0 <= k <= n && forall i :: 0 <= i < k ==> t[i].number >= i
    {
      if k > 0 { assert t[k - 1].number < t[k].number; }
      k := k + 1;
    }
    while k > 0
      invariant 0 <= k <= n && forall i :: k <= i < n ==> t[i].number <= i
    {
      if k < n { assert t[k - 1].number < t[k].number; }
      k := k - 1;
    }
    forall i | 0 <= i < |s| ensures t[s[i].number] == s[i] {
      assert s[i] in t;
    }
  }

  lemma SameSize(s: seq<Stage>, t: seq<Stage>)
    requires multiset(t) == multiset(s)
    ensures |t| == |s|
  {
    assert |multiset(t)| == |t| && |multiset(s)| == |s|;
  }

  lemma SameMembers(s: seq<Stage>, t: seq<Stage>)
    requires multiset(t) == multiset(s)
    ensures forall x :: x in s <==> x in t
  {
    assert forall x :: x in s <==> x in multiset(s);
    assert forall x :: x in t <==> x in multiset(t);
  }

  lemma TwiceIsTwice(s: seq<Stage>, t: seq<Stage>, i: nat, j: nat)
    requires forall a, b :: 0 <= a < b < |s| ==> s[a] != s[b] && s[a].number != s[b].number
    requires multiset(t) == multiset(s) && i < j < |t|
    ensures t[i] != t[j] && t[i].number != t[j].number
  {
    SameMembers(s, t);
    var x := t[i];
    assert t == t[..i] + [x] + t[i + 1..j] + [t[j]] + t[j + 1..];
    assert multiset(t)[x] >= if t[j] == x then 2 else 1;
    OnlyOnce(s, x);
    assert x in s && t[j] in s;
  }

  lemma {:induction false} OnlyOnce(s: seq<Stage>, x: Stage)
    requires forall a, b :: 0 <= a < b < |s| ==> s[a] != s[b]
    ensures multiset(s)[x] <= 1
  {
    if s != [] {
      var r := s[..|s| - 1];
      OnlyOnce(r, x);
      assert s == r + [s[|s| - 1]];
    }
  }

  /** The numbers below `n` in their order. */
  ghost function FirstNumbers(n: nat): (s: seq<nat>)
    ensures |s| == n && forall k :: 0 <= k < n ==> s[k] == k
  {
    seq(n, k => k)
  }

  lemma KnownNext(names: seq<string>, deps: seq<Dependency>, k: nat)
    requires k < |deps|
    ensures AllKnown(names, deps[..k + 1]) <==> AllKnown(names, deps[..k]) && deps[k].source in names && deps[k].target in names
    ensures AllKnown(names, deps) ==> deps[k].source in names && deps[k].target in names
  {
    assert deps[..k + 1] == deps[..k] + [deps[k]];
  }

  lemma NothingFollows(names: seq<string>)
    ensures AllKnown(names, [])
    ensures forall i, j :: !Follows(names, [], i, j)
  {
  }

  lemma OneMoreDependency(names: seq<string>, deps: seq<Dependency>, k: nat)
    requires k < |deps|
    ensures forall i, j :: Follows(names, deps[..k + 1], i, j) <==>
      Follows(names, deps[..k], i, j) || (Place(names, deps[k].source) == i && Place(names, deps[k].target) == j)
  {
    var less, more := deps[..k], deps[..k + 1];
    forall i, j ensures Follows(names, more, i, j) <==>
      Follows(names, less, i, j) || (Place(names, deps[k].source) == i && Place(names, deps[k].target) == j)
    {
      assert more[k] == deps[k];
      assert forall m :: 0 <= m < k ==> more[m] == less[m];
    }
  }
}
