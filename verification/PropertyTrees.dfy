/**
 What player properties do to their flags, on values: a property is a leaf bound to one variable
 or a composite of the properties registered under one name.  `Group` objects stand for the shared
 flag of several properties that are applied by one function.
 */
module PropertyTrees {

  /** A flag shared by properties, and how often their common apply function has been called. */
  class Group {
    var applied: bool
    var calls: nat

    constructor ()
      ensures !applied && calls == 0
    {
      applied, calls := false, 0;
    }
  }

  /** What applying a leaf runs: nothing, a function of its own, or the function of its group. */
  datatype Hook = Nothing | Own(name: int) | Shared(group: Group)

  /** A leaf is bound to a variable of the player, which others may be bound to as well. */
  datatype Tree =
    | Leaf(variable: int, changed: bool, check: int -> bool, hook: Hook, refresh: bool)
    | Node(members: seq<Tree>, changed: bool)

  /** How an assignment ends: with an exception, returning false, or returning true. */
  datatype Outcome = Refused | Same | Taken

  /** What the variables hold. */
  type Store = map<int, int>

  function Read(s: Store, x: int): int {
    if x in s then s[x] else 0
  }

  // ----- Assignment

  predicate Takes(leaf: Tree, s: Store, v: int)
    requires leaf.Leaf?
  {
    leaf.check(v) && Read(s, leaf.variable) != v
  }

  datatype Assigned = Assigned(tree: Tree, store: Store, outcome: Outcome)
  datatype AssignedAll = AssignedAll(trees: seq<Tree>, store: Store, outcome: Outcome, marked: bool)

  function Assign(t: Tree, s: Store, v: int): Assigned {
    match t
    case Leaf(variable, changed, check, hook, refresh) =>
      if !check(v) then Assigned(t, s, Refused)
      else if Read(s, variable) == v then Assigned(t, s, Same)
      else Assigned(Leaf(variable, true, check, hook, refresh), s[variable := v], Taken)
    case Node(members, changed) =>
      var all := AssignAll(members, s, v);
      Assigned(Node(all.trees, changed || all.marked), all.store, all.outcome)
  }

  /** The members in turn, until one does not take the value; whether the composite gets marked. */
  function AssignAll(ts: seq<Tree>, s: Store, v: int): (r: AssignedAll)
    ensures |r.trees| == |ts|
  {
    if ts == [] then AssignedAll([], s, Taken, false)
    else
      var first := Assign(ts[0], s, v);
      if first.outcome != Taken then AssignedAll([first.tree] + ts[1..], first.store, first.outcome, false)
      else
        var rest := AssignAll(ts[1..], first.store, v);
        AssignedAll([first.tree] + rest.trees, rest.store, rest.outcome, first.tree.changed || rest.marked)
  }

  /** The groups whose flag an assignment clears. */
  ghost function Touched(t: Tree, s: Store, v: int): set<Group> {
    match t
    case Leaf(_, _, _, hook, _) => if Takes(t, s, v) then GroupOf(hook) else {}
    case Node(members, _) => TouchedAll(members, s, v)
  }

  ghost function TouchedAll(ts: seq<Tree>, s: Store, v: int): set<Group> {
    if ts == [] then {}
    else
      var first := Assign(ts[0], s, v);
      Touched(ts[0], s, v) + if first.outcome == Taken then TouchedAll(ts[1..], first.store, v) else {}
  }

  function GroupOf(hook: Hook): set<Group> {
    if hook.Shared? then {hook.group} else {}
  }

  // ----- Marking and applying

  /** Marking a property as modified does not reach the members of a composite. */
  function Mark(t: Tree): Tree {
    t.(changed := true)
  }

  ghost function MarkedGroups(ts: seq<Tree>): set<Group> {
    if ts == [] then {} else (if ts[0].Leaf? then GroupOf(ts[0].hook) else {}) + MarkedGroups(ts[1..])
  }

  function MarkAll(ts: seq<Tree>): (r: seq<Tree>)
    ensures |r| == |ts|
  {
    if ts == [] then [] else [Mark(ts[0])] + MarkAll(ts[1..])
  }

  function Apply(t: Tree): Tree {
    if !t.changed then t
    else
      match t
      case Leaf(_, _, _, _, _) => t.(changed := false)
      case Node(members, _) => Node(ApplyAll(members), false)
  }

  function ApplyAll(ts: seq<Tree>): (r: seq<Tree>)
    ensures |r| == |ts|
  {
    if ts == [] then [] else [Apply(ts[0])] + ApplyAll(ts[1..])
  }

  /** The groups of the changed leaves that applying reaches. */
  ghost function Due(t: Tree): set<Group> {
    if !t.changed then {}
    else
      match t
      case Leaf(_, _, _, hook, _) => GroupOf(hook)
      case Node(members, _) => DueAll(members)
  }

  ghost function DueAll(ts: seq<Tree>): set<Group> {
    if ts == [] then {} else Due(ts[0]) + DueAll(ts[1..])
  }

  /** The functions of their own that the changed leaves run, in order. */
  function Hooks(t: Tree): seq<int> {
    if !t.changed then []
    else
      match t
      case Leaf(_, _, _, hook, _) => if hook.Own? then [hook.name] else []
      case Node(members, _) => HooksAll(members)
  }

  function HooksAll(ts: seq<Tree>): seq<int> {
    if ts == [] then [] else Hooks(ts[0]) + HooksAll(ts[1..])
  }

  /** Whether applying the property may ask for a refresh. */
  predicate Wants(t: Tree) {
    match t
    case Leaf(_, _, _, _, refresh) => refresh
    case Node(members, _) => WantsAny(members)
  }

  predicate WantsAny(ts: seq<Tree>) {
    ts != [] && (Wants(ts[0]) || WantsAny(ts[1..]))
  }

  /** Some flagged property wants a refresh. */
  predicate Refreshes(ts: seq<Tree>) {
    ts != [] && ((ts[0].changed && Wants(ts[0])) || Refreshes(ts[1..]))
  }

  // ----- Leaves

  /** A batch asks for a refresh exactly if a flagged property has a leaf that wants one. */
  lemma {:induction false} RefreshesIff(ts: seq<Tree>)
    ensures Refreshes(ts) <==> exists i :: 0 <= i < |ts| && ts[i].changed && exists l :: l in Leaves(ts[i]) && l.refresh
  {
    if ts != [] {
      WantsIff(ts[0]);
      RefreshesIff(ts[1..]);
      if Refreshes(ts[1..]) {
        var i :| 0 <= i < |ts[1..]| && ts[1..][i].changed && exists l :: l in Leaves(ts[1..][i]) && l.refresh;
        assert ts[i + 1] == ts[1..][i];
      }
      if i :| 0 < i < |ts| && ts[i].changed && exists l :: l in Leaves(ts[i]) && l.refresh {
        assert ts[1..][i - 1] == ts[i];
      }
    }
  }

  lemma {:induction false} WantsIff(t: Tree)
    ensures Wants(t) <==> exists l :: l in Leaves(t) && l.refresh
  {
    if t.Leaf? {
      assert t in Leaves(t);
    } else {
      WantsAnyIff(t.members);
    }
  }

  lemma {:induction false} WantsAnyIff(ts: seq<Tree>)
    ensures WantsAny(ts) <==> exists l :: l in LeavesOf(ts) && l.refresh
  {
    if ts != [] {
      WantsIff(ts[0]);
      WantsAnyIff(ts[1..]);
      assert forall l :: l in LeavesOf(ts) <==> l in Leaves(ts[0]) || l in LeavesOf(ts[1..]);
    }
  }

  /** The functions of their own that a batch runs, if applying reaches what is flagged: those of the flagged leaves. */
  lemma {:induction false} HooksAreOfFlagged(t: Tree, n: int)
    requires Closed(t)
    ensures n in Hooks(t) <==> exists l :: l in Leaves(t) && l.changed && l.hook == Own(n)
  {
    if t.Leaf? {
      assert t in Leaves(t);
    } else if t.changed {
      AllHooksAreOfFlagged(t.members, n);
    } else {
      SettledHasNothingFlagged(t.members);
    }
  }

  lemma {:induction false} AllHooksAreOfFlagged(ts: seq<Tree>, n: int)
    requires ClosedAll(ts)
    ensures n in HooksAll(ts) <==> exists l :: l in LeavesOf(ts) && l.changed && l.hook == Own(n)
  {
    if ts != [] {
      HooksAreOfFlagged(ts[0], n);
      AllHooksAreOfFlagged(ts[1..], n);
      assert forall l :: l in LeavesOf(ts) <==> l in Leaves(ts[0]) || l in LeavesOf(ts[1..]);
    }
  }

  lemma {:induction false} SettledHasNothingFlagged(ts: seq<Tree>)
    requires SettledAll(ts)
    ensures forall l :: l in LeavesOf(ts) ==> !l.changed
    decreases ts
  {
    if ts != [] {
      if ts[0].Node? {
        SettledHasNothingFlagged(ts[0].members);
      }
      SettledHasNothingFlagged(ts[1..]);
      assert forall l :: l in LeavesOf(ts) <==> l in Leaves(ts[0]) || l in LeavesOf(ts[1..]);
      assert ts[0].Leaf? ==> Leaves(ts[0]) == [ts[0]];
    }
  }

  function Leaves(t: Tree): (r: seq<Tree>)
    ensures forall l :: l in r ==> l.Leaf?
  {
    match t
    case Leaf(_, _, _, _, _) => [t]
    case Node(members, _) => LeavesOf(members)
  }

  function LeavesOf(ts: seq<Tree>): (r: seq<Tree>)
    ensures forall l :: l in r ==> l.Leaf?
  {
    if ts == [] then [] else Leaves(ts[0]) + LeavesOf(ts[1..])
  }

  /** Nothing in the tree is flagged. */
  predicate Settled(t: Tree) {
    && !t.changed
    && (t.Node? ==> SettledAll(t.members))
  }

  predicate SettledAll(ts: seq<Tree>) {
    ts == [] || (Settled(ts[0]) && SettledAll(ts[1..]))
  }

  /** Whatever is flagged is inside flagged composites, so that applying the tree reaches it. */
  predicate Closed(t: Tree) {
    t.Node? ==> ClosedAll(t.members) && (t.changed || SettledAll(t.members))
  }

  predicate ClosedAll(ts: seq<Tree>) {
    ts == [] || (Closed(ts[0]) && ClosedAll(ts[1..]))
  }

  lemma {:induction false} SettledIsClosed(t: Tree)
    requires Settled(t)
    ensures Closed(t)
  {
    if t.Node? {
      SettledAllIsClosed(t.members);
    }
  }

  lemma {:induction false} SettledAllIsClosed(ts: seq<Tree>)
    requires SettledAll(ts)
    ensures ClosedAll(ts)
  {
    if ts != [] {
      SettledIsClosed(ts[0]);
      SettledAllIsClosed(ts[1..]);
    }
  }

  /** Applying a closed tree leaves nothing flagged. */
  lemma {:induction false} ApplySettles(t: Tree)
    requires Closed(t)
    ensures Settled(Apply(t))
  {
    if t.Node? && t.changed {
      ApplyAllSettles(t.members);
    }
  }

  lemma {:induction false} ApplyAllSettles(ts: seq<Tree>)
    requires ClosedAll(ts)
    ensures SettledAll(ApplyAll(ts))
  {
    if ts != [] {
      ApplySettles(ts[0]);
      ApplyAllSettles(ts[1..]);
    }
  }

  /** Some leaf of the group is flagged. */
  ghost predicate Pending(t: Tree, g: Group) {
    exists l :: l in Leaves(t) && l.changed && l.hook == Shared(g)
  }

  ghost predicate PendingIn(ts: seq<Tree>, g: Group) {
    exists l :: l in LeavesOf(ts) && l.changed && l.hook == Shared(g)
  }

  /** In a closed tree a group is due exactly when one of its members is flagged. */
  lemma {:induction false} DueIsPending(t: Tree, g: Group)
    requires Closed(t)
    ensures g in Due(t) <==> Pending(t, g)
  {
    if t.Leaf? {
      assert t in Leaves(t);
    } else if t.changed {
      DueAllIsPending(t.members, g);
    } else {
      SettledHasNothingPending(t.members, g);
    }
  }

  lemma {:induction false} DueAllIsPending(ts: seq<Tree>, g: Group)
    requires ClosedAll(ts)
    ensures g in DueAll(ts) <==> PendingIn(ts, g)
  {
    if ts != [] {
      DueIsPending(ts[0], g);
      DueAllIsPending(ts[1..], g);
      assert forall l :: l in LeavesOf(ts) <==> l in Leaves(ts[0]) || l in LeavesOf(ts[1..]);
    }
  }

  lemma {:induction false} SettledHasNothingPending(ts: seq<Tree>, g: Group)
    requires SettledAll(ts)
    ensures !PendingIn(ts, g)
    decreases ts
  {
    if ts != [] {
      if ts[0].Node? {
        SettledHasNothingPending(ts[0].members, g);
        assert Leaves(ts[0]) == LeavesOf(ts[0].members);
      }
      SettledHasNothingPending(ts[1..], g);
      assert LeavesOf(ts) == Leaves(ts[0]) + LeavesOf(ts[1..]);
      forall l | l in LeavesOf(ts)
        ensures !(l.changed && l.hook == Shared(g))
      {
        if l in Leaves(ts[0]) {
          assert ts[0].Leaf? ==> l == ts[0];
        }
      }
    }
  }

  // ----- When an assignment while playing leaves nothing flagged

  /** Composites are only made around properties that exist. */
  predicate Proper(t: Tree)
    ensures Proper(t) ==> Leaves(t) != []
  {
    t.Node? ==> t.members != [] && ProperAll(t.members)
  }

  predicate ProperAll(ts: seq<Tree>)
    ensures ProperAll(ts) && ts != [] ==> LeavesOf(ts) != []
  {
    ts == [] || (Proper(ts[0]) && ProperAll(ts[1..]))
  }

  /** The variables of the leaves, in order. */
  function VariablesOf(leaves: seq<Tree>): (r: seq<int>)
    requires forall l :: l in leaves ==> l.Leaf?
    ensures |r| == |leaves| && forall i :: 0 <= i < |leaves| ==> r[i] == leaves[i].variable
  {
    seq(|leaves|, i requires 0 <= i < |leaves| => leaves[i].variable)
  }

  function Variables(t: Tree): seq<int> {
    VariablesOf(Leaves(t))
  }

  predicate NoRepeats(xs: seq<int>) {
    forall i, j :: 0 <= i < j < |xs| ==> xs[i] != xs[j]
  }

  ghost predicate AllTake(leaves: seq<Tree>, s: Store, v: int)
    requires forall l :: l in leaves ==> l.Leaf?
  {
    forall l :: l in leaves ==> Takes(l, s, v)
  }

  /** Each of the leaves takes the value when its turn comes. */
  predicate TakeInTurn(leaves: seq<Tree>, s: Store, v: int)
    requires forall l :: l in leaves ==> l.Leaf?
  {
    leaves == [] || (Takes(leaves[0], s, v) && TakeInTurn(leaves[1..], s[leaves[0].variable := v], v))
  }

  function Written(leaves: seq<Tree>, s: Store, v: int): Store
    requires forall l :: l in leaves ==> l.Leaf?
  {
    if leaves == [] then s else Written(leaves[1..], s[leaves[0].variable := v], v)
  }

  lemma {:induction false} TurnsConcat(a: seq<Tree>, b: seq<Tree>, s: Store, v: int)
    requires forall l :: l in a + b ==> l.Leaf?
    ensures (forall l :: l in a ==> l.Leaf?) && forall l :: l in b ==> l.Leaf?
    ensures TakeInTurn(a + b, s, v) <==> TakeInTurn(a, s, v) && TakeInTurn(b, Written(a, s, v), v)
    ensures Written(a + b, s, v) == Written(b, Written(a, s, v), v)
  {
    assert forall l :: l in a ==> l in a + b;
    assert forall l :: l in b ==> l in a + b;
    if a == [] {
      assert a + b == b;
    } else {
      assert (a + b)[1..] == a[1..] + b;
      assert forall l :: l in a[1..] + b ==> l in a + b;
      TurnsConcat(a[1..], b, s[a[0].variable := v], v);
    }
  }

  /** An assignment goes through the leaves in turn. */
  lemma {:induction false} AssignInTurn(t: Tree, s: Store, v: int)
    ensures Assign(t, s, v).outcome == Taken <==> TakeInTurn(Leaves(t), s, v)
    ensures Assign(t, s, v).outcome == Taken ==> Assign(t, s, v).store == Written(Leaves(t), s, v)
  {
    if t.Leaf? {
      assert Leaves(t)[1..] == [];
      assert TakeInTurn([], s[t.variable := v], v) && Written([], s[t.variable := v], v) == s[t.variable := v];
    } else {
      AssignAllInTurn(t.members, s, v);
    }
  }

  lemma {:induction false} AssignAllInTurn(ts: seq<Tree>, s: Store, v: int)
    ensures AssignAll(ts, s, v).outcome == Taken <==> TakeInTurn(LeavesOf(ts), s, v)
    ensures AssignAll(ts, s, v).outcome == Taken ==> AssignAll(ts, s, v).store == Written(LeavesOf(ts), s, v)
  {
    if ts != [] {
      AssignInTurn(ts[0], s, v);
      TurnsConcat(Leaves(ts[0]), LeavesOf(ts[1..]), s, v);
      AssignAllInTurn(ts[1..], Assign(ts[0], s, v).store, v);
    }
  }

  lemma {:induction false} TurnsAreIndependent(leaves: seq<Tree>, s: Store, v: int)
    requires forall l :: l in leaves ==> l.Leaf?
    ensures TakeInTurn(leaves, s, v) <==> AllTake(leaves, s, v) && NoRepeats(VariablesOf(leaves))
  {
    if leaves != [] {
      var first, rest := leaves[0], leaves[1..];
      var s' := s[first.variable := v];
      TurnsAreIndependent(rest, s', v);
      assert leaves == [first] + rest;
      assert VariablesOf(leaves) == [first.variable] + VariablesOf(rest);
      NoRepeatsOfCons(first.variable, VariablesOf(rest));
      assert AllTake(rest, s', v) <==> AllTake(rest, s, v) && first.variable !in VariablesOf(rest) by {
        NoneSees(rest, s, first.variable, v);
      }
    }
  }

  lemma NoRepeatsOfCons(x: int, xs: seq<int>)
    ensures NoRepeats([x] + xs) <==> x !in xs && NoRepeats(xs)
  {
    var all := [x] + xs;
    assert forall i :: 0 <= i < |xs| ==> xs[i] == all[i + 1];
    assert all[0] == x;
    if NoRepeats(all) {
      assert forall i, j :: 0 <= i < j < |xs| ==> xs[i] == all[i + 1] && xs[j] == all[j + 1];
    }
  }

  /** A leaf does not take a value that its variable has just got. */
  lemma NoneSees(leaves: seq<Tree>, s: Store, x: int, v: int)
    requires forall l :: l in leaves ==> l.Leaf?
    ensures AllTake(leaves, s[x := v], v) <==> AllTake(leaves, s, v) && x !in VariablesOf(leaves)
  {
    if AllTake(leaves, s[x := v], v) {
      forall l | l in leaves
        ensures Takes(l, s, v) && l.variable != x
      {
        assert Takes(l, s[x := v], v);
      }
    } else {
      var l :| l in leaves && !Takes(l, s[x := v], v);
      var i :| 0 <= i < |leaves| && leaves[i] == l;
      assert VariablesOf(leaves)[i] == l.variable;
    }
  }

  /** Assigning a property while playing: it is applied only when the assignment returns true. */
  function AssignLive(t: Tree, s: Store, v: int): Tree {
    if Assign(t, s, v).outcome == Taken then Apply(Assign(t, s, v).tree) else Assign(t, s, v).tree
  }

  /** An assignment returns true exactly when every leaf takes the value and no two share a variable. */
  lemma TakenWhenAllTake(t: Tree, s: Store, v: int)
    ensures Assign(t, s, v).outcome == Taken <==> AllTake(Leaves(t), s, v) && NoRepeats(Variables(t))
  {
    AssignInTurn(t, s, v);
    TurnsAreIndependent(Leaves(t), s, v);
  }

  /** An assignment that stops at the first leaf changes nothing. */
  lemma {:induction false} FirstRefuses(t: Tree, s: Store, v: int)
    requires Proper(t) && !Takes(Leaves(t)[0], s, v)
    ensures Assign(t, s, v).tree == t && Assign(t, s, v).store == s && Touched(t, s, v) == {}
    ensures Assign(t, s, v).outcome != Taken
  {
    if t.Node? {
      var first := t.members[0];
      assert Leaves(t)[0] == Leaves(first)[0];
      FirstRefuses(first, s, v);
      assert AssignAll(t.members, s, v).trees == t.members;
    }
  }

  /** An assignment that the first leaf takes flags it. */
  lemma {:induction false} FirstTakes(t: Tree, s: Store, v: int)
    requires Proper(t) && Takes(Leaves(t)[0], s, v)
    ensures !Settled(Assign(t, s, v).tree)
  {
    if t.Node? {
      assert Leaves(t)[0] == Leaves(t.members[0])[0];
      FirstTakes(t.members[0], s, v);
    }
  }

  /** An assignment that returns true marks every composite on the way. */
  lemma {:induction false} TakenMarks(t: Tree, s: Store, v: int)
    requires Proper(t) && Assign(t, s, v).outcome == Taken && Closed(t)
    ensures Assign(t, s, v).tree.changed && Closed(Assign(t, s, v).tree)
  {
    if t.Node? {
      TakenMarksAll(t.members, s, v);
    }
  }

  lemma {:induction false} TakenMarksAll(ts: seq<Tree>, s: Store, v: int)
    requires ProperAll(ts) && AssignAll(ts, s, v).outcome == Taken && ClosedAll(ts)
    ensures ClosedAll(AssignAll(ts, s, v).trees) && (ts != [] ==> AssignAll(ts, s, v).marked)
  {
    if ts != [] {
      TakenMarks(ts[0], s, v);
      TakenMarksAll(ts[1..], Assign(ts[0], s, v).store, v);
    }
  }

  /**
   Exactly when an assignment to a settled property of a playing player leaves nothing flagged:
   every leaf takes the value and no two share a variable, or the first one does not take it.
   */
  lemma LiveAssignmentSettles(t: Tree, s: Store, v: int)
    requires Proper(t) && Settled(t)
    ensures Settled(AssignLive(t, s, v)) <==>
            (AllTake(Leaves(t), s, v) && NoRepeats(Variables(t))) || !Takes(Leaves(t)[0], s, v)
  {
    TakenWhenAllTake(t, s, v);
    if Assign(t, s, v).outcome == Taken {
      SettledIsClosed(t);
      TakenMarks(t, s, v);
      ApplySettles(Assign(t, s, v).tree);
    } else if Takes(Leaves(t)[0], s, v) {
      FirstTakes(t, s, v);
    } else {
      FirstRefuses(t, s, v);
    }
  }

  lemma PairOfLeaves(first: Tree, second: Tree)
    requires first.Leaf? && second.Leaf? && !first.changed && !second.changed
    ensures var pair := Node([first, second], false);
            Proper(pair) && Settled(pair) && Leaves(pair) == [first, second]
  {
    var members := [first, second];
    var rest := members[1..];
    assert rest == [second] && rest[1..] == [];
    assert Proper(first) && Proper(second) && ProperAll(rest[1..]) && SettledAll(rest[1..]);
    assert ProperAll(rest) && SettledAll(rest);
    assert LeavesOf(rest[1..]) == [] && LeavesOf(rest) == Leaves(second);
  }

  /** The failing family is not empty: two variables that differ get one of the two values. */
  lemma MembersThatDifferGetStuck(a: int, b: int)
    requires a != b
    ensures var pair := Node([Leaf(0, false, v => true, Nothing, false),
                              Leaf(1, false, v => true, Nothing, false)], false);
            && Proper(pair) && Settled(pair)
            && !Settled(AssignLive(pair, map[0 := a, 1 := b], b))
  {
    var first, second := Leaf(0, false, v => true, Nothing, false), Leaf(1, false, v => true, Nothing, false);
    var pair, s := Node([first, second], false), map[0 := a, 1 := b];
    PairOfLeaves(first, second);
    assert second in Leaves(pair) && !Takes(second, s, b) && Takes(first, s, b);
    LiveAssignmentSettles(pair, s, b);
  }

  // ----- Properties of one variable

  /** Some value passes every check of the tree. */
  ghost predicate HasValue(t: Tree) {
    exists v: int :: Passes(t, v)
  }

  ghost predicate Passes(t: Tree, v: int) {
    forall l :: l in Leaves(t) ==> l.check(v)
  }

  /** No assignment ever returns true: none is applied while playing. */
  ghost predicate NeverTaken(t: Tree) {
    forall s: Store, v: int :: Assign(t, s, v).outcome != Taken
  }

  /** Exactly when that is so: two leaves share a variable, or no value is valid for all of them. */
  lemma NeverTakenWhenShared(t: Tree)
    ensures NeverTaken(t) <==> !NoRepeats(Variables(t)) || !HasValue(t)
  {
    if NoRepeats(Variables(t)) && HasValue(t) {
      var v: int :| Passes(t, v);
      var s: Store := map x | x in Variables(t) :: v + 1;
      forall l | l in Leaves(t)
        ensures Takes(l, s, v)
      {
        var i :| 0 <= i < |Leaves(t)| && Leaves(t)[i] == l;
        assert Variables(t)[i] == l.variable;
      }
      TakenWhenAllTake(t, s, v);
    } else {
      forall s: Store, v: int
        ensures Assign(t, s, v).outcome != Taken
      {
        TakenWhenAllTake(t, s, v);
        assert AllTake(Leaves(t), s, v) ==> Passes(t, v);
      }
    }
  }

  /** The composite of a property and another leaf for a variable that it has already. */
  lemma PairShares(t: Tree, leaf: Tree)
    requires leaf.Leaf? && leaf.variable in Variables(t)
    ensures !NoRepeats(Variables(Node([t, leaf], true)))
  {
    var members := [t, leaf];
    assert members[1..] == [leaf] && members[1..][1..] == [];
    assert LeavesOf(members[1..]) == Leaves(leaf) + LeavesOf([]) == [leaf];
    assert Leaves(Node(members, true)) == Leaves(t) + [leaf];
    var i :| 0 <= i < |Variables(t)| && Variables(t)[i] == leaf.variable;
    var all := Variables(Node(members, true));
    assert all[i] == all[|Leaves(t)|];
  }

  function Flagged(leaf: Tree): Tree
    requires leaf.Leaf?
  {
    Leaf(leaf.variable, true, leaf.check, leaf.hook, leaf.refresh)
  }

  /** An assignment to two leaves of one variable: the variable takes the value, and only the first is flagged. */
  lemma SharedAssignment(first: Tree, second: Tree, s: Store, v: int)
    requires first.Leaf? && second.Leaf? && first.variable == second.variable && Takes(first, s, v)
    ensures var r := Assign(Node([first, second], true), s, v);
            && r.store == s[first.variable := v] && r.outcome == (if second.check(v) then Same else Refused)
            && r.tree == Node([Flagged(first), second], true)
  {
    var members, s' := [first, second], s[first.variable := v];
    var one := Assign(first, s, v);
    assert one == Assigned(Flagged(first), s', Taken);
    assert members[1..] == [second] && [second][1..] == [];
    var two := Assign(second, s', v);
    assert two == Assigned(second, s', if second.check(v) then Same else Refused);
    var rest := AssignAll([second], s', v);
    assert rest == AssignedAll([second] + [second][1..], s', two.outcome, false);
    assert [second] + [second][1..] == [second];
    var all := AssignAll(members, s, v);
    assert all.trees == [Flagged(first)] + rest.trees;
  }

  // ----- Members that start equal stay equal

  /** Every leaf has the check `ok`. */
  ghost predicate Checks(t: Tree, ok: int -> bool) {
    forall l, x: int :: l in Leaves(t) ==> l.check(x) == ok(x)
  }

  /** Every leaf has the check `ok`, and its variable the value `v`. */
  ghost predicate Uniform(t: Tree, s: Store, v: int, ok: int -> bool) {
    Checks(t, ok) && forall x :: x in Variables(t) ==> Read(s, x) == v
  }

  /** The leaves are bound to the same variables, with the same checks. */
  ghost predicate SameLeaves(a: seq<Tree>, b: seq<Tree>)
    requires (forall l :: l in a ==> l.Leaf?) && forall l :: l in b ==> l.Leaf?
  {
    |a| == |b| && forall i :: 0 <= i < |a| ==> a[i].variable == b[i].variable && a[i].check == b[i].check
  }

  lemma SameLeavesConcat(a: seq<Tree>, b: seq<Tree>, c: seq<Tree>, d: seq<Tree>)
    requires (forall l :: l in a ==> l.Leaf?) && (forall l :: l in b ==> l.Leaf?)
    requires (forall l :: l in c ==> l.Leaf?) && (forall l :: l in d ==> l.Leaf?)
    requires SameLeaves(a, b) && SameLeaves(c, d)
    ensures SameLeaves(a + c, b + d)
  {
  }

  lemma {:induction false} AssignKeepsLeaves(t: Tree, s: Store, v: int)
    ensures SameLeaves(Leaves(Assign(t, s, v).tree), Leaves(t))
  {
    if t.Node? {
      AssignAllKeepsLeaves(t.members, s, v);
    }
  }

  lemma {:induction false} AssignAllKeepsLeaves(ts: seq<Tree>, s: Store, v: int)
    ensures SameLeaves(LeavesOf(AssignAll(ts, s, v).trees), LeavesOf(ts))
  {
    if ts != [] {
      var first := Assign(ts[0], s, v);
      var r := AssignAll(ts, s, v).trees;
      AssignKeepsLeaves(ts[0], s, v);
      if first.outcome == Taken {
        AssignAllKeepsLeaves(ts[1..], first.store, v);
      }
      assert r[0] == first.tree;
      assert r[1..] == if first.outcome == Taken then AssignAll(ts[1..], first.store, v).trees else ts[1..];
      SameLeavesConcat(Leaves(r[0]), Leaves(ts[0]), LeavesOf(r[1..]), LeavesOf(ts[1..]));
    }
  }

  lemma {:induction false} ApplyKeepsLeaves(t: Tree)
    ensures SameLeaves(Leaves(Apply(t)), Leaves(t))
  {
    if t.Node? {
      ApplyAllKeepsLeaves(t.members);
    }
  }

  lemma {:induction false} ApplyAllKeepsLeaves(ts: seq<Tree>)
    ensures SameLeaves(LeavesOf(ApplyAll(ts)), LeavesOf(ts))
  {
    if ts != [] {
      ApplyKeepsLeaves(ts[0]);
      ApplyAllKeepsLeaves(ts[1..]);
      SameLeavesConcat(Leaves(Apply(ts[0])), Leaves(ts[0]), LeavesOf(ApplyAll(ts[1..])), LeavesOf(ts[1..]));
    }
  }

  lemma SameVariables(a: Tree, b: Tree)
    requires SameLeaves(Leaves(a), Leaves(b))
    ensures Variables(a) == Variables(b)
    ensures forall ok: int -> bool :: Checks(b, ok) ==> Checks(a, ok)
  {
    forall ok: int -> bool, l, x: int | Checks(b, ok) && l in Leaves(a)
      ensures l.check(x) == ok(x)
    {
      var i :| 0 <= i < |Leaves(a)| && Leaves(a)[i] == l;
      assert Leaves(b)[i] in Leaves(b);
    }
  }

  lemma {:induction false} WrittenReads(leaves: seq<Tree>, s: Store, v: int, x: int)
    requires forall l :: l in leaves ==> l.Leaf?
    ensures Read(Written(leaves, s, v), x) == if x in VariablesOf(leaves) then v else Read(s, x)
  {
    if leaves != [] {
      WrittenReads(leaves[1..], s[leaves[0].variable := v], v, x);
      assert VariablesOf(leaves) == [leaves[0].variable] + VariablesOf(leaves[1..]);
    }
  }

  /** An assignment writes only to the variables of the property. */
  lemma {:induction false} AssignWritesOwn(t: Tree, s: Store, v: int, x: int)
    requires x !in Variables(t)
    ensures Read(Assign(t, s, v).store, x) == Read(s, x)
  {
    if t.Leaf? {
      assert Variables(t)[0] == t.variable;
    } else {
      AssignAllWritesOwn(t.members, s, v, x);
    }
  }

  lemma {:induction false} AssignAllWritesOwn(ts: seq<Tree>, s: Store, v: int, x: int)
    requires x !in VariablesOf(LeavesOf(ts))
    ensures Read(AssignAll(ts, s, v).store, x) == Read(s, x)
  {
    if ts != [] {
      VariablesConcat(Leaves(ts[0]), LeavesOf(ts[1..]));
      AssignWritesOwn(ts[0], s, v, x);
      AssignAllWritesOwn(ts[1..], Assign(ts[0], s, v).store, v, x);
    }
  }

  lemma VariablesConcat(a: seq<Tree>, b: seq<Tree>)
    requires (forall l :: l in a ==> l.Leaf?) && forall l :: l in b ==> l.Leaf?
    ensures VariablesOf(a + b) == VariablesOf(a) + VariablesOf(b)
  {
  }

  /**
   Properties of different variables that start equal with one check never diverge: an assignment
   sets all or none.
   */
  lemma UniformAssignment(t: Tree, s: Store, v0: int, ok: int -> bool, v: int)
    requires Uniform(t, s, v0, ok) && Proper(t) && NoRepeats(Variables(t))
    ensures var r := Assign(t, s, v);
            if ok(v) && v != v0 then r.outcome == Taken && Uniform(r.tree, r.store, v, ok)
            else r.outcome != Taken && r.tree == t && r.store == s && Touched(t, s, v) == {}
  {
    TakenWhenAllTake(t, s, v);
    forall l | l in Leaves(t)
      ensures Takes(l, s, v) <==> ok(v) && v != v0
    {
      var i :| 0 <= i < |Leaves(t)| && Leaves(t)[i] == l;
      assert Variables(t)[i] == l.variable;
      assert l.check(v) == ok(v);
    }
    assert Leaves(t)[0] in Leaves(t);
    if ok(v) && v != v0 {
      AssignInTurn(t, s, v);
      AssignKeepsLeaves(t, s, v);
      SameVariables(Assign(t, s, v).tree, t);
      forall x | x in Variables(t)
        ensures Read(Assign(t, s, v).store, x) == v
      {
        WrittenReads(Leaves(t), s, v, x);
      }
    } else {
      FirstRefuses(t, s, v);
    }
  }

  lemma ApplyKeepsUniform(t: Tree, s: Store, v: int, ok: int -> bool)
    requires Uniform(t, s, v, ok)
    ensures Uniform(Apply(t), s, v, ok)
  {
    ApplyKeepsLeaves(t);
    SameVariables(Apply(t), t);
  }

  // ----- No flagged member is forgotten by its group

  /** Every group with a flagged member is among `down`, the groups whose flag is clear. */
  ghost predicate Alert(t: Tree, down: set<Group>) {
    match t
    case Leaf(_, changed, _, hook, _) => changed ==> GroupOf(hook) <= down
    case Node(members, _) => AlertAll(members, down)
  }

  ghost predicate AlertAll(ts: seq<Tree>, down: set<Group>) {
    ts == [] || (Alert(ts[0], down) && AlertAll(ts[1..], down))
  }

  lemma {:induction false} AlertGrows(t: Tree, down: set<Group>, more: set<Group>)
    requires Alert(t, down) && down <= more
    ensures Alert(t, more)
  {
    if t.Node? {
      AlertAllGrows(t.members, down, more);
    }
  }

  lemma {:induction false} AlertAllGrows(ts: seq<Tree>, down: set<Group>, more: set<Group>)
    requires AlertAll(ts, down) && down <= more
    ensures AlertAll(ts, more)
  {
    if ts != [] {
      AlertGrows(ts[0], down, more);
      AlertAllGrows(ts[1..], down, more);
    }
  }

  lemma {:induction false} AssignKeepsAlert(t: Tree, s: Store, v: int, down: set<Group>)
    requires Alert(t, down)
    ensures Alert(Assign(t, s, v).tree, down + Touched(t, s, v))
  {
    if t.Node? {
      AssignAllKeepsAlert(t.members, s, v, down);
    }
  }

  lemma {:induction false} AssignAllKeepsAlert(ts: seq<Tree>, s: Store, v: int, down: set<Group>)
    requires AlertAll(ts, down)
    ensures AlertAll(AssignAll(ts, s, v).trees, down + TouchedAll(ts, s, v))
  {
    if ts != [] {
      var now := down + TouchedAll(ts, s, v);
      var first := Assign(ts[0], s, v);
      AssignKeepsAlert(ts[0], s, v, down);
      AlertGrows(first.tree, down + Touched(ts[0], s, v), now);
      if first.outcome == Taken {
        AssignAllKeepsAlert(ts[1..], first.store, v, down);
        AlertAllGrows(AssignAll(ts[1..], first.store, v).trees, down + TouchedAll(ts[1..], first.store, v), now);
      } else {
        AlertAllGrows(ts[1..], down, now);
      }
    }
  }

  lemma {:induction false} MarkAllKeepsAlert(ts: seq<Tree>, down: set<Group>)
    requires AlertAll(ts, down)
    ensures AlertAll(MarkAll(ts), down + MarkedGroups(ts))
  {
    if ts != [] {
      var now := down + MarkedGroups(ts);
      AlertGrows(ts[0], down, now);
      assert Alert(Mark(ts[0]), now);
      MarkAllKeepsAlert(ts[1..], down);
      AlertAllGrows(MarkAll(ts[1..]), down + MarkedGroups(ts[1..]), now);
    }
  }

  lemma {:induction false} SettledIsAlert(t: Tree, down: set<Group>)
    requires Settled(t)
    ensures Alert(t, down)
  {
    if t.Node? {
      SettledAllIsAlert(t.members, down);
    }
  }

  lemma {:induction false} SettledAllIsAlert(ts: seq<Tree>, down: set<Group>)
    requires SettledAll(ts)
    ensures AlertAll(ts, down)
  {
    if ts != [] {
      SettledIsAlert(ts[0], down);
      SettledAllIsAlert(ts[1..], down);
    }
  }

  lemma {:induction false} DueIsAlert(ts: seq<Tree>, down: set<Group>)
    requires AlertAll(ts, down)
    ensures DueAll(ts) <= down
    decreases ts
  {
    if ts != [] {
      if ts[0].Node? {
        DueIsAlert(ts[0].members, down);
      }
      DueIsAlert(ts[1..], down);
    }
  }
}
