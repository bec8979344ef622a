/**
 The loops over player properties, after lib/dtv-gingaplayer/src/property/ and `markModified` and
 `applyChanges` in lib/dtv-gingaplayer/src/player.cpp.  The properties are values; the flags that
 they share are objects.
 */
module Properties {
  import opened T = PropertyTrees

  ghost function AllGroups(t: Tree): set<Group> {
    match t
    case Leaf(_, _, _, hook, _) => GroupOf(hook)
    case Node(members, _) => AllGroupsOf(members)
  }

  ghost function AllGroupsOf(ts: seq<Tree>): set<Group> {
    if ts == [] then {} else AllGroups(ts[0]) + AllGroupsOf(ts[1..])
  }

  /** What an assignment or a mark does to a group: its flag is cleared if it is touched. */
  ghost predicate Cleared(g: Group, applied: bool, calls: nat, touched: set<Group>)
    reads g
  {
    g.applied == (applied && g !in touched) && g.calls == calls
  }

  /** What a batch does to a group: its function is called once if it is due and its flag is clear. */
  ghost predicate Called(g: Group, applied: bool, calls: nat, due: set<Group>)
    reads g
  {
    g.applied == (applied || g in due) && g.calls == calls + (if g in due && !applied then 1 else 0)
  }

  // ----- Assignment

  /** `assign`: of one variable, or of every member of a composite. */
  method Assign(t: Tree, s: Store, v: int, ghost all: set<Group>) returns (after: Tree, store: Store, r: Outcome)
    requires AllGroups(t) <= all
    modifies all
    ensures Assigned(after, store, r) == T.Assign(t, s, v)
    ensures forall g :: g in all ==> Cleared(g, old(g.applied), old(g.calls), Touched(t, s, v))
    decreases t, 1
  {
    match t
    case Leaf(variable, changed, check, hook, refresh) =>
      if !check(v) {
        return t, s, Refused;
      }
      if Read(s, variable) == v {
        return t, s, Same;
      }
      after, store, r := Leaf(variable, true, check, hook, refresh), s[variable := v], Taken;
      if hook.Shared? {
        hook.group.applied := false;
      }
    case Node(members, changed) =>
      var marked;
      var trees;
      trees, store, r, marked := LoopAssign(members, s, v, all);
      after := Node(trees, changed || marked);
  }

  /** `loopAssign`: the members in turn, until one does not take the value. */
  method LoopAssign(members: seq<Tree>, s: Store, v: int, ghost all: set<Group>)
      returns (after: seq<Tree>, store: Store, r: Outcome, marked: bool)
    requires AllGroupsOf(members) <= all
    modifies all
    ensures AssignedAll(after, store, r, marked) == AssignAll(members, s, v)
    ensures forall g :: g in all ==> Cleared(g, old(g.applied), old(g.calls), TouchedAll(members, s, v))
    decreases members, 0
  {
    hide AssignAll, TouchedAll, Touched, T.Assign, Progress;
    after, store, r, marked := [], s, Taken, false;
    ghost var cleared: set<Group> := {};
    LoopStarts(members, s, v);
    var i := 0;
    while i < |members|
      invariant i <= |members| && |after| == i && r == Taken
      invariant Progress(members, s, v, after, store, marked, cleared)
      invariant forall g :: g in all ==> Cleared(g, old(g.applied), old(g.calls), cleared)
    {
      MemberGroups(members, i);
      StepAll(members, s, v, i, after, store, marked, cleared);
      cleared := cleared + Touched(members[i], store, v);
      var t;
      t, store, r := Assign(members[i], store, v, all);
      after := after + [t];
      if r != Taken {
        after := after + members[i + 1..];
        return;
      }
      if t.changed {
        marked := true;
      }
      i := i + 1;
    }
    LoopEnds(members, s, v, after, store, marked, cleared);
  }

  lemma {:induction false} MemberGroups(ts: seq<Tree>, i: nat)
    requires i < |ts|
    ensures AllGroups(ts[i]) <= AllGroupsOf(ts)
  {
    if i > 0 {
      MemberGroups(ts[1..], i - 1);
    }
  }

  /** The loop over the members has dealt with the first ones and goes on with the rest. */
  ghost predicate Progress(before: seq<Tree>, s: Store, v: int, done: seq<Tree>, now: Store, marked: bool,
                           cleared: set<Group>) {
    && |done| <= |before|
    && TouchedAll(before, s, v) == cleared + TouchedAll(before[|done|..], now, v)
    && AssignAll(before, s, v) == Continued(done, AssignAll(before[|done|..], now, v), marked)
  }

  ghost function Continued(done: seq<Tree>, rest: AssignedAll, marked: bool): AssignedAll {
    AssignedAll(done + rest.trees, rest.store, rest.outcome, marked || rest.marked)
  }

  lemma LoopStarts(before: seq<Tree>, s: Store, v: int)
    ensures Progress(before, s, v, [], s, false, {})
  {
    assert before[0..] == before;
    assert [] + AssignAll(before, s, v).trees == AssignAll(before, s, v).trees;
  }

  lemma LoopEnds(before: seq<Tree>, s: Store, v: int, done: seq<Tree>, now: Store, marked: bool, cleared: set<Group>)
    requires Progress(before, s, v, done, now, marked, cleared) && |done| == |before|
    ensures AssignAll(before, s, v) == AssignedAll(done, now, Taken, marked) && TouchedAll(before, s, v) == cleared
  {
    assert before[|done|..] == [];
  }

  lemma StepAll(before: seq<Tree>, s: Store, v: int, i: nat, done: seq<Tree>, now: Store, marked: bool,
                cleared: set<Group>)
    requires i < |before| && |done| == i && Progress(before, s, v, done, now, marked, cleared)
    ensures var next, touched := T.Assign(before[i], now, v), cleared + Touched(before[i], now, v);
            if next.outcome == Taken then
              Progress(before, s, v, done + [next.tree], next.store, marked || next.tree.changed, touched)
            else
              && AssignAll(before, s, v) ==
                 AssignedAll(done + [next.tree] + before[i + 1..], next.store, next.outcome, marked)
              && TouchedAll(before, s, v) == touched
  {
    hide AssignAll, TouchedAll, Touched, T.Assign;
    assert before[i..][0] == before[i] && before[i..][1..] == before[i + 1..];
    FirstOfRest(before[i..], now, v);
    var next := T.Assign(before[i], now, v);
    Reassociate(done, next.tree, AssignAll(before[i + 1..], next.store, v).trees);
    Reassociate(done, next.tree, before[i + 1..]);
  }

  lemma FirstOfRest(ts: seq<Tree>, s: Store, v: int)
    requires ts != []
    ensures var next := T.Assign(ts[0], s, v);
            var rest := AssignAll(ts[1..], next.store, v);
            && AssignAll(ts, s, v) ==
               (if next.outcome == Taken
                then AssignedAll([next.tree] + rest.trees, rest.store, rest.outcome, next.tree.changed || rest.marked)
                else AssignedAll([next.tree] + ts[1..], next.store, next.outcome, false))
            && TouchedAll(ts, s, v) ==
               Touched(ts[0], s, v) + (if next.outcome == Taken then TouchedAll(ts[1..], next.store, v) else {})
  {
  }

  lemma Reassociate(a: seq<Tree>, t: Tree, b: seq<Tree>)
    ensures a + ([t] + b) == (a + [t]) + b
  {
  }

  // ----- Marking

  /** `markModified` of every property of a player. */
  method MarkEach(ts: seq<Tree>, ghost all: set<Group>) returns (after: seq<Tree>)
    requires AllGroupsOf(ts) <= all
    modifies all
    ensures after == MarkAll(ts)
    ensures forall g :: g in all ==> Cleared(g, old(g.applied), old(g.calls), MarkedGroups(ts))
  {
    hide Mark;
    after := [];
    ghost var cleared: set<Group> := {};
    assert ts[0..] == ts;
    assert [] + MarkAll(ts) == MarkAll(ts);
    var i := 0;
    while i < |ts|
      invariant i <= |ts| && MarkAll(ts) == after + MarkAll(ts[i..])
      invariant MarkedGroups(ts) == cleared + MarkedGroups(ts[i..])
      invariant forall g :: g in all ==> Cleared(g, old(g.applied), old(g.calls), cleared)
    {
      MemberGroups(ts, i);
      assert ts[i..][0] == ts[i] && ts[i..][1..] == ts[i + 1..];
      Reassociate(after, Mark(ts[i]), MarkAll(ts[i + 1..]));
      if ts[i].Leaf? && ts[i].hook.Shared? {
        ts[i].hook.group.applied := false;
        cleared := cleared + {ts[i].hook.group};
      }
      after := after + [Mark(ts[i])];
      i := i + 1;
    }
    assert ts[i..] == [];
  }

  // ----- Applying

  /** What applying a leaf does to its group: the common function is called unless the flag is set. */
  method ApplyGroup(hook: Hook, ghost all: set<Group>)
    requires GroupOf(hook) <= all
    modifies all
    ensures forall g :: g in all ==> Called(g, old(g.applied), old(g.calls), GroupOf(hook))
  {
    if hook.Shared? && !hook.group.applied {
      hook.group.calls := hook.group.calls + 1;
      hook.group.applied := true;
    }
  }

  /** The loop has applied the first properties and goes on with the rest. */
  ghost predicate Applied(before: seq<Tree>, done: seq<Tree>, hooks: seq<int>, refresh: bool, due: set<Group>) {
    && |done| <= |before|
    && ApplyAll(before) == done + ApplyAll(before[|done|..])
    && HooksAll(before) == hooks + HooksAll(before[|done|..])
    && Refreshes(before) == (refresh || Refreshes(before[|done|..]))
    && DueAll(before) == due + DueAll(before[|done|..])
  }

  lemma NothingApplied(before: seq<Tree>)
    ensures Applied(before, [], [], false, {})
  {
    assert before[0..] == before;
    assert [] + ApplyAll(before) == ApplyAll(before) && [] + HooksAll(before) == HooksAll(before);
  }

  lemma AllApplied(before: seq<Tree>, done: seq<Tree>, hooks: seq<int>, refresh: bool, due: set<Group>)
    requires Applied(before, done, hooks, refresh, due) && |done| == |before|
    ensures ApplyAll(before) == done && HooksAll(before) == hooks
    ensures Refreshes(before) == refresh && DueAll(before) == due
  {
    assert before[|done|..] == [];
  }

  lemma ApplyNext(before: seq<Tree>, done: seq<Tree>, hooks: seq<int>, refresh: bool, due: set<Group>)
    requires |done| < |before| && Applied(before, done, hooks, refresh, due)
    ensures var t := before[|done|];
            Applied(before, done + [T.Apply(t)], hooks + Hooks(t), refresh || (t.changed && Wants(t)), due + Due(t))
  {
    hide T.Apply, Due, Hooks, Wants;
    var i := |done|;
    var rest := before[i..];
    assert rest[0] == before[i] && rest[1..] == before[i + 1..];
    Reassociate(done, T.Apply(before[i]), ApplyAll(before[i + 1..]));
    assert hooks + (Hooks(before[i]) + HooksAll(rest[1..])) == (hooks + Hooks(before[i])) + HooksAll(rest[1..]);
  }

  /** `canPlay`: every variable passes its check. */
  predicate CanStart(t: Tree, s: Store) {
    match t
    case Leaf(variable, _, check, _, _) => check(Read(s, variable))
    case Node(members, _) => CanStartAll(members, s)
  }

  predicate CanStartAll(ts: seq<Tree>, s: Store) {
    ts == [] || (CanStart(ts[0], s) && CanStartAll(ts[1..], s))
  }

  /** A player can start exactly if every leaf of its properties passes its check. */
  lemma {:induction false} CanStartIff(ts: seq<Tree>, s: Store)
    ensures CanStartAll(ts, s) <==> forall l :: l in LeavesOf(ts) ==> l.check(Read(s, l.variable))
  {
    if ts != [] {
      if ts[0].Node? {
        CanStartIff(ts[0].members, s);
      }
      CanStartIff(ts[1..], s);
      assert forall l :: l in LeavesOf(ts) <==> l in Leaves(ts[0]) || l in LeavesOf(ts[1..]);
      if ts[0].Leaf? {
        assert ts[0] in Leaves(ts[0]);
      }
    }
  }

  lemma {:induction false} MarksCanStart(ts: seq<Tree>, s: Store)
    ensures CanStartAll(MarkAll(ts), s) <==> CanStartAll(ts, s)
  {
    if ts != [] {
      MarksCanStart(ts[1..], s);
    }
  }
}
