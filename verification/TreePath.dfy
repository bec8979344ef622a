/** Dotted names, after lib/dtv-util/src/cfg/treepath.cpp, and the components that they stand for. */
module TreePath {

  const DOT := '.'

  predicate Walkable(s: string) {
    DOT in s
  }

  /** The index of the first dot, or the length if there is none. */
  function FirstDot(s: string): (i: nat)
    ensures i <= |s| && (forall k :: 0 <= k < i ==> s[k] != DOT)
    ensures (i < |s| ==> s[i] == DOT) && (i < |s| <==> Walkable(s))
  {
    if s == [] || s[0] == DOT then 0 else FirstDot(s[1..]) + 1
  }

  /** The number of characters up to the last dot and with it, or 0 if there is none. */
  function AfterLastDot(s: string): (i: nat)
    ensures i <= |s| && (forall k :: i <= k < |s| ==> s[k] != DOT)
    ensures (i > 0 ==> s[i - 1] == DOT) && (i > 0 <==> Walkable(s))
  {
    if s == [] then 0
    else if s[|s| - 1] == DOT then |s|
    else
      assert s == s[..|s| - 1] + [s[|s| - 1]];
      AfterLastDot(s[..|s| - 1])
  }

  function Root(s: string): string {
    s[..FirstDot(s)]
  }

  function WithoutRoot(s: string): (r: string)
    ensures Walkable(s) ==> |r| < |s|
  {
    if Walkable(s) then s[FirstDot(s) + 1..] else s
  }

  function Path(s: string): (r: string)
    ensures Walkable(s) ==> |r| < |s|
  {
    if Walkable(s) then s[..AfterLastDot(s) - 1] else s
  }

  function Property(s: string): string {
    s[AfterLastDot(s)..]
  }

  /** How many dots a name has. */
  function Dots(s: string): nat {
    if s == [] then 0 else (if s[0] == DOT then 1 else 0) + Dots(s[1..])
  }

  /** The parts between the dots. */
  function Components(s: string): (r: seq<string>)
    ensures r != []
    decreases |s|
  {
    if Walkable(s) then [Root(s)] + Components(WithoutRoot(s)) else [s]
  }

  /** The name with these parts. */
  function Join(parts: seq<string>): string
    requires parts != []
  {
    if |parts| == 1 then parts[0] else parts[0] + [DOT] + Join(parts[1..])
  }

  /** Nothing is lost by taking a name apart. */
  lemma {:induction false} JoinComponents(s: string)
    ensures Join(Components(s)) == s
    decreases |s|
  {
    if Walkable(s) {
      var rest := Components(WithoutRoot(s));
      JoinComponents(WithoutRoot(s));
      assert Components(s)[1..] == rest;
      assert s == Root(s) + [DOT] + WithoutRoot(s);
    }
  }

  lemma SameComponents(a: string, b: string)
    requires Components(a) == Components(b)
    ensures a == b
  {
    JoinComponents(a);
    JoinComponents(b);
  }

  lemma {:induction false} DotsOfConcat(a: string, b: string)
    ensures Dots(a + b) == Dots(a) + Dots(b)
  {
    if a == [] {
      assert a + b == b;
    } else {
      assert (a + b)[1..] == a[1..] + b;
      DotsOfConcat(a[1..], b);
    }
  }

  lemma {:induction false} NoDots(s: string)
    requires !Walkable(s)
    ensures Dots(s) == 0
  {
    if s != [] {
      NoDots(s[1..]);
    }
  }

  /** A name has one part more than dots. */
  lemma {:induction false} DotsAndComponents(s: string)
    ensures |Components(s)| == Dots(s) + 1
    decreases |s|
  {
    if Walkable(s) {
      assert s == (Root(s) + [DOT]) + WithoutRoot(s);
      DotsOfConcat(Root(s) + [DOT], WithoutRoot(s));
      DotsOfConcat(Root(s), [DOT]);
      NoDots(Root(s));
      assert Dots([DOT]) == 1;
      DotsAndComponents(WithoutRoot(s));
    } else {
      NoDots(s);
    }
  }

  /** Splitting at the last dot takes off the last part. */
  lemma {:induction false} PathAndProperty(s: string)
    requires Walkable(s)
    ensures Components(s) == Components(Path(s)) + [Property(s)]
    decreases |s|
  {
    hide FirstDot, AfterLastDot;
    var rest := WithoutRoot(s);
    if Walkable(rest) {
      PathAndProperty(rest);
      LastDotOfRest(s);
      RootOfPath(s);
    } else {
      OnlyDot(s);
    }
  }

  lemma FirstDotIs(s: string, i: nat)
    requires i < |s| && s[i] == DOT && forall k :: 0 <= k < i ==> s[k] != DOT
    ensures FirstDot(s) == i
  {
    hide FirstDot;
  }

  lemma LastDotIs(s: string, i: nat)
    requires 0 < i <= |s| && s[i - 1] == DOT && forall k :: i <= k < |s| ==> s[k] != DOT
    ensures AfterLastDot(s) == i
  {
    hide AfterLastDot;
  }

  /** With two dots, the last one is in the rest after the first one. */
  lemma LastDotOfRest(s: string)
    requires Walkable(s) && Walkable(WithoutRoot(s))
    ensures AfterLastDot(s) == FirstDot(s) + 1 + AfterLastDot(WithoutRoot(s))
    ensures Property(s) == Property(WithoutRoot(s))
  {
    hide FirstDot, AfterLastDot;
    var i, rest := FirstDot(s), WithoutRoot(s);
    var j := i + 1 + AfterLastDot(rest);
    assert forall k :: j <= k < |s| ==> s[k] == rest[k - (i + 1)];
    assert s[j - 1] == rest[j - 1 - (i + 1)];
    LastDotIs(s, j);
  }

  lemma Slices(s: string, i: nat, m: nat)
    requires i < m <= |s|
    ensures s[..m][i] == s[i] && s[..m][..i] == s[..i] && s[..m][i + 1..] == s[i + 1..][..m - (i + 1)]
  {
  }

  lemma FirstDotOfSlice(s: string, m: nat)
    requires Walkable(s) && FirstDot(s) < m <= |s|
    ensures Walkable(s[..m]) && FirstDot(s[..m]) == FirstDot(s)
  {
    hide FirstDot;
    assert s[..m][FirstDot(s)] == DOT;
    FirstDotIs(s[..m], FirstDot(s));
  }

  lemma RootOfPath(s: string)
    requires Walkable(s) && Walkable(WithoutRoot(s))
    requires AfterLastDot(s) == FirstDot(s) + 1 + AfterLastDot(WithoutRoot(s))
    ensures Walkable(Path(s)) && Root(Path(s)) == Root(s) && WithoutRoot(Path(s)) == Path(WithoutRoot(s))
  {
    hide FirstDot, AfterLastDot, Walkable;
    var m := AfterLastDot(s) - 1;
    FirstDotOfSlice(s, m);
    Slices(s, FirstDot(s), m);
  }

  lemma OnlyDot(s: string)
    requires Walkable(s) && !Walkable(WithoutRoot(s))
    ensures AfterLastDot(s) == FirstDot(s) + 1 && !Walkable(Path(s))
    ensures Path(s) == Root(s) && Property(s) == WithoutRoot(s)
  {
    hide FirstDot, AfterLastDot;
    var i, rest := FirstDot(s), WithoutRoot(s);
    assert forall k :: i + 1 <= k < |s| ==> s[k] == rest[k - (i + 1)];
    LastDotIs(s, i + 1);
  }
}
