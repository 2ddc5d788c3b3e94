/**
 Builds inherit from earlier builds (darwinxref/DBDataStore.c).  The code follows the "inherits"
 property until a build has none.
 */
module Inheritance {
  import opened TextOrder
  import opened Wrappers

  type Build = string

  type Inherits = map<Build, Build>

  /** The build n steps up from a build, if inheritance goes that far. */
  function Ancestor(inherits: Inherits, build: Build, n: nat): Option<Build>
    decreases n
  {
    if n == 0 then Some(build)
    else if build in inherits then Ancestor(inherits, inherits[build], n - 1)
    else None
  }

  /** Going up never returns to a build already seen. */
  ghost predicate LoopFree(inherits: Inherits, build: Build) {
    forall i: nat, j: nat :: i < j && Ancestor(inherits, build, j).Some? ==>
      Ancestor(inherits, build, i) != Ancestor(inherits, build, j)
  }

  lemma {:induction false} AncestorAdds(inherits: Inherits, build: Build, n: nat, m: nat)
    ensures Ancestor(inherits, build, n).None? ==> Ancestor(inherits, build, n + m).None?
    ensures Ancestor(inherits, build, n).Some? ==>
      Ancestor(inherits, build, n + m) == Ancestor(inherits, Ancestor(inherits, build, n).value, m)
    decreases n
  {
    if n == 0 || build !in inherits {
    } else {
      AncestorAdds(inherits, inherits[build], n - 1, m);
    }
  }

  /** Two equal ancestors make the chain repeat, so it never ends. */
  lemma {:induction false} LoopNeverEnds(inherits: Inherits, build: Build, i: nat, j: nat, n: nat)
    requires i < j && Ancestor(inherits, build, j).Some?
    requires Ancestor(inherits, build, i) == Ancestor(inherits, build, j)
    ensures Ancestor(inherits, build, n).Some?
    decreases n
  {
    if n <= j {
      AncestorAdds(inherits, build, n, j - n);
    } else {
      LoopNeverEnds(inherits, build, i, j, i + (n - j));
      AncestorAdds(inherits, build, i, n - j);
      AncestorAdds(inherits, build, j, n - j);
    }
  }

  function Ancestors(inherits: Inherits, build: Build, n: nat): (builds: seq<Option<Build>>)
    ensures |builds| == n
    ensures forall i :: 0 <= i < n ==> builds[i] == Ancestor(inherits, build, i)
  {
    seq(n, i requires 0 <= i => Ancestor(inherits, build, i))
  }

  lemma AncestorIsKnown(inherits: Inherits, build: Build, n: nat)
    requires Ancestor(inherits, build, n).Some?
    ensures Ancestor(inherits, build, n).value in inherits.Values + {build}
    decreases n
  {
    if n == 0 {
    } else {
      AncestorIsKnown(inherits, inherits[build], n - 1);
    }
  }

  lemma {:induction false} SetOfSome(s: set<Build>, t: set<Option<Build>>)
    requires t == set b | b in s :: Some(b)
    ensures |t| == |s|
    decreases s
  {
    if s == {} {
    } else {
      var b :| b in s;
      SetOfSome(s - {b}, set c | c in s - {b} :: Some(c));
      assert t == (set c | c in s - {b} :: Some(c)) + {Some(b)};
    }
  }

  function Bound(inherits: Inherits): nat {
    |inherits.Values| + 1
  }

  lemma ChainEnds(inherits: Inherits, build: Build) returns (n: nat)
    requires LoopFree(inherits, build)
    ensures n <= Bound(inherits) && Ancestor(inherits, build, n).None?
  {
    var known := set b | b in inherits.Values + {build} :: Some(b);
    SetOfSome(inherits.Values + {build}, known);
    n := |known|;
    if Ancestor(inherits, build, n).Some? {
      var seen := Ancestors(inherits, build, n + 1);
      forall i | 0 <= i <= n
        ensures seen[i] in known && seen[i].Some?
      {
        AncestorAdds(inherits, build, i, n - i);
        AncestorIsKnown(inherits, build, i);
      }
      assert Distinct(seen);
      DistinctFits(seen, known);
    }
  }

  /** Following "inherits" ends exactly when it never returns to a build already seen. */
  lemma EndsExactlyWhenLoopFree(inherits: Inherits, build: Build)
    ensures LoopFree(inherits, build) <==> exists n: nat :: Ancestor(inherits, build, n).None?
  {
    if n: nat :| Ancestor(inherits, build, n).None? {
      forall i: nat, j: nat | i < j && Ancestor(inherits, build, j).Some?
        ensures Ancestor(inherits, build, i) != Ancestor(inherits, build, j)
      {
        if Ancestor(inherits, build, i) == Ancestor(inherits, build, j) {
          LoopNeverEnds(inherits, build, i, j, n);
        }
      }
    }
    if LoopFree(inherits, build) {
      var n := ChainEnds(inherits, build);
    }
  }

  function Within(inherits: Inherits, build: Build, n: nat): (chain: seq<Build>)
    ensures forall i :: 0 <= i < |chain| ==> Ancestor(inherits, build, i) == Some(chain[i])
    ensures |chain| <= n && (|chain| < n ==> Ancestor(inherits, build, |chain|).None?)
    decreases n
  {
    if n == 0 then []
    else if build in inherits then [build] + Within(inherits, inherits[build], n - 1)
    else [build]
  }

  lemma ChainIsDistinct(inherits: Inherits, build: Build)
    requires LoopFree(inherits, build)
    ensures var chain := Within(inherits, build, Bound(inherits));
      Distinct(chain) && Ancestor(inherits, build, |chain|).None?
  {
    var chain := Within(inherits, build, Bound(inherits));
    var n := ChainEnds(inherits, build);
    AncestorAdds(inherits, build, n, Bound(inherits) - n);
    forall i, j | 0 <= i < j < |chain|
      ensures chain[i] != chain[j]
    {
      assert Ancestor(inherits, build, i) != Ancestor(inherits, build, j);
    }
  }

  /** The builds from the given one up, youngest first. */
  ghost function Chain(inherits: Inherits, build: Build): (chain: seq<Build>)
    requires LoopFree(inherits, build)
    ensures chain != [] && chain[0] == build && Distinct(chain)
    ensures forall i :: 0 <= i < |chain| ==> Ancestor(inherits, build, i) == Some(chain[i])
    ensures Ancestor(inherits, build, |chain|).None?
  {
    ChainIsDistinct(inherits, build);
    Within(inherits, build, Bound(inherits))
  }

  function Parent(inherits: Inherits, build: Build): Option<Build> {
    if build in inherits then Some(inherits[build]) else None
  }

  /** Each build of the list inherits from the next one, and the last from none. */
  ghost predicate Climbs(inherits: Inherits, chain: seq<Build>) {
    && chain != []
    && (forall i, j :: 0 <= i < j < |chain| && j == i + 1 ==> Parent(inherits, chain[i]) == Some(chain[j]))
    && Parent(inherits, chain[|chain| - 1]).None?
  }

  lemma OneUp(inherits: Inherits, start: Build, i: nat)
    requires Ancestor(inherits, start, i).Some?
    ensures var build := Ancestor(inherits, start, i).value;
      Ancestor(inherits, start, i + 1) == Parent(inherits, build)
  {
    AncestorAdds(inherits, start, i, 1);
    var build := Ancestor(inherits, start, i).value;
    if build in inherits {
      assert Ancestor(inherits, inherits[build], 0) == Some(inherits[build]);
    }
  }

  lemma Link(inherits: Inherits, start: Build, chain: seq<Build>, i: nat, j: nat)
    requires forall k :: 0 <= k < |chain| ==> Ancestor(inherits, start, k) == Some(chain[k])
    requires j < |chain| && j == i + 1
    ensures Parent(inherits, chain[i]) == Some(chain[j])
  {
    OneUp(inherits, start, i);
    assert Ancestor(inherits, start, i) == Some(chain[i]) && Ancestor(inherits, start, j) == Some(chain[j]);
  }

  lemma Top(inherits: Inherits, start: Build, chain: seq<Build>)
    requires chain != [] && Ancestor(inherits, start, |chain|).None?
    requires forall k :: 0 <= k < |chain| ==> Ancestor(inherits, start, k) == Some(chain[k])
    ensures Parent(inherits, chain[|chain| - 1]).None?
  {
    var last := |chain| - 1;
    OneUp(inherits, start, last);
    assert Ancestor(inherits, start, last) == Some(chain[last]);
    assert last + 1 == |chain|;
  }

  lemma ChainClimbs(inherits: Inherits, start: Build)
    requires LoopFree(inherits, start)
    ensures Climbs(inherits, Chain(inherits, start))
  {
    var chain := Chain(inherits, start);
    forall i, j | 0 <= i < j < |chain| && j == i + 1
      ensures Parent(inherits, chain[i]) == Some(chain[j])
    {
      Link(inherits, start, chain, i, j);
    }
    Top(inherits, start, chain);
  }

  lemma StepUp(inherits: Inherits, chain: seq<Build>, i: nat)
    requires Climbs(inherits, chain) && i < |chain|
    ensures Parent(inherits, chain[i]) == if i + 1 < |chain| then Some(chain[i + 1]) else None
  {
    if i + 1 < |chain| {
      assert Parent(inherits, chain[i]) == Some(chain[i + 1]);
    }
  }

  function Reversed<T>(list: seq<T>): (r: seq<T>)
    ensures |r| == |list|
    ensures forall i :: 0 <= i < |list| ==> r[i] == list[|list| - 1 - i]
  {
    if list == [] then [] else Reversed(list[1..]) + [list[0]]
  }

  /** The builds from the oldest ancestor down to the given one. */
  method CopyBuildInheritance(inherits: Inherits, param: Build) returns (builds: seq<Build>)
    requires LoopFree(inherits, param)
    ensures builds == Reversed(Chain(inherits, param))
  {
    ghost var chain := Chain(inherits, param);
    ChainClimbs(inherits, param);
    var build := param;
    builds := [build];
    ghost var i: nat := 0;
    while build in inherits
      invariant i < |chain| && build == chain[i]
      invariant |builds| == i + 1 && forall k :: 0 <= k <= i ==> builds[k] == chain[i - k]
      decreases |chain| - i
    {
      StepUp(inherits, chain, i);
      build := inherits[build];
      builds := [build] + builds;
      i := i + 1;
    }
    StepUp(inherits, chain, i);
  }
}
