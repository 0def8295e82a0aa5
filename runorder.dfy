/**
 The run-order library: a dependency map from each job to the jobs it
 depends on is split into waves, each wave holding the jobs whose
 dependencies were all emitted in earlier waves. Mutual (two-job) references
 are rejected up front; longer cycles are not looked for.
 */
module RunOrder {
  import opened Slices

  /** A job's name mapped to the list of jobs it depends on. */
  type Graph = map<string, seq<string>>

  datatype Option<T> = None | Some(value: T)

  /** The error New reports: `job` depends on `dependency` and the other way round. */
  datatype Error = CircularReference(job: string, dependency: string)

  datatype Result<T> = Ok(value: T) | Err(error: Error)

  /**
   The outcome of the wave computation. `Stalled` stands for the run in which
   the map is not empty and no job is ready: the code then recurses on an
   unchanged map and never returns.
   */
  datatype Run<W> = Done(waves: seq<W>) | Stalled

  // ---------------------------------------------------------------------
  // Specification of deleteReference
  // ---------------------------------------------------------------------

  /**
   A dependency list after deleteReference with the references `refs`: the
   first occurrence of each reference is dropped, later ones stay.
   */
  function StripFirst(l: seq<string>, refs: set<string>): seq<string>
  {
    if l == [] then []
    else if l[0] in refs then StripFirst(l[1..], refs - {l[0]})
    else [l[0]] + StripFirst(l[1..], refs)
  }

  /** The map after deleteReference with `refs`: those keys go, every list is stripped. */
  function DeleteRefs(m: Graph, refs: set<string>): Graph
  {
    map k | k in m && k !in refs :: StripFirst(m[k], refs)
  }

  /** With no references nothing is dropped. */
  lemma {:induction false} StripFirstNone(l: seq<string>)
    ensures StripFirst(l, {}) == l
  {
    if l != [] {
      StripFirstNone(l[1..]);
    }
  }

  /**
   Stripping one more reference `x` is removing the first occurrence of `x`
   from the list stripped so far: the references can be dropped one by one,
   in any order, as deleteReference's inner loop does.
   */
  lemma {:induction false} StripFirstStep(l: seq<string>, refs: set<string>, x: string)
    requires x !in refs
    ensures StripFirst(l, refs + {x}) == RemoveFirst(StripFirst(l, refs), x)
  {
    if l != [] {
      if l[0] == x {
        assert (refs + {x}) - {x} == refs;
      } else if l[0] in refs {
        assert (refs + {x}) - {l[0]} == (refs - {l[0]}) + {x};
        StripFirstStep(l[1..], refs - {l[0]}, x);
      } else {
        StripFirstStep(l[1..], refs, x);
      }
    }
  }

  /** An entry that is not a reference survives, and nothing new appears. */
  lemma {:induction false} StripFirstKeeps(l: seq<string>, refs: set<string>, x: string)
    requires x !in refs
    ensures x in StripFirst(l, refs) <==> x in l
  {
    if l != [] {
      if l[0] in refs {
        StripFirstKeeps(l[1..], refs - {l[0]}, x);
      } else {
        StripFirstKeeps(l[1..], refs, x);
      }
    }
  }

  /**
   Exactly one copy of each reference the list contains is lost; every other
   count is unchanged.
   */
  lemma {:induction false} StripFirstCounts(l: seq<string>, refs: set<string>, x: string)
    ensures multiset(StripFirst(l, refs))[x]
         == if x in refs && x in l then multiset(l)[x] - 1 else multiset(l)[x]
  {
    if l != [] {
      assert l == [l[0]] + l[1..];
      if l[0] in refs {
        StripFirstCounts(l[1..], refs - {l[0]}, x);
      } else {
        StripFirstCounts(l[1..], refs, x);
      }
    }
  }

  /** A list that mentions none of the references is left as it is. */
  lemma {:induction false} StripFirstAbsent(l: seq<string>, refs: set<string>)
    requires refs !! Elems(l)
    ensures StripFirst(l, refs) == l
  {
    if l != [] {
      assert l[0] in Elems(l);
      StripFirstAbsent(l[1..], refs);
    }
  }

  /** A list without duplicates ends up free of every reference. */
  lemma {:induction false} StripFirstDistinct(l: seq<string>, refs: set<string>)
    requires NoDuplicates(l)
    ensures Elems(StripFirst(l, refs)) == Elems(l) - refs
  {
    if l != [] {
      var rest := l[1..];
      assert NoDuplicates(rest);
      forall j | 0 <= j < |rest| ensures rest[j] != l[0] {
        assert rest[j] == l[j + 1];
      }
      assert Elems(l) == {l[0]} + Elems(rest);
      if l[0] in refs {
        StripFirstDistinct(rest, refs - {l[0]});
      } else {
        StripFirstDistinct(rest, refs);
        assert StripFirst(l, refs) == [l[0]] + StripFirst(rest, refs);
        assert Elems([l[0]] + StripFirst(rest, refs)) == {l[0]} + Elems(StripFirst(rest, refs));
      }
    }
  }

  /**
   deleteReference's effect on the map, for distinct references: no reference
   remains a key, every other key stays with its list stripped, and when no
   reference occurs anywhere the map is unchanged.
   */
  lemma DeleteRefsEffect(m: Graph, refs: set<string>)
    ensures DeleteRefs(m, refs).Keys == m.Keys - refs
    ensures forall k | k in m && k !in refs ::
              DeleteRefs(m, refs)[k] == StripFirst(m[k], refs)
    ensures (refs !! m.Keys && forall k | k in m :: refs !! Elems(m[k])) ==>
              DeleteRefs(m, refs) == m
  {
    if refs !! m.Keys && forall k | k in m :: refs !! Elems(m[k]) {
      forall k | k in m ensures StripFirst(m[k], refs) == m[k] {
        StripFirstAbsent(m[k], refs);
      }
    }
  }

  /** Deleting a non-empty set of keys shrinks the map. */
  lemma DeleteRefsShrinks(m: Graph, refs: set<string>)
    requires refs != {} && refs <= m.Keys
    ensures |DeleteRefs(m, refs)| < |m|
  {
    var rest := DeleteRefs(m, refs);
    assert rest.Keys == m.Keys - refs;
    assert m.Keys == rest.Keys + refs;
    assert rest.Keys !! refs;
    assert |m.Keys| == |rest.Keys| + |refs|;
  }

  // ---------------------------------------------------------------------
  // Specification of calculate
  // ---------------------------------------------------------------------

  /** The jobs whose dependency list is empty (a nil list is an empty one). */
  function Ready(m: Graph): set<string>
  {
    set k | k in m && |m[k]| == 0
  }

  /** All jobs named in some wave. */
  function Union(ws: seq<set<string>>): set<string>
  {
    if ws == [] then {} else ws[0] + Union(ws[1..])
  }

  /**
   The waves calculate emits on `m`: the ready jobs, then the waves of the map
   with those jobs deleted, until the map is empty; `Stalled` when a
   non-empty map has no ready job.
   */
  function Waves(m: Graph): Run<set<string>>
    decreases |m|
  {
    if |m| == 0 then Done([])
    else
      var ready := Ready(m);
      if ready == {} then Stalled
      else
        DeleteRefsShrinks(m, ready);
        match Waves(DeleteRefs(m, ready))
        case Stalled => Stalled
        case Done(rest) => Done([ready] + rest)
  }

  /**
   A finished run covers exactly the keys of the input, has no empty wave and
   so at most one wave per key.
   */
  lemma {:induction false} WavesShape(m: Graph)
    requires Waves(m).Done?
    ensures Union(Waves(m).waves) == m.Keys
    ensures |Waves(m).waves| <= |m|
    ensures forall i | 0 <= i < |Waves(m).waves| :: Waves(m).waves[i] != {}
    decreases |m|
  {
    if |m| > 0 {
      var ready := Ready(m);
      var next := DeleteRefs(m, ready);
      DeleteRefsShrinks(m, ready);
      WavesShape(next);
      var ws := Waves(m).waves;
      var rest := Waves(next).waves;
      assert ws == [ready] + rest;
      assert ws[1..] == rest;
    }
  }

  /**
   One step of calculate: an empty map gives no waves; otherwise the first
   wave is exactly the ready set, and the remaining waves are those of the map
   whose keys are the old keys minus that wave.
   */
  lemma WavesStep(m: Graph)
    ensures |m| == 0 ==> Waves(m) == Done([])
    ensures |m| > 0 && Ready(m) == {} ==> Waves(m) == Stalled
    ensures |m| > 0 && Waves(m).Done? ==>
              && Waves(m).waves[0] == Ready(m)
              && DeleteRefs(m, Ready(m)).Keys == m.Keys - Waves(m).waves[0]
              && Waves(DeleteRefs(m, Ready(m))) == Done(Waves(m).waves[1..])
  {
  }

  /** Every wave is part of the union of all waves. */
  lemma {:induction false} UnionContains(ws: seq<set<string>>, i: int)
    requires 0 <= i < |ws|
    ensures ws[i] <= Union(ws)
  {
    if i > 0 {
      UnionContains(ws[1..], i - 1);
    }
  }

  /** A job is in the union exactly when some wave holds it. */
  lemma {:induction false} UnionMembership(ws: seq<set<string>>, x: string)
    ensures x in Union(ws) <==> exists i :: 0 <= i < |ws| && x in ws[i]
  {
    if ws != [] {
      UnionMembership(ws[1..], x);
      if x in Union(ws[1..]) {
        var i :| 0 <= i < |ws[1..]| && x in ws[1..][i];
        assert x in ws[i + 1];
      }
      if exists i :: 0 <= i < |ws| && x in ws[i] {
        var i :| 0 <= i < |ws| && x in ws[i];
        if i > 0 {
          assert x in ws[1..][i - 1];
        }
      }
    }
  }

  /** A finished run on a non-empty map is its ready set followed by the run on the rest. */
  lemma WavesUnfold(m: Graph)
    requires |m| > 0 && Waves(m).Done?
    ensures Ready(m) != {} && Waves(DeleteRefs(m, Ready(m))).Done?
    ensures Waves(m).waves == [Ready(m)] + Waves(DeleteRefs(m, Ready(m))).waves
  {
  }

  /** A map with a ready job runs as its ready set followed by the run on the rest. */
  lemma WavesNext(m: Graph)
    requires |m| > 0 && Ready(m) != {}
    ensures Waves(m).Stalled? == Waves(DeleteRefs(m, Ready(m))).Stalled?
    ensures Waves(m).Done? ==>
              Waves(m).waves == [Ready(m)] + Waves(DeleteRefs(m, Ready(m))).waves
  {
  }

  /** When calculate finishes, every key of the input is in some wave. */
  lemma WavesCoverKeys(m: Graph, k: string)
    requires Waves(m).Done? && k in m
    ensures exists i :: 0 <= i < |Waves(m).waves| && k in Waves(m).waves[i]
  {
    WavesShape(m);
    UnionMembership(Waves(m).waves, k);
  }

  /** When calculate finishes, no job is in two waves. */
  lemma {:induction false} WavesDisjoint(m: Graph)
    requires Waves(m).Done?
    ensures forall i, j | 0 <= i < j < |Waves(m).waves| :: Waves(m).waves[i] !! Waves(m).waves[j]
    decreases |m|
  {
    if |m| > 0 {
      var ws := Waves(m).waves;
      var ready := Ready(m);
      var next := DeleteRefs(m, ready);
      WavesUnfold(m);
      DeleteRefsShrinks(m, ready);
      WavesDisjoint(next);
      var rest := Waves(next).waves;
      WavesShape(next);
      forall i, j | 0 <= i < j < |ws| ensures ws[i] !! ws[j] {
        if i == 0 {
          UnionContains(rest, j - 1);
        } else {
          assert ws[i] == rest[i - 1] && ws[j] == rest[j - 1];
        }
      }
    }
  }

  /**
   Dependencies come first: every entry of a job's list lies in a wave before
   the job's own.
   */
  ghost predicate PrecedesDependents(m: Graph, ws: seq<set<string>>)
  {
    forall j, a, b | 0 <= j < |ws| && a in ws[j] && a in m && b in m[a] ::
      exists i :: 0 <= i < j && b in ws[i]
  }

  /** One job's entries, in the inductive step of WavesRespectDependencies. */
  lemma DependencyEarlier(m: Graph, ws: seq<set<string>>, rest: seq<set<string>>,
                          j: int, a: string, b: string)
    requires |m| > 0 && ws == [Ready(m)] + rest
    requires Union(rest) == DeleteRefs(m, Ready(m)).Keys
    requires PrecedesDependents(DeleteRefs(m, Ready(m)), rest)
    requires 0 <= j < |ws| && a in ws[j] && a in m && b in m[a]
    ensures exists i :: 0 <= i < j && b in ws[i]
  {
    var ready := Ready(m);
    var next := DeleteRefs(m, ready);
    if j > 0 {
      assert a in rest[j - 1];
      UnionContains(rest, j - 1);
      assert a in next && next[a] == StripFirst(m[a], ready);
      if b in ready {
        assert b in ws[0];
      } else {
        StripFirstKeeps(m[a], ready, b);
        assert b in next[a];
        var i :| 0 <= i < j - 1 && b in rest[i];
        assert b in ws[i + 1];
      }
    }
  }

  /**
   When calculate finishes, every entry of job A's list sits in a strictly
   earlier wave than A.
   */
  lemma {:induction false} WavesRespectDependencies(m: Graph)
    requires Waves(m).Done?
    ensures PrecedesDependents(m, Waves(m).waves)
    decreases |m|
  {
    if |m| > 0 {
      var ws := Waves(m).waves;
      var ready := Ready(m);
      var next := DeleteRefs(m, ready);
      WavesUnfold(m);
      DeleteRefsShrinks(m, ready);
      WavesRespectDependencies(next);
      WavesShape(next);
      var rest := Waves(next).waves;
      forall j, a, b | 0 <= j < |ws| && a in ws[j] && a in m && b in m[a]
        ensures exists i :: 0 <= i < j && b in ws[i]
      {
        DependencyEarlier(m, ws, rest, j, a, b);
      }
    }
  }

  /**
   When calculate finishes, every entry of a job's list is itself a key of
   the input: a dependency that is not a key makes the run stall.
   */
  lemma DependenciesAreKeys(m: Graph, a: string, b: string)
    requires Waves(m).Done? && a in m && b in m[a]
    ensures b in m
  {
    var ws := Waves(m).waves;
    WavesRespectDependencies(m);
    WavesCoverKeys(m, a);
    var j :| 0 <= j < |ws| && a in ws[j];
    var i :| 0 <= i < j && b in ws[i];
    UnionContains(ws, i);
    WavesShape(m);
  }

  // ---------------------------------------------------------------------
  // Specification of checkCircularReference
  // ---------------------------------------------------------------------

  /** The list of `r`, where a job that is not a key has the empty (nil) list. */
  function Lookup(m: Graph, r: string): seq<string>
  {
    if r in m then m[r] else []
  }

  /** `k` depends on `r` and `r` depends on `k` (with r == k, a self-dependency). */
  ghost predicate Mutual(m: Graph, k: string, r: string)
  {
    k in m && r in m[k] && k in Lookup(m, r)
  }

  ghost predicate HasCircularReference(m: Graph)
  {
    exists k, r :: Mutual(m, k, r)
  }

  /** A job that lists itself is a circular reference. */
  lemma SelfDependencyIsCircular(m: Graph, k: string)
    requires k in m && k in m[k]
    ensures HasCircularReference(m)
  {
    assert Mutual(m, k, k);
  }

  /**
   A mutual pair never becomes ready, so calculate would stall on it: the
   up-front check only rejects maps calculate could not finish.
   */
  lemma {:induction false} CircularReferenceStalls(m: Graph, k: string, r: string)
    requires Mutual(m, k, r)
    ensures Waves(m).Stalled?
    decreases |m|
  {
    var ready := Ready(m);
    assert r in m;
    assert k !in ready && r !in ready;
    if ready != {} {
      var next := DeleteRefs(m, ready);
      StripFirstKeeps(m[k], ready, r);
      StripFirstKeeps(m[r], ready, k);
      assert Mutual(next, k, r);
      DeleteRefsShrinks(m, ready);
      CircularReferenceStalls(next, k, r);
    }
  }

  // ---------------------------------------------------------------------
  // Worked cases from the repository's tests
  // ---------------------------------------------------------------------

  /** A job depending on one declared leaf runs after it. */
  lemma ExampleLeaf()
    ensures Waves(map["a" := ["b"], "b" := []]) == Done([{"b"}, {"a"}])
  {
    var m1 := map["a" := ["b"], "b" := []];
    var m2 := map["a" := []];
    assert Waves(m2) == Done([{"a"}]) by {
      assert Ready(m2) == {"a"};
      assert DeleteRefs(m2, {"a"}) == map[];
      WavesNext(m2);
    }
    assert Ready(m1) == {"b"};
    assert DeleteRefs(m1, {"b"}) == m2 by {
      assert StripFirst(["b"], {"b"}) == [];
      assert DeleteRefs(m1, {"b"}).Keys == m2.Keys;
    }
    WavesNext(m1);
  }

  /** A chain a -> b -> c runs c first, then b, then a. */
  lemma ExampleChain()
    ensures Waves(map["a" := ["b"], "b" := ["c"], "c" := []]) == Done([{"c"}, {"b"}, {"a"}])
  {
    var m0 := map["a" := ["b"], "b" := ["c"], "c" := []];
    var m1 := map["a" := ["b"], "b" := []];
    assert Ready(m0) == {"c"};
    assert DeleteRefs(m0, {"c"}) == m1 by {
      assert StripFirst(["b"], {"c"}) == ["b"];
      assert StripFirst(["c"], {"c"}) == [];
      assert DeleteRefs(m0, {"c"}).Keys == m1.Keys;
    }
    ExampleLeaf();
    WavesNext(m0);
  }

  /** A dependency that is not itself a key never becomes ready: the run stalls. */
  lemma ExampleUndeclaredDependency()
    ensures Waves(map["a" := ["b"]]).Stalled?
  {
    assert Ready(map["a" := ["b"]]) == {};
  }

  /** deleteReference drops only the first of two equal entries. */
  lemma ExampleDeleteKeepsDuplicate()
    ensures DeleteRefs(map["a" := ["b"], "b" := ["c", "c"], "c" := []], {"c"})
         == map["a" := ["b"], "b" := ["c"]]
  {
    var m0 := map["a" := ["b"], "b" := ["c", "c"], "c" := []];
    assert StripFirst(["b"], {"c"}) == ["b"];
    assert StripFirst(["c", "c"], {"c"}) == ["c"];
    assert DeleteRefs(m0, {"c"}).Keys == {"a", "b"};
  }

  /** So a job that lists a dependency twice keeps one copy and the run stalls. */
  lemma ExampleDuplicateDependency()
    ensures Waves(map["a" := ["b", "b"], "b" := []]).Stalled?
  {
    var m0 := map["a" := ["b", "b"], "b" := []];
    assert Ready(m0) == {"b"};
    var m1 := map["a" := ["b"]];
    assert StripFirst(["b", "b"], {"b"}) == ["b"];
    assert DeleteRefs(m0, {"b"}) == m1;
    assert Ready(m1) == {};
  }

  /** Two jobs that list each other are a circular reference. */
  lemma ExampleMutual()
    ensures HasCircularReference(map["a" := ["b"], "b" := ["a"]])
  {
    assert Mutual(map["a" := ["b"], "b" := ["a"]], "a", "b");
  }

  /** A three-job cycle passes the circular-reference check and then stalls. */
  lemma ExampleLongerCycle()
    ensures !HasCircularReference(map["a" := ["b"], "b" := ["c"], "c" := ["a"]])
    ensures Waves(map["a" := ["b"], "b" := ["c"], "c" := ["a"]]).Stalled?
  {
    var m := map["a" := ["b"], "b" := ["c"], "c" := ["a"]];
    forall k, r | k in m && r in m[k] ensures k !in Lookup(m, r) {
      assert k == "a" || k == "b" || k == "c";
    }
    assert Ready(m) == {};
  }

  // ---------------------------------------------------------------------
  // Pure operations
  // ---------------------------------------------------------------------

  /**
   checkCircularReference: scans every job and every entry of its list and
   reports the first mutual pair met, in map iteration order.
   */
  method CheckCircularReference(m: Graph) returns (err: Option<Error>)
    ensures err.None? <==> !HasCircularReference(m)
    ensures err.Some? ==> Mutual(m, err.value.job, err.value.dependency)
  {
    var todo := m.Keys;
    while todo != {}
      invariant todo <= m.Keys
      invariant forall k, r | Mutual(m, k, r) :: k in todo
      decreases todo
    {
      var k :| k in todo;
      var v := m[k];
      for j := 0 to |v|
        invariant forall r | r in v[..j] :: k !in Lookup(m, r)
      {
        var r := v[j];
        var i := IndexOf(Lookup(m, r), k);
        if i > -1 {
          assert Mutual(m, k, r);
          return Some(CircularReference(k, r));
        }
      }
      assert v[..|v|] == v;
      todo := todo - {k};
    }
    return None;
  }

  /** cp: a new map with the same keys and lists. */
  method Copy(m: Graph) returns (c: Graph)
    ensures c == m
  {
    c := map[];
    var todo := m.Keys;
    while todo != {}
      invariant todo <= m.Keys
      invariant c.Keys == m.Keys - todo
      invariant forall k | k in c :: c[k] == m[k]
      decreases todo
    {
      var k :| k in todo;
      c := c[k := m[k]];
      todo := todo - {k};
    }
  }

  /** The waves in the opposite order. */
  function Reversed<T>(s: seq<T>): (r: seq<T>)
    ensures |r| == |s|
    ensures forall i | 0 <= i < |s| :: r[i] == s[|s| - 1 - i]
  {
    if s == [] then [] else Reversed(s[1..]) + [s[0]]
  }

  /** Reversing twice gives back the original order. */
  lemma ReversedInvolution<T>(s: seq<T>)
    ensures Reversed(Reversed(s)) == s
  {
  }

  /** Reverse: appends the waves from the last one down to the first. */
  method Reverse<T>(r: seq<T>) returns (reversed: seq<T>)
    ensures reversed == Reversed(r)
  {
    reversed := [];
    var i := |r| - 1;
    while i >= 0
      invariant -1 <= i < |r|
      invariant reversed == Reversed(r[i + 1..])
    {
      assert r[i..][1..] == r[i + 1..];
      reversed := reversed + [r[i]];
      i := i - 1;
    }
    assert r[0..] == r;
  }

  // ---------------------------------------------------------------------
  // The map the caller owns, and the operations that consume it
  // ---------------------------------------------------------------------

  /** Each wave's list of jobs, as a set. */
  function AsSets(ws: seq<seq<string>>): (r: seq<set<string>>)
    ensures |r| == |ws| && forall i | 0 <= i < |ws| :: r[i] == Elems(ws[i])
  {
    seq(|ws|, i requires 0 <= i < |ws| => Elems(ws[i]))
  }

  /**
   The run `run`, whose waves are lists in map iteration order, is the run
   `spec` with each wave a set: same outcome, same waves, no job twice in a wave.
   */
  ghost predicate Realizes(run: Run<seq<string>>, spec: Run<set<string>>)
  {
    match run
    case Stalled => spec.Stalled?
    case Done(ws) =>
      && spec == Done(AsSets(ws))
      && forall i | 0 <= i < |ws| :: NoDuplicates(ws[i])
  }

  /**
   The inner loop of deleteReference on one list: for each reference in turn,
   indexOf finds its first position in the list built so far and
   removeAtIndex drops it.
   */
  method StripList(v: seq<string>, refs: seq<string>) returns (t: seq<string>)
    requires NoDuplicates(refs)
    ensures t == StripFirst(v, Elems(refs))
  {
    t := v;
    StripFirstNone(v);
    assert Elems(refs[..0]) == {};
    for j := 0 to |refs|
      invariant t == StripFirst(v, Elems(refs[..j]))
    {
      var ref := refs[j];
      assert Elems(refs[..j + 1]) == Elems(refs[..j]) + {ref};
      assert ref !in Elems(refs[..j]) by {
        forall x | 0 <= x < j ensures refs[x] != ref {
        }
      }
      StripFirstStep(v, Elems(refs[..j]), ref);
      var i := IndexOf(t, ref);
      if i > -1 {
        RemoveFirstAt(t, ref, i);
        t := RemoveAtIndex(t, i);
      } else {
        RemoveFirstAbsent(t, ref);
      }
    }
    assert refs[..|refs|] == refs;
  }

  /**
   The scan at the head of calculate: the jobs whose list is empty, each once,
   in map iteration order.
   */
  method ReadyKeys(m: Graph) returns (n: seq<string>)
    ensures NoDuplicates(n)
    ensures Elems(n) == Ready(m)
  {
    n := [];
    var todo := m.Keys;
    while todo != {}
      invariant todo <= m.Keys
      invariant NoDuplicates(n)
      invariant Elems(n) == Ready(m) - todo
      decreases todo
    {
      var k :| k in todo;
      if |m[k]| == 0 {
        assert k !in Elems(n);
        assert Elems(n + [k]) == Elems(n) + {k};
        n := n + [k];
      }
      todo := todo - {k};
    }
  }

  /** The wave `n` followed by the waves of `rest`; a stalled rest stays stalled. */
  function Prepend(n: seq<string>, rest: Run<seq<string>>): Run<seq<string>>
  {
    match rest
    case Stalled => Stalled
    case Done(ws) => Done([n] + ws)
  }

  /** The inductive step of Calculate: emitting the ready jobs first realizes Waves. */
  lemma RealizesStep(m: Graph, n: seq<string>, rest: Run<seq<string>>)
    requires |m| > 0 && n != [] && NoDuplicates(n) && Elems(n) == Ready(m)
    requires Realizes(rest, Waves(DeleteRefs(m, Ready(m))))
    ensures Realizes(Prepend(n, rest), Waves(m))
  {
    assert n[0] in Ready(m);
    WavesNext(m);
    var next := Waves(DeleteRefs(m, Ready(m)));
    if rest.Done? {
      var ws := rest.waves;
      assert next == Done(AsSets(ws));
      assert Waves(m).waves == [Ready(m)] + AsSets(ws);
      var all := [n] + ws;
      assert AsSets(all) == [Elems(n)] + AsSets(ws);
      forall i | 0 <= i < |all| ensures NoDuplicates(all[i]) {
        if i > 0 {
          assert all[i] == ws[i - 1];
        }
      }
    }
  }

  /** A dependency map held by reference, as a Go map is. */
  class DependencyMap {
    var deps: Graph

    constructor (m: Graph)
      ensures deps == m
    {
      deps := m;
    }

    /**
     deleteReference: every list loses the first occurrence of each reference
     it holds, then the references are deleted as keys. The references are
     distinct, as calculate passes them.
     */
    method DeleteReference(refs: seq<string>)
      requires NoDuplicates(refs)
      modifies this
      ensures deps == DeleteRefs(old(deps), Elems(refs))
    {
      ghost var m0 := deps;
      ghost var gone := Elems(refs);
      var todo := deps.Keys;
      while todo != {}
        invariant deps.Keys == m0.Keys
        invariant todo <= deps.Keys
        invariant forall k | k in deps ::
                    deps[k] == if k in todo then m0[k] else StripFirst(m0[k], gone)
        decreases todo
      {
        var k :| k in todo;
        var t := StripList(deps[k], refs);
        deps := deps[k := t];
        todo := todo - {k};
      }
      for j := 0 to |refs|
        invariant deps.Keys == m0.Keys - Elems(refs[..j])
        invariant forall k | k in deps :: deps[k] == StripFirst(m0[k], gone)
      {
        assert Elems(refs[..j + 1]) == Elems(refs[..j]) + {refs[j]};
        deps := deps - {refs[j]};
      }
      assert refs[..|refs|] == refs;
      assert deps == DeleteRefs(m0, gone);
    }

    /**
     calculate: emits the ready jobs (in map iteration order) as one wave,
     deletes them with DeleteReference and recurses until the map is empty.
     A finished run leaves the map empty; a stalled one leaves a non-empty
     map with no ready job.
     */
    method Calculate() returns (run: Run<seq<string>>)
      modifies this
      ensures Realizes(run, Waves(old(deps)))
      ensures run.Done? ==> deps == map[]
      ensures run.Stalled? ==> |deps| > 0 && Ready(deps) == {}
      decreases |deps|
    {
      if |deps| == 0 {
        assert deps == map[];
        return Done([]);
      }
      var n := ReadyKeys(deps);
      if n == [] {
        // here the code deletes nothing and recurses on the same map forever
        assert Ready(deps) == {};
        return Stalled;
      }
      ghost var m := deps;
      assert n[0] in Elems(n);
      DeleteReference(n);
      DeleteRefsShrinks(m, Elems(n));
      var rest := Calculate();
      run := Prepend(n, rest);
      RealizesStep(m, n, rest);
    }
  }

  /**
   New: rejects a map with a mutual reference without touching it; otherwise
   computes the waves on a copy (`c`) or on the caller's own map, which a
   finished run leaves empty.
   */
  method New(g: DependencyMap, c: bool) returns (res: Result<Run<seq<string>>>)
    modifies g
    ensures res.Err? <==> HasCircularReference(old(g.deps))
    ensures res.Err? ==> Mutual(old(g.deps), res.error.job, res.error.dependency)
    ensures res.Err? ==> g.deps == old(g.deps)
    ensures res.Ok? ==> Realizes(res.value, Waves(old(g.deps)))
    ensures c ==> g.deps == old(g.deps)
    ensures !c && res.Ok? && res.value.Done? ==> g.deps == map[]
  {
    var err := CheckCircularReference(g.deps);
    if err.Some? {
      return Err(err.value);
    }
    if c {
      var copy := Copy(g.deps);
      var work := new DependencyMap(copy);
      var run := work.Calculate();
      return Ok(run);
    }
    var run := g.Calculate();
    return Ok(run);
  }
}
