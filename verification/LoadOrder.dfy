/** Ordering plugin providers so that required plugins load before their dependents. */
module LoadOrder {
  import opened Results
  import opened Sorting

  /** For each provider that has a manifest, the providers it requires, in order, as normalised
      catalog paths. Required providers need not have a manifest of their own. */
  type Requirements = map<string, seq<string>>

  // ---------- the requires relation ----------

  /** `p` requires `q`, and both have manifests. */
  ghost predicate Edge(m: Requirements, p: string, q: string) {
    p in m && q in m && q in m[p]
  }

  ghost predicate IsPath(m: Requirements, path: seq<string>) {
    path != [] && path[0] in m && forall k :: 0 <= k < |path| - 1 ==> Edge(m, path[k], path[k + 1])
  }

  ghost predicate Reach(m: Requirements, p: string, q: string) {
    exists path :: IsPath(m, path) && path[0] == p && path[|path| - 1] == q
  }

  ghost predicate HasCycle(m: Requirements) {
    exists path :: IsPath(m, path) && |path| >= 2 && path[0] == path[|path| - 1]
  }

  lemma ReachSelf(m: Requirements, p: string)
    requires p in m
    ensures Reach(m, p, p)
  {
    assert IsPath(m, [p]);
  }

  lemma ReachThroughEdge(m: Requirements, p: string, q: string, r: string)
    requires Edge(m, p, q) && Reach(m, q, r)
    ensures Reach(m, p, r)
  {
    var path :| IsPath(m, path) && path[0] == q && path[|path| - 1] == r;
    var longer := [p] + path;
    assert forall k :: 0 < k < |longer| - 1 ==> longer[k] == path[k - 1] && longer[k + 1] == path[k];
    assert IsPath(m, longer);
  }

  lemma {:induction false} PathStaysInClosedSet(m: Requirements, path: seq<string>, s: set<string>)
    requires IsPath(m, path) && path[0] in s
    requires forall p, q :: p in s && Edge(m, p, q) ==> q in s
    ensures path[|path| - 1] in s
  {
    if |path| > 1 {
      assert Edge(m, path[0], path[1]);
      var rest := path[1..];
      assert forall k :: 0 <= k < |rest| - 1 ==> rest[k] == path[k + 1];
      PathStaysInClosedSet(m, rest, s);
    }
  }

  // ---------- what a load order is ----------

  /** Every manifest-bearing provider occurs at most once. */
  ghost predicate NoRepeats(m: Requirements, ordered: seq<string>) {
    forall i, j :: 0 <= i < j < |ordered| && ordered[i] == ordered[j] ==> ordered[i] !in m
  }

  /** Whatever a listed provider requires is listed before it. */
  ghost predicate RequirementsFirst(m: Requirements, ordered: seq<string>) {
    forall i, q :: 0 <= i < |ordered| && Edge(m, ordered[i], q) ==> q in ordered[..i]
  }

  /** Built up from the front: each new provider is new and comes after its requirements. */
  ghost predicate IsLoadOrder(m: Requirements, ordered: seq<string>) {
    ordered == [] ||
    var front, last := ordered[..|ordered| - 1], ordered[|ordered| - 1];
    && IsLoadOrder(m, front)
    && (last in m ==> last !in front && forall q :: Edge(m, last, q) ==> q in front)
  }

  lemma {:induction false} LoadOrderMeans(m: Requirements, ordered: seq<string>)
    ensures IsLoadOrder(m, ordered) <==> NoRepeats(m, ordered) && RequirementsFirst(m, ordered)
  {
    if ordered != [] {
      var front, last := ordered[..|ordered| - 1], ordered[|ordered| - 1];
      LoadOrderMeans(m, front);
      assert forall i :: 0 <= i < |front| ==> front[i] == ordered[i] && front[..i] == ordered[..i];
      if NoRepeats(m, front) && RequirementsFirst(m, front) &&
        (last in m ==> last !in front && forall q :: Edge(m, last, q) ==> q in front) {
        forall i, q | 0 <= i < |ordered| && Edge(m, ordered[i], q)
          ensures q in ordered[..i]
        {
          if i == |front| { assert ordered[..i] == front; }
        }
      }
      if NoRepeats(m, ordered) && RequirementsFirst(m, ordered) {
        assert forall i, q :: 0 <= i < |front| && Edge(m, front[i], q) ==> q in front[..i];
        assert ordered[|front|] == last && ordered[..|front|] == front;
      }
    }
  }

  /** `ordered` is a load order of the visited providers, amid providers without manifests. */
  ghost predicate Listed(m: Requirements, ordered: seq<string>, visited: set<string>) {
    (forall p :: p in visited <==> p in m && p in ordered) && IsLoadOrder(m, ordered)
  }

  /** The providers being visited form a path, outermost first. */
  ghost predicate OnStack(m: Requirements, visiting: set<string>, stack: seq<string>) {
    && (forall p :: p in visiting <==> p in stack)
    && (stack != [] ==> IsPath(m, stack))
  }

  /** `p` is required, directly or not, by one of the roots, or is one. */
  ghost predicate ReachedFrom(m: Requirements, roots: seq<string>, p: string) {
    exists root :: root in roots && root in m && Reach(m, root, p)
  }

  /** The manifest-bearing providers of `ordered` are exactly those the roots reach. */
  ghost predicate ExactlyReached(m: Requirements, ordered: seq<string>, roots: seq<string>) {
    forall p :: p in m ==> (p in ordered <==> ReachedFrom(m, roots, p))
  }

  /** After the first `k` requested entries the list has got `cut` long. */
  ghost predicate CutAfter(m: Requirements, ordered: seq<string>, roots: seq<string>, k: nat, cut: nat)
    requires k <= |roots|
  {
    cut <= |ordered| && ExactlyReached(m, ordered[..cut], roots[..k])
  }

  /** At `cut` exactly what `required` reaches has been listed beyond the first `base`. */
  ghost predicate ReachedSince(m: Requirements, ordered: seq<string>, base: nat, required: seq<string>, cut: nat)
    requires base <= cut <= |ordered|
  {
    forall q :: q in m ==> (q in ordered[..cut] <==> q in ordered[..base] || ReachedFrom(m, required, q))
  }

  ghost predicate HasCutSince(m: Requirements, ordered: seq<string>, base: nat, required: seq<string>) {
    exists cut: nat :: base <= cut <= |ordered| && ReachedSince(m, ordered, base, required, cut)
  }

  ghost predicate CutsSince(m: Requirements, ordered: seq<string>, base: nat, required: seq<string>, n: nat) {
    forall k: nat :: k <= n && k <= |required| ==> HasCutSince(m, ordered, base, required[..k])
  }

  /** From some point before `p` the list grows requirement by requirement of `p`. */
  ghost predicate RequirementsInOrder(m: Requirements, ordered: seq<string>, p: string) {
    p in m && exists base: nat :: IsTurn(m, ordered, p, base)
  }

  /** The provider's turn came when `base` were listed. */
  ghost predicate IsTurn(m: Requirements, ordered: seq<string>, p: string, base: nat)
    requires p in m
  {
    base <= |ordered| && p !in ordered[..base] && CutsSince(m, ordered, base, m[p], |m[p]|)
  }

  ghost predicate AllInOrder(m: Requirements, ordered: seq<string>) {
    ordered == [] ||
    var front, last := ordered[..|ordered| - 1], ordered[|ordered| - 1];
    AllInOrder(m, front) && (last in m ==> RequirementsInOrder(m, front, last))
  }

  /** The listed providers that have no manifest, in order. */
  function WithoutManifests(m: Requirements, ordered: seq<string>): seq<string> {
    if ordered == [] then []
    else
      var last := ordered[|ordered| - 1];
      WithoutManifests(m, ordered[..|ordered| - 1]) + (if last in m then [] else [last])
  }

  // ---------- the depth-first walk ----------

  class Walk {
    const manifests: Requirements
    var ordered: seq<string>
    var visited: set<string>
    var visiting: set<string>
    /** The providers being visited, outermost first. */
    ghost var stack: seq<string>

    constructor (manifests: Requirements)
      ensures this.manifests == manifests && ordered == [] && visited == {} && visiting == {} && stack == []
      ensures Valid()
    {
      this.manifests := manifests;
      ordered, visited, visiting, stack := [], {}, {}, [];
    }

    ghost predicate Valid()
      reads this
    {
      && Listed(manifests, ordered, visited) && AllInOrder(manifests, ordered)
      && OnStack(manifests, visiting, stack) && visited !! visiting
    }

    lemma RevisitIsCycle(p: string)
      requires Valid() && p in visiting && Edge(manifests, stack[|stack| - 1], p)
      ensures HasCycle(manifests)
    {
      var k :| 0 <= k < |stack| && stack[k] == p;
      var path := stack[k..] + [p];
      assert forall i :: 0 <= i < |path| - 1 ==> Edge(manifests, path[i], path[i + 1]) by {
        forall i | 0 <= i < |path| - 1
          ensures Edge(manifests, path[i], path[i + 1])
        {
          if i < |path| - 2 {
            assert path[i] == stack[k + i] && path[i + 1] == stack[k + i + 1];
          }
        }
      }
      assert p in manifests;
      assert IsPath(manifests, path) && path[0] == path[|path| - 1];
    }

    /** `visiting.add(p)` */
    method Enter(p: string)
      requires Valid() && p in manifests && p !in visited && p !in visiting
      requires stack != [] ==> Edge(manifests, stack[|stack| - 1], p)
      modifies this`visiting, this`stack
      ensures Valid() && stack == old(stack) + [p] && visiting == old(visiting) + {p}
    {
      PushKeepsStack(manifests, visiting, stack, p);
      visiting := visiting + {p};
      stack := stack + [p];
    }

    /** `visiting.remove(p)`, and `p` is listed. */
    method Leave(p: string, ghost outer: seq<string>, ghost busy: set<string>, ghost earlier: set<string>,
        ghost start: seq<string>)
      requires Valid() && stack == outer + [p] && p !in outer && visiting == busy + {p} && p !in busy
      requires p in manifests && RequiredIn(manifests, p, visited)
      requires NewlyVisited(manifests, earlier, visited, p) && Grown(manifests, start, ordered)
      requires p !in start && CutsSince(manifests, ordered, |start|, manifests[p], |manifests[p]|)
      modifies this
      ensures Valid() && stack == outer && visiting == busy
      ensures visited == old(visited) + {p} && ordered == old(ordered) + [p]
      ensures NewlyVisited(manifests, earlier, visited, p) && Grown(manifests, start, ordered)
    {
      LeaveKeepsValid(manifests, ordered, visited, visiting, stack, p);
      LeaveAddsOne(manifests, start, ordered, earlier, visited, p);
      LeaveKeepsInOrder(manifests, start, ordered, p);
      visiting := visiting - {p};
      stack := stack[..|stack| - 1];
      visited := visited + {p};
      ordered := ordered + [p];
    }

    /** A requested provider without a manifest is listed as it is. */
    method AppendManifestless(p: string)
      requires Valid() && p !in manifests
      modifies this`ordered
      ensures Valid() && ordered == old(ordered) + [p]
      ensures WithoutManifests(manifests, ordered) == WithoutManifests(manifests, old(ordered)) + [p]
    {
      ordered := ordered + [p];
      assert ordered[..|ordered| - 1] == old(ordered);
      assert forall q :: q in manifests ==> (q in ordered <==> q in old(ordered));
    }

    /** Emits `p` after everything it requires; an error means a cycle. */
    method Visit(p: string) returns (r: Result<()>)
      requires Valid() && p in manifests
      requires stack != [] ==> Edge(manifests, stack[|stack| - 1], p)
      modifies this
      ensures r.Error? ==> HasCycle(manifests)
      ensures r.Ok? ==> Valid() && stack == old(stack) && visiting == old(visiting)
      ensures r.Ok? ==> p in visited && NewlyVisited(manifests, old(visited), visited, p)
      ensures r.Ok? ==> Grown(manifests, old(ordered), ordered)
      decreases manifests.Keys - visiting, 1
    {
      if p in visited {
        return Ok(());
      }
      if p in visiting {
        RevisitIsCycle(p);
        return Error("requires_plugins cycle includes: " + p);
      }
      r := VisitNew(p);
    }

    method VisitNew(p: string) returns (r: Result<()>)
      requires Valid() && p in manifests && p !in visited && p !in visiting
      requires stack != [] ==> Edge(manifests, stack[|stack| - 1], p)
      modifies this
      ensures r.Error? ==> HasCycle(manifests)
      ensures r.Ok? ==> Valid() && stack == old(stack) && visiting == old(visiting)
      ensures r.Ok? ==> p in visited && NewlyVisited(manifests, old(visited), visited, p)
      ensures r.Ok? ==> Grown(manifests, old(ordered), ordered)
      decreases manifests.Keys - visiting, 0
    {
      ghost var earlier, outer, busy, start := visited, stack, visiting, ordered;
      assert p !in outer;
      Enter(p);
      assert manifests.Keys - visiting < manifests.Keys - busy by {
        assert p in manifests.Keys - busy && p !in manifests.Keys - visiting;
      }
      r := VisitRequired(p);
      if r.Ok? {
        Leave(p, outer, busy, earlier, start);
      }
    }

    /** The loop over what `p` requires. */
    method VisitRequired(p: string) returns (r: Result<()>)
      requires Valid() && p in manifests && stack != [] && stack[|stack| - 1] == p
      modifies this
      ensures r.Error? ==> HasCycle(manifests)
      ensures r.Ok? ==> Valid() && stack == old(stack) && visiting == old(visiting)
      ensures r.Ok? ==> NewlyVisited(manifests, old(visited), visited, p)
      ensures r.Ok? ==> RequiredIn(manifests, p, visited)
      ensures r.Ok? ==> CutsSince(manifests, ordered, |old(ordered)|, manifests[p], |manifests[p]|)
      ensures r.Ok? ==> Grown(manifests, old(ordered), ordered)
      decreases manifests.Keys - visiting, 2
    {
      var required := manifests[p];
      NothingRequiredYet(manifests, p, ordered, visited);
      for i := 0 to |required|
        invariant Valid() && stack == old(stack) && visiting == old(visiting)
        invariant RequiredDone(manifests, p, old(ordered), ordered, old(visited), visited, i)
      {
        if required[i] in manifests {
          ghost var seen, listed := visited, ordered;
          r := Visit(required[i]);
          if r.Error? {
            return;
          }
          OneMoreRequired(manifests, p, old(ordered), listed, ordered, old(visited), seen, visited, i);
        } else {
          OneMoreWithoutManifest(manifests, p, old(ordered), ordered, old(visited), visited, i);
        }
      }
      r := Ok(());
    }
  }

  /** What holds once the first `i` requirements of `p` have been visited. */
  ghost predicate RequiredDone(m: Requirements, p: string, start: seq<string>, ordered: seq<string>,
      earlier: set<string>, visited: set<string>, i: nat)
    requires p in m
  {
    && i <= |m[p]| && start <= ordered
    && NewlyVisited(m, earlier, visited, p)
    && (forall k :: 0 <= k < i && m[p][k] in m ==> m[p][k] in visited)
    && Grown(m, start, ordered)
    && ReachedSince(m, ordered, |start|, m[p][..i], |ordered|)
    && CutsSince(m, ordered, |start|, m[p], i)
  }

  lemma NothingRequiredYet(m: Requirements, p: string, ordered: seq<string>, visited: set<string>)
    requires p in m
    ensures RequiredDone(m, p, ordered, ordered, visited, visited, 0)
  {
    NothingReachedYet(m, ordered, m[p]);
  }

  lemma OneMoreRequired(m: Requirements, p: string, start: seq<string>, listed: seq<string>, ordered: seq<string>,
      earlier: set<string>, seen: set<string>, visited: set<string>, i: nat)
    requires p in m && i < |m[p]| && m[p][i] in m && RequiredDone(m, p, start, listed, earlier, seen, i)
    requires Listed(m, listed, seen) && Listed(m, ordered, visited) && Grown(m, listed, ordered)
    requires m[p][i] in visited && NewlyVisited(m, seen, visited, m[p][i])
    ensures RequiredDone(m, p, start, ordered, earlier, visited, i + 1)
  {
    NewlyVisitedThrough(m, earlier, seen, visited, p, m[p][i]);
    GrownTransitive(m, start, listed, ordered);
    GrownMeans(m, listed, ordered);
    OneMoreReached(m, listed, ordered, seen, visited, |start|, m[p], i);
  }

  lemma OneMoreWithoutManifest(m: Requirements, p: string, start: seq<string>, ordered: seq<string>,
      earlier: set<string>, visited: set<string>, i: nat)
    requires p in m && i < |m[p]| && m[p][i] !in m && RequiredDone(m, p, start, ordered, earlier, visited, i)
    requires Listed(m, ordered, visited)
    ensures RequiredDone(m, p, start, ordered, earlier, visited, i + 1)
  {
    OneMoreReached(m, ordered, ordered, visited, visited, |start|, m[p], i);
  }

  lemma NothingReachedYet(m: Requirements, ordered: seq<string>, required: seq<string>)
    ensures ReachedSince(m, ordered, |ordered|, required[..0], |ordered|)
    ensures CutsSince(m, ordered, |ordered|, required, 0)
  {
    assert required[..0] == [] && ordered[..|ordered|] == ordered;
    assert ReachedSince(m, ordered, |ordered|, required[..0], |ordered|);
    assert HasCutSince(m, ordered, |ordered|, required[..0]);
  }

  /** One more requirement has been visited, or has no manifest. */
  lemma OneMoreReached(m: Requirements, earlier: seq<string>, later: seq<string>, seen: set<string>,
      visited: set<string>, base: nat, required: seq<string>, i: nat)
    requires base <= |earlier| && earlier <= later && i < |required|
    requires Listed(m, earlier, seen) && Listed(m, later, visited)
    requires ReachedSince(m, earlier, base, required[..i], |earlier|) && CutsSince(m, earlier, base, required, i)
    requires if required[i] in m then required[i] in visited && NewlyVisited(m, seen, visited, required[i])
             else later == earlier
    ensures ReachedSince(m, later, base, required[..i + 1], |later|) && CutsSince(m, later, base, required, i + 1)
  {
    assert earlier[..|earlier|] == earlier && later[..|later|] == later && later[..base] == earlier[..base];
    assert required[..i + 1] == required[..i] + [required[i]];
    forall q | q in m
      ensures q in later <==> q in later[..base] || ReachedFrom(m, required[..i + 1], q)
    {
      ReachedOneMore(m, required[..i], required[i], q);
      if required[i] in m {
        if Reach(m, required[i], q) { ListedIsClosed(m, later, required[i], q); }
        assert q in later && q !in earlier ==> q in visited - seen;
      } else {
        assert !ReachedFrom(m, [required[i]], q);
      }
    }
    CutsSinceSurvive(m, earlier, later, base, required, i);
    assert ReachedSince(m, later, base, required[..i + 1], |later|);
    assert HasCutSince(m, later, base, required[..i + 1]);
  }

  lemma ReachedOneMore(m: Requirements, roots: seq<string>, p: string, q: string)
    ensures ReachedFrom(m, roots + [p], q) <==> ReachedFrom(m, roots, q) || (p in m && Reach(m, p, q))
  {
    if ReachedFrom(m, roots, q) {
      var root :| root in roots && root in m && Reach(m, root, q);
      assert root in roots + [p];
    }
    if p in m && Reach(m, p, q) {
      assert p in roots + [p];
    }
  }

  lemma CutsSinceSurvive(m: Requirements, earlier: seq<string>, later: seq<string>, base: nat, required: seq<string>,
      n: nat)
    requires CutsSince(m, earlier, base, required, n) && earlier <= later && base <= |earlier|
    ensures CutsSince(m, later, base, required, n)
  {
    forall k: nat | k <= n && k <= |required|
      ensures HasCutSince(m, later, base, required[..k])
    {
      assert HasCutSince(m, earlier, base, required[..k]);
      var cut: nat :| base <= cut <= |earlier| && ReachedSince(m, earlier, base, required[..k], cut);
      assert later[..cut] == earlier[..cut] && later[..base] == earlier[..base];
      assert ReachedSince(m, later, base, required[..k], cut);
    }
  }

  lemma {:induction false} InOrderMeans(m: Requirements, ordered: seq<string>, p: string)
    requires AllInOrder(m, ordered) && p in m && p in ordered
    ensures RequirementsInOrder(m, ordered, p)
  {
    var front, last := ordered[..|ordered| - 1], ordered[|ordered| - 1];
    assert ordered == front + [last];
    if p in front {
      InOrderMeans(m, front, p);
    }
    InOrderSurvives(m, front, ordered, p);
  }

  lemma InOrderSurvives(m: Requirements, earlier: seq<string>, later: seq<string>, p: string)
    requires RequirementsInOrder(m, earlier, p) && earlier <= later
    ensures RequirementsInOrder(m, later, p)
  {
    var base: nat :| IsTurn(m, earlier, p, base);
    CutsSinceSurvive(m, earlier, later, base, m[p], |m[p]|);
    assert later[..base] == earlier[..base];
    assert IsTurn(m, later, p, base);
  }

  lemma LeaveKeepsInOrder(m: Requirements, start: seq<string>, ordered: seq<string>, p: string)
    requires AllInOrder(m, ordered) && p in m && p !in start && Grown(m, start, ordered)
    requires CutsSince(m, ordered, |start|, m[p], |m[p]|)
    ensures AllInOrder(m, ordered + [p])
  {
    GrownMeans(m, start, ordered);
    assert (ordered + [p])[..|ordered|] == ordered && ordered[..|start|] == start;
    assert IsTurn(m, ordered, p, |start|);
  }

  /** All that `p` requires is visited. */
  ghost predicate RequiredIn(m: Requirements, p: string, visited: set<string>) {
    forall q :: Edge(m, p, q) ==> q in visited
  }

  /** Between two visits only providers reachable from `p` were visited. */
  ghost predicate NewlyVisited(m: Requirements, earlier: set<string>, later: set<string>, p: string) {
    earlier <= later && forall q :: q in later - earlier ==> Reach(m, p, q)
  }

  lemma NewlyVisitedThrough(m: Requirements, a: set<string>, b: set<string>, c: set<string>, p: string, q: string)
    requires NewlyVisited(m, a, b, p) && NewlyVisited(m, b, c, q) && Edge(m, p, q)
    ensures NewlyVisited(m, a, c, p)
  {
    forall r | r in c - a
      ensures Reach(m, p, r)
    {
      if r !in b {
        ReachThroughEdge(m, p, q, r);
      }
    }
  }

  lemma AlsoVisited(m: Requirements, earlier: set<string>, later: set<string>, p: string)
    requires NewlyVisited(m, earlier, later, p) && p in m
    ensures NewlyVisited(m, earlier, later + {p}, p)
  {
    ReachSelf(m, p);
  }

  /** Only providers with manifests were appended. */
  ghost predicate Grown(m: Requirements, earlier: seq<string>, later: seq<string>) {
    later == earlier ||
    (|later| > |earlier| && later[|later| - 1] in m && Grown(m, earlier, later[..|later| - 1]))
  }

  lemma {:induction false} GrownTransitive(m: Requirements, a: seq<string>, b: seq<string>, c: seq<string>)
    requires Grown(m, a, b) && Grown(m, b, c)
    ensures Grown(m, a, c)
  {
    GrownMeans(m, a, b);
    if c != b {
      GrownTransitive(m, a, b, c[..|c| - 1]);
      GrownMeans(m, b, c);
    }
  }

  lemma {:induction false} GrownMeans(m: Requirements, earlier: seq<string>, later: seq<string>)
    requires Grown(m, earlier, later)
    ensures earlier <= later && WithoutManifests(m, later) == WithoutManifests(m, earlier)
  {
    if later != earlier {
      GrownMeans(m, earlier, later[..|later| - 1]);
    }
  }

  lemma PushKeepsStack(m: Requirements, visiting: set<string>, stack: seq<string>, p: string)
    requires OnStack(m, visiting, stack) && p in m
    requires stack != [] ==> Edge(m, stack[|stack| - 1], p)
    ensures OnStack(m, visiting + {p}, stack + [p])
  {
  }

  lemma PopKeepsStack(m: Requirements, visiting: set<string>, stack: seq<string>)
    requires OnStack(m, visiting, stack) && stack != []
    requires stack[|stack| - 1] !in stack[..|stack| - 1]
    ensures OnStack(m, visiting - {stack[|stack| - 1]}, stack[..|stack| - 1])
  {
    var front := stack[..|stack| - 1];
    assert stack == front + [stack[|stack| - 1]];
    assert front != [] ==> IsPath(m, front);
  }

  /** Listing a provider whose requirements are all listed keeps a load order. */
  lemma EmitKeepsListed(m: Requirements, ordered: seq<string>, visited: set<string>, p: string)
    requires Listed(m, ordered, visited)
    requires p in m && p !in visited
    requires RequiredIn(m, p, visited)
    ensures Listed(m, ordered + [p], visited + {p})
  {
    var longer := ordered + [p];
    assert longer[..|longer| - 1] == ordered;
  }

  lemma LeaveKeepsValid(m: Requirements, ordered: seq<string>, visited: set<string>, visiting: set<string>,
      stack: seq<string>, p: string)
    requires Listed(m, ordered, visited) && OnStack(m, visiting, stack) && visited !! visiting
    requires stack != [] && stack[|stack| - 1] == p && p !in stack[..|stack| - 1] && p in m
    requires RequiredIn(m, p, visited)
    ensures Listed(m, ordered + [p], visited + {p}) && OnStack(m, visiting - {p}, stack[..|stack| - 1])
    ensures visited + {p} !! visiting - {p}
  {
    assert p in stack && p in visiting;
    EmitKeepsListed(m, ordered, visited, p);
    PopKeepsStack(m, visiting, stack);
  }

  lemma LeaveAddsOne(m: Requirements, start: seq<string>, ordered: seq<string>, earlier: set<string>,
      visited: set<string>, p: string)
    requires NewlyVisited(m, earlier, visited, p) && Grown(m, start, ordered) && p in m
    ensures NewlyVisited(m, earlier, visited + {p}, p) && Grown(m, start, ordered + [p])
  {
    AlsoVisited(m, earlier, visited, p);
    assert (ordered + [p])[..|ordered|] == ordered;
    GrownTransitive(m, start, ordered, ordered + [p]);
  }

  // ---------- ordering the requested entries ----------

  /** The requested providers that have no manifest but are known, in the order requested. */
  function Manifestless(m: Requirements, known: set<string>, requested: seq<string>): seq<string> {
    if requested == [] then []
    else
      var last := requested[|requested| - 1];
      Manifestless(m, known, requested[..|requested| - 1]) + (if last !in m && last in known then [last] else [])
  }

  /** Everything reachable from a listed provider is listed. */
  lemma ListedIsClosed(m: Requirements, ordered: seq<string>, p: string, q: string)
    requires IsLoadOrder(m, ordered) && p in ordered && Reach(m, p, q)
    ensures q in ordered
  {
    LoadOrderMeans(m, ordered);
    var listed := set x | x in ordered;
    var path :| IsPath(m, path) && path[0] == p && path[|path| - 1] == q;
    forall x, y | x in listed && Edge(m, x, y)
      ensures y in listed
    {
      var i :| 0 <= i < |ordered| && ordered[i] == x;
      assert y in ordered[..i];
    }
    PathStaysInClosedSet(m, path, listed);
  }

  lemma {:induction false} PathGoesBack(m: Requirements, ordered: seq<string>, path: seq<string>, i: nat)
    requires NoRepeats(m, ordered) && RequirementsFirst(m, ordered)
    requires IsPath(m, path) && |path| >= 2 && i < |ordered| && ordered[i] == path[0]
    ensures path[|path| - 1] in ordered[..i]
  {
    assert Edge(m, path[0], path[1]);
    assert path[1] in ordered[..i];
    var j :| 0 <= j < i && ordered[j] == path[1];
    if |path| > 2 {
      var rest := path[1..];
      assert forall k :: 0 <= k < |rest| - 1 ==> rest[k] == path[k + 1];
      PathGoesBack(m, ordered, rest, j);
      assert ordered[..j] <= ordered[..i];
    }
  }

  /** A complete load order leaves no room for a cycle. */
  lemma CompleteOrderIsAcyclic(m: Requirements, ordered: seq<string>)
    requires IsLoadOrder(m, ordered) && forall p :: p in m ==> p in ordered
    ensures !HasCycle(m)
  {
    if HasCycle(m) {
      LoadOrderMeans(m, ordered);
      var path :| IsPath(m, path) && |path| >= 2 && path[0] == path[|path| - 1];
      var i :| 0 <= i < |ordered| && ordered[i] == path[0];
      PathGoesBack(m, ordered, path, i);
    }
  }

  /** One more requested provider has been visited. */
  lemma RequestVisited(m: Requirements, earlier: seq<string>, later: seq<string>,
      seen: set<string>, visited: set<string>, requested: seq<string>, p: string)
    requires Listed(m, earlier, seen) && Listed(m, later, visited)
    requires ExactlyReached(m, earlier, requested)
    requires p in m && p in visited && NewlyVisited(m, seen, visited, p)
    ensures ExactlyReached(m, later, requested + [p])
  {
    forall q | q in m
      ensures q in later <==> ReachedFrom(m, requested + [p], q)
    {
      if q in later {
        if q in seen {
          var root :| root in requested && root in m && Reach(m, root, q);
          assert root in requested + [p];
        } else {
          assert p in requested + [p] && Reach(m, p, q);
        }
      }
      if ReachedFrom(m, requested + [p], q) {
        var root :| root in requested + [p] && root in m && Reach(m, root, q);
        if root != p {
          ReachSelf(m, root);
          assert ReachedFrom(m, requested, root);
          assert root in seen;
        }
        ListedIsClosed(m, later, root, q);
      }
    }
  }

  /** A requested provider without a manifest changes nothing for the others. */
  lemma RequestWithoutManifest(m: Requirements, earlier: seq<string>, later: seq<string>, requested: seq<string>,
      p: string)
    requires ExactlyReached(m, earlier, requested) && p !in m
    requires later == earlier || later == earlier + [p]
    ensures ExactlyReached(m, later, requested + [p])
  {
    forall q | q in m
      ensures q in later <==> ReachedFrom(m, requested + [p], q)
    {
      assert q in later <==> q in earlier;
      if ReachedFrom(m, requested, q) {
        var root :| root in requested && root in m && Reach(m, root, q);
        assert root in requested + [p];
      }
      if ReachedFrom(m, requested + [p], q) {
        var root :| root in requested + [p] && root in m && Reach(m, root, q);
        assert root in requested;
      }
    }
  }

  ghost predicate HasCut(m: Requirements, ordered: seq<string>, requested: seq<string>, k: nat) {
    k <= |requested| && exists cut: nat :: CutAfter(m, ordered, requested, k, cut)
  }

  ghost predicate CutsUpTo(m: Requirements, ordered: seq<string>, requested: seq<string>, n: nat) {
    forall k: nat :: k <= n ==> HasCut(m, ordered, requested, k)
  }

  lemma CutsSurvive(m: Requirements, earlier: seq<string>, later: seq<string>, requested: seq<string>, n: nat)
    requires CutsUpTo(m, earlier, requested, n) && earlier <= later
    ensures CutsUpTo(m, later, requested, n)
  {
    forall k: nat | k <= n
      ensures HasCut(m, later, requested, k)
    {
      assert HasCut(m, earlier, requested, k);
      var cut: nat :| CutAfter(m, earlier, requested, k, cut);
      assert later[..cut] == earlier[..cut];
      assert CutAfter(m, later, requested, k, cut);
    }
  }

  lemma OneMoreCut(m: Requirements, ordered: seq<string>, requested: seq<string>, n: nat)
    requires n < |requested| && CutsUpTo(m, ordered, requested, n) && ExactlyReached(m, ordered, requested[..n + 1])
    ensures CutsUpTo(m, ordered, requested, n + 1)
  {
    assert ordered[..|ordered|] == ordered;
    assert CutAfter(m, ordered, requested, n + 1, |ordered|);
    assert HasCut(m, ordered, requested, n + 1);
  }

  /** `topological_filesystem_entries`. It fails exactly on a cycle. Otherwise every provider with a
      manifest is listed once, after all it requires, and the list grows request by request: after
      the first `k` requested entries it holds exactly the providers those entries reach, then so for all
      providers in the order of their names, and likewise requirement by requirement of each. */
  method TopologicalFilesystemEntries(requested: seq<string>, manifests: Requirements, known: set<string>)
    returns (r: Result<seq<string>>)
    ensures r.Error? <==> HasCycle(manifests)
    ensures r.Ok? ==> IsLoadOrder(manifests, r.value) && forall p :: p in manifests ==> p in r.value
    ensures r.Ok? ==> CutsUpTo(manifests, r.value, requested, |requested|)
    ensures r.Ok? ==> InOrderOf(manifests, r.value, requested, SortedKeys(manifests.Keys))
    ensures r.Ok? ==> WithoutManifests(manifests, r.value) == Manifestless(manifests, known, requested)
  {
    var walk := new Walk(manifests);
    var first := VisitAllRequested(walk, requested, known);
    if first.Error? {
      return Error(first.message);
    }
    var providers := SortedKeys(manifests.Keys);
    var rest := VisitProviders(walk, providers, known, requested);
    if rest.Error? {
      return Error(rest.message);
    }
    CompleteOrder(manifests, walk.ordered, known, requested, providers);
    return Ok(walk.ordered);
  }

  /** The loop over the requested entries. */
  method VisitAllRequested(walk: Walk, requested: seq<string>, known: set<string>) returns (r: Result<()>)
    requires walk.Valid() && walk.stack == [] && walk.ordered == []
    modifies walk
    ensures r.Error? ==> HasCycle(walk.manifests)
    ensures r.Ok? ==> walk.Valid() && walk.stack == []
    ensures r.Ok? ==> Progress(walk.manifests, walk.ordered, known, requested, |requested|)
  {
    NothingRequested(walk.manifests, known, requested);
    for i := 0 to |requested|
      invariant walk.Valid() && walk.stack == []
      invariant Progress(walk.manifests, walk.ordered, known, requested, i)
    {
      r := VisitRequested(walk, requested, i, known);
      if r.Error? {
        return;
      }
    }
    r := Ok(());
  }

  lemma NothingRequested(m: Requirements, known: set<string>, requested: seq<string>)
    ensures Progress(m, [], known, requested, 0)
  {
    assert requested[..0] == [];
    assert CutAfter(m, [], requested, 0, 0);
    assert HasCut(m, [], requested, 0);
  }

  /** The list grows along the requested entries and then the providers, and likewise along the requirements
      of each provider. */
  ghost predicate InOrderOf(m: Requirements, ordered: seq<string>, requested: seq<string>, providers: seq<string>) {
    && CutsUpTo(m, ordered, requested + providers, |requested + providers|)
    && forall p :: p in m ==> RequirementsInOrder(m, ordered, p)
  }

  lemma CompleteOrder(m: Requirements, ordered: seq<string>, known: set<string>, requested: seq<string>,
      providers: seq<string>)
    requires IsLoadOrder(m, ordered) && AllInOrder(m, ordered) && forall p :: p in m ==> p in providers
    requires ProvidersDone(m, ordered, known, requested, providers, |providers|)
    ensures !HasCycle(m) && forall p :: p in m ==> p in ordered
    ensures CutsUpTo(m, ordered, requested, |requested|)
    ensures InOrderOf(m, ordered, requested, providers)
    ensures WithoutManifests(m, ordered) == Manifestless(m, known, requested)
  {
    forall p | p in m
      ensures p in ordered && RequirementsInOrder(m, ordered, p)
    {
      ReachSelf(m, p);
      assert providers[..|providers|] == providers && p in requested + providers;
      assert ReachedFrom(m, requested + providers, p);
      InOrderMeans(m, ordered, p);
    }
    CompleteOrderIsAcyclic(m, ordered);
  }

  /** What holds from the end of the first loop on. */
  ghost predicate RequestsDone(m: Requirements, ordered: seq<string>, known: set<string>, requested: seq<string>) {
    && CutsUpTo(m, ordered, requested, |requested|)
    && WithoutManifests(m, ordered) == Manifestless(m, known, requested)
  }

  lemma RequestsStayDone(m: Requirements, earlier: seq<string>, later: seq<string>, known: set<string>,
      requested: seq<string>)
    requires Grown(m, earlier, later) && RequestsDone(m, earlier, known, requested)
    ensures RequestsDone(m, later, known, requested)
  {
    GrownMeans(m, earlier, later);
    CutsSurvive(m, earlier, later, requested, |requested|);
  }

  /** The first `i` of all providers have been visited after the requested ones. */
  ghost predicate ProvidersDone(m: Requirements, ordered: seq<string>, known: set<string>, requested: seq<string>,
      providers: seq<string>, i: nat)
  {
    && i <= |providers|
    && ExactlyReached(m, ordered, requested + providers[..i])
    && CutsUpTo(m, ordered, requested + providers, |requested| + i)
    && RequestsDone(m, ordered, known, requested)
  }

  lemma SameCuts(m: Requirements, ordered: seq<string>, requested: seq<string>, more: seq<string>)
    requires CutsUpTo(m, ordered, requested, |requested|)
    ensures CutsUpTo(m, ordered, requested + more, |requested|)
  {
    forall k: nat | k <= |requested|
      ensures HasCut(m, ordered, requested + more, k)
    {
      assert HasCut(m, ordered, requested, k);
      var cut: nat :| CutAfter(m, ordered, requested, k, cut);
      assert (requested + more)[..k] == requested[..k];
      assert CutAfter(m, ordered, requested + more, k, cut);
    }
  }

  lemma NoProviderYet(m: Requirements, ordered: seq<string>, known: set<string>, requested: seq<string>,
      providers: seq<string>)
    requires Progress(m, ordered, known, requested, |requested|)
    ensures ProvidersDone(m, ordered, known, requested, providers, 0)
  {
    assert requested[..|requested|] == requested;
    assert requested + providers[..0] == requested;
    SameCuts(m, ordered, requested, providers);
  }

  lemma OneMoreProvider(m: Requirements, earlier: seq<string>, later: seq<string>, seen: set<string>,
      visited: set<string>, known: set<string>, requested: seq<string>, providers: seq<string>, i: nat)
    requires Listed(m, earlier, seen) && Listed(m, later, visited) && Grown(m, earlier, later)
    requires ProvidersDone(m, earlier, known, requested, providers, i) && i < |providers|
    requires providers[i] in m && providers[i] in visited && NewlyVisited(m, seen, visited, providers[i])
    ensures ProvidersDone(m, later, known, requested, providers, i + 1)
  {
    var all := requested + providers;
    GrownMeans(m, earlier, later);
    RequestVisited(m, earlier, later, seen, visited, requested + providers[..i], providers[i]);
    assert requested + providers[..i] + [providers[i]] == requested + providers[..i + 1] == all[..|requested| + i + 1];
    CutsSurvive(m, earlier, later, all, |requested| + i);
    OneMoreCut(m, later, all, |requested| + i);
    RequestsStayDone(m, earlier, later, known, requested);
  }

  /** The loop over all providers with manifests. */
  method VisitProviders(walk: Walk, providers: seq<string>, known: set<string>, requested: seq<string>)
    returns (r: Result<()>)
    requires walk.Valid() && walk.stack == [] && forall p :: p in providers ==> p in walk.manifests
    requires Progress(walk.manifests, walk.ordered, known, requested, |requested|)
    modifies walk
    ensures r.Error? ==> HasCycle(walk.manifests)
    ensures r.Ok? ==> walk.Valid()
    ensures r.Ok? ==> ProvidersDone(walk.manifests, walk.ordered, known, requested, providers, |providers|)
  {
    NoProviderYet(walk.manifests, walk.ordered, known, requested, providers);
    for i := 0 to |providers|
      invariant walk.Valid() && walk.stack == []
      invariant ProvidersDone(walk.manifests, walk.ordered, known, requested, providers, i)
    {
      assert providers[i] in providers;
      r := VisitProvider(walk, providers, i, known, requested);
      if r.Error? {
        return;
      }
    }
    r := Ok(());
  }

  /** One turn of that loop. */
  method VisitProvider(walk: Walk, providers: seq<string>, i: nat, ghost known: set<string>,
      ghost requested: seq<string>) returns (r: Result<()>)
    requires walk.Valid() && walk.stack == [] && i < |providers| && providers[i] in walk.manifests
    requires ProvidersDone(walk.manifests, walk.ordered, known, requested, providers, i)
    modifies walk
    ensures r.Error? ==> HasCycle(walk.manifests)
    ensures r.Ok? ==> walk.Valid() && walk.stack == []
    ensures r.Ok? ==> ProvidersDone(walk.manifests, walk.ordered, known, requested, providers, i + 1)
  {
    ghost var listed, seen := walk.ordered, walk.visited;
    r := walk.Visit(providers[i]);
    if r.Ok? {
      OneMoreProvider(walk.manifests, listed, walk.ordered, seen, walk.visited, known, requested, providers, i);
    }
  }

  /** What holds once the first `i` requested entries have been visited. */
  ghost predicate Progress(m: Requirements, ordered: seq<string>, known: set<string>, requested: seq<string>, i: nat) {
    && i <= |requested|
    && ExactlyReached(m, ordered, requested[..i])
    && CutsUpTo(m, ordered, requested, i)
    && WithoutManifests(m, ordered) == Manifestless(m, known, requested[..i])
  }

  /** One turn of the loop over the requested entries. */
  method VisitRequested(walk: Walk, requested: seq<string>, i: nat, known: set<string>) returns (r: Result<()>)
    requires walk.Valid() && walk.stack == [] && i < |requested|
    requires Progress(walk.manifests, walk.ordered, known, requested, i)
    modifies walk
    ensures r.Error? ==> HasCycle(walk.manifests)
    ensures r.Ok? ==> walk.Valid() && walk.stack == []
    ensures r.Ok? ==> Progress(walk.manifests, walk.ordered, known, requested, i + 1)
  {
    var p := requested[i];
    ghost var listed, seen := walk.ordered, walk.visited;
    assert requested[..i + 1] == requested[..i] + [p] && (requested[..i] + [p])[..i] == requested[..i];
    if p in walk.manifests {
      var visit := walk.Visit(p);
      if visit.Error? {
        return Error(visit.message);
      }
      GrownMeans(walk.manifests, listed, walk.ordered);
      RequestVisited(walk.manifests, listed, walk.ordered, seen, walk.visited, requested[..i], p);
    } else {
      if p in known {
        walk.AppendManifestless(p);
      }
      RequestWithoutManifest(walk.manifests, listed, walk.ordered, requested[..i], p);
    }
    CutsSurvive(walk.manifests, listed, walk.ordered, requested, i);
    OneMoreCut(walk.manifests, walk.ordered, requested, i);
    return Ok(());
  }

  /** A requirement precedes a later one of the same manifest, unless the requirements up to it reach that
      one, or it was listed before the provider's turn. */
  lemma RequirementOrderKept(m: Requirements, ordered: seq<string>, p: string, i: nat, j: nat, a: nat, b: nat)
    requires IsLoadOrder(m, ordered) && RequirementsInOrder(m, ordered, p)
    requires i < j < |m[p]| && m[p][i] in m && m[p][j] in m && !ReachedFrom(m, m[p][..i + 1], m[p][j])
    requires a < |ordered| && b < |ordered| && ordered[a] == m[p][i] && ordered[b] == m[p][j]
    ensures a < b || exists base: nat :: b < base && IsTurn(m, ordered, p, base)
  {
    var required := m[p];
    var base: nat :| IsTurn(m, ordered, p, base);
    if b >= base {
      LoadOrderMeans(m, ordered);
      assert HasCutSince(m, ordered, base, required[..i + 1]);
      var cut: nat :| base <= cut <= |ordered| && ReachedSince(m, ordered, base, required[..i + 1], cut);
      ReachSelf(m, required[i]);
      assert required[..i + 1][i] == required[i];
      assert ReachedFrom(m, required[..i + 1], required[i]);
      assert required[i] in ordered[..cut];
      assert required[j] !in ordered[..cut];
    }
  }

  /** A requested provider precedes a later one that nothing requested up to it requires. */
  lemma RequestOrderKept(m: Requirements, ordered: seq<string>, requested: seq<string>, i: nat, j: nat, a: nat, b: nat)
    requires IsLoadOrder(m, ordered) && CutsUpTo(m, ordered, requested, |requested|)
    requires i < j < |requested| && requested[i] in m && requested[j] in m
    requires !ReachedFrom(m, requested[..i + 1], requested[j])
    requires a < |ordered| && b < |ordered| && ordered[a] == requested[i] && ordered[b] == requested[j]
    ensures a < b
  {
    assert HasCut(m, ordered, requested, i + 1);
    var cut: nat :| CutAfter(m, ordered, requested, i + 1, cut);
    var roots := requested[..i + 1];
    assert roots[i] == requested[i];
    ReachSelf(m, requested[i]);
    assert ReachedFrom(m, roots, requested[i]);
    LoadOrderMeans(m, ordered);
    FoundBeforeCut(m, ordered, cut, a, b);
  }

  lemma FoundBeforeCut(m: Requirements, ordered: seq<string>, cut: nat, a: nat, b: nat)
    requires NoRepeats(m, ordered) && cut <= |ordered| && a < |ordered| && b < |ordered| && ordered[a] in m
    requires ordered[a] in ordered[..cut] && ordered[b] !in ordered[..cut]
    ensures a < b
  {
    assert forall k :: 0 <= k < cut ==> ordered[k] in ordered[..cut];
    var k :| 0 <= k < cut && ordered[k] == ordered[a];
    assert k == a;
  }
}
