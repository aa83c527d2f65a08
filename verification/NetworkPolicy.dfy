/** Filtering of target expressions by allowed and denied blocks. */
module NetworkPolicy {
  import opened Ipv4
  import opened Ipv4Ranges
  import opened PolicyBlocks
  import opened Results
  import opened Sequences
  import opened Text

  /** Target strings that are kept, and warnings. */
  datatype Outcome = Outcome(kept: seq<string>, warnings: seq<string>)

  /** `network_policy_for_network`; `None` stands for the empty text. */
  function NetworkPolicyForNetwork(name: string, b: Block, p: Policy): Option<string> {
    if exists i :: 0 <= i < |p.denied| && Overlaps(b, p.denied[i]) then Some(name + " is denied by network policy")
    else if p.allowed != [] && !exists i :: 0 <= i < |p.allowed| && SubnetOf(b, p.allowed[i])
    then Some(name + " is outside allowed network scope")
    else None
  }

  function FirstWarning(name: string, addresses: seq<Address>, p: Policy): Option<string> {
    if addresses == [] then None
    else
      var warning := NetworkPolicyForNetwork(name, NetworkOf(addresses[0], 32), p);
      if warning.Some? then warning else FirstWarning(name, addresses[1..], p)
  }

  function ResolvedNetworkPolicy(target: string, p: Policy): Option<string> {
    match p.resolve(target)
    case None => if p.allowed != [] then Some(target + " is not a normalized IP target") else None
    case Some(addresses) => FirstWarning(target, addresses, p)
  }

  function NetworkPolicyForTarget(target: string, p: Policy): Option<string> {
    match ParseNetwork(target)
    case None => ResolvedNetworkPolicy(target, p)
    case Some(b) => NetworkPolicyForNetwork(target, b, p)
  }

  // ---------- filtering ----------

  predicate HasRange(targets: seq<string>) {
    exists i :: 0 <= i < |targets| && IsIpv4Range(targets[i])
  }

  function Rank(targets: seq<string>): nat {
    if HasRange(targets) then 1 else 0
  }

  lemma AddressIsPlain(x: nat)
    requires x < ADDRESSES
    ensures !IsIpv4Range(AddressText(x))
  {
    NumeralsHaveNoDots(OctetsOf(x));
  }

  lemma ExpansionIsPlain(value: string)
    requires ExpandIpv4Range(value).Ok?
    ensures !HasRange(ExpandIpv4Range(value).value)
  {
    var addresses := ExpansionIsProduct(value);
    var texts := ExpandIpv4Range(value).value;
    forall i | 0 <= i < |texts|
      ensures !IsIpv4Range(texts[i])
    {
      AddressIsPlain(addresses[i]);
    }
  }

  function FilterTarget(target: string, p: Policy): Result<Outcome>
    decreases Rank([target]), 1, 2
  {
    if IsIpv4Range(target) then
      match ExpandIpv4Range(target)
      case Error(message) => Error(message)
      case Ok(addresses) =>
        ExpansionIsPlain(target);
        assert [target][0] == target;
        match Apply(addresses, p)
        case Error(message) => Error(message)
        case Ok(o) => Ok(if o.warnings != [] then o else Outcome([target], []))
    else
      match NetworkPolicyForTarget(target, p)
      case Some(warning) => Ok(Outcome([], [warning]))
      case None => Ok(Outcome([target], []))
  }

  function FilterAll(targets: seq<string>, p: Policy): Result<Outcome>
    decreases Rank(targets), |targets|, 3
  {
    if targets == [] then Ok(Outcome([], []))
    else
      var front, last := targets[..|targets| - 1], targets[|targets| - 1];
      assert HasRange(front) ==> HasRange(targets);
      assert HasRange([last]) ==> HasRange(targets);
      match FilterAll(front, p)
      case Error(message) => Error(message)
      case Ok(o) =>
        match FilterTarget(last, p)
        case Error(message) => Error(message)
        case Ok(one) => Ok(Outcome(o.kept + one.kept, o.warnings + one.warnings))
  }

  /** `apply_network_policy` */
  function Apply(targets: seq<string>, p: Policy): Result<Outcome>
    decreases Rank(targets), |targets|, 4
  {
    match FilterAll(targets, p)
    case Error(message) => Error(message)
    case Ok(o) => Ok(Outcome(Distinct(o.kept), o.warnings))
  }

  // ---------- what the decisions mean ----------

  /** The addresses a target expression stands for; a name stands for none here. */
  predicate Denotes(target: string, x: nat) {
    if IsIpv4Range(target) then InRange(target, x)
    else ParseNetwork(target).Some? && Holds(ParseNetwork(target).value, x)
  }

  /** A block gets no warning exactly when it shares no address with a denied block and lies, as a whole,
      in one allowed block. */
  lemma NetworkDecision(name: string, b: Block, p: Policy)
    ensures NetworkPolicyForNetwork(name, b, p).None? <==>
      && (forall i :: 0 <= i < |p.denied| ==> !Share(b, p.denied[i]))
      && (p.allowed == [] || exists i :: 0 <= i < |p.allowed| && Inside(b, p.allowed[i]))
  {
    BlockPassesMeans(b, p);
  }

  /** A single address passes exactly when it is permitted. */
  lemma AddressDecision(x: nat, p: Policy)
    requires x < ADDRESSES
    ensures NetworkPolicyForTarget(AddressText(x), p).None? <==> Permitted(p, x)
    ensures Denotes(AddressText(x), x) && forall y: nat :: Denotes(AddressText(x), y) ==> y == x
  {
    AddressIsPlain(x);
    AddressIsNetwork(x);
    SingleAddress(AddressText(x), NetworkOf(x, 32), x, p);
  }

  lemma SingleAddress(name: string, b: Block, x: nat, p: Policy)
    requires forall y: nat :: Holds(b, y) <==> y == x
    ensures NetworkPolicyForNetwork(name, b, p).None? <==> Permitted(p, x)
  {
    BlockPassesMeans(b, p);
    forall c: Block
      ensures Share(b, c) <==> Holds(c, x)
      ensures Inside(b, c) <==> Holds(c, x)
    {
      assert Holds(b, x);
    }
  }

  /** What policy lets through unchanged. */
  ghost predicate Passes(target: string, p: Policy) {
    if IsIpv4Range(target) then ExpandIpv4Range(target).Ok? && forall x: nat :: InRange(target, x) ==> Permitted(p, x)
    else NetworkPolicyForTarget(target, p).None?
  }

  lemma PassingIsPermitted(target: string, p: Policy, x: nat)
    requires Passes(target, p) && Denotes(target, x)
    ensures Permitted(p, x)
  {
    if !IsIpv4Range(target) {
      PassingIsPermittedThroughout(ParseNetwork(target).value, p, x);
    }
  }

  // ---------- what filtering does ----------

  /** Without ranges, filtering keeps exactly the targets that pass and warns about the others. */
  lemma {:induction false} FilterPlain(targets: seq<string>, p: Policy)
    requires !HasRange(targets)
    ensures var r := FilterAll(targets, p);
      && r.Ok?
      && (forall t :: t in r.value.kept <==> t in targets && Passes(t, p))
      && (r.value.warnings == [] <==> forall t :: t in targets ==> Passes(t, p))
  {
    if targets != [] {
      var front, last := targets[..|targets| - 1], targets[|targets| - 1];
      assert targets == front + [last];
      assert forall i :: 0 <= i < |front| ==> front[i] == targets[i];
      FilterPlain(front, p);
      assert last in targets && !IsIpv4Range(last);
    }
  }

  lemma {:induction false} ExpansionFiltered(target: string, p: Policy)
    requires IsIpv4Range(target) && ExpandIpv4Range(target).Ok?
    ensures var r := Apply(ExpandIpv4Range(target).value, p);
      && r.Ok?
      && (r.value.warnings == [] <==> Passes(target, p))
      && (forall k :: k in r.value.kept <==>
        exists x: nat :: InRange(target, x) && Permitted(p, x) && k == AddressText(x))
  {
    var addresses := ExpandIpv4Range(target).value;
    ExpansionIsPlain(target);
    ExpansionMembers(target);
    FilterPlain(addresses, p);
    forall x: nat | InRange(target, x)
      ensures AddressText(x) in addresses
      ensures Passes(AddressText(x), p) <==> Permitted(p, x)
    {
      AddressIsPlain(x);
      AddressDecision(x, p);
    }
  }

  lemma FilterTargetMeans(target: string, p: Policy)
    ensures FilterTarget(target, p).Error? <==> IsIpv4Range(target) && ExpandIpv4Range(target).Error?
    ensures FilterTarget(target, p).Ok? ==>
      var o := FilterTarget(target, p).value;
      && (o.warnings == [] <==> Passes(target, p))
      && (Passes(target, p) ==> o.kept == [target])
      && (forall k :: k in o.kept ==> Passes(k, p))
  {
    if IsIpv4Range(target) && ExpandIpv4Range(target).Ok? {
      ExpansionFiltered(target, p);
      forall x: nat | InRange(target, x) && Permitted(p, x)
        ensures Passes(AddressText(x), p)
      {
        AddressIsPlain(x);
        AddressDecision(x, p);
      }
    }
  }

  /** Some target in the list stands for the address. */
  ghost predicate Covers(targets: seq<string>, x: nat) {
    exists t :: t in targets && Denotes(t, x)
  }

  /** A block that does not pass is dropped as a whole; that loses nothing when no address of it is
      permitted. */
  ghost predicate LosesNothing(target: string, p: Policy) {
    IsIpv4Range(target) || Passes(target, p) || forall x: nat :: Denotes(target, x) ==> !Permitted(p, x)
  }

  /** The target is not a block that the policy splits. */
  predicate IsUnsplit(target: string, p: Policy) {
    IsIpv4Range(target) || ParseNetwork(target).None? || !Splits(ParseNetwork(target).value, p)
  }

  lemma UnsplitLosesNothing(target: string, p: Policy)
    ensures IsUnsplit(target, p) <==> LosesNothing(target, p)
  {
    if ParseNetwork(target).Some? {
      SplitsMeans(ParseNetwork(target).value, p);
    }
  }

  /** Addresses are never split. */
  lemma AddressIsUnsplit(x: nat, p: Policy)
    requires x < ADDRESSES
    ensures IsUnsplit(AddressText(x), p)
  {
    AddressIsPlain(x);
    AddressDecision(x, p);
    UnsplitLosesNothing(AddressText(x), p);
  }

  lemma KeptOfTargetCovers(target: string, p: Policy, x: nat)
    requires FilterTarget(target, p).Ok? && LosesNothing(target, p)
    ensures Covers(FilterTarget(target, p).value.kept, x) <==> Denotes(target, x) && Permitted(p, x)
  {
    var o := FilterTarget(target, p).value;
    FilterTargetMeans(target, p);
    if Passes(target, p) {
      if Denotes(target, x) {
        PassingIsPermitted(target, p, x);
        assert target in o.kept;
      }
    } else if IsIpv4Range(target) {
      ExpansionFiltered(target, p);
      KeptAddressesCover(target, p, o.kept, x);
    }
  }

  lemma KeptAddressesCover(target: string, p: Policy, kept: seq<string>, x: nat)
    requires IsIpv4Range(target)
    requires forall k :: k in kept <==> exists y: nat :: InRange(target, y) && Permitted(p, y) && k == AddressText(y)
    ensures Covers(kept, x) <==> Denotes(target, x) && Permitted(p, x)
  {
    if k :| k in kept && Denotes(k, x) {
      var y: nat :| InRange(target, y) && Permitted(p, y) && k == AddressText(y);
      AddressDecision(y, p);
    }
    if InRange(target, x) && Permitted(p, x) {
      AddressDecision(x, p);
      assert AddressText(x) in kept;
    }
  }

  lemma {:induction false} FilterAllMeans(targets: seq<string>, p: Policy)
    ensures FilterAll(targets, p).Error? <==> exists t :: t in targets && IsIpv4Range(t) && ExpandIpv4Range(t).Error?
    ensures FilterAll(targets, p).Ok? ==>
      var o := FilterAll(targets, p).value;
      && (forall k :: k in o.kept ==> Passes(k, p))
      && (o.warnings == [] <==> forall t :: t in targets ==> Passes(t, p))
      && (o.warnings == [] ==> o.kept == targets)
  {
    if targets != [] {
      var front, last := targets[..|targets| - 1], targets[|targets| - 1];
      assert targets == front + [last];
      FilterAllMeans(front, p);
      FilterTargetMeans(last, p);
    }
  }

  lemma {:induction false} FilterAllCovers(targets: seq<string>, p: Policy, x: nat)
    requires FilterAll(targets, p).Ok? && forall t :: t in targets ==> LosesNothing(t, p)
    ensures Covers(FilterAll(targets, p).value.kept, x) <==> Covers(targets, x) && Permitted(p, x)
  {
    if targets != [] {
      var front, last := targets[..|targets| - 1], targets[|targets| - 1];
      assert targets == front + [last];
      FilterAllCovers(front, p, x);
      KeptOfTargetCovers(last, p, x);
      CoversConcat(FilterAll(front, p).value.kept, FilterTarget(last, p).value.kept, x);
      CoversConcat(front, [last], x);
    }
  }

  lemma CoversConcat(a: seq<string>, b: seq<string>, x: nat)
    ensures Covers(a + b, x) <==> Covers(a, x) || Covers(b, x)
  {
    if t :| t in a && Denotes(t, x) { assert t in a + b; }
    if t :| t in b && Denotes(t, x) { assert t in a + b; }
  }

  // ---------- the policy's promises ----------

  /** Every address a kept target stands for is outside every denied block and, when there is an allow
      list, inside an allowed block. */
  lemma KeptIsPermitted(targets: seq<string>, p: Policy, k: string, x: nat)
    requires Apply(targets, p).Ok? && k in Apply(targets, p).value.kept && Denotes(k, x)
    ensures Permitted(p, x)
  {
    FilterAllMeans(targets, p);
    PassingIsPermitted(k, p, x);
  }

  lemma {:induction false} NoWarning(name: string, addresses: seq<Address>, p: Policy)
    ensures FirstWarning(name, addresses, p).None? <==> forall x :: x in addresses ==> Permitted(p, x)
  {
    if addresses != [] {
      var first := addresses[0];
      assert addresses == [first] + addresses[1..];
      AddressIsNetwork(first);
      SingleAddress(name, NetworkOf(first, 32), first, p);
      NoWarning(name, addresses[1..], p);
    }
  }

  lemma {:induction false} FilterTargetSingle(target: string, p: Policy)
    requires !IsIpv4Range(target)
    ensures FilterTarget(target, p).Ok?
    ensures FilterTarget(target, p).value.kept == if Passes(target, p) then [target] else []
  {
  }

  lemma {:induction false} FilterAllOne(target: string, p: Policy)
    requires FilterTarget(target, p).Ok?
    ensures FilterAll([target], p) == FilterTarget(target, p)
  {
    var one := FilterTarget(target, p).value;
    FilterOneMore([target], p, 0);
    assert [target][..1] == [target] && [target][..0] == [];
    assert [] + one.kept == one.kept && [] + one.warnings == one.warnings;
  }

  /** A target that is no range is kept or dropped as a whole. */
  lemma {:induction false} FilterSingle(target: string, p: Policy)
    requires !IsIpv4Range(target)
    ensures Apply([target], p).Ok?
    ensures Apply([target], p).value.kept == if Passes(target, p) then [target] else []
  {
    FilterTargetSingle(target, p);
    FilterAllOne(target, p);
    DistinctOne(target);
  }

  lemma DistinctOne(target: string)
    ensures Distinct([target]) == [target]
  {
  }

  lemma NameDecision(name: string, p: Policy)
    requires !IsIpv4Range(name) && ParseNetwork(name).None?
    ensures Passes(name, p) <==>
      if p.resolve(name).Some? then forall x :: x in p.resolve(name).value ==> Permitted(p, x) else p.allowed == []
  {
    if p.resolve(name).Some? {
      NoWarning(name, p.resolve(name).value, p);
    }
  }

  /** A name is kept exactly when all it resolves to is permitted, or, without an allow list, when it
      does not resolve. */
  lemma KeptNameIsPermitted(name: string, p: Policy)
    requires !IsIpv4Range(name) && ParseNetwork(name).None?
    ensures Apply([name], p).Ok?
    ensures name in Apply([name], p).value.kept <==>
      if p.resolve(name).Some? then forall x :: x in p.resolve(name).value ==> Permitted(p, x) else p.allowed == []
  {
    FilterSingle(name, p);
    NameDecision(name, p);
  }

  /** For addresses, ranges, and blocks that are not split by the policy, the kept list stands for
      exactly the permitted addresses of the given list. */
  lemma KeptIsExactlyThePermitted(targets: seq<string>, p: Policy, x: nat)
    requires Apply(targets, p).Ok? && forall t :: t in targets ==> IsUnsplit(t, p)
    ensures Covers(Apply(targets, p).value.kept, x) <==> Covers(targets, x) && Permitted(p, x)
  {
    forall t | t in targets
      ensures LosesNothing(t, p)
    {
      UnsplitLosesNothing(t, p);
    }
    FilterAllCovers(targets, p, x);
  }

  /** For addresses and ranges it always does. */
  lemma AddressesAndRangesAreExact(targets: seq<string>, p: Policy, x: nat)
    requires Apply(targets, p).Ok? && forall t :: t in targets ==> IsIpv4Range(t) || ParseAddress(t).Some?
    ensures Covers(Apply(targets, p).value.kept, x) <==> Covers(targets, x) && Permitted(p, x)
  {
    forall t | t in targets
      ensures IsUnsplit(t, p)
    {
      if ParseAddress(t).Some? {
        ParseAddressIs(t, ParseAddress(t).value);
        AddressIsUnsplit(ParseAddress(t).value, p);
      }
    }
    KeptIsExactlyThePermitted(targets, p, x);
  }

  ghost predicate KeptIsExact(targets: seq<string>, p: Policy)
    requires Apply(targets, p).Ok?
  {
    forall x: nat :: Covers(Apply(targets, p).value.kept, x) <==> Covers(targets, x) && Permitted(p, x)
  }

  lemma UnsplitIsExact(target: string, p: Policy)
    requires Apply([target], p).Ok? && IsUnsplit(target, p)
    ensures KeptIsExact([target], p)
  {
    forall x: nat
      ensures Covers(Apply([target], p).value.kept, x) <==> Covers([target], x) && Permitted(p, x)
    {
      KeptIsExactlyThePermitted([target], p, x);
    }
  }

  lemma SplitIsNotExact(target: string, p: Policy)
    requires !IsIpv4Range(target) && Apply([target], p).Ok? && !IsUnsplit(target, p)
    ensures !KeptIsExact([target], p)
  {
    UnsplitLosesNothing(target, p);
    FilterSingle(target, p);
    var x: nat :| Denotes(target, x) && Permitted(p, x);
    assert target in [target];
    assert Covers([target], x) && !Covers(Apply([target], p).value.kept, x);
  }

  /** For one block it does so exactly when the policy does not split it. */
  lemma {:induction false} SplitBlockLosesAddresses(target: string, p: Policy)
    requires !IsIpv4Range(target) && ParseNetwork(target).Some?
    ensures Apply([target], p).Ok?
    ensures KeptIsExact([target], p) <==> !Splits(ParseNetwork(target).value, p)
  {
    FilterSingle(target, p);
    if Splits(ParseNetwork(target).value, p) {
      SplitIsNotExact(target, p);
    } else {
      UnsplitIsExact(target, p);
    }
  }

  lemma {:induction false} BlockDecision(target: string, b: Block, p: Policy)
    requires !IsIpv4Range(target) && ParseNetwork(target) == Some(b)
    ensures Passes(target, p) <==> BlockPasses(b, p)
  {
  }

  lemma {:induction false} SplitBlockIsDropped(target: string, b: Block, p: Policy, x: nat)
    requires !IsIpv4Range(target) && ParseNetwork(target) == Some(b)
    requires !BlockPasses(b, p) && Holds(b, x) && Permitted(p, x)
    ensures Splits(b, p) && Denotes(target, x)
    ensures Apply([target], p).Ok? && Apply([target], p).value.kept == []
  {
    SplitsMeans(b, p);
    BlockDecision(target, b, p);
    FilterSingle(target, p);
  }

  lemma ExampleText()
    ensures AddressText(0) + "/" + Decimal(30) == "0.0.0.0/30"
  {
    assert OctetsOf(0) == [0, 0, 0, 0];
    assert Numerals([0, 0, 0, 0]) == ["0", "0", "0", "0"];
    assert JoinFields(["0"], '.') == "0";
    assert ["0", "0"][1..] == ["0"] && JoinFields(["0", "0"], '.') == "0.0";
    assert ["0", "0", "0"][1..] == ["0", "0"] && JoinFields(["0", "0", "0"], '.') == "0.0.0";
    assert ["0", "0", "0", "0"][1..] == ["0", "0", "0"] && JoinFields(["0", "0", "0", "0"], '.') == "0.0.0.0";
    assert Decimal(30) == "3" + "0";
  }

  lemma ExampleBlock(p: Policy)
    requires p.allowed == [] && p.denied == [NetworkOf(1, 32)]
    ensures Holds(NetworkOf(0, 30), 2) && Permitted(p, 2) && !BlockPasses(NetworkOf(0, 30), p)
  {
    AddressIsNetwork(1);
    assert Holds(p.denied[0], 1) && !Holds(p.denied[0], 2);
    assert Size(30) == 4 by { assert Pow2(2) == 4; }
    HoldsInterval(NetworkOf(0, 30), 1);
    HoldsInterval(NetworkOf(0, 30), 2);
    BlockPassesMeans(NetworkOf(0, 30), p);
    assert Share(NetworkOf(0, 30), p.denied[0]);
  }

  lemma {:induction false} ExampleParses()
    ensures !IsIpv4Range("0.0.0.0/30") && ParseNetwork("0.0.0.0/30") == Some(NetworkOf(0, 30))
  {
    RangeHasDash("0.0.0.0/30");
    ExampleText();
    CidrRoundTrip(0, 30);
  }

  /** With `0.0.0.1/32` denied, the target `0.0.0.0/30` is dropped with the permitted address 2. */
  lemma {:induction false} SplitExample(p: Policy)
    requires p.allowed == [] && p.denied == [NetworkOf(1, 32)]
    ensures var target := "0.0.0.0/30";
      && !IsIpv4Range(target) && ParseNetwork(target) == Some(NetworkOf(0, 30)) && Splits(NetworkOf(0, 30), p)
      && Denotes(target, 2) && Permitted(p, 2)
      && Apply([target], p).Ok? && Apply([target], p).value.kept == []
  {
    ExampleParses();
    ExampleBlock(p);
    SplitBlockIsDropped("0.0.0.0/30", NetworkOf(0, 30), p, 2);
  }

  /** Filtering what was kept keeps it as it is, without a warning. */
  lemma FilteringAgainChangesNothing(targets: seq<string>, p: Policy)
    requires Apply(targets, p).Ok?
    ensures Apply(Apply(targets, p).value.kept, p) == Ok(Outcome(Apply(targets, p).value.kept, []))
  {
    var kept := Apply(targets, p).value.kept;
    FilterAllMeans(targets, p);
    FilterAllMeans(kept, p);
    DistinctOfDistinct(kept);
  }

  /** Filtering fails exactly on a range expression that does not expand. */
  lemma FailsOnBadRange(targets: seq<string>, p: Policy)
    ensures Apply(targets, p).Error? <==> exists t :: t in targets && IsIpv4Range(t) && ExpandIpv4Range(t).Error?
  {
    FilterAllMeans(targets, p);
  }

  // ---------- the loop ----------

  /** The body of the loop, for one target. */
  method FilterOneTarget(target: string, p: Policy) returns (r: Result<Outcome>)
    ensures r == FilterTarget(target, p)
    decreases Rank([target]), 0
  {
    if IsIpv4Range(target) {
      var addresses := ExpandIpv4Range(target);
      if addresses.Error? {
        return Error(addresses.message);
      }
      ExpansionIsPlain(target);
      ExpansionFiltered(target, p);
      assert [target][0] == target;
      var filtered := ApplyNetworkPolicy(addresses.value, p);
      if filtered.value.warnings != [] {
        return filtered;
      }
      return Ok(Outcome([target], []));
    }
    var decision := NetworkPolicyForTarget(target, p);
    if decision.Some? {
      return Ok(Outcome([], [decision.value]));
    }
    return Ok(Outcome([target], []));
  }

  method ApplyNetworkPolicy(targets: seq<string>, p: Policy) returns (r: Result<Outcome>)
    ensures r == Apply(targets, p)
    decreases Rank(targets), 1
  {
    var kept: seq<string>, warnings: seq<string> := [], [];
    for i := 0 to |targets|
      invariant FilterAll(targets[..i], p) == Ok(Outcome(kept, warnings))
    {
      OneIsNoMore(targets, i);
      FilterOneMore(targets, p, i);
      var one := FilterOneTarget(targets[i], p);
      if one.Error? {
        FirstErrorStays(targets, p, i);
        return one;
      }
      kept := kept + one.value.kept;
      warnings := warnings + one.value.warnings;
    }
    assert targets[..|targets|] == targets;
    r := Ok(Outcome(Distinct(kept), warnings));
  }

  lemma OneIsNoMore(targets: seq<string>, i: nat)
    requires i < |targets|
    ensures Rank([targets[i]]) <= Rank(targets)
  {
    assert [targets[i]][0] == targets[i];
  }

  lemma FilterOneMore(targets: seq<string>, p: Policy, i: nat)
    requires i < |targets| && FilterAll(targets[..i], p).Ok?
    ensures var front, one := FilterAll(targets[..i], p).value, FilterTarget(targets[i], p);
      FilterAll(targets[..i + 1], p)
      == if one.Error? then Error(one.message)
         else Ok(Outcome(front.kept + one.value.kept, front.warnings + one.value.warnings))
  {
    assert targets[..i + 1][..i] == targets[..i];
  }

  lemma {:induction false} FirstErrorStays(targets: seq<string>, p: Policy, i: nat)
    requires i < |targets| && FilterAll(targets[..i + 1], p).Error?
    ensures FilterAll(targets, p) == FilterAll(targets[..i + 1], p)
    decreases |targets|
  {
    if i + 1 < |targets| {
      var front := targets[..|targets| - 1];
      assert front[..i + 1] == targets[..i + 1];
      FirstErrorStays(front, p, i);
    } else {
      assert targets[..i + 1] == targets;
    }
  }

  // ---------- warnings ----------

  /** A denied block is named before the allow list is looked at. */
  lemma BlockWarning(target: string, b: Block, p: Policy)
    requires !IsIpv4Range(target) && ParseNetwork(target) == Some(b)
    ensures Apply([target], p).Ok?
    ensures Apply([target], p).value.warnings ==
      if exists i :: 0 <= i < |p.denied| && Share(b, p.denied[i]) then [target + " is denied by network policy"]
      else if p.allowed != [] && !exists i :: 0 <= i < |p.allowed| && Inside(b, p.allowed[i])
      then [target + " is outside allowed network scope"] else []
  {
    forall i | 0 <= i < |p.denied|
      ensures Overlaps(b, p.denied[i]) <==> Share(b, p.denied[i])
    {
      OverlapsMeans(b, p.denied[i]);
    }
    forall i | 0 <= i < |p.allowed|
      ensures SubnetOf(b, p.allowed[i]) <==> Inside(b, p.allowed[i])
    {
      SubnetOfMeans(b, p.allowed[i]);
    }
    WarnSingle(target, p);
  }

  lemma {:induction false} WarnSingle(target: string, p: Policy)
    requires !IsIpv4Range(target)
    ensures Apply([target], p).Ok?
    ensures Apply([target], p).value.warnings ==
      if NetworkPolicyForTarget(target, p).Some? then [NetworkPolicyForTarget(target, p).value] else []
  {
    FilterTargetSingle(target, p);
    FilterAllOne(target, p);
  }

  /** A name is warned about for its first address that is not permitted. */
  lemma {:induction false} NameWarning(name: string, p: Policy, addresses: seq<Address>, k: nat)
    requires !IsIpv4Range(name) && ParseNetwork(name).None? && p.resolve(name) == Some(addresses)
    requires k < |addresses| && !Permitted(p, addresses[k]) && forall j :: 0 <= j < k ==> Permitted(p, addresses[j])
    ensures Apply([name], p).Ok?
    ensures Apply([name], p).value.warnings ==
      if exists i :: 0 <= i < |p.denied| && Holds(p.denied[i], addresses[k])
      then [name + " is denied by network policy"] else [name + " is outside allowed network scope"]
  {
    WarnSingle(name, p);
    FirstWarningIs(name, addresses, p, k);
  }

  lemma {:induction false} FirstWarningIs(name: string, addresses: seq<Address>, p: Policy, k: nat)
    requires k < |addresses| && !Permitted(p, addresses[k]) && forall j :: 0 <= j < k ==> Permitted(p, addresses[j])
    ensures FirstWarning(name, addresses, p) ==
      if exists i :: 0 <= i < |p.denied| && Holds(p.denied[i], addresses[k])
      then Some(name + " is denied by network policy") else Some(name + " is outside allowed network scope")
  {
    AddressWarning(name, addresses[0], p);
    if k > 0 {
      FirstWarningIs(name, addresses[1..], p, k - 1);
    }
  }

  lemma {:induction false} AddressWarning(name: string, x: Address, p: Policy)
    ensures NetworkPolicyForNetwork(name, NetworkOf(x, 32), p) ==
      if Permitted(p, x) then None
      else if exists i :: 0 <= i < |p.denied| && Holds(p.denied[i], x)
      then Some(name + " is denied by network policy") else Some(name + " is outside allowed network scope")
  {
    AddressIsNetwork(x);
    SingleAddress(name, NetworkOf(x, 32), x, p);
    AddressShares(x, p);
  }

  lemma AddressShares(x: nat, p: Policy)
    requires x < ADDRESSES
    ensures forall i :: 0 <= i < |p.denied| ==> (Overlaps(NetworkOf(x, 32), p.denied[i]) <==> Holds(p.denied[i], x))
  {
    AddressIsNetwork(x);
    forall i | 0 <= i < |p.denied|
      ensures Overlaps(NetworkOf(x, 32), p.denied[i]) <==> Holds(p.denied[i], x)
    {
      OverlapsMeans(NetworkOf(x, 32), p.denied[i]);
      assert Holds(NetworkOf(x, 32), x);
    }
  }

  /** A name that does not resolve is warned about when there is an allow list. */
  lemma UnresolvedWarning(name: string, p: Policy)
    requires !IsIpv4Range(name) && ParseNetwork(name).None? && p.resolve(name).None?
    ensures Apply([name], p).Ok?
    ensures Apply([name], p).value.warnings ==
      if p.allowed == [] then [] else [name + " is not a normalized IP target"]
  {
    WarnSingle(name, p);
  }

  lemma {:induction false} OneTargetFails(target: string, p: Policy)
    ensures Apply([target], p).Ok? <==> FilterTarget(target, p).Ok?
  {
    FailsOnBadRange([target], p);
    FilterTargetMeans(target, p);
    assert target in [target];
  }

  lemma {:induction false} AllOneMore(targets: seq<string>, target: string, p: Policy)
    requires FilterAll(targets, p).Ok? && FilterTarget(target, p).Ok?
    ensures var front, one := FilterAll(targets, p).value, FilterTarget(target, p).value;
      FilterAll(targets + [target], p) == Ok(Outcome(front.kept + one.kept, front.warnings + one.warnings))
  {
    var all := targets + [target];
    assert all[..|targets|] == targets && all[..|targets| + 1] == all;
    FilterOneMore(all, p, |targets|);
  }

  /** Targets are kept and warned about one after the other, without repeating a kept one. */
  lemma {:induction false} OneAfterTheOther(targets: seq<string>, target: string, p: Policy)
    requires Apply(targets, p).Ok? && Apply([target], p).Ok?
    ensures Apply(targets + [target], p).Ok?
    ensures Apply(targets + [target], p).value.warnings
         == Apply(targets, p).value.warnings + Apply([target], p).value.warnings
    ensures Apply(targets, p).value.kept <= Apply(targets + [target], p).value.kept
  {
    OneTargetFails(target, p);
    ApplyOne(target, p);
    AllOneMore(targets, target, p);
    DistinctGrows(FilterAll(targets, p).value.kept, FilterTarget(target, p).value.kept);
  }

  /** A range is kept as written when all its addresses are permitted; otherwise its permitted addresses are
      kept, and each of the others is warned about, as if they had been the targets. */
  lemma {:induction false} RangeIsKept(target: string, p: Policy)
    requires IsIpv4Range(target) && ExpandIpv4Range(target).Ok?
    ensures Apply([target], p) ==
      if forall x: nat :: InRange(target, x) ==> Permitted(p, x) then Ok(Outcome([target], []))
      else Apply(ExpandIpv4Range(target).value, p)
    ensures Apply(ExpandIpv4Range(target).value, p).Ok?
    ensures forall k :: k in Apply(ExpandIpv4Range(target).value, p).value.kept <==>
      exists x: nat :: InRange(target, x) && Permitted(p, x) && k == AddressText(x)
  {
    ExpansionFiltered(target, p);
    RangeOutcome(target, p);
    ApplyOne(target, p);
    DistinctOne(target);
    KeptOnce(ExpandIpv4Range(target).value, p);
  }

  lemma {:induction false} ApplyOne(target: string, p: Policy)
    requires FilterTarget(target, p).Ok?
    ensures var o := FilterTarget(target, p).value;
      Apply([target], p) == Ok(Outcome(Distinct(o.kept), o.warnings))
  {
    FilterAllOne(target, p);
  }

  lemma {:induction false} KeptOnce(targets: seq<string>, p: Policy)
    requires Apply(targets, p).Ok?
    ensures Distinct(Apply(targets, p).value.kept) == Apply(targets, p).value.kept
  {
    DistinctOfDistinct(Apply(targets, p).value.kept);
  }

  lemma {:induction false} RangeOutcome(target: string, p: Policy)
    requires IsIpv4Range(target) && ExpandIpv4Range(target).Ok? && Apply(ExpandIpv4Range(target).value, p).Ok?
    ensures var o := Apply(ExpandIpv4Range(target).value, p).value;
      FilterTarget(target, p) == Ok(if o.warnings != [] then o else Outcome([target], []))
  {
  }
}
