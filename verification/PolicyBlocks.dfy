/** Network policy over blocks: which addresses are permitted, which blocks pass as a whole, and which
    blocks the policy splits. */
module PolicyBlocks {
  import opened Ipv4
  import opened Results

  type Address = x: nat | x < ADDRESSES witness 0

  /** The configured blocks, and what name resolution answers; `None` is a failed resolution. */
  datatype Policy = Policy(allowed: seq<Block>, denied: seq<Block>, resolve: string -> Option<seq<Address>>)

  /** Outside every denied block and, when there is an allow list, inside an allowed block. */
  predicate Permitted(p: Policy, x: nat) {
    && (forall i :: 0 <= i < |p.denied| ==> !Holds(p.denied[i], x))
    && (p.allowed == [] || exists i :: 0 <= i < |p.allowed| && Holds(p.allowed[i], x))
  }

  /** A block passes when it overlaps no denied block and lies, as a whole, in one allowed block. */
  predicate BlockPasses(b: Block, p: Policy) {
    && (forall i :: 0 <= i < |p.denied| ==> !Overlaps(b, p.denied[i]))
    && (p.allowed == [] || exists i :: 0 <= i < |p.allowed| && SubnetOf(b, p.allowed[i]))
  }

  /** In terms of addresses. */
  lemma BlockPassesMeans(b: Block, p: Policy)
    ensures BlockPasses(b, p) <==>
      && (forall i :: 0 <= i < |p.denied| ==> !Share(b, p.denied[i]))
      && (p.allowed == [] || exists i :: 0 <= i < |p.allowed| && Inside(b, p.allowed[i]))
  {
    forall i | 0 <= i < |p.denied|
      ensures Overlaps(b, p.denied[i]) <==> Share(b, p.denied[i])
    {
      OverlapsMeans(b, p.denied[i]);
    }
    forall i | 0 <= i < |p.allowed|
      ensures SubnetOf(b, p.allowed[i]) <==> Inside(b, p.allowed[i])
    {
      SubnetOfMeans(b, p.allowed[i]);
    }
  }

  /** Every address of a block that passes is permitted. */
  lemma PassingIsPermittedThroughout(b: Block, p: Policy, x: nat)
    requires BlockPasses(b, p) && Holds(b, x)
    ensures Permitted(p, x)
  {
    BlockPassesMeans(b, p);
    forall i | 0 <= i < |p.denied|
      ensures !Holds(p.denied[i], x)
    {
      assert !Share(b, p.denied[i]);
    }
  }

  // ---------- blocks that the policy splits ----------

  /** Where permission can begin: at the block's own start, after a denied block, or at an allowed one. */
  function Starts(b: Block, p: Policy): (r: seq<nat>)
    ensures |r| == 1 + |p.denied| + |p.allowed| && r[0] == b.address
    ensures forall i :: 0 <= i < |p.denied| ==> r[1 + i] == Broadcast(p.denied[i]) + 1
    ensures forall i :: 0 <= i < |p.allowed| ==> r[1 + |p.denied| + i] == p.allowed[i].address
  {
    [b.address]
    + seq(|p.denied|, i requires 0 <= i < |p.denied| => Broadcast(p.denied[i]) + 1)
    + seq(|p.allowed|, i requires 0 <= i < |p.allowed| => p.allowed[i].address)
  }

  /** The block does not pass, but one of those addresses lies in it and is permitted. */
  predicate Splits(b: Block, p: Policy) {
    && !BlockPasses(b, p)
    && exists i :: 0 <= i < |Starts(b, p)| && Holds(b, Starts(b, p)[i]) && Permitted(p, Starts(b, p)[i])
  }

  lemma StillOutside(d: Block, x: nat)
    requires x > 0 && !Holds(d, x) && x != Broadcast(d) + 1
    ensures !Holds(d, x - 1)
  {
    HoldsInterval(d, x);
    HoldsInterval(d, x - 1);
  }

  lemma StillInside(a: Block, x: nat)
    requires x > 0 && Holds(a, x) && x != a.address
    ensures Holds(a, x - 1)
  {
    HoldsInterval(a, x);
    HoldsInterval(a, x - 1);
  }

  /** The address before a permitted one is permitted too, unless permission begins there. */
  lemma PermittedBefore(b: Block, p: Policy, x: nat)
    requires Permitted(p, x) && x > 0 && x !in Starts(b, p)
    ensures Permitted(p, x - 1)
  {
    var r := Starts(b, p);
    assert forall k :: 0 <= k < |r| ==> r[k] != x;
    forall i | 0 <= i < |p.denied|
      ensures !Holds(p.denied[i], x - 1)
    {
      assert r[1 + i] != x;
      StillOutside(p.denied[i], x);
    }
    if p.allowed != [] {
      var i :| 0 <= i < |p.allowed| && Holds(p.allowed[i], x);
      assert r[1 + |p.denied| + i] != x;
      StillInside(p.allowed[i], x);
    }
  }

  /** Going down from any permitted address of a block, permission begins somewhere in the block. */
  lemma {:induction false} PermissionBegins(b: Block, p: Policy, x: nat) returns (i: nat)
    requires Holds(b, x) && Permitted(p, x)
    ensures i < |Starts(b, p)| && Holds(b, Starts(b, p)[i]) && Permitted(p, Starts(b, p)[i])
    decreases x
  {
    if x in Starts(b, p) {
      i :| 0 <= i < |Starts(b, p)| && Starts(b, p)[i] == x;
    } else {
      HoldsInterval(b, x);
      assert b.address == Starts(b, p)[0];
      assert x > b.address;
      HoldsInterval(b, x - 1);
      PermittedBefore(b, p, x);
      i := PermissionBegins(b, p, x - 1);
    }
  }

  /** The few addresses decide: a block is split exactly when it is dropped with a permitted address in
      it. */
  lemma SplitsMeans(b: Block, p: Policy)
    ensures Splits(b, p) <==> !BlockPasses(b, p) && exists x: nat :: Holds(b, x) && Permitted(p, x)
  {
    if x: nat :| Holds(b, x) && Permitted(p, x) {
      var i := PermissionBegins(b, p, x);
    }
  }

  /** `q` is a smaller block within `b`. */
  predicate StrictlyInside(q: Block, b: Block) {
    q.prefix > b.prefix && SubnetOf(q, b)
  }

  lemma SameForAll(b: Block, q: Block, x: nat)
    requires !StrictlyInside(q, b) && Holds(b, x) && Holds(q, x)
    ensures SubnetOf(b, q)
  {
    OverlapsMeans(b, q);
    OverlapsMeans(q, b);
    if q.prefix > b.prefix {
      NestedOrDisjoint(q, b);
    } else {
      NestedOrDisjoint(b, q);
    }
  }

  /** A block with no smaller policy block within it is never split. */
  lemma NothingInsideNothingSplit(b: Block, p: Policy)
    requires forall i :: 0 <= i < |p.denied| ==> !StrictlyInside(p.denied[i], b)
    requires forall i :: 0 <= i < |p.allowed| ==> !StrictlyInside(p.allowed[i], b)
    ensures !Splits(b, p)
  {
    SplitsMeans(b, p);
    if x: nat :| Holds(b, x) && Permitted(p, x) {
      forall i | 0 <= i < |p.denied|
        ensures !Overlaps(b, p.denied[i])
      {
        if Overlaps(b, p.denied[i]) {
          OverlapsMeans(b, p.denied[i]);
          var y: nat :| Holds(b, y) && Holds(p.denied[i], y);
          SameForAll(b, p.denied[i], y);
          SubnetOfMeans(b, p.denied[i]);
        }
      }
      if p.allowed != [] {
        var i :| 0 <= i < |p.allowed| && Holds(p.allowed[i], x);
        SameForAll(b, p.allowed[i], x);
      }
    }
  }
}
