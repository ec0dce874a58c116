/**
 * The rule-table cursor behind qpol_policy_get_avrule_iter and
 * qpol_policy_get_terule_iter: it walks the unconditional table's buckets and
 * then the conditional table's, in chain order, and stops only at nodes whose
 * kind bits meet the caller's mask.
 *
 * The two tables are seen as one sequence of buckets (the unconditional
 * buckets, then the conditional ones); a Place names a bucket of that
 * sequence and a position along its chain.
 */
module AvtabCursor {
  import opened Wrappers
  import opened QpolTypes

  /** The filter the cursor applies: some kind bit of the node is in the mask. */
  predicate Matches(n: Node, mask: bv32)
    ensures Matches(n, mask) ==> n.key.specified != 0 && mask != 0
  {
    n.key.specified & mask != 0
  }

  /** The nodes of ns that meet mask, in their order in ns. */
  function Filter(ns: seq<Node>, mask: bv32): (r: seq<Node>)
    ensures |r| <= |ns|
    ensures forall n :: n in r ==> n in ns && Matches(n, mask)
    ensures forall n :: n in ns && Matches(n, mask) ==> n in r
  {
    if ns == [] then []
    else (if Matches(ns[0], mask) then [ns[0]] else []) + Filter(ns[1..], mask)
  }

  lemma {:induction false} FilterConcat(a: seq<Node>, b: seq<Node>, mask: bv32)
    ensures Filter(a + b, mask) == Filter(a, mask) + Filter(b, mask)
  {
    if a != [] {
      assert (a + b)[1..] == a[1..] + b;
      FilterConcat(a[1..], b, mask);
    } else {
      assert a + b == b;
    }
  }

  /** A bucket of the combined table and an index along its chain. */
  datatype Place = Place(g: nat, i: nat)

  /** The nodes of buckets g, g + 1, ... in traversal order. */
  function FlatFrom(B: Table, g: nat): seq<Node>
    requires g <= |B|
    decreases |B| - g
  {
    if g == |B| then [] else B[g] + FlatFrom(B, g + 1)
  }

  /** Every node of a table, bucket-ascending and in chain order within a bucket. */
  function Flat(B: Table): seq<Node>
  {
    FlatFrom(B, 0)
  }

  /** The nodes at p and after it, in traversal order. */
  function From(B: Table, p: Place): seq<Node>
    requires p.g <= |B|
  {
    if p.g == |B| then []
    else (if p.i < |B[p.g]| then B[p.g][p.i..] else []) + FlatFrom(B, p.g + 1)
  }

  /** p holds a node. */
  predicate IsNode(B: Table, p: Place)
  {
    p.g < |B| && p.i < |B[p.g]|
  }

  /** p is the end, or a node the cursor may stop at (a node in the table or the end). */
  predicate Landed(B: Table, p: Place)
  {
    (p.g == |B| && p.i == 0) || IsNode(B, p)
  }

  /** p is where a cursor with this mask may be observed: the end or a matching node. */
  predicate Observable(B: Table, mask: bv32, p: Place)
  {
    (p.g == |B| && p.i == 0) || (IsNode(B, p) && Matches(B[p.g][p.i], mask))
  }

  /** The first non-empty bucket at or after g, or |B| if there is none. */
  function NextNonEmpty(B: Table, g: nat): (h: nat)
    requires g <= |B|
    decreases |B| - g
    ensures g <= h <= |B|
    ensures h < |B| ==> B[h] != []
    ensures forall k :: g <= k < h ==> B[k] == []
  {
    if g == |B| || B[g] != [] then g else NextNonEmpty(B, g + 1)
  }

  /** One unfiltered step: the next node of the chain, else the head of the next non-empty bucket, else the end. */
  function RawNext(B: Table, p: Place): (q: Place)
    requires p.g < |B|
    ensures Landed(B, q)
    ensures q.g > p.g || (q.g == p.g && q.i == p.i + 1)
  {
    if p.i + 1 < |B[p.g]| then Place(p.g, p.i + 1) else Place(NextNonEmpty(B, p.g + 1), 0)
  }

  lemma {:induction false} SkipEmpty(B: Table, g: nat)
    requires g <= |B|
    ensures From(B, Place(NextNonEmpty(B, g), 0)) == FlatFrom(B, g)
    decreases |B| - g
  {
    if g < |B| {
      if B[g] == [] {
        SkipEmpty(B, g + 1);
        assert FlatFrom(B, g) == FlatFrom(B, g + 1);
      } else {
        assert B[g][0..] == B[g];
      }
    }
  }

  /** A raw step consumes exactly the node at p, if there is one, and nothing else. */
  lemma RawNextSplit(B: Table, p: Place)
    requires p.g < |B|
    ensures From(B, p) == (if IsNode(B, p) then [B[p.g][p.i]] else []) + From(B, RawNext(B, p))
  {
    var bucket := B[p.g];
    if p.i + 1 < |bucket| {
      assert bucket[p.i..] == [bucket[p.i]] + bucket[p.i + 1..];
    } else {
      SkipEmpty(B, p.g + 1);
      if p.i < |bucket| {
        assert bucket[p.i..] == [bucket[p.i]];
      }
    }
  }

  /**
   * The rule-table step: raw steps from p until the cursor lands on a node that
   * meets the mask or reaches the end.
   */
  function Advance(B: Table, mask: bv32, p: Place): (q: Place)
    requires p.g < |B|
    decreases |From(B, p)|, |B| - p.g
    ensures Observable(B, mask, q)
  {
    var r := RawNext(B, p);
    RawNextSplit(B, p);
    if r.g == |B| || Matches(B[r.g][r.i], mask) then r else Advance(B, mask, r)
  }

  /**
   * What the step skips: the matching nodes still ahead at p are the node at p
   * (when it matches) followed by those still ahead where the step lands.
   */
  lemma {:induction false} AdvanceFilter(B: Table, mask: bv32, p: Place)
    requires p.g < |B|
    decreases |From(B, p)|, |B| - p.g
    ensures Filter(From(B, p), mask)
         == (if IsNode(B, p) && Matches(B[p.g][p.i], mask) then [B[p.g][p.i]] else [])
            + Filter(From(B, Advance(B, mask, p)), mask)
  {
    var r := RawNext(B, p);
    RawNextSplit(B, p);
    var head := if IsNode(B, p) then [B[p.g][p.i]] else [];
    var kept := if IsNode(B, p) && Matches(B[p.g][p.i], mask) then head else [];
    assert From(B, p) == head + From(B, r);
    FilterConcat(head, From(B, r), mask);
    assert Filter(head, mask) == kept;
    if r.g < |B| && !Matches(B[r.g][r.i], mask) {
      AdvanceFilter(B, mask, r);
      assert IsNode(B, r);
      assert Filter(From(B, r), mask) == Filter(From(B, Advance(B, mask, r)), mask);
      assert Advance(B, mask, p) == Advance(B, mask, r);
    } else {
      assert Advance(B, mask, p) == r;
    }
  }

  /**
   * What a caller reads from a cursor observed at p by taking current and
   * advancing until the end.
   */
  function Yield(B: Table, mask: bv32, p: Place): seq<Node>
    requires p.g <= |B|
    requires Observable(B, mask, p)
    decreases |From(B, p)|
  {
    if p.g == |B| then []
    else
      AdvanceShrinks(B, mask, p);
      [B[p.g][p.i]] + Yield(B, mask, Advance(B, mask, p))
  }

  /** From a node, the step lands strictly further on. */
  lemma {:induction false} AdvanceShrinks(B: Table, mask: bv32, p: Place)
    requires IsNode(B, p)
    ensures |From(B, Advance(B, mask, p))| < |From(B, p)|
    decreases |From(B, p)|, |B| - p.g
  {
    var r := RawNext(B, p);
    RawNextSplit(B, p);
    if r.g < |B| && !Matches(B[r.g][r.i], mask) {
      AdvanceShrinks(B, mask, r);
    }
  }

  /**
   * Mask-filter correctness: reading a cursor from any observable position to
   * the end yields exactly the matching nodes from that position on, in order.
   */
  lemma {:induction false} YieldIsFilter(B: Table, mask: bv32, p: Place)
    requires p.g <= |B|
    requires Observable(B, mask, p)
    decreases |From(B, p)|
    ensures Yield(B, mask, p) == Filter(From(B, p), mask)
  {
    if p.g < |B| {
      AdvanceFilter(B, mask, p);
      AdvanceShrinks(B, mask, p);
      YieldIsFilter(B, mask, Advance(B, mask, p));
    }
  }

  lemma {:induction false} FlatFromConcat(u: Table, c: Table, g: nat)
    requires g <= |u|
    decreases |u| - g
    ensures FlatFrom(u + c, g) == FlatFrom(u, g) + Flat(c)
  {
    if g == |u| {
      FlatFromSuffix(u, c, 0);
    } else {
      FlatFromConcat(u, c, g + 1);
    }
  }

  lemma {:induction false} FlatFromSuffix(u: Table, c: Table, h: nat)
    requires h <= |c|
    decreases |c| - h
    ensures FlatFrom(u + c, |u| + h) == FlatFrom(c, h)
  {
    if h < |c| {
      FlatFromSuffix(u, c, h + 1);
    }
  }

  /** The start of the combined table holds every node: the unconditional ones first. */
  lemma StartHoldsAll(u: Table, c: Table)
    requires 0 < |u|
    ensures From(u + c, Place(0, 0)) == Flat(u) + Flat(c)
  {
    var B := u + c;
    if B[0] != [] {
      assert B[0][0..] == B[0];
    }
    assert From(B, Place(0, 0)) == FlatFrom(B, 0);
    FlatFromConcat(u, c, 0);
  }

  /** Which of the two tables the cursor is in. */
  datatype Which = Unconditional | Conditional

  /**
   * The cursor state avtab_state_t: the two tables, the kind mask, which table
   * and bucket the cursor is in, and (for the node pointer) the position along
   * that bucket's chain.
   */
  class AvtabState {
    const ucondTab: Table
    const condTab: Table
    const ruleTypeMask: bv32
    var which: Which
    var bucket: nat
    var chain: nat

    /** The buckets of both tables, unconditional first. */
    function Buckets(): Table
    {
      ucondTab + condTab
    }

    /** The cursor's bucket within Buckets(). */
    function Global(): nat
      reads this
    {
      if which == Unconditional then bucket else |ucondTab| + bucket
    }

    function Here(): Place
      reads this
    {
      Place(Global(), chain)
    }

    ghost predicate Valid()
      reads this
    {
      && 0 < |ucondTab|
      && (which == Unconditional ==> bucket < |ucondTab|)
      && (which == Conditional ==> bucket <= |condTab|)
      && (Global() == |Buckets()| ==> chain == 0)
    }

    /** The node the cursor points at, or None (the end, or an empty first bucket). */
    function Current(): (n: Option<Node>)
      reads this
      requires Valid()
      ensures n.Some? <==> IsNode(Buckets(), Here())
      ensures n.Some? ==> n.value == Buckets()[Global()][chain]
    {
      if IsNode(Buckets(), Here()) then Some(Buckets()[Global()][chain]) else None
    }

    /** avtab_state_end: both tables exhausted. */
    predicate AtEnd()
      reads this
      requires Valid()
      ensures AtEnd() ==> Current().None? && Remaining() == []
    {
      Global() == |Buckets()|
    }

    /** The matching nodes not yet consumed, the current one included if it matches. */
    function Remaining(): seq<Node>
      reads this
      requires Valid()
    {
      Filter(From(Buckets(), Here()), ruleTypeMask)
    }

    /** The state as filled in at construction: bucket 0 of the unconditional table, node htable[0]. */
    constructor (ucond: Table, cond: Table, mask: bv32)
      requires 0 < |ucond|
      ensures Valid()
      ensures ucondTab == ucond && condTab == cond && ruleTypeMask == mask
      ensures which == Unconditional && bucket == 0 && chain == 0
      ensures Current() == if ucond[0] == [] then None else Some(ucond[0][0])
      ensures Remaining() == Filter(Flat(ucond), mask) + Filter(Flat(cond), mask)
    {
      ucondTab, condTab, ruleTypeMask := ucond, cond, mask;
      which, bucket, chain := Unconditional, 0, 0;
      new;
      StartHoldsAll(ucond, cond);
      FilterConcat(Flat(ucond), Flat(cond), mask);
    }

    /**
     * avtab_state_next: advance to the next matching node or to the end;
     * at the end it changes nothing.
     */
    method Next()
      requires Valid()
      modifies this
      ensures Valid()
      ensures Observable(Buckets(), ruleTypeMask, Here())
      ensures old(AtEnd()) ==> which == old(which) && bucket == old(bucket) && chain == old(chain)
      ensures !old(AtEnd()) ==> Here() == Advance(Buckets(), ruleTypeMask, old(Here()))
      ensures !old(AtEnd()) ==>
        old(Remaining()) == (if Observable(Buckets(), ruleTypeMask, old(Here())) then [old(Current()).value] else [])
                            + Remaining()
    {
      var B := Buckets();
      if Global() == |B| {
        return;
      }
      var p := Here();
      var q := RawNext(B, p);
      while q.g < |B| && !Matches(B[q.g][q.i], ruleTypeMask)
        invariant Landed(B, q)
        invariant Advance(B, ruleTypeMask, p)
               == if q.g == |B| || Matches(B[q.g][q.i], ruleTypeMask) then q else Advance(B, ruleTypeMask, q)
        decreases |From(B, q)|
      {
        RawNextSplit(B, q);
        q := RawNext(B, q);
      }
      AdvanceFilter(B, ruleTypeMask, p);
      MoveTo(q);
    }

    /** Points the cursor at q, naming its table and the bucket within that table. */
    method MoveTo(q: Place)
      requires 0 < |ucondTab|
      requires q.g <= |Buckets()| && (q.g == |Buckets()| ==> q.i == 0)
      modifies this
      ensures Valid() && Here() == q
    {
      if q.g < |ucondTab| {
        which, bucket := Unconditional, q.g;
      } else {
        which, bucket := Conditional, q.g - |ucondTab|;
      }
      chain := q.i;
    }
  }

  /** Whether the seeded node htable[0] of the unconditional table exists and meets the mask. */
  predicate SeedMatches(ucond: Table, mask: bv32)
    requires 0 < |ucond|
    ensures SeedMatches(ucond, mask) <==> IsNode(ucond, Place(0, 0)) && Matches(ucond[0][0], mask)
  {
    ucond[0] != [] && Matches(ucond[0][0], mask)
  }
}
