/**
 * The permission-bit cursor behind qpol_avrule_get_perm_iter: it walks the
 * bit indices 0 .. 31 of one rule's working permission word and stops only at
 * set bits.
 */
module PermCursor {
  /** Width of the permission word. */
  const PermBits: nat := 32

  /** Bit b of s is set. */
  predicate BitSet(s: bv32, b: nat)
    requires b < PermBits
  {
    s & (1 << b) != 0
  }

  /** The lowest set bit of s at or above b, or 32 if there is none. */
  function NextSetBit(s: bv32, b: nat): (r: nat)
    requires b <= PermBits
    decreases PermBits - b
    ensures b <= r <= PermBits
    ensures r < PermBits ==> BitSet(s, r)
    ensures forall k :: b <= k < r ==> !BitSet(s, k)
  {
    if b == PermBits || BitSet(s, b) then b else NextSetBit(s, b + 1)
  }

  /** The set bits of s at or above b, ascending. */
  function SetBitsFrom(s: bv32, b: nat): (r: seq<nat>)
    requires b <= PermBits
    decreases PermBits - b
    ensures forall k :: k in r <==> b <= k < PermBits && BitSet(s, k)
    ensures forall x, y :: 0 <= x < y < |r| ==> r[x] < r[y]
  {
    if b == PermBits then []
    else
      var rest := SetBitsFrom(s, b + 1);
      assert forall k :: k in rest ==> b < k;
      if BitSet(s, b) then
        var r := [b] + rest;
        assert forall x :: 0 < x < |r| ==> r[x] == rest[x - 1] && r[x] in rest;
        r
      else rest
  }

  /** Complementing the word flips every one of its 32 bits. */
  lemma ComplementFlips(s: bv32, k: nat)
    requires k < PermBits
    ensures BitSet(!s, k) <==> !BitSet(s, k)
  {
    var m: bv32 := 1 << k;
    assert m != 0 && m & (m - 1) == 0;
  }

  /**
   * The working word of a permission cursor: the stored word, or its
   * complement when the stored word is an audit-deny word.
   */
  function Granted(deny: bool, stored: bv32): (w: bv32)
    ensures !deny ==> w == stored
    ensures deny ==> w & stored == 0 && w | stored == 0xFFFF_FFFF
  {
    if deny then !stored else stored
  }

  /** Bit by bit, an audit-deny word grants exactly the bits it lacks, and any other word its own bits. */
  lemma GrantedBits(deny: bool, stored: bv32, k: nat)
    requires k < PermBits
    ensures BitSet(Granted(deny, stored), k) <==> (BitSet(stored, k) != deny)
  {
    if deny {
      ComplementFlips(stored, k);
    }
  }

  /**
   * The cursor state perm_state_t: the working permission word, the id of the
   * rule's object class, and the current bit index (32 once exhausted).
   */
  class PermState {
    const permSet: bv32
    const objClassVal: nat
    var cur: nat

    ghost predicate Valid()
      reads this
    {
      cur <= PermBits
    }

    /** perm_state_end: every bit index has been passed. */
    predicate AtEnd()
      reads this
      ensures AtEnd() && Valid() ==> cur == PermBits && Remaining() == []
    {
      cur >= PermBits
    }

    /** The set bits not yet consumed, the current one included if it is set. */
    function Remaining(): seq<nat>
      reads this
      requires Valid()
    {
      SetBitsFrom(permSet, cur)
    }

    /** The state as filled in at construction, at bit 0. */
    constructor (perms: bv32, objClass: nat)
      ensures Valid()
      ensures permSet == perms && objClassVal == objClass && cur == 0
      ensures Remaining() == SetBitsFrom(perms, 0)
    {
      permSet, objClassVal, cur := perms, objClass, 0;
    }

    /** perm_state_next: move to the next set bit above the current one, or to the end. */
    method Next()
      requires Valid()
      modifies this
      ensures Valid()
      ensures AtEnd() || BitSet(permSet, cur)
      ensures old(cur) == PermBits ==> cur == PermBits
      ensures old(cur) < PermBits ==> cur == NextSetBit(permSet, old(cur) + 1)
      ensures old(cur) < PermBits ==>
        old(Remaining()) == (if BitSet(permSet, old(cur)) then [old(cur)] else []) + Remaining()
    {
      if cur == PermBits {
        return;
      }
      cur := cur + 1;
      while cur < PermBits && !BitSet(permSet, cur)
        invariant old(cur) < cur <= PermBits
        invariant NextSetBit(permSet, old(cur) + 1) == NextSetBit(permSet, cur)
        invariant SetBitsFrom(permSet, old(cur) + 1) == SetBitsFrom(permSet, cur)
        decreases PermBits - cur
      {
        cur := cur + 1;
      }
    }
  }

  /**
   * A cursor over perms positioned on its first set bit: the state is filled
   * in at bit 0 and advanced once when bit 0 (perms & 1) is clear.
   */
  method Start(perms: bv32, objClass: nat) returns (ps: PermState)
    ensures fresh(ps) && ps.Valid()
    ensures ps.permSet == perms && ps.objClassVal == objClass
    ensures ps.cur == (if BitSet(perms, 0) then 0 else NextSetBit(perms, 1))
    ensures ps.AtEnd() || BitSet(perms, ps.cur)
    ensures ps.Remaining() == SetBitsFrom(perms, 0)
  {
    ps := new PermState(perms, objClass);
    if !BitSet(perms, 0) {
      ghost var all := ps.Remaining();
      ps.Next();
      assert all == [] + ps.Remaining();
    }
  }
}
