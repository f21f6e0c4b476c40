/** The growing array of pending acknowledgements. */
module AckList {
  import opened Serial
  import opened ControlBlock

  /** The smallest block size the doubling loop can reach for `size` entries. */
  ghost predicate IsBlock(block: nat, size: nat) {
    size <= block && (block == 8 || block < 2 * size)
  }

  class AckArray {
    var acklist: array<u32>
    var ackcount: nat
    var ackblock: nat

    ghost predicate Valid() reads this {
      ackcount <= ackblock && acklist.Length == 2 * ackblock
    }

    /** The pairs stored so far. */
    ghost function View(): seq<Ack>
      requires Valid()
      reads this, acklist
    {
      Pairs(acklist[..2 * ackcount])
    }

    constructor ()
      ensures Valid() && View() == [] && fresh(acklist)
    {
      acklist, ackcount, ackblock := new u32[0], 0, 0;
    }

    /** `ikcp_ack_push`: append, after doubling the block until the pair fits. */
    method Push(sn: u32, ts: u32)
      requires Valid()
      modifies this, acklist
      ensures Valid() && View() == old(View()) + [Ack(sn, ts)]
      ensures acklist == old(acklist) || fresh(acklist)
      ensures ackblock == old(ackblock) || IsBlock(ackblock, ackcount)
    {
      ghost var before := acklist[..2 * ackcount];
      if ackcount + 1 > ackblock {
        Grow();
      }
      acklist[ackcount * 2], acklist[ackcount * 2 + 1] := sn, ts;
      ackcount := ackcount + 1;
      assert acklist[..2 * ackcount] == before + [sn, ts];
      PairsSnoc(before, sn, ts);
    }

    method Grow()
      requires Valid()
      modifies this
      ensures Valid() && ackcount == old(ackcount) < ackblock && fresh(acklist) && IsBlock(ackblock, ackcount + 1)
      ensures acklist[..2 * ackcount] == old(acklist[..2 * ackcount])
    {
      var newblock := 8;
      while newblock < ackcount + 1
        invariant newblock == 8 || newblock < 2 * (ackcount + 1)
        modifies {}
      {
        newblock := newblock * 2;
      }
      var grown := new u32[newblock * 2];
      for x := 0 to ackcount
        invariant grown[..2 * x] == acklist[..2 * x]
        modifies grown
      {
        grown[x * 2] := acklist[x * 2];
        grown[x * 2 + 1] := acklist[x * 2 + 1];
      }
      acklist, ackblock := grown, newblock;
    }

    /** `ikcp_ack_get`. */
    method Get(p: nat) returns (ack: Ack)
      requires Valid() && p < ackcount
      ensures p < |View()| && ack == View()[p]
    {
      PairsAt(acklist[..2 * ackcount], p);
      ack := Ack(acklist[p * 2], acklist[p * 2 + 1]);
    }
  }

  ghost function Pairs(words: seq<u32>): seq<Ack>
    requires |words| % 2 == 0
  {
    if words == [] then [] else Pairs(words[..|words| - 2]) + [Ack(words[|words| - 2], words[|words| - 1])]
  }

  lemma PairsSnoc(words: seq<u32>, sn: u32, ts: u32)
    requires |words| % 2 == 0
    ensures Pairs(words + [sn, ts]) == Pairs(words) + [Ack(sn, ts)]
  {
    assert (words + [sn, ts])[..|words|] == words;
  }

  lemma {:induction false} PairsAt(words: seq<u32>, p: nat)
    requires |words| % 2 == 0 && 2 * p < |words|
    ensures 2 * |Pairs(words)| == |words| && Pairs(words)[p] == Ack(words[2 * p], words[2 * p + 1])
  {
    if 2 * p + 2 < |words| {
      PairsAt(words[..|words| - 2], p);
    } else if p > 0 {
      PairsAt(words[..|words| - 2], p - 1);
    }
  }
}
