/** What adding an item does to the groups as they lie in memory. */
module Owners {
  import opened Bits
  import opened Readings
  import opened Collector

  /** In memory, the same plumes get the same items. */
  lemma AddKosaAdds(koses: seq<KosaPackets>, item: Item, expected: byte, moves: nat -> bool)
    ensures Plumes(AddKosa(koses, item, expected, moves)) == AddItem(Plumes(koses), item)
  {
    hide Matches, Grown;
  }

  lemma {:induction false} AddAllKosasAdds(koses: seq<KosaPackets>, items: seq<Item>, expected: byte,
                                           moves: nat -> bool)
    ensures Plumes(AddAllKosas(koses, items, expected, moves)) == AddAll(Plumes(koses), items)
  {
    hide AddKosa, AddItem;
    if items != [] {
      var n := |items| - 1;
      AddAllKosasAdds(koses, items[..n], expected, moves);
      AddKosaAdds(AddAllKosas(koses, items[..n], expected, moves), items[n], expected, moves);
    }
  }

  /** Reading the group's packets never goes through an owner that no longer exists. */
  predicate ReadDefined(g: KosaPackets) {
    |g.owned| == |g.plume.items|
    && forall i :: 0 <= i < |g.owned| && IsDiff(g.plume.items[i].packet) ==> g.owned[i]
  }

  predicate OwnsAt(g: KosaPackets, k: nat) {
    && |g.owned| == |g.plume.items| > 0
    && (if k == 0 then forall i :: 0 <= i < |g.owned| ==> g.owned[i] else !g.owned[0])
  }

  /** The first group owns all its items; in any other the item that began the group has lost its owner. */
  predicate FirstOwns(koses: seq<KosaPackets>) {
    forall k :: 0 <= k < |koses| ==> OwnsAt(koses[k], k)
  }

  lemma AddKeepsOwners(koses: seq<KosaPackets>, item: Item, expected: byte, moves: nat -> bool)
    requires FirstOwns(koses)
    ensures FirstOwns(AddKosa(koses, item, expected, moves))
  {
    hide Matches;
    var r := AddKosa(koses, item, expected, moves);
    var n := Find(Plumes(koses), item.id);
    forall k | 0 <= k < |r|
      ensures OwnsAt(r[k], k)
    {
      assert k < |koses| ==> OwnsAt(koses[k], k);
    }
  }

  /**
   A group that began with a packet with deltas can be read exactly if it is the first group; one without
   deltas always can.
   */
  lemma OnlyFirstIsRead(koses: seq<KosaPackets>, k: nat)
    requires FirstOwns(koses) && k < |koses|
    ensures koses[k].plume.items != []
    ensures k == 0 ==> ReadDefined(koses[k])
    ensures k > 0 && IsDiff(koses[k].plume.items[0].packet) ==> !ReadDefined(koses[k])
    ensures (forall i :: 0 <= i < |koses[k].plume.items| ==> !IsDiff(koses[k].plume.items[i].packet))
            ==> ReadDefined(koses[k])
  {
    assert OwnsAt(koses[k], k);
  }

  /**
   The packets announced for a new plume are expected of the first group, and none of its own; the
   other groups expect what they did, or nothing if the vector moved.
   */
  lemma NewPlumeExpects(koses: seq<KosaPackets>, item: Item, expected: byte, moves: nat -> bool)
    requires Find(Plumes(koses), item.id) == |koses| > 0
    ensures var r := AddKosa(koses, item, expected, moves);
            && |r| == |koses| + 1 && r[|koses|].expectedPackets == 0
            && r[0].expectedPackets
               == (if expected > 0 then expected else if moves(|koses|) then 0 else koses[0].expectedPackets)
            && forall k :: 0 < k < |koses| ==>
                 r[k].expectedPackets == if moves(|koses|) then 0 else koses[k].expectedPackets
  {
  }
}
