/** Grouping of packets by plume: `LoggerKosaPackets::add`, `LoggerKosaCollector::add` and `put`. */
module Collector {
  import opened Wrappers
  import opened Bits
  import opened Packets
  import opened Readings
  import opened Framing
  import opened Collection

  /** Matches every year. */
  const NO_MATCH_YEAR: byte := 255

  /** The identity and the packets of one plume. */
  datatype Plume = Plume(id: ItemId, items: seq<Item>)

  /** `LoggerKosaPackets::operator==` */
  predicate Matches(plume: Plume, id: ItemId) {
    plume.id.kosa == id.kosa && (id.kosaYear == NO_MATCH_YEAR || plume.id.kosaYear == id.kosaYear)
  }

  /** `std::find`: the first plume that matches, or the end. */
  function Find(plumes: seq<Plume>, id: ItemId): (k: nat)
    ensures k <= |plumes| && (forall j :: 0 <= j < k ==> !Matches(plumes[j], id))
    ensures k < |plumes| ==> Matches(plumes[k], id)
  {
    if plumes == [] || Matches(plumes[0], id) then 0 else 1 + Find(plumes[1..], id)
  }

  /** An item of another plume or another year is not added. */
  predicate Takes(plume: Plume, item: Item) {
    plume.items == [] || (item.id.kosa == plume.id.kosa && item.id.kosaYear == plume.id.kosaYear)
  }

  function Grown(plume: Plume, item: Item): Plume {
    if !Takes(plume, item) then plume
    else Plume(if plume.items == [] then item.id else plume.id, plume.items + [item])
  }

  function AddItem(plumes: seq<Plume>, item: Item): seq<Plume> {
    var k := Find(plumes, item.id);
    if k < |plumes| then plumes[k := Grown(plumes[k], item)] else plumes + [Plume(item.id, [item])]
  }

  function AddAll(plumes: seq<Plume>, items: seq<Item>): seq<Plume> {
    if items == [] then plumes else AddItem(AddAll(plumes, items[..|items| - 1]), items[|items| - 1])
  }

  /** `getCollectedFirstHeader`: the year in the first header of the first group of a plume. */
  function CollectedYear(plumes: seq<Plume>, kosa: byte): Option<byte> {
    var k := Find(plumes, ItemId(kosa, 0, 0, NO_MATCH_YEAR));
    if k < |plumes| then HeadYear(plumes[k].items) else None
  }

  function Collected(plumes: seq<Plume>): byte -> Option<byte> {
    (kosa: byte) => CollectedYear(plumes, kosa)
  }

  // ------------------------------------------------------- groups as they lie in memory

  /**
   `LoggerKosaPackets`. An item points to the collection that owns it: `owned` says of which items this is the
   collection of this group. The others point to a collection that no longer exists.
   */
  datatype KosaPackets = KosaPackets(plume: Plume, owned: seq<bool>, expectedPackets: byte)

  function Plumes(koses: seq<KosaPackets>): (plumes: seq<Plume>)
    ensures |plumes| == |koses| && forall k :: 0 <= k < |koses| ==> plumes[k] == koses[k].plume
  {
    seq(|koses|, k requires 0 <= k < |koses| => koses[k].plume)
  }

  function AllOwned(n: nat, owned: bool): (r: seq<bool>)
    ensures |r| == n && forall i :: 0 <= i < n ==> r[i] == owned
  {
    seq(n, i => owned)
  }

  /** The copy constructor: items keep their owner, the number of expected packets is not copied. */
  function Copied(g: KosaPackets): KosaPackets {
    KosaPackets(g.plume, AllOwned(|g.plume.items|, false), 0)
  }

  function AllCopied(koses: seq<KosaPackets>): (r: seq<KosaPackets>)
    ensures |r| == |koses| && forall k :: 0 <= k < |koses| ==> r[k] == Copied(koses[k])
  {
    seq(|koses|, k requires 0 <= k < |koses| => Copied(koses[k]))
  }

  function Expecting(g: KosaPackets, expected: byte): KosaPackets {
    if expected > 0 then g.(expectedPackets := expected) else g
  }

  /** An item added to a group is owned by it. */
  function GrownKosa(g: KosaPackets, item: Item): KosaPackets {
    KosaPackets(Grown(g.plume, item), if Takes(g.plume, item) then g.owned + [true] else g.owned, g.expectedPackets)
  }

  /**
   A new group is pushed: if the vector moves, all groups are copied. Then the first group, and only that, is told to
   own its items, and it gets the number of expected packets.
   */
  function Pushed(koses: seq<KosaPackets>, item: Item, expected: byte, moves: bool): seq<KosaPackets> {
    var all := (if moves then AllCopied(koses) else koses) + [KosaPackets(Plume(item.id, [item]), [false], 0)];
    all[0 := Expecting(all[0].(owned := AllOwned(|all[0].plume.items|, true)), expected)]
  }

  function AddKosa(koses: seq<KosaPackets>, item: Item, expected: byte, moves: nat -> bool): seq<KosaPackets> {
    var k := Find(Plumes(koses), item.id);
    if k < |koses| then koses[k := Expecting(GrownKosa(koses[k], item), expected)]
    else Pushed(koses, item, expected, moves(|koses|))
  }

  function AddAllKosas(koses: seq<KosaPackets>, items: seq<Item>, expected: byte, moves: nat -> bool)
    : seq<KosaPackets>
  {
    if items == [] then koses
    else AddKosa(AddAllKosas(koses, items[..|items| - 1], expected, moves), items[|items| - 1], expected, moves)
  }

  class LoggerKosaCollector {
    var koses: seq<KosaPackets>
    /** Whether the vector moves its elements when one more is pushed. */
    const moves: nat -> bool

    constructor (moves: nat -> bool)
      ensures koses == [] && this.moves == moves
    {
      koses := [];
      this.moves := moves;
    }

    /** Begin a group. */
    method PushKosa(item: Item, expectedPackets: byte)
      modifies this
      ensures koses == Pushed(old(koses), item, expectedPackets, moves(|old(koses)|))
    {
      var p := KosaPackets(Plume(item.id, [item]), [true], 0);
      if moves(|koses|) {
        koses := AllCopied(koses);
      }
      assert AllOwned(1, false) == [false];
      koses := koses + [Copied(p)];
      var first := koses[0].(owned := AllOwned(|koses[0].plume.items|, true));
      if expectedPackets > 0 {
        first := first.(expectedPackets := expectedPackets);
      }
      koses := koses[0 := first];
    }

    /** Add the items of a collection to the groups they belong to. */
    method Add(value: seq<Item>, expectedPackets: byte)
      modifies this
      ensures koses == AddAllKosas(old(koses), value, expectedPackets, moves)
    {
      hide Matches, Grown, GrownKosa, Pushed;
      assert value[..0] == [];
      for i := 0 to |value|
        invariant koses == AddAllKosas(old(koses), value[..i], expectedPackets, moves)
      {
        var item := value[i];
        assert value[..i + 1][..i] == value[..i];
        var found := false;
        ghost var before := koses;
        var k := 0;
        while k < |koses|
          invariant k <= |koses| && koses == before && !found
          invariant Find(Plumes(koses), item.id) == k + Find(Plumes(koses)[k..], item.id)
        {
          if Matches(koses[k].plume, item.id) {
            var g := GrownKosa(koses[k], item);
            if expectedPackets > 0 {
              g := g.(expectedPackets := expectedPackets);
            }
            koses := koses[k := g];
            found := true;
            break;
          }
          k := k + 1;
        }
        if !found {
          PushKosa(item, expectedPackets);
        }
        assert koses == AddKosa(before, item, expectedPackets, moves);
      }
      assert value[..|value|] == value;
    }

    /** Store the packets of a buffer; `loaded` is the record that the loader has for the address of the message. */
    method Put(buffer: seq<byte>, loaded: Option<ItemId>) returns (r: Result<byte>, retSize: nat)
      modifies this
      ensures r.Ok? <==> AllStorable(Frames(buffer), loaded)
      ensures r.Err? ==> koses == old(koses)
      ensures r.Ok? ==>
                var known := Known(Collected(Plumes(old(koses))), loaded);
                && koses == AddAllKosas(old(koses), PutPackets([], known, Frames(buffer)),
                                        Announced(0, Frames(buffer)), moves)
                && r.value == PacketType(LastPart(buffer)) && retSize == |LastPart(buffer)|
    {
      var c := new LoggerCollection(None);
      r, retSize := c.Put(buffer, Known(Collected(Plumes(koses)), loaded));
      if r.Ok? {
        Add(c.items, c.expectedPackets);
      }
    }
  }
}
