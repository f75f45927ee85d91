/** Collecting is grouping by plume and year, and when the year of follow-up packets is recovered. */
module CollectorLaws {
  import opened Wrappers
  import opened Bits
  import opened Readings
  import opened Collector

  // ---------------------------------------------------------- grouping at once

  datatype Key = Key(kosa: byte, year: byte)

  function KeyOf(item: Item): Key {
    Key(item.id.kosa, item.id.kosaYear)
  }

  /** The items with a key, in their order. */
  function OfKey(items: seq<Item>, key: Key): seq<Item> {
    if items == [] then []
    else
      var before, last := OfKey(items[..|items| - 1], key), items[|items| - 1];
      if KeyOf(last) == key then before + [last] else before
  }

  /** The keys in the order of their first appearance. */
  function Keys(items: seq<Item>): (r: seq<Key>)
    ensures forall i, j :: 0 <= i < j < |r| ==> r[i] != r[j]
    ensures forall i :: 0 <= i < |r| ==> OfKey(items, r[i]) != []
    ensures forall key :: OfKey(items, key) != [] ==> key in r
  {
    if items == [] then []
    else
      var before, last := Keys(items[..|items| - 1]), KeyOf(items[|items| - 1]);
      if last in before then before else before + [last]
  }

  function Group(items: seq<Item>, key: Key): Plume
    requires OfKey(items, key) != []
  {
    Plume(OfKey(items, key)[0].id, OfKey(items, key))
  }

  /** One plume for each key. */
  function GroupBy(items: seq<Item>): (r: seq<Plume>)
    ensures |r| == |Keys(items)|
    ensures forall i :: 0 <= i < |r| ==> r[i] == Group(items, Keys(items)[i])
  {
    seq(|Keys(items)|, i requires 0 <= i < |Keys(items)| => Group(items, Keys(items)[i]))
  }

  /** All items of a sequence of plumes. */
  function Contents(koses: seq<Plume>): multiset<Item> {
    if koses == [] then multiset{} else Contents(koses[..|koses| - 1]) + multiset(koses[|koses| - 1].items)
  }

  lemma {:induction false} ContentsOfChanged(koses: seq<Plume>, k: nat, plume: Plume, item: Item)
    requires k < |koses| && plume.items == koses[k].items + [item]
    ensures Contents(koses[k := plume]) == Contents(koses) + multiset{item}
  {
    var n := |koses| - 1;
    if k < n {
      ContentsOfChanged(koses[..n], k, plume, item);
      assert koses[k := plume][..n] == koses[..n][k := plume];
    } else {
      assert koses[k := plume][..n] == koses[..n];
    }
  }

  lemma ContentsOfLonger(koses: seq<Plume>, plume: Plume)
    ensures Contents(koses + [plume]) == Contents(koses) + multiset(plume.items)
  {
    assert (koses + [plume])[..|koses|] == koses;
  }

  lemma KeysInItems(items: seq<Item>, key: Key)
    requires OfKey(items, key) != []
    ensures KeyOf(OfKey(items, key)[0]) == key
  {
  }

  lemma KeysStep(items: seq<Item>, item: Item)
    ensures Keys(items + [item]) == if KeyOf(item) in Keys(items) then Keys(items) else Keys(items) + [KeyOf(item)]
    ensures forall key :: OfKey(items + [item], key)
                          == if KeyOf(item) == key then OfKey(items, key) + [item] else OfKey(items, key)
  {
    assert (items + [item])[..|items|] == items;
  }

  lemma GroupStep(items: seq<Item>, item: Item, i: nat)
    requires i < |Keys(items)|
    ensures |GroupBy(items + [item])| >= |GroupBy(items)|
    ensures GroupBy(items + [item])[i]
            == if Keys(items)[i] != KeyOf(item) then GroupBy(items)[i]
               else Plume(GroupBy(items)[i].id, GroupBy(items)[i].items + [item])
  {
    hide Keys, OfKey;
    KeysStep(items, item);
    assert GroupBy(items + [item])[i] == Group(items + [item], Keys(items)[i]);
  }

  /** The plumes of a grouping after an item with a new key. */
  lemma GroupByNew(items: seq<Item>, item: Item)
    requires KeyOf(item) !in Keys(items)
    ensures GroupBy(items + [item]) == GroupBy(items) + [Plume(item.id, [item])]
  {
    hide Keys, OfKey;
    var r, before, key := GroupBy(items + [item]), GroupBy(items), KeyOf(item);
    KeysStep(items, item);
    assert OfKey(items, key) == [];
    assert r[|before|] == Group(items + [item], key) == Plume(item.id, [item]);
    hide *;
    forall i | 0 <= i < |before|
      ensures r[i] == before[i]
    {
      GroupStep(items, item, i);
      assert Keys(items)[i] in Keys(items);
    }
  }

  /** The plumes of a grouping after an item with the key of plume `i`. */
  lemma GroupByOld(items: seq<Item>, item: Item, i: nat)
    requires i < |Keys(items)| && Keys(items)[i] == KeyOf(item)
    ensures GroupBy(items + [item])
            == GroupBy(items)[i := Plume(GroupBy(items)[i].id, GroupBy(items)[i].items + [item])]
  {
    hide Keys, OfKey;
    KeysStep(items, item);
    hide *;
    forall j | 0 <= j < |Keys(items)|
      ensures GroupBy(items + [item])[j]
              == if j == i then Plume(GroupBy(items)[i].id, GroupBy(items)[i].items + [item]) else GroupBy(items)[j]
    {
      GroupStep(items, item, j);
    }
  }

  /** The year of the first item of a plume. */
  function FirstYearOf(items: seq<Item>, kosa: byte): Option<byte> {
    if items == [] then None
    else
      var before, last := FirstYearOf(items[..|items| - 1], kosa), items[|items| - 1].id;
      if before.Some? then before else if last.kosa == kosa then Some(last.kosaYear) else None
  }

  /** An item without a year comes only for plumes whose first item has no year. */
  predicate Kept(items: seq<Item>) {
    forall i :: 0 <= i < |items| && items[i].id.kosaYear == 255
                ==> FirstYearOf(items, items[i].id.kosa) == Some(255)
  }

  /** The first key of the plume has this year. */
  predicate LeadsWith(keys: seq<Key>, kosa: byte, year: Option<byte>) {
    && (year.None? <==> forall i :: 0 <= i < |keys| ==> keys[i].kosa != kosa)
    && forall k :: 0 <= k < |keys| && keys[k].kosa == kosa && (forall j :: 0 <= j < k ==> keys[j].kosa != kosa)
                   ==> year == Some(keys[k].year)
  }

  lemma LeadsStep(keys: seq<Key>, last: Key, kosa: byte, year: Option<byte>)
    requires LeadsWith(keys, kosa, year)
    ensures LeadsWith(if last in keys then keys else keys + [last], kosa,
                      if year.Some? then year else if last.kosa == kosa then Some(last.year) else None)
  {
    if last in keys {
      if last.kosa == kosa {
        var i :| 0 <= i < |keys| && keys[i] == last;
        assert keys[i].kosa == kosa;
      }
    } else {
      var longer := keys + [last];
      assert longer[|keys|] == last && forall i :: 0 <= i < |keys| ==> longer[i] == keys[i];
      if year.Some? {
        var i :| 0 <= i < |keys| && keys[i].kosa == kosa;
        assert longer[i].kosa == kosa;
      }
    }
  }

  lemma NoKeys(kosa: byte)
    ensures LeadsWith([], kosa, None)
  {
  }

  lemma {:induction false} KosaKeys(items: seq<Item>, kosa: byte)
    ensures LeadsWith(Keys(items), kosa, FirstYearOf(items, kosa))
  {
    hide OfKey, LeadsWith;
    if items == [] {
      NoKeys(kosa);
    } else {
      var before, last := items[..|items| - 1], KeyOf(items[|items| - 1]);
      KosaKeys(before, kosa);
      LeadsStep(Keys(before), last, kosa, FirstYearOf(before, kosa));
    }
  }

  lemma GroupHasKey(items: seq<Item>, i: nat)
    requires i < |Keys(items)|
    ensures GroupBy(items)[i].items != []
    ensures GroupBy(items)[i].id.kosa == Keys(items)[i].kosa && GroupBy(items)[i].id.kosaYear == Keys(items)[i].year
  {
    KeysInItems(items, Keys(items)[i]);
  }

  /** Where an item goes in a grouping. */
  lemma FindInGroups(items: seq<Item>, id: ItemId)
    ensures var r, k := GroupBy(items), Find(GroupBy(items), id);
            if id.kosaYear == 255 then
              if k < |r| then FirstYearOf(items, id.kosa) == Some(r[k].id.kosaYear)
              else FirstYearOf(items, id.kosa).None?
            else if k < |r| then Keys(items)[k] == Key(id.kosa, id.kosaYear)
            else Key(id.kosa, id.kosaYear) !in Keys(items)
  {
    hide Keys, Group, FirstYearOf;
    var r := GroupBy(items);
    forall i | 0 <= i < |r|
      ensures r[i].id.kosa == Keys(items)[i].kosa && r[i].id.kosaYear == Keys(items)[i].year
    {
      GroupHasKey(items, i);
    }
    KosaKeys(items, id.kosa);
  }

  lemma AddOne(koses: seq<Plume>, item: Item)
    ensures Contents(AddItem(koses, item)) <= Contents(koses) + multiset{item}
  {
    hide Contents;
    var k := Find(koses, item.id);
    if k == |koses| {
      ContentsOfLonger(koses, Plume(item.id, [item]));
    } else if Grown(koses[k], item) == koses[k] {
      assert koses[k := koses[k]] == koses;
    } else {
      assert Grown(koses[k], item).items == koses[k].items + [item];
      ContentsOfChanged(koses, k, Grown(koses[k], item), item);
    }
  }

  lemma NoGroups()
    ensures GroupBy([]) == [] && Contents([]) == multiset{}
  {
  }

  /** Grouping at once loses nothing. */
  lemma {:induction false} GroupByKeeps(items: seq<Item>)
    ensures Contents(GroupBy(items)) == multiset(items)
  {
    hide Contents, Keys, Group, OfKey;
    if items == [] {
      NoGroups();
    } else {
      var before, last := items[..|items| - 1], items[|items| - 1];
      assert items == before + [last];
      GroupByKeeps(before);
      if KeyOf(last) !in Keys(before) {
        GroupByNew(before, last);
        ContentsOfLonger(GroupBy(before), Plume(last.id, [last]));
      } else {
        var i :| 0 <= i < |Keys(before)| && Keys(before)[i] == KeyOf(last);
        GroupByOld(before, last, i);
        var g := GroupBy(before)[i];
        ContentsOfChanged(GroupBy(before), i, Plume(g.id, g.items + [last]), last);
      }
    }
  }

  /** Adding one item to a grouping: it is grouped, or dropped if it has no year and the plume's first item has one. */
  lemma AddToGroups(items: seq<Item>, item: Item)
    ensures var first := FirstYearOf(items, item.id.kosa);
            if item.id.kosaYear == 255 && first.Some? && first.value != 255
            then AddItem(GroupBy(items), item) == GroupBy(items)
            else AddItem(GroupBy(items), item) == GroupBy(items + [item])
  {
    hide Keys, Group, FirstYearOf, OfKey;
    var r := GroupBy(items);
    var k := Find(r, item.id);
    FindInGroups(items, item.id);
    if k < |r| {
      GroupHasKey(items, k);
      if item.id.kosaYear == r[k].id.kosaYear {
        GroupByOld(items, item, k);
      } else {
        assert r[k := r[k]] == r;
      }
    } else {
      KosaKeys(items, item.id.kosa);
      GroupByNew(items, item);
    }
  }

  lemma {:induction false} HasFirstYear(items: seq<Item>, i: nat)
    requires i < |items|
    ensures FirstYearOf(items, items[i].id.kosa).Some?
  {
    if i < |items| - 1 {
      HasFirstYear(items[..|items| - 1], i);
    }
  }

  lemma KeptStep(items: seq<Item>, item: Item)
    ensures var first := FirstYearOf(items, item.id.kosa);
            Kept(items + [item]) <==>
              Kept(items) && !(item.id.kosaYear == 255 && first.Some? && first.value != 255)
  {
    var all := items + [item];
    assert all[..|items|] == items;
    forall i | 0 <= i < |items|
      ensures FirstYearOf(all, items[i].id.kosa) == FirstYearOf(items, items[i].id.kosa)
    {
      HasFirstYear(items, i);
    }
    if Kept(items) {
      assert forall i :: 0 <= i < |items| ==> all[i] == items[i];
    }
    if Kept(all) {
      assert forall i :: 0 <= i < |items| ==> all[i] == items[i];
      assert all[|items|] == item;
    }
  }

  lemma NothingKept()
    ensures Kept([])
  {
  }

  lemma SmallerSize(a: multiset<Item>, b: multiset<Item>)
    requires a <= b
    ensures |a| <= |b|
  {
    assert b == a + (b - a);
  }

  lemma SizeOfAll(items: seq<Item>)
    ensures |multiset(items)| == |items|
  {
  }

  lemma {:induction false} CollectingIsGrouping(items: seq<Item>)
    ensures Kept(items) ==> AddAll([], items) == GroupBy(items)
    ensures !Kept(items) ==> |Contents(AddAll([], items))| < |items|
  {
    hide Kept, GroupBy, Contents, AddItem;
    if items == [] {
      NoGroups();
      NothingKept();
    } else {
      var before, last := items[..|items| - 1], items[|items| - 1];
      assert items == before + [last];
      CollectingIsGrouping(before);
      AddToGroups(before, last);
      KeptStep(before, last);
      if !Kept(before) {
        AddOne(AddAll([], before), last);
        assert |Contents(AddAll([], before)) + multiset{last}| == |Contents(AddAll([], before))| + 1;
        SmallerSize(Contents(AddAll([], items)), Contents(AddAll([], before)) + multiset{last});
      } else if !Kept(items) {
        GroupByKeeps(before);
        SizeOfAll(before);
      }
    }
  }

  /**
   The collector's plumes are the groups of all items by plume and year, in the order of their first appearance
   and with the items in their order, exactly if items without a year come only for plumes that began so.
   */
  lemma CollectorGroups(items: seq<Item>)
    ensures AddAll([], items) == GroupBy(items) <==> Kept(items)
    ensures Contents(AddAll([], items)) == multiset(items) <==> Kept(items)
  {
    hide Kept, AddAll, GroupBy, Contents;
    CollectingIsGrouping(items);
    GroupByKeeps(items);
    SizeOfAll(items);
  }
}
