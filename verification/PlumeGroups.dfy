/** The group of each plume after a run: what the plume sent, in its order. */
module PlumeGroups {
  import opened Bits
  import opened Readings
  import opened Framing
  import opened Collector
  import opened CollectorLaws
  import opened YearRecovery

  /** The arrivals of one plume, in their order. */
  function OfPlume(arrivals: seq<Arrival>, kosa: byte): (r: seq<Arrival>)
    requires AllArrive(arrivals)
    ensures AllArrive(r) && forall a :: a in r ==> a in arrivals && Arrives(a) && PlumeOf(a.packet) == kosa
  {
    if arrivals == [] then []
    else
      var before, last := OfPlume(arrivals[..|arrivals| - 1], kosa), arrivals[|arrivals| - 1];
      if PlumeOf(last.packet) == kosa then before + [last] else before
  }

  function PacketsOf(arrivals: seq<Arrival>): (ps: seq<seq<byte>>)
    ensures |ps| == |arrivals| && forall i :: 0 <= i < |arrivals| ==> ps[i] == arrivals[i].packet
  {
    seq(|arrivals|, i requires 0 <= i < |arrivals| => arrivals[i].packet)
  }

  lemma DatedStep(arrivals: seq<Arrival>, a: Arrival, years: byte -> byte)
    requires AllArrive(arrivals) && Arrives(a)
    ensures Dated(arrivals + [a], years) == Dated(arrivals, years) + [DatedItem(a, years)]
  {
    hide Whole, DatedItem;
  }

  lemma OfPlumeStep(arrivals: seq<Arrival>, a: Arrival, kosa: byte)
    requires AllArrive(arrivals) && Arrives(a)
    ensures AllArrive(arrivals + [a])
    ensures OfPlume(arrivals + [a], kosa)
            == if PlumeOf(a.packet) == kosa then OfPlume(arrivals, kosa) + [a] else OfPlume(arrivals, kosa)
  {
    hide Whole, PlumeOf;
    assert (arrivals + [a])[..|arrivals|] == arrivals;
  }

  lemma OfKeyStep(items: seq<Item>, item: Item, key: Key)
    ensures OfKey(items + [item], key) == if KeyOf(item) == key then OfKey(items, key) + [item] else OfKey(items, key)
  {
    assert (items + [item])[..|items|] == items;
  }

  lemma NoPackets(years: byte -> byte, kosa: byte)
    ensures AllArrive([]) && OfKey(Dated([], years), Key(kosa, years(kosa))) == Dated(OfPlume([], kosa), years)
  {
    var nothing: seq<Arrival> := [];
    assert Dated(nothing, years) == [] && OfPlume(nothing, kosa) == nothing;
  }

  lemma {:induction false} PacketsOfKey(arrivals: seq<Arrival>, years: byte -> byte, kosa: byte)
    requires AllArrive(arrivals) && TrueYears(arrivals, years)
    ensures OfKey(Dated(arrivals, years), Key(kosa, years(kosa))) == Dated(OfPlume(arrivals, kosa), years)
  {
    if arrivals == [] {
      NoPackets(years, kosa);
    } else {
      var n := |arrivals| - 1;
      var a := arrivals[n];
      assert arrivals == arrivals[..n] + [a] && TrueYear(a, years) && TrueYears(arrivals[..n], years);
      LabelKeepsHeader(a, years);
      PacketsOfKey(arrivals[..n], years, kosa);
      hide *;
      DatedStep(arrivals[..n], a, years);
      OfPlumeStep(arrivals[..n], a, kosa);
      DatedStep(OfPlume(arrivals[..n], kosa), a, years);
      OfKeyStep(Dated(arrivals[..n], years), DatedItem(a, years), Key(kosa, years(kosa)));
    }
  }

  /** When years are found, each plume that sent something has exactly one group, with its packets in their order. */
  lemma OneGroupPerPlume(arrivals: seq<Arrival>, years: byte -> byte, kosa: byte) returns (j: nat)
    requires AllArrive(arrivals) && TrueYears(arrivals, years) && AllDated(arrivals, years)
    requires OfPlume(arrivals, kosa) != []
    ensures j < |Run(arrivals)| && Run(arrivals)[j].id.kosa == kosa && Run(arrivals)[j].id.kosaYear == years(kosa)
    ensures forall i :: 0 <= i < |Run(arrivals)| && Run(arrivals)[i].id.kosa == kosa ==> i == j
    ensures Run(arrivals)[j].items == Dated(OfPlume(arrivals, kosa), years)
  {
    hide Whole, DatedItem, PlumeOf, Keys, OfKey, OfPlume, FirstArrival, Run, Dated, TrueYears, AllDated;
    var items, key := Dated(arrivals, years), Key(kosa, years(kosa));
    RunGroups(arrivals, years);
    PacketsOfKey(arrivals, years, kosa);
    assert OfKey(items, key) != [];
    j :| 0 <= j < |Keys(items)| && Keys(items)[j] == key;
    GroupHasKey(items, j);
    forall i | 0 <= i < |Run(arrivals)| && Run(arrivals)[i].id.kosa == kosa
      ensures i == j
    {
      GroupHasKey(items, i);
      GroupYears(arrivals, years, i);
      assert Keys(items)[i] == key;
    }
  }

  lemma {:induction false} FirstKey(items: seq<Item>)
    requires items != []
    ensures Keys(items) != [] && Keys(items)[0] == KeyOf(items[0])
  {
    var n := |items| - 1;
    if n > 0 {
      FirstKey(items[..n]);
      assert items[..n][0] == items[0];
    }
  }

  /** The first group is that of the plume whose packet arrived first of all. */
  lemma FirstGroup(arrivals: seq<Arrival>, years: byte -> byte)
    requires AllArrive(arrivals) && TrueYears(arrivals, years) && AllDated(arrivals, years) && arrivals != []
    ensures Run(arrivals) != [] && Run(arrivals)[0].id.kosa == PlumeOf(arrivals[0].packet)
  {
    hide Whole, DatedItem, PlumeOf, Keys, Run, AllDated, TrueYear;
    RunGroups(arrivals, years);
    FirstKey(Dated(arrivals, years));
    GroupHasKey(Dated(arrivals, years), 0);
    assert TrueYear(arrivals[0], years);
    LabelKeepsHeader(arrivals[0], years);
  }

  lemma GroupsStep(arrivals: seq<Arrival>, a: Arrival, moves: nat -> bool)
    requires AllArrive(arrivals) && Arrives(a)
    ensures AllArrive(arrivals + [a])
    ensures var before := Groups(arrivals, moves);
            Groups(arrivals + [a], moves)
            == AddKosa(before, Arriving(Plumes(before), a), Announced(0, [a.packet]), moves)
  {
    hide Whole, AddKosa, Arriving, Announced;
    assert (arrivals + [a])[..|arrivals|] == arrivals;
  }

  /** The item of an arriving packet whose year is found. */
  lemma ArrivesAs(arrivals: seq<Arrival>, a: Arrival, years: byte -> byte, moves: nat -> bool)
    requires AllArrive(arrivals) && Arrives(a) && TrueYears(arrivals, years) && TrueYear(a, years)
    requires AllDated(arrivals, years) && IsDated(arrivals, a, years)
    ensures KeyOf(Arriving(Plumes(Groups(arrivals, moves)), a)) == Key(PlumeOf(a.packet), years(PlumeOf(a.packet)))
  {
    hide *;
    GroupsOfRun(arrivals, moves);
    RunGroups(arrivals, years);
    ArrivesDated(arrivals, a, years);
    LabelKeepsHeader(a, years);
  }

  lemma ItemKey(item: Item)
    ensures KeyOf(item) == Key(item.id.kosa, item.id.kosaYear)
  {
  }

  lemma NoneOfPlume(kosa: byte)
    ensures AllArrive([]) && OfPlume([], kosa) == []
  {
  }

  lemma {:induction false} OfPlumeSplit(arrivals: seq<Arrival>, c: nat, kosa: byte)
    requires AllArrive(arrivals) && c <= |arrivals|
    ensures OfPlume(arrivals, kosa) == OfPlume(arrivals[..c], kosa) + OfPlume(arrivals[c..], kosa)
    decreases |arrivals|
  {
    hide Arrives, PlumeOf, OfPlume;
    if c == |arrivals| {
      assert arrivals[..c] == arrivals && arrivals[c..] == [];
      NoneOfPlume(kosa);
    } else {
      var n := |arrivals| - 1;
      var before, a := arrivals[..n], arrivals[n];
      assert arrivals == before + [a] && arrivals[..c] == before[..c] && arrivals[c..] == before[c..] + [a];
      OfPlumeSplit(before, c, kosa);
      OfPlumeStep(before, a, kosa);
      OfPlumeStep(before[c..], a, kosa);
    }
  }
}
