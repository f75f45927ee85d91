/** Runs of a collector that gets one packet at a time: when packets without a year find their plume. */
module YearRecovery {
  import opened Wrappers
  import opened Bits
  import opened Packets
  import opened Readings
  import opened Framing
  import opened FramingLaws
  import opened Collector
  import opened CollectorLaws
  import opened Owners

  /** A packet, and the record that the loader of base measurements has for the address it came from, if any. */
  datatype Arrival = Arrival(packet: seq<byte>, loaded: Option<ItemId>)

  predicate Arrives(a: Arrival) {
    Storable(a.packet, a.loaded)
  }

  predicate AllArrive(arrivals: seq<Arrival>) {
    forall i :: 0 <= i < |arrivals| ==> Arrives(arrivals[i])
  }

  /** The item that is stored for a packet which is put on its own. */
  function Arriving(plumes: seq<Plume>, a: Arrival): Item
    requires Arrives(a)
  {
    NewItem([], Known(Collected(plumes), a.loaded), a.packet)
  }

  /** The plumes after the packets were put one by one. */
  function Run(arrivals: seq<Arrival>): seq<Plume>
    requires AllArrive(arrivals)
  {
    if arrivals == [] then []
    else
      var before := Run(arrivals[..|arrivals| - 1]);
      AddItem(before, Arriving(before, arrivals[|arrivals| - 1]))
  }

  /** The groups in memory after the packets were put one by one. */
  function Groups(arrivals: seq<Arrival>, moves: nat -> bool): seq<KosaPackets>
    requires AllArrive(arrivals)
  {
    if arrivals == [] then []
    else
      var before, a := Groups(arrivals[..|arrivals| - 1], moves), arrivals[|arrivals| - 1];
      AddKosa(before, Arriving(Plumes(before), a), Announced(0, [a.packet]), moves)
  }

  lemma NoOwners()
    ensures FirstOwns([]) && Plumes([]) == []
  {
  }

  lemma {:induction false} GroupsOfRun(arrivals: seq<Arrival>, moves: nat -> bool)
    requires AllArrive(arrivals)
    ensures Plumes(Groups(arrivals, moves)) == Run(arrivals) && FirstOwns(Groups(arrivals, moves))
  {
    hide AddKosa, AddItem, Arriving, FirstOwns, Whole, Announced;
    if arrivals == [] {
      NoOwners();
    } else {
      var n := |arrivals| - 1;
      var before, a := Groups(arrivals[..n], moves), arrivals[n];
      GroupsOfRun(arrivals[..n], moves);
      AddKosaAdds(before, Arriving(Plumes(before), a), Announced(0, [a.packet]), moves);
      AddKeepsOwners(before, Arriving(Plumes(before), a), Announced(0, [a.packet]), moves);
    }
  }

  /** One step of a run is one call of `Put` with the packet as the whole buffer. */
  lemma StepIsPut(koses: seq<KosaPackets>, a: Arrival, moves: nat -> bool)
    requires Arrives(a) && Ending(a.packet)
    ensures Frames(a.packet) == [a.packet] && AllStorable(Frames(a.packet), a.loaded)
    ensures var known := Known(Collected(Plumes(koses)), a.loaded);
            AddAllKosas(koses, PutPackets([], known, Frames(a.packet)), Announced(0, Frames(a.packet)), moves)
            == AddKosa(koses, Arriving(Plumes(koses), a), Announced(0, [a.packet]), moves)
  {
    hide NewItem, AddKosa, Announced;
    FramesOfConcat([a.packet]);
    assert Concat([a.packet]) == a.packet;
    var item := Arriving(Plumes(koses), a);
    assert [] + [item] == [item] && [item][..0] == [];
  }

  /** First headers have the year given for their plume, and so has a loaded record, which is of the same plume. */
  predicate TrueYear(a: Arrival, years: byte -> byte)
    requires Arrives(a)
  {
    if HasFirstHeader(a.packet) then FirstYear(a.packet) == years(FirstKosa(a.packet))
    else a.loaded.Some? ==>
           a.loaded.value.kosa == PlumeOf(a.packet) && a.loaded.value.kosaYear == years(PlumeOf(a.packet))
  }

  predicate TrueYears(arrivals: seq<Arrival>, years: byte -> byte)
    requires AllArrive(arrivals)
  {
    forall i :: 0 <= i < |arrivals| ==> TrueYear(arrivals[i], years)
  }

  function DatedItem(a: Arrival, years: byte -> byte): Item
    requires Arrives(a)
  {
    Labelled(a.packet, years(PlumeOf(a.packet)), a.loaded)
  }

  /** The items with the right years. */
  function Dated(arrivals: seq<Arrival>, years: byte -> byte): (items: seq<Item>)
    requires AllArrive(arrivals)
    ensures |items| == |arrivals| && forall i :: 0 <= i < |arrivals| ==> items[i] == DatedItem(arrivals[i], years)
  {
    seq(|arrivals|, i requires 0 <= i < |arrivals| => DatedItem(arrivals[i], years))
  }

  /** The arrival of a plume that comes first. */
  function FirstArrival(arrivals: seq<Arrival>, kosa: byte): (r: Option<Arrival>)
    requires AllArrive(arrivals)
    ensures r.Some? ==> r.value in arrivals && Arrives(r.value) && PlumeOf(r.value.packet) == kosa
  {
    if arrivals == [] then None
    else
      var before, last := FirstArrival(arrivals[..|arrivals| - 1], kosa), arrivals[|arrivals| - 1];
      if before.Some? then before else if PlumeOf(last.packet) == kosa then Some(last) else None
  }

  predicate IsHead(first: Option<Arrival>) {
    first.Some? && HasFirstHeader(first.value.packet)
  }

  /**
   The year of an arriving packet is found: it has it, or its record is loaded, or the packet of the plume that
   arrived first has it, or no year is what is to be found.
   */
  predicate IsDated(before: seq<Arrival>, a: Arrival, years: byte -> byte)
    requires AllArrive(before) && Arrives(a)
  {
    || HasFirstHeader(a.packet)
    || a.loaded.Some?
    || IsHead(FirstArrival(before, PlumeOf(a.packet)))
    || years(PlumeOf(a.packet)) == 0
  }

  predicate AllDated(arrivals: seq<Arrival>, years: byte -> byte)
    requires AllArrive(arrivals)
  {
    forall i :: 0 <= i < |arrivals| ==> IsDated(arrivals[..i], arrivals[i], years)
  }

  lemma AllDatedStep(arrivals: seq<Arrival>, a: Arrival, years: byte -> byte)
    requires AllArrive(arrivals) && Arrives(a)
    ensures AllArrive(arrivals + [a])
    ensures AllDated(arrivals + [a], years) <==> AllDated(arrivals, years) && IsDated(arrivals, a, years)
  {
    hide Whole, IsDated;
    var all := arrivals + [a];
    assert all[..|arrivals|] == arrivals;
    assert forall i :: 0 <= i < |arrivals| ==> all[..i] == arrivals[..i] && all[i] == arrivals[i];
    if AllDated(all, years) {
      assert IsDated(all[..|arrivals|], all[|arrivals|], years);
      forall i | 0 <= i < |arrivals|
        ensures IsDated(arrivals[..i], arrivals[i], years)
      {
        assert IsDated(all[..i], all[i], years);
      }
    }
  }

  // ------------------------------------------------- years that are recovered

  lemma LabelKeepsHeader(a: Arrival, years: byte -> byte)
    requires Arrives(a) && TrueYear(a, years)
    ensures var item := DatedItem(a, years);
            && KeyOf(item) == Key(PlumeOf(a.packet), years(PlumeOf(a.packet)))
            && HeadYear([item]) == if HasFirstHeader(a.packet) then Some(years(PlumeOf(a.packet))) else None
  {
  }

  /** A plume that occurs has a group. */
  lemma {:induction false} EachHasItem(arrivals: seq<Arrival>, years: byte -> byte, kosa: byte)
    requires AllArrive(arrivals) && TrueYears(arrivals, years) && FirstArrival(arrivals, kosa).Some?
    ensures OfKey(Dated(arrivals, years), Key(kosa, years(kosa))) != []
  {
    hide Whole, DatedItem, TrueYear, PlumeOf;
    var n := |arrivals| - 1;
    assert Dated(arrivals, years)[..n] == Dated(arrivals[..n], years);
    LabelKeepsHeader(arrivals[n], years);
    if FirstArrival(arrivals[..n], kosa).Some? {
      EachHasItem(arrivals[..n], years, kosa);
    }
  }

  /** The head of the group of a plume is the packet of the plume that arrived first. */
  lemma {:induction false} HeadOfKey(arrivals: seq<Arrival>, years: byte -> byte, key: Key)
    requires AllArrive(arrivals) && TrueYears(arrivals, years) && OfKey(Dated(arrivals, years), key) != []
    ensures key.year == years(key.kosa) && FirstArrival(arrivals, key.kosa).Some?
    ensures OfKey(Dated(arrivals, years), key)[0] == DatedItem(FirstArrival(arrivals, key.kosa).value, years)
  {
    hide Whole, DatedItem, TrueYear, PlumeOf;
    if arrivals != [] {
      var n := |arrivals| - 1;
      var before, last := arrivals[..n], arrivals[n];
      assert Dated(arrivals, years)[..n] == Dated(before, years);
      LabelKeepsHeader(last, years);
      if OfKey(Dated(before, years), key) != [] {
        HeadOfKey(before, years, key);
      } else if FirstArrival(before, key.kosa).Some? {
        EachHasItem(before, years, key.kosa);
      }
    }
  }

  lemma HeadAlone(items: seq<Item>)
    requires items != []
    ensures HeadYear(items) == HeadYear([items[0]])
  {
  }

  /** What the collector knows about a plume when all years were right so far. */
  lemma YearFound(arrivals: seq<Arrival>, years: byte -> byte, kosa: byte)
    requires AllArrive(arrivals) && TrueYears(arrivals, years)
    ensures CollectedYear(GroupBy(Dated(arrivals, years)), kosa)
            == if IsHead(FirstArrival(arrivals, kosa)) then Some(years(kosa)) else None
  {
    hide Whole, DatedItem, TrueYear, HasFirstHeader, Keys, OfKey, Dated, PlumeOf;
    var items := Dated(arrivals, years);
    var r := GroupBy(items);
    var k := Find(r, ItemId(kosa, 0, 0, NO_MATCH_YEAR));
    var first := FirstArrival(arrivals, kosa);
    if first.Some? {
      EachHasItem(arrivals, years, kosa);
      var i :| 0 <= i < |Keys(items)| && Keys(items)[i] == Key(kosa, years(kosa));
      GroupHasKey(items, i);
      assert Matches(r[i], ItemId(kosa, 0, 0, NO_MATCH_YEAR));
    }
    if k < |r| {
      GroupHasKey(items, k);
      HeadOfKey(arrivals, years, Keys(items)[k]);
      assert TrueYear(first.value, years);
      LabelKeepsHeader(first.value, years);
      HeadAlone(r[k].items);
    }
  }

  // ---------------------------------------------------------------- whole runs

  lemma NothingDated()
    ensures Kept([]) && forall kosa :: FirstYearOf([], kosa).None?
  {
  }

  lemma FirstYearStep(items: seq<Item>, item: Item, kosa: byte)
    ensures FirstYearOf(items + [item], kosa)
            == if FirstYearOf(items, kosa).Some? then FirstYearOf(items, kosa)
               else if item.id.kosa == kosa then Some(item.id.kosaYear) else None
  {
    assert (items + [item])[..|items|] == items;
  }

  /** With the right years every item is kept. */
  lemma {:induction false} DatedAreKept(arrivals: seq<Arrival>, years: byte -> byte)
    requires AllArrive(arrivals) && TrueYears(arrivals, years)
    ensures Kept(Dated(arrivals, years))
    ensures forall kosa: byte :: FirstYearOf(Dated(arrivals, years), kosa).Some?
                                 ==> FirstYearOf(Dated(arrivals, years), kosa) == Some(years(kosa))
  {
    hide Whole, DatedItem, TrueYear, PlumeOf, FirstYearOf;
    if arrivals == [] {
      NothingDated();
    } else {
      var n := |arrivals| - 1;
      var items := Dated(arrivals, years);
      assert items == Dated(arrivals[..n], years) + [items[n]];
      DatedAreKept(arrivals[..n], years);
      KeptStep(items[..n], items[n]);
      LabelKeepsHeader(arrivals[n], years);
      forall kosa: byte | FirstYearOf(items, kosa).Some?
        ensures FirstYearOf(items, kosa) == Some(years(kosa))
      {
        FirstYearStep(items[..n], items[n], kosa);
      }
    }
  }

  /** The arriving item gets the right year. */
  lemma ArrivesDated(arrivals: seq<Arrival>, a: Arrival, years: byte -> byte)
    requires AllArrive(arrivals) && Arrives(a) && TrueYears(arrivals, years) && TrueYear(a, years)
    requires IsDated(arrivals, a, years)
    ensures Arriving(GroupBy(Dated(arrivals, years)), a) == DatedItem(a, years)
  {
    hide FirstArrival, GroupBy, CollectedYear, TrueYears, Stamped;
    YearFound(arrivals, years, PlumeOf(a.packet));
    assert HeadYear([]) == None;
  }

  lemma {:induction false} RunGroups(arrivals: seq<Arrival>, years: byte -> byte)
    requires AllArrive(arrivals) && TrueYears(arrivals, years) && AllDated(arrivals, years)
    ensures Run(arrivals) == GroupBy(Dated(arrivals, years))
  {
    hide AllDated, Whole, DatedItem, TrueYear, GroupBy, AddItem, Arriving, FirstArrival, Kept, PlumeOf, IsDated;
    if arrivals == [] {
      NoGroups();
    } else {
      var n := |arrivals| - 1;
      var a, items := arrivals[n], Dated(arrivals, years);
      assert arrivals == arrivals[..n] + [a] && items == Dated(arrivals[..n], years) + [items[n]];
      AllDatedStep(arrivals[..n], a, years);
      RunGroups(arrivals[..n], years);
      ArrivesDated(arrivals[..n], a, years);
      DatedAreKept(arrivals, years);
      KeptStep(items[..n], items[n]);
      AddToGroups(items[..n], items[n]);
      assert items[..n] == Dated(arrivals[..n], years);
    }
  }

  // ----------------------------------------------------- years that are missed

  predicate HasYearless(plumes: seq<Plume>, kosa: byte) {
    exists j :: 0 <= j < |plumes| && plumes[j].items != [] && plumes[j].id.kosa == kosa && plumes[j].id.kosaYear == 0
  }

  lemma YearlessStays(plumes: seq<Plume>, item: Item, kosa: byte)
    requires HasYearless(plumes, kosa)
    ensures HasYearless(AddItem(plumes, item), kosa)
  {
    var j :| 0 <= j < |plumes| && plumes[j].items != [] && plumes[j].id.kosa == kosa && plumes[j].id.kosaYear == 0;
    var g := AddItem(plumes, item)[j];
    assert g.items != [] && g.id == plumes[j].id;
  }

  lemma YearlessBegins(plumes: seq<Plume>, item: Item)
    requires item.id.kosaYear == 0
    requires forall j :: 0 <= j < |plumes| ==> !(plumes[j].id.kosa == item.id.kosa && plumes[j].id.kosaYear == 0)
    ensures HasYearless(AddItem(plumes, item), item.id.kosa)
  {
    var g := AddItem(plumes, item)[|plumes|];
    assert g == Plume(item.id, [item]);
  }

  lemma ArrivesUndated(plumes: seq<Plume>, a: Arrival)
    requires Arrives(a) && !HasFirstHeader(a.packet) && a.loaded.None?
    requires CollectedYear(plumes, PlumeOf(a.packet)).None?
    ensures var item := Arriving(plumes, a);
            item.id.kosa == PlumeOf(a.packet) && item.id.kosaYear == 0
  {
    hide CollectedYear;
    assert HeadYear([]) == None;
  }

  lemma GroupYears(arrivals: seq<Arrival>, years: byte -> byte, j: nat)
    requires AllArrive(arrivals) && TrueYears(arrivals, years) && j < |GroupBy(Dated(arrivals, years))|
    ensures var g := GroupBy(Dated(arrivals, years))[j];
            g.id.kosaYear == years(g.id.kosa)
  {
    hide Whole, DatedItem, TrueYear, Keys, OfKey, Dated, FirstArrival;
    GroupHasKey(Dated(arrivals, years), j);
    HeadOfKey(arrivals, years, Keys(Dated(arrivals, years))[j]);
  }

  /** The first packet whose year is not found begins a group of year 0. */
  lemma UndatedBegins(arrivals: seq<Arrival>, a: Arrival, years: byte -> byte)
    requires AllArrive(arrivals) && Arrives(a) && TrueYears(arrivals, years)
    requires AllDated(arrivals, years) && !IsDated(arrivals, a, years)
    ensures HasYearless(AddItem(Run(arrivals), Arriving(Run(arrivals), a)), PlumeOf(a.packet))
  {
    hide Whole, GroupBy, Dated, Arriving, AddItem, FirstArrival, CollectedYear, TrueYears, AllDated, HasYearless;
    hide HasFirstHeader, PlumeOf;
    var plumes := Run(arrivals);
    RunGroups(arrivals, years);
    YearFound(arrivals, years, PlumeOf(a.packet));
    ArrivesUndated(plumes, a);
    forall j | 0 <= j < |plumes|
      ensures !(plumes[j].id.kosa == PlumeOf(a.packet) && plumes[j].id.kosaYear == 0)
    {
      GroupYears(arrivals, years, j);
    }
    YearlessBegins(plumes, Arriving(plumes, a));
  }

  lemma AllDatedNone(years: byte -> byte)
    ensures AllArrive([]) && AllDated([], years)
  {
  }

  /** A packet whose year is not found leaves its plume split, for good, with a group of year 0. */
  lemma {:induction false} LateFirstSplits(arrivals: seq<Arrival>, years: byte -> byte) returns (kosa: byte)
    requires AllArrive(arrivals) && TrueYears(arrivals, years) && !AllDated(arrivals, years)
    ensures years(kosa) != 0 && HasYearless(Run(arrivals), kosa)
  {
    hide Whole, PlumeOf, Arriving, HasYearless, AddItem, TrueYear, AllDated, HasFirstHeader, FirstArrival;
    AllDatedNone(years);
    assert arrivals != [];
    var n := |arrivals| - 1;
    var a := arrivals[n];
    assert arrivals == arrivals[..n] + [a];
    AllDatedStep(arrivals[..n], a, years);
    if AllDated(arrivals[..n], years) {
      kosa := PlumeOf(a.packet);
      UndatedBegins(arrivals[..n], a, years);
    } else {
      kosa := LateFirstSplits(arrivals[..n], years);
      YearlessStays(Run(arrivals[..n]), Arriving(Run(arrivals[..n]), a), kosa);
    }
  }

  /**
   Packets that arrive one by one end up grouped by plume and true year, exactly if the year of each is found when it
   arrives.
   */
  lemma RunIsGrouping(arrivals: seq<Arrival>, years: byte -> byte)
    requires AllArrive(arrivals) && TrueYears(arrivals, years)
    ensures Run(arrivals) == GroupBy(Dated(arrivals, years)) <==> AllDated(arrivals, years)
  {
    hide Whole, GroupBy, Run, FirstArrival, Dated, TrueYears, HasFirstHeader, AllDated;
    if AllDated(arrivals, years) {
      RunGroups(arrivals, years);
    } else {
      var kosa := LateFirstSplits(arrivals, years);
      var j :| 0 <= j < |Run(arrivals)| && Run(arrivals)[j].id.kosa == kosa && Run(arrivals)[j].id.kosaYear == 0;
      if Run(arrivals) == GroupBy(Dated(arrivals, years)) {
        GroupYears(arrivals, years, j);
      }
    }
  }

  // -------------------------------------------------------- without a loader

  predicate NoneLoaded(arrivals: seq<Arrival>) {
    forall i :: 0 <= i < |arrivals| ==> arrivals[i].loaded.None?
  }

  /** Of a plume that is not from year 0 a first packet arrives before the others. */
  predicate Leads(first: Option<Arrival>, year: byte) {
    first.Some? ==> HasFirstHeader(first.value.packet) || year == 0
  }

  ghost predicate FirstsLead(arrivals: seq<Arrival>, years: byte -> byte)
    requires AllArrive(arrivals)
  {
    forall kosa: byte :: Leads(FirstArrival(arrivals, kosa), years(kosa))
  }

  lemma FirstArrivalStep(arrivals: seq<Arrival>, a: Arrival, kosa: byte)
    requires AllArrive(arrivals) && Arrives(a)
    ensures AllArrive(arrivals + [a])
    ensures FirstArrival(arrivals + [a], kosa)
            == if FirstArrival(arrivals, kosa).Some? then FirstArrival(arrivals, kosa)
               else if PlumeOf(a.packet) == kosa then Some(a) else None
  {
    hide Whole, PlumeOf;
    assert (arrivals + [a])[..|arrivals|] == arrivals;
  }

  lemma FirstsLeadStep(arrivals: seq<Arrival>, a: Arrival, years: byte -> byte)
    requires AllArrive(arrivals) && Arrives(a) && a.loaded.None? && FirstsLead(arrivals, years)
    ensures AllArrive(arrivals + [a])
    ensures FirstsLead(arrivals + [a], years) <==> IsDated(arrivals, a, years)
  {
    hide Whole, FirstArrival, PlumeOf, HasFirstHeader;
    var kosa := PlumeOf(a.packet);
    FirstArrivalStep(arrivals, a, kosa);
    assert Leads(FirstArrival(arrivals, kosa), years(kosa));
    if IsDated(arrivals, a, years) {
      forall other: byte
        ensures Leads(FirstArrival(arrivals + [a], other), years(other))
      {
        FirstArrivalStep(arrivals, a, other);
        assert Leads(FirstArrival(arrivals, other), years(other));
      }
    } else {
      assert !Leads(FirstArrival(arrivals + [a], kosa), years(kosa));
    }
  }

  lemma NoneLead(years: byte -> byte)
    ensures AllArrive([]) && FirstsLead([], years)
  {
  }

  lemma LeadsBefore(arrivals: seq<Arrival>, a: Arrival, years: byte -> byte)
    requires AllArrive(arrivals) && Arrives(a)
    ensures AllArrive(arrivals + [a])
    ensures FirstsLead(arrivals + [a], years) ==> FirstsLead(arrivals, years)
  {
    hide Whole, FirstArrival, PlumeOf, HasFirstHeader;
    if FirstsLead(arrivals + [a], years) {
      forall kosa: byte
        ensures Leads(FirstArrival(arrivals, kosa), years(kosa))
      {
        FirstArrivalStep(arrivals, a, kosa);
        assert Leads(FirstArrival(arrivals + [a], kosa), years(kosa));
      }
    }
  }

  /** Without a loader the years are found exactly if first packets lead. */
  lemma {:induction false} WithoutLoader(arrivals: seq<Arrival>, years: byte -> byte)
    requires AllArrive(arrivals) && NoneLoaded(arrivals)
    ensures AllDated(arrivals, years) <==> FirstsLead(arrivals, years)
  {
    hide Whole, FirstArrival, PlumeOf, HasFirstHeader, FirstsLead, AllDated, IsDated;
    if arrivals == [] {
      AllDatedNone(years);
      assert FirstsLead([], years) by { NoneLead(years); }
    } else {
      var n := |arrivals| - 1;
      assert arrivals == arrivals[..n] + [arrivals[n]];
      WithoutLoader(arrivals[..n], years);
      AllDatedStep(arrivals[..n], arrivals[n], years);
      if FirstsLead(arrivals[..n], years) {
        FirstsLeadStep(arrivals[..n], arrivals[n], years);
      } else {
        LeadsBefore(arrivals[..n], arrivals[n], years);
      }
    }
  }
}
