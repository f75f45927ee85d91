/** After any run: which items each group in memory still owns, and how many packets it expects. */
module Memory {
  import opened Bits
  import opened Readings
  import opened Framing
  import opened Collector
  import opened CollectorLaws
  import opened Owners
  import opened YearRecovery
  import opened PlumeGroups

  // ------------------------------------------------------ what arrivals announce

  /** The number of packets that an arrival announces, or 0. */
  function Count(a: Arrival): byte
    requires Arrives(a)
  {
    Announced(0, [a.packet])
  }

  /** The last number that the arrivals announce, or `start`. */
  function LastCount(start: byte, arrivals: seq<Arrival>): byte
    requires AllArrive(arrivals)
  {
    if arrivals == [] then start
    else
      var n := |arrivals| - 1;
      if Count(arrivals[n]) > 0 then Count(arrivals[n]) else LastCount(start, arrivals[..n])
  }

  predicate SomeCount(arrivals: seq<Arrival>)
    requires AllArrive(arrivals)
  {
    exists i :: 0 <= i < |arrivals| && Count(arrivals[i]) > 0
  }

  /** The arrival is the first of its plume. */
  predicate Begins(before: seq<Arrival>, a: Arrival)
    requires AllArrive(before) && Arrives(a)
  {
    OfPlume(before, PlumeOf(a.packet)) == []
  }

  // ----------------------------------------------------- what a group forgets

  /** The arrivals up to the last one with which the group of the plume began or the vector moved. */
  function Cut(arrivals: seq<Arrival>, moves: nat -> bool, kosa: byte): (c: nat)
    requires AllArrive(arrivals)
    ensures c <= |arrivals|
  {
    if arrivals == [] then 0
    else
      var n := |arrivals| - 1;
      var before, a := arrivals[..n], arrivals[n];
      if Begins(before, a) && (PlumeOf(a.packet) == kosa || moves(|Run(before)|)) then n + 1
      else Cut(before, moves, kosa)
  }

  /** For the first group: up to the last one that began another plume, and announced packets or moved the vector. */
  function HeadCut(arrivals: seq<Arrival>, moves: nat -> bool): (c: nat)
    requires AllArrive(arrivals)
    ensures c <= |arrivals|
  {
    if arrivals == [] then 0
    else
      var n := |arrivals| - 1;
      var before, a := arrivals[..n], arrivals[n];
      if n > 0 && Begins(before, a) && (Count(a) > 0 || moves(|Run(before)|)) then n + 1
      else HeadCut(before, moves)
  }

  /** What that arrival announced. */
  function HeadStart(arrivals: seq<Arrival>, moves: nat -> bool): byte
    requires AllArrive(arrivals)
  {
    var c := HeadCut(arrivals, moves);
    if c == 0 then 0 else Count(arrivals[c - 1])
  }

  /** The packets of the plume in group `k` that lost their owner: those up to the cut, in the first group none. */
  function Early(arrivals: seq<Arrival>, moves: nat -> bool, kosa: byte, k: nat): nat
    requires AllArrive(arrivals)
  {
    if k == 0 then 0 else |OfPlume(arrivals[..Cut(arrivals, moves, kosa)], kosa)|
  }

  /** The packets that group `k` expects: the last number announced after the cut. */
  function Expects(arrivals: seq<Arrival>, moves: nat -> bool, kosa: byte, k: nat): byte
    requires AllArrive(arrivals)
  {
    if k == 0 then LastCount(HeadStart(arrivals, moves), OfPlume(arrivals[HeadCut(arrivals, moves)..], kosa))
    else LastCount(0, OfPlume(arrivals[Cut(arrivals, moves, kosa)..], kosa))
  }

  // --------------------------------------------------------- one more arrival

  lemma LastCountStep(start: byte, arrivals: seq<Arrival>, a: Arrival)
    requires AllArrive(arrivals) && Arrives(a)
    ensures AllArrive(arrivals + [a])
    ensures LastCount(start, arrivals + [a]) == if Count(a) > 0 then Count(a) else LastCount(start, arrivals)
  {
    hide Arrives, Count;
    assert (arrivals + [a])[..|arrivals|] == arrivals;
  }

  lemma CutStep(arrivals: seq<Arrival>, a: Arrival, moves: nat -> bool, kosa: byte)
    requires AllArrive(arrivals) && Arrives(a)
    ensures AllArrive(arrivals + [a])
    ensures Cut(arrivals + [a], moves, kosa)
            == if Begins(arrivals, a) && (PlumeOf(a.packet) == kosa || moves(|Run(arrivals)|)) then |arrivals| + 1
               else Cut(arrivals, moves, kosa)
    ensures HeadCut(arrivals + [a], moves)
            == if arrivals != [] && Begins(arrivals, a) && (Count(a) > 0 || moves(|Run(arrivals)|)) then |arrivals| + 1
               else HeadCut(arrivals, moves)
  {
    hide Arrives, Begins, Run, PlumeOf, Count;
    assert (arrivals + [a])[..|arrivals|] == arrivals;
  }

  /** A part of the arrivals, from `c` on, with one more. */
  lemma LaterStep(arrivals: seq<Arrival>, a: Arrival, c: nat, kosa: byte)
    requires AllArrive(arrivals) && Arrives(a) && c <= |arrivals|
    ensures AllArrive(arrivals + [a])
    ensures (arrivals + [a])[..c] == arrivals[..c]
    ensures OfPlume((arrivals + [a])[c..], kosa)
            == if PlumeOf(a.packet) == kosa then OfPlume(arrivals[c..], kosa) + [a] else OfPlume(arrivals[c..], kosa)
  {
    hide Arrives, PlumeOf;
    assert (arrivals + [a])[c..] == arrivals[c..] + [a];
    OfPlumeStep(arrivals[c..], a, kosa);
  }

  lemma NothingOfPlume(kosa: byte, start: byte)
    ensures AllArrive([]) && OfPlume([], kosa) == [] && LastCount(start, []) == start
  {
  }

  lemma HeadStartStep(arrivals: seq<Arrival>, a: Arrival, moves: nat -> bool)
    requires AllArrive(arrivals) && Arrives(a)
    ensures AllArrive(arrivals + [a])
    ensures HeadStart(arrivals + [a], moves)
            == if arrivals != [] && Begins(arrivals, a) && (Count(a) > 0 || moves(|Run(arrivals)|)) then Count(a)
               else HeadStart(arrivals, moves)
  {
    hide Arrives, Begins, Run, PlumeOf, Count, HeadCut;
    CutStep(arrivals, a, moves, 0);
  }

  /** An arrival of a plume that has a group adds to that group. */
  lemma OldPlume(arrivals: seq<Arrival>, a: Arrival, moves: nat -> bool, kosa: byte, k: nat)
    requires AllArrive(arrivals) && Arrives(a) && !Begins(arrivals, a)
    ensures AllArrive(arrivals + [a])
    ensures Early(arrivals + [a], moves, kosa, k) == Early(arrivals, moves, kosa, k)
    ensures Expects(arrivals + [a], moves, kosa, k)
            == if PlumeOf(a.packet) == kosa && Count(a) > 0 then Count(a) else Expects(arrivals, moves, kosa, k)
  {
    hide Arrives, Run, PlumeOf, Count, HeadCut, Cut, OfPlume, LastCount, HeadStart;
    CutStep(arrivals, a, moves, kosa);
    HeadStartStep(arrivals, a, moves);
    var c := if k == 0 then HeadCut(arrivals, moves) else Cut(arrivals, moves, kosa);
    var start := if k == 0 then HeadStart(arrivals, moves) else 0;
    LaterStep(arrivals, a, c, kosa);
    LastCountStep(start, OfPlume(arrivals[c..], kosa), a);
  }

  /** An arrival that begins a plume: what it does to the groups of other plumes. */
  lemma OtherPlumes(arrivals: seq<Arrival>, a: Arrival, moves: nat -> bool, kosa: byte, k: nat)
    requires AllArrive(arrivals) && Arrives(a) && Begins(arrivals, a) && arrivals != [] && PlumeOf(a.packet) != kosa
    ensures AllArrive(arrivals + [a])
    ensures var moved, all := moves(|Run(arrivals)|), arrivals + [a];
            if k == 0 then
              && Early(all, moves, kosa, k) == 0
              && Expects(all, moves, kosa, k)
                 == if Count(a) > 0 then Count(a) else if moved then 0 else Expects(arrivals, moves, kosa, k)
            else
              && Early(all, moves, kosa, k)
                 == (if moved then |OfPlume(arrivals, kosa)| else Early(arrivals, moves, kosa, k))
              && Expects(all, moves, kosa, k) == if moved then 0 else Expects(arrivals, moves, kosa, k)
  {
    hide Arrives, Run, PlumeOf, Count, HeadCut, Cut, OfPlume, LastCount, HeadStart;
    var all := arrivals + [a];
    CutStep(arrivals, a, moves, kosa);
    HeadStartStep(arrivals, a, moves);
    OfPlumeStep(arrivals, a, kosa);
    assert all[..|all|] == all && all[|all|..] == [];
    NothingOfPlume(kosa, Count(a));
    NothingOfPlume(kosa, 0);
    LaterStep(arrivals, a, HeadCut(arrivals, moves), kosa);
    LaterStep(arrivals, a, Cut(arrivals, moves, kosa), kosa);
  }

  lemma HeadOfNone(moves: nat -> bool)
    ensures AllArrive([]) && HeadCut([], moves) == 0 && HeadStart([], moves) == 0
  {
  }

  /** An arrival that begins a plume: its own group. */
  lemma NewPlume(arrivals: seq<Arrival>, a: Arrival, moves: nat -> bool, k: nat)
    requires AllArrive(arrivals) && Arrives(a) && Begins(arrivals, a) && (k == 0 <==> arrivals == [])
    ensures AllArrive(arrivals + [a])
    ensures OfPlume(arrivals + [a], PlumeOf(a.packet)) == [a]
    ensures var all, kosa := arrivals + [a], PlumeOf(a.packet);
            if k == 0 then Early(all, moves, kosa, k) == 0 && Expects(all, moves, kosa, k) == Count(a)
            else Early(all, moves, kosa, k) == 1 && Expects(all, moves, kosa, k) == 0
  {
    var all, kosa := arrivals + [a], PlumeOf(a.packet);
    hide Arrives, Run, PlumeOf, Count, HeadCut, Cut, OfPlume, LastCount, HeadStart;
    CutStep(arrivals, a, moves, kosa);
    HeadStartStep(arrivals, a, moves);
    OfPlumeStep(arrivals, a, kosa);
    assert all[..|all|] == all && all[|all|..] == [];
    NothingOfPlume(kosa, 0);
    if k == 0 {
      HeadOfNone(moves);
      assert all[0..] == all == [a];
      LastCountStep(0, [], a);
    }
  }

  // --------------------------------------------------------- groups and plumes

  lemma NothingIsDated(years: byte -> byte)
    ensures AllArrive([]) && Dated([], years) == []
  {
  }

  /** Each group is that of one plume and its year, with what arrived of it; no plume has two. */
  lemma GroupKosas(arrivals: seq<Arrival>, moves: nat -> bool, years: byte -> byte)
    requires AllArrive(arrivals) && TrueYears(arrivals, years) && AllDated(arrivals, years)
    ensures |Groups(arrivals, moves)| == |Run(arrivals)|
    ensures forall k :: 0 <= k < |Groups(arrivals, moves)| ==>
              var plume := Groups(arrivals, moves)[k].plume;
              && plume.id.kosaYear == years(plume.id.kosa) && OfPlume(arrivals, plume.id.kosa) != []
              && plume.items == Dated(OfPlume(arrivals, plume.id.kosa), years)
    ensures forall k, l :: 0 <= k < l < |Groups(arrivals, moves)| ==>
              Groups(arrivals, moves)[k].plume.id.kosa != Groups(arrivals, moves)[l].plume.id.kosa
  {
    hide Arrives, Groups, Run, OfPlume, Dated, TrueYears, AllDated, FirstOwns, OfKey, Keys;
    var groups := Groups(arrivals, moves);
    GroupsOfRun(arrivals, moves);
    RunGroups(arrivals, years);
    forall k | 0 <= k < |groups|
      ensures groups[k].plume.id.kosaYear == years(groups[k].plume.id.kosa)
      ensures OfPlume(arrivals, groups[k].plume.id.kosa) != []
      ensures groups[k].plume.items == Dated(OfPlume(arrivals, groups[k].plume.id.kosa), years)
      ensures forall l :: 0 <= l < |groups| && groups[l].plume.id.kosa == groups[k].plume.id.kosa ==> l == k
    {
      var kosa := groups[k].plume.id.kosa;
      GroupYears(arrivals, years, k);
      GroupHasKey(Dated(arrivals, years), k);
      PacketsOfKey(arrivals, years, kosa);
      NothingIsDated(years);
      var j := OneGroupPerPlume(arrivals, years, kosa);
      assert j == k;
    }
  }

  /** Where an arriving item goes: to the group of its plume, or to a new one if it begins the plume. */
  lemma FindKosa(arrivals: seq<Arrival>, moves: nat -> bool, years: byte -> byte, id: ItemId)
    requires AllArrive(arrivals) && TrueYears(arrivals, years) && AllDated(arrivals, years)
    requires id.kosaYear == years(id.kosa)
    ensures var groups := Groups(arrivals, moves);
            var k := Find(Plumes(groups), id);
            && (k == |groups| <==> OfPlume(arrivals, id.kosa) == [])
            && (k < |groups| ==> groups[k].plume.id.kosa == id.kosa && groups[k].plume.id.kosaYear == id.kosaYear)
  {
    hide Arrives, Groups, Run, OfPlume, Dated, TrueYears, AllDated, FirstOwns;
    var groups := Groups(arrivals, moves);
    GroupKosas(arrivals, moves, years);
    GroupsOfRun(arrivals, moves);
    if OfPlume(arrivals, id.kosa) != [] {
      var j := OneGroupPerPlume(arrivals, years, id.kosa);
      assert Matches(Plumes(groups)[j], id);
    }
  }

  // ------------------------------------------------------------ after any run

  /** The group has `size` items, owns those from `early` on, and expects `count` packets. */
  predicate Remembers(g: KosaPackets, size: nat, early: nat, count: byte) {
    && |g.owned| == |g.plume.items| == size
    && (forall i :: 0 <= i < size ==> (g.owned[i] <==> i >= early))
    && g.expectedPackets == count
  }

  ghost predicate RemembersAs(arrivals: seq<Arrival>, moves: nat -> bool, g: KosaPackets, k: nat)
    requires AllArrive(arrivals)
  {
    var kosa := g.plume.id.kosa;
    Remembers(g, |OfPlume(arrivals, kosa)|, Early(arrivals, moves, kosa, k), Expects(arrivals, moves, kosa, k))
  }

  lemma GrownRemembers(g: KosaPackets, item: Item, count: byte, size: nat, early: nat, expected: byte)
    requires Remembers(g, size, early, expected) && Takes(g.plume, item) && size > 0 && early <= size
    ensures Remembers(Expecting(GrownKosa(g, item), count), size + 1, early, if count > 0 then count else expected)
  {
  }

  lemma PushedOthers(koses: seq<KosaPackets>, item: Item, count: byte, moved: bool, k: nat, size: nat, early: nat,
                     expected: byte)
    requires k < |koses| && Remembers(koses[k], size, early, expected)
    ensures var r := Pushed(koses, item, count, moved);
            && |r| == |koses| + 1 && r[k].plume == koses[k].plume
            && if k == 0 then Remembers(r[k], size, 0, if count > 0 then count else if moved then 0 else expected)
               else Remembers(r[k], size, if moved then size else early, if moved then 0 else expected)
  {
  }

  lemma PushedNew(koses: seq<KosaPackets>, item: Item, count: byte, moved: bool)
    ensures var r := Pushed(koses, item, count, moved);
            && |r| == |koses| + 1 && r[|koses|].plume == Plume(item.id, [item])
            && if koses == [] then Remembers(r[|koses|], 1, 0, count) else Remembers(r[|koses|], 1, 1, 0)
  {
  }

  lemma EarlyAtMost(arrivals: seq<Arrival>, moves: nat -> bool, kosa: byte, k: nat)
    requires AllArrive(arrivals)
    ensures Early(arrivals, moves, kosa, k) <= |OfPlume(arrivals, kosa)|
  {
    hide Arrives, Cut;
    var c := Cut(arrivals, moves, kosa);
    OfPlumeSplit(arrivals, c, kosa);
  }

  /** One more arrival, in a group that is there. */
  lemma OldStep(arrivals: seq<Arrival>, a: Arrival, moves: nat -> bool, item: Item, groups: seq<KosaPackets>, k: nat)
    requires AllArrive(arrivals) && Arrives(a) && !Begins(arrivals, a) && k < |groups|
    requires groups[k].plume.items != [] && RemembersAs(arrivals, moves, groups[k], k)
    requires groups[k].plume.id.kosa == PlumeOf(a.packet) ==>
               item.id.kosa == PlumeOf(a.packet) && item.id.kosaYear == groups[k].plume.id.kosaYear
    ensures AllArrive(arrivals + [a])
    ensures RemembersAs(arrivals + [a], moves,
                        if groups[k].plume.id.kosa == PlumeOf(a.packet)
                        then Expecting(GrownKosa(groups[k], item), Count(a)) else groups[k], k)
  {
    var g, plume := groups[k], PlumeOf(a.packet);
    var kosa := g.plume.id.kosa;
    hide Arrives, PlumeOf, Count, Cut, HeadCut, Early, Expects, OfPlume;
    OldPlume(arrivals, a, moves, kosa, k);
    OfPlumeStep(arrivals, a, kosa);
    EarlyAtMost(arrivals, moves, kosa, k);
    if kosa == plume {
      GrownRemembers(g, item, Count(a), |OfPlume(arrivals, kosa)|, Early(arrivals, moves, kosa, k),
                     Expects(arrivals, moves, kosa, k));
    }
  }

  /** One more arrival, which begins a group. */
  lemma NewStep(arrivals: seq<Arrival>, a: Arrival, moves: nat -> bool, item: Item, groups: seq<KosaPackets>, k: nat)
    requires AllArrive(arrivals) && Arrives(a) && Begins(arrivals, a) && k <= |groups|
    requires |groups| == |Run(arrivals)| && (groups == [] <==> arrivals == []) && item.id.kosa == PlumeOf(a.packet)
    requires k < |groups| ==> RemembersAs(arrivals, moves, groups[k], k) && groups[k].plume.id.kosa != PlumeOf(a.packet)
    ensures AllArrive(arrivals + [a])
    ensures var r := Pushed(groups, item, Count(a), moves(|groups|));
            |r| == |groups| + 1 && RemembersAs(arrivals + [a], moves, r[k], k)
  {
    hide Arrives, PlumeOf, Count, Cut, HeadCut, Early, Expects, OfPlume, Pushed, Remembers, Run;
    if k < |groups| {
      var kosa := groups[k].plume.id.kosa;
      OtherPlumes(arrivals, a, moves, kosa, k);
      OfPlumeStep(arrivals, a, kosa);
      PushedOthers(groups, item, Count(a), moves(|groups|), k, |OfPlume(arrivals, kosa)|,
                   Early(arrivals, moves, kosa, k), Expects(arrivals, moves, kosa, k));
    } else {
      NewPlume(arrivals, a, moves, k);
      PushedNew(groups, item, Count(a), moves(|groups|));
    }
  }

  /** One more arrival, wherever its item goes. */
  lemma AddedStep(arrivals: seq<Arrival>, a: Arrival, moves: nat -> bool, item: Item, groups: seq<KosaPackets>,
                  k: nat, f: nat)
    requires AllArrive(arrivals) && Arrives(a) && item.id.kosa == PlumeOf(a.packet)
    requires |groups| == |Run(arrivals)| && (groups == [] <==> arrivals == [])
    requires f == Find(Plumes(groups), item.id) && (f == |groups| <==> Begins(arrivals, a))
    requires f < |groups| ==> groups[f].plume.id.kosa == item.id.kosa && groups[f].plume.id.kosaYear == item.id.kosaYear
    requires forall j :: 0 <= j < |groups| && groups[j].plume.id.kosa == item.id.kosa ==> j == f
    requires k < |groups| ==> groups[k].plume.items != [] && RemembersAs(arrivals, moves, groups[k], k)
    requires k < |AddKosa(groups, item, Count(a), moves)|
    ensures AllArrive(arrivals + [a])
    ensures RemembersAs(arrivals + [a], moves, AddKosa(groups, item, Count(a), moves)[k], k)
  {
    hide Arrives, PlumeOf, Count, Pushed, RemembersAs, Run, GrownKosa, Expecting, Begins;
    if f < |groups| {
      OldStep(arrivals, a, moves, item, groups, k);
    } else {
      PushedNew(groups, item, Count(a), moves(|groups|));
      NewStep(arrivals, a, moves, item, groups, k);
    }
  }

  lemma NoGroupsYet(moves: nat -> bool)
    ensures AllArrive([]) && Groups([], moves) == []
  {
  }

  lemma SomeGroups(arrivals: seq<Arrival>, moves: nat -> bool)
    requires AllArrive(arrivals)
    ensures Groups(arrivals, moves) == [] <==> arrivals == []
  {
    hide Arrives, Arriving, Count;
  }

  /** What every group in memory owns and expects, after any run in which the years were found. */
  lemma {:induction false} GroupsRemember(arrivals: seq<Arrival>, moves: nat -> bool, years: byte -> byte, k: nat)
    requires AllArrive(arrivals) && TrueYears(arrivals, years) && AllDated(arrivals, years)
    requires k < |Groups(arrivals, moves)|
    ensures RemembersAs(arrivals, moves, Groups(arrivals, moves)[k], k)
  {
    hide Arrives, PlumeOf, Early, Expects, OfPlume, Pushed, Remembers, Run, AllDated, IsDated, TrueYear;
    hide RemembersAs, Groups, AddKosa;
    NoGroupsYet(moves);
    assert arrivals != [];
    var n := |arrivals| - 1;
    var a, before := arrivals[n], arrivals[..n];
    assert arrivals == before + [a];
    AllDatedStep(before, a, years);
    ArrivesAs(before, a, years, moves);
    GroupsStep(before, a, moves);
    var groups := Groups(before, moves);
    var item := Arriving(Plumes(groups), a);
    ItemKey(item);
    FindKosa(before, moves, years, item.id);
    GroupKosas(before, moves, years);
    SomeGroups(before, moves);
    if k < |groups| {
      GroupsRemember(before, moves, years, k);
    }
    AddedStep(before, a, moves, item, groups, k, Find(Plumes(groups), item.id));
  }

  // -------------------------------------------------------- what can be read

  predicate NoDiffs(arrivals: seq<Arrival>) {
    forall i :: 0 <= i < |arrivals| ==> !IsDiff(arrivals[i].packet)
  }

  lemma DatedDiff(a: Arrival, years: byte -> byte)
    requires Arrives(a)
    ensures IsDiff(DatedItem(a, years).packet) == IsDiff(a.packet)
  {
  }

  lemma ReadWhenOwned(g: KosaPackets, mine: seq<Arrival>, early: nat, count: byte, years: byte -> byte)
    requires AllArrive(mine) && g.plume.items == Dated(mine, years)
    requires Remembers(g, |mine|, early, count) && early <= |mine|
    ensures ReadDefined(g) <==> NoDiffs(mine[..early])
  {
    hide Arrives, IsDiff, DatedItem;
    forall i | 0 <= i < |mine|
      ensures IsDiff(g.plume.items[i].packet) == IsDiff(mine[i].packet)
    {
      DatedDiff(mine[i], years);
    }
    if !NoDiffs(mine[..early]) {
      var i :| 0 <= i < early && IsDiff(mine[..early][i].packet);
      assert !g.owned[i];
    }
  }

  lemma NoneHasDiffs(arrivals: seq<Arrival>)
    ensures NoDiffs(arrivals[..0])
  {
  }

  /**
   Reading the first group is defined. Reading another is defined exactly if no packet with deltas arrived for it up
   to the last time that it began or the vector moved.
   */
  lemma GroupIsRead(arrivals: seq<Arrival>, moves: nat -> bool, years: byte -> byte, k: nat)
    requires AllArrive(arrivals) && TrueYears(arrivals, years) && AllDated(arrivals, years)
    requires k < |Groups(arrivals, moves)|
    ensures var g := Groups(arrivals, moves)[k];
            var c := Cut(arrivals, moves, g.plume.id.kosa);
            ReadDefined(g) <==> k == 0 || NoDiffs(OfPlume(arrivals[..c], g.plume.id.kosa))
  {
    hide Arrives, Groups, Run, OfPlume, Dated, TrueYears, AllDated, Cut, Expects, ReadDefined, Remembers, NoDiffs;
    var g := Groups(arrivals, moves)[k];
    var kosa := g.plume.id.kosa;
    var early := Early(arrivals, moves, kosa, k);
    GroupsRemember(arrivals, moves, years, k);
    GroupKosas(arrivals, moves, years);
    EarlyAtMost(arrivals, moves, kosa, k);
    ReadWhenOwned(g, OfPlume(arrivals, kosa), early, Expects(arrivals, moves, kosa, k), years);
    OfPlumeSplit(arrivals, Cut(arrivals, moves, kosa), kosa);
    NoneHasDiffs(OfPlume(arrivals, kosa));
  }

  // ------------------------------------------------------- what is expected

  lemma SomeCountStep(arrivals: seq<Arrival>)
    requires AllArrive(arrivals) && arrivals != []
    ensures var n := |arrivals| - 1;
            SomeCount(arrivals) <==> Count(arrivals[n]) > 0 || SomeCount(arrivals[..n])
  {
    hide Arrives, Count;
    var n := |arrivals| - 1;
    if i :| 0 <= i < |arrivals| && Count(arrivals[i]) > 0 {
      assert i < n ==> arrivals[..n][i] == arrivals[i];
    }
    if i :| 0 <= i < n && Count(arrivals[..n][i]) > 0 {
      assert Count(arrivals[i]) > 0;
    }
  }

  lemma {:induction false} LastCountIs(start: byte, other: byte, arrivals: seq<Arrival>)
    requires AllArrive(arrivals)
    ensures if SomeCount(arrivals) then LastCount(start, arrivals) == LastCount(other, arrivals) > 0
            else LastCount(start, arrivals) == start
  {
    hide Arrives, Count;
    if arrivals != [] {
      LastCountIs(start, other, arrivals[..|arrivals| - 1]);
      SomeCountStep(arrivals);
    }
  }

  lemma {:induction false} LastCountSplit(start: byte, early: seq<Arrival>, late: seq<Arrival>)
    requires AllArrive(early) && AllArrive(late)
    ensures AllArrive(early + late)
    ensures LastCount(start, early + late) == LastCount(LastCount(start, early), late)
    decreases |late|
  {
    hide Arrives, Count;
    if late == [] {
      assert early + late == early;
    } else {
      var n := |late| - 1;
      LastCountSplit(start, early, late[..n]);
      assert early + late == (early + late[..n]) + [late[n]] && late == late[..n] + [late[n]];
      LastCountStep(start, early + late[..n], late[n]);
    }
  }

  /** Starting at a cut gives what the plume announced exactly if it announced something later, or starts right. */
  lemma RightAfterCut(arrivals: seq<Arrival>, c: nat, kosa: byte, start: byte)
    requires AllArrive(arrivals) && c <= |arrivals|
    ensures var early, late := OfPlume(arrivals[..c], kosa), OfPlume(arrivals[c..], kosa);
            LastCount(start, late) == LastCount(0, OfPlume(arrivals, kosa))
            <==> SomeCount(late) || start == LastCount(0, early)
  {
    hide Arrives, OfPlume, LastCount, SomeCount;
    var early, late := OfPlume(arrivals[..c], kosa), OfPlume(arrivals[c..], kosa);
    OfPlumeSplit(arrivals, c, kosa);
    LastCountSplit(0, early, late);
    LastCountIs(start, LastCount(0, early), late);
    LastCountIs(LastCount(0, early), start, late);
  }

  /**
   A group expects what its plume announced exactly if the plume announced something after the cut, or what the
   group starts from there is right: nothing was announced before in a later group, or the arrival that changed the
   first group's number announced the same.
   */
  lemma GroupExpects(arrivals: seq<Arrival>, moves: nat -> bool, years: byte -> byte, k: nat)
    requires AllArrive(arrivals) && TrueYears(arrivals, years) && AllDated(arrivals, years)
    requires k < |Groups(arrivals, moves)|
    ensures var g := Groups(arrivals, moves)[k];
            var kosa := g.plume.id.kosa;
            var c := if k == 0 then HeadCut(arrivals, moves) else Cut(arrivals, moves, kosa);
            var early, late := OfPlume(arrivals[..c], kosa), OfPlume(arrivals[c..], kosa);
            g.expectedPackets == LastCount(0, OfPlume(arrivals, kosa))
            <==> SomeCount(late)
                 || (if k == 0 then HeadStart(arrivals, moves) == LastCount(0, early) else !SomeCount(early))
  {
    hide Arrives, Groups, OfPlume, TrueYears, AllDated, Cut, HeadCut, HeadStart, LastCount, SomeCount, Early;
    var kosa := Groups(arrivals, moves)[k].plume.id.kosa;
    var c := if k == 0 then HeadCut(arrivals, moves) else Cut(arrivals, moves, kosa);
    GroupsRemember(arrivals, moves, years, k);
    RightAfterCut(arrivals, c, kosa, if k == 0 then HeadStart(arrivals, moves) else 0);
    LastCountIs(0, 0, OfPlume(arrivals[..c], kosa));
  }
}
