/** The allocator's demonstration script, replayed on the model: a 1000-unit
    memory, allocations A=400, B=250, C=200, a free at 0, D=230, a failing E=300,
    a free at 400 and F=220. Each lemma is one step of the script. */
module Demo {
  import opened Partitions
  import opened WorstFit

  function Used(start: int, size: int): Partition { Partition(start, size, true) }
  function Hole(start: int, size: int): Partition { Partition(start, size, false) }

  /** Process A (400) splits the initial free partition. */
  lemma DemoAllocA()
    ensures Allocate(Init(1000), 400) == [Used(0, 400), Hole(400, 600)]
  {
    var ps := Init(1000);
    assert IsWorstFit(ps, 400, 0);
    AllocateSplit(ps, 400, 0);
  }

  /** Process B (250) takes the only free partition. */
  lemma DemoAllocB()
    ensures Allocate([Used(0, 400), Hole(400, 600)], 250) == [Used(0, 400), Used(400, 250), Hole(650, 350)]
  {
    var ps := [Used(0, 400), Hole(400, 600)];
    assert IsWorstFit(ps, 250, 1);
    AllocateSplit(ps, 250, 1);
  }

  /** Process C (200) takes the 350-unit free partition at 650. */
  lemma DemoAllocC()
    ensures Allocate([Used(0, 400), Used(400, 250), Hole(650, 350)], 200)
         == [Used(0, 400), Used(400, 250), Used(650, 200), Hole(850, 150)]
  {
    var ps := [Used(0, 400), Used(400, 250), Hole(650, 350)];
    assert IsWorstFit(ps, 200, 2);
    AllocateSplit(ps, 200, 2);
  }

  /** Freeing A at 0 creates no adjacent free pair, so nothing merges. */
  lemma DemoFreeA()
    ensures Free([Used(0, 400), Used(400, 250), Used(650, 200), Hole(850, 150)], 0)
         == [Hole(0, 400), Used(400, 250), Used(650, 200), Hole(850, 150)]
  {
    var ps := [Used(0, 400), Used(400, 250), Used(650, 200), Hole(850, 150)];
    var q := [Hole(0, 400), Used(400, 250), Used(650, 200), Hole(850, 150)];
    FreeCoalesces(ps, 0, 0);
    assert ps[0 := ps[0].(isAllocated := false)] == q;
    assert NoAdjacentFree(q);
    CoalesceNoOp(q);
  }

  /** Process D (230): the 400-unit hole at 0 beats the 150-unit one at 850. */
  lemma DemoAllocD()
    ensures Allocate([Hole(0, 400), Used(400, 250), Used(650, 200), Hole(850, 150)], 230)
         == [Used(0, 230), Hole(230, 170), Used(400, 250), Used(650, 200), Hole(850, 150)]
  {
    var ps := [Hole(0, 400), Used(400, 250), Used(650, 200), Hole(850, 150)];
    assert IsWorstFit(ps, 230, 0);
    AllocateSplit(ps, 230, 0);
  }

  /** Process E (300) fits nowhere, and the table stays as it was. */
  lemma DemoAllocE()
    ensures Allocate([Used(0, 230), Hole(230, 170), Used(400, 250), Used(650, 200), Hole(850, 150)], 300)
         == [Used(0, 230), Hole(230, 170), Used(400, 250), Used(650, 200), Hole(850, 150)]
  {
    var ps := [Used(0, 230), Hole(230, 170), Used(400, 250), Used(650, 200), Hole(850, 150)];
    assert NothingFits(ps, 300);
  }

  /** Freeing B at 400 merges it into the 170-unit hole below it. */
  lemma DemoFreeB()
    ensures Free([Used(0, 230), Hole(230, 170), Used(400, 250), Used(650, 200), Hole(850, 150)], 400)
         == [Used(0, 230), Hole(230, 420), Used(650, 200), Hole(850, 150)]
  {
    DemoFreeBMarks();
    DemoFreeBMerges();
  }

  /** Freeing B coalesces the table with B marked free. */
  lemma DemoFreeBMarks()
    ensures Free([Used(0, 230), Hole(230, 170), Used(400, 250), Used(650, 200), Hole(850, 150)], 400)
         == Coalesce([Used(0, 230), Hole(230, 170), Hole(400, 250), Used(650, 200), Hole(850, 150)])
  {
    var ps := [Used(0, 230), Hole(230, 170), Used(400, 250), Used(650, 200), Hole(850, 150)];
    var q := [Used(0, 230), Hole(230, 170), Hole(400, 250), Used(650, 200), Hole(850, 150)];
    assert forall j :: 0 <= j < 2 ==> !AllocatedAt(ps[j], 400);
    assert ps[2 := ps[2].(isAllocated := false)] == q;
    FreeCoalesces(ps, 400, 2);
  }

  /** Coalescing the table with B marked free. */
  lemma DemoFreeBMerges()
    ensures Coalesce([Used(0, 230), Hole(230, 170), Hole(400, 250), Used(650, 200), Hole(850, 150)])
         == [Used(0, 230), Hole(230, 420), Used(650, 200), Hole(850, 150)]
  {
    var q := [Used(0, 230), Hole(230, 170), Hole(400, 250), Used(650, 200), Hole(850, 150)];
    CoalesceKeepsHead(q);
    assert q[1..] == [Hole(230, 170), Hole(400, 250)] + [Used(650, 200), Hole(850, 150)];
    DemoFreeBRun();
  }

  /** The run freed by B: the holes at 230 and 400 become one. */
  lemma DemoFreeBRun()
    ensures Coalesce([Hole(230, 170), Hole(400, 250)] + [Used(650, 200), Hole(850, 150)])
         == [Hole(230, 420), Used(650, 200), Hole(850, 150)]
  {
    var tail := [Used(650, 200), Hole(850, 150)];
    CoalesceMergeHead(Hole(230, 170), Hole(400, 250), tail);
    var merged := [Hole(230, 420)] + tail;
    assert Hole(230, 170).(size := 170 + 250) == Hole(230, 420);
    assert NoAdjacentFree(merged);
    CoalesceNoOp(merged);
  }

  /** Process F (220) takes the merged 420-unit hole. */
  lemma DemoAllocF()
    ensures Allocate([Used(0, 230), Hole(230, 420), Used(650, 200), Hole(850, 150)], 220)
         == [Used(0, 230), Used(230, 220), Hole(450, 200), Used(650, 200), Hole(850, 150)]
  {
    var ps := [Used(0, 230), Hole(230, 420), Used(650, 200), Hole(850, 150)];
    assert IsWorstFit(ps, 220, 1);
    AllocateSplit(ps, 220, 1);
  }

  /** Free holes of 50, 200 and 80 and a request of 60: the 200-unit hole is
      chosen, not the tightest eligible one (80) nor the ineligible one (50). */
  lemma DemoLargestWins()
    ensures Select([Hole(0, 50), Used(50, 10), Hole(60, 200), Used(260, 10), Hole(270, 80)], 60).value == 2
  {
    var ps := [Hole(0, 50), Used(50, 10), Hole(60, 200), Used(260, 10), Hole(270, 80)];
    assert IsWorstFit(ps, 60, 2);
    WorstFitUnique(ps, 60, 2, Select(ps, 60).value);
  }

  /** Two free holes of the same largest size: the one at the lower address wins. */
  lemma DemoTieGoesLow()
    ensures Select([Used(0, 10), Hole(10, 300), Used(310, 10), Hole(320, 300)], 100).value == 1
  {
    var ps := [Used(0, 10), Hole(10, 300), Used(310, 10), Hole(320, 300)];
    assert IsWorstFit(ps, 100, 1);
    WorstFitUnique(ps, 100, 1, Select(ps, 100).value);
  }
}
