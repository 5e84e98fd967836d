/** The other half of the reference counts: which frames without mappings are not free again. */
module FrameLoss {
  // A page that the kernel allocates and then finds no page table for is lost; nothing else is.

  import opened PageState
  import opened CowModel

  /** Frames that no entry names and that are not free either. */
  ghost function Unreturned(s: State): set<Frame> {
    set f | f in s.refs && f !in s.free && Uses(s.pt, s.tables, f) == 0
  }

  // ---------------------------------------------------------------- pages and tables

  lemma AllocLoss(pick: Allocator, s: State, held: set<Frame>)
    requires Counted(s, held)
    ensures var (o, f) := PageAlloc(pick, s);
            && (o.Failed? ==> Unreturned(o.s) == Unreturned(s))
            && (o.Done? ==> Unreturned(o.s) == Unreturned(s) + {f})
  {
    hide Uses;
  }

  lemma TableLoss(s: State, t: Key, f: Frame)
    requires t !in s.tables && f in s.refs
    ensures var s' := s.(tables := s.tables[t := f], refs := s.refs[f := 1]);
            Unreturned(s') == Unreturned(s) - {f}
  {
    UsesAddTable(s.pt, s.tables, t, f);
    hide Uses;
  }

  lemma WalkLoss(pick: Allocator, s: State, k: Key, held: set<Frame>)
    requires Counted(s, held)
    ensures Unreturned(Walk(pick, s, k).s) == Unreturned(s)
  {
    hide Uses, PageAlloc;
    if TableOf(k) !in s.tables {
      AllocLoss(pick, s, held);
      AllocFresh(pick, s, held);
      var (o, f) := PageAlloc(pick, s);
      if o.Done? {
        TableLoss(o.s, TableOf(k), f);
      }
    }
  }

  lemma AllocFresh(pick: Allocator, s: State, held: set<Frame>)
    requires Counted(s, held)
    ensures var (o, f) := PageAlloc(pick, s);
            && o.s.pt == s.pt && o.s.tables == s.tables && (o.Done? ==> f in o.s.refs && f !in Unreturned(s))
  {
    hide Uses;
  }

  lemma RemoveLoss(s: State, k: Key, held: set<Frame>)
    requires Counted(s, held) && Tabled(s) && k in s.pt
    ensures Unreturned(PageRemove(s, k)) == Unreturned(s)
  {
    RemoveKeeps(s, k, held);
    UsesRemove(s.pt, s.tables, k);
    Named(s.pt, s.tables, s.pt[k].frame);
    hide Uses, Counted, Tabled, PageRemove;
  }

  lemma PutLoss(s: State, k: Key, e: Pte)
    requires k !in s.pt && e.frame in s.refs
    ensures Unreturned(s.(pt := s.pt[k := e], refs := s.refs[e.frame := RefOf(s, e.frame) + 1]))
            == Unreturned(s) - {e.frame}
  {
    UsesAdd(s.pt, s.tables, k, e);
    hide Uses;
  }

  lemma AgainLoss(s: State, k: Key, e: Pte)
    requires k in s.pt && s.pt[k].frame == e.frame
    ensures Unreturned(s.(pt := s.pt[k := e])) == Unreturned(s) - {e.frame}
  {
    UsesReplace(s.pt, s.tables, k, e);
    Named(s.pt, s.tables, e.frame);
    hide Uses;
  }

  lemma InsertLoss(pick: Allocator, s: State, k: Key, e: Pte, held: set<Frame>)
    requires Counted(s, held) && Tabled(s) && e.frame in s.refs
    ensures var o := PageInsert(pick, s, k, e);
            Unreturned(o.s) == if o.Done? then Unreturned(s) - {e.frame} else Unreturned(s)
  {
    hide Counted, Tabled, Walk, PageRemove, Unreturned, RefOf;
    WalkLoss(pick, s, k, held);
    WalkKeeps(pick, s, k, held);
    var o := Walk(pick, s, k);
    if o.Done? {
      if k in o.s.pt && o.s.pt[k].frame == e.frame {
        AgainLoss(o.s, k, e);
      } else if k in o.s.pt {
        RemoveLoss(o.s, k, held);
        RemoveKeeps(o.s, k, held);
        PutLoss(PageRemove(o.s, k), k, e);
      } else {
        PutLoss(o.s, k, e);
      }
    }
  }

  lemma MapLoss(pick: Allocator, s: State, src: Key, dst: Key, w: bool, cow: bool, share: bool)
    requires Sound(s) && src in s.pt
    ensures Unreturned(UserPageMap(pick, s, src, dst, w, cow, share).s) == Unreturned(s)
  {
    FieldsOf(s);
    MappedIsUsed(s, src);
    hide Counted, Tabled, PageInsert, Unreturned;
    InsertLoss(pick, s, dst, Pte(s.pt[src].frame, w, cow, share), {});
  }

  lemma MappedIsUsed(s: State, k: Key)
    requires k in s.pt
    ensures s.pt[k].frame !in Unreturned(s)
  {
    Named(s.pt, s.tables, s.pt[k].frame);
    hide Uses;
  }

  // ---------------------------------------------------------------- fork and exit

  lemma DupLoss(pick: Allocator, s: State, p: nat, c: nat, v: nat)
    requires Sound(s) && At(p, v) in s.pt
    ensures Unreturned(DupPage(pick, s, p, c, v).s) == Unreturned(s)
  {
    hide Sound, UserPageMap, Unreturned, ContentKept;
    var e := s.pt[At(p, v)];
    if e.share {
      MapLoss(pick, s, At(p, v), At(c, v), e.w, e.cow, true);
    } else {
      var cow := e.w || e.cow;
      MapLoss(pick, s, At(p, v), At(c, v), false, cow, false);
      MapKeeps(pick, s, At(p, v), At(c, v), false, cow, false);
      var o := UserPageMap(pick, s, At(p, v), At(c, v), false, cow, false);
      if o.Done? && cow {
        MapLoss(pick, o.s, At(p, v), At(p, v), false, true, false);
      }
    }
  }

  lemma {:induction false} ForkLoss(pick: Allocator, s: State, p: nat, c: nat, v: nat)
    requires Inv(s) && p != c
    ensures Unreturned(CowFork(pick, s, p, c, v).s) == Unreturned(s)
    decreases UTOP_PAGE - v
  {
    hide Sharing, Sound, DupPage, Unreturned, Look;
    if v < UTOP_PAGE {
      if At(p, v) in s.pt {
        DupLoss(pick, s, p, c, v);
        DupKeeps(pick, s, p, c, v);
        var o := DupPage(pick, s, p, c, v);
        if o.Done? {
          ForkLoss(pick, o.s, p, c, v + 1);
        }
      } else {
        ForkLoss(pick, s, p, c, v + 1);
      }
    }
  }

  lemma {:induction false} EntriesLoss(s: State, p: nat, v: nat, hi: nat)
    requires Sound(s)
    ensures Unreturned(FreeEntries(s, p, v, hi)) == Unreturned(s)
    decreases hi - v
  {
    hide Counted, Tabled, PageRemove, Unreturned;
    if v < hi {
      if At(p, v) in s.pt {
        RemoveLoss(s, At(p, v), {});
        RemoveSound(s, At(p, v));
      }
      EntriesLoss(if At(p, v) in s.pt then PageRemove(s, At(p, v)) else s, p, v + 1, hi);
    }
  }

  /** The frame of a table has no other use, so that it is free with the table gone. */
  lemma DropLoss(s: State, t: Key)
    requires Sound(s) && t in s.tables
    ensures Unreturned(DropTable(s, t)) == Unreturned(s)
  {
    UsesRemoveTable(s.pt, s.tables, t);
    Named(s.pt, s.tables, s.tables[t]);
    TableUsed(s, t);
    hide Uses, Counted, TabledMaps;
  }

  lemma TableUsed(s: State, t: Key)
    requires Sound(s) && t in s.tables
    ensures s.tables[t] in s.refs && s.refs[s.tables[t]] == Uses(s.pt, s.tables, s.tables[t]) > 0
    ensures s.tables[t] !in s.free
  {
    Named(s.pt, s.tables, s.tables[t]);
    hide Uses, TabledMaps;
  }

  lemma {:induction false} ExitLoss(s: State, p: nat, d: nat)
    requires Sound(s) && forall k :: k in s.pt && k.pid == p ==> k.vpn >= d * PDENTRIES
    ensures Unreturned(PgdirFree(s, p, d)) == Unreturned(s)
    decreases UTOP_PAGE - d
  {
    hide Sound, DropTable, Unreturned;
    if d < UTOP_PAGE / PDENTRIES {
      FieldsOf(s);
      if At(p, d) !in s.tables {
        forall k | k in s.pt && k.pid == p ensures k.vpn >= (d + 1) * PDENTRIES {
          assert TableOf(k) in s.tables;
        }
        ExitLoss(s, p, d + 1);
      } else {
        var s1 := FreeEntries(s, p, d * PDENTRIES, (d + 1) * PDENTRIES);
        FreeEntriesKeeps(s, p, d * PDENTRIES, (d + 1) * PDENTRIES);
        EntriesLoss(s, p, d * PDENTRIES, (d + 1) * PDENTRIES);
        DropLoss(s1, At(p, d));
        DropTableKeeps(s1, At(p, d));
        ExitLoss(DropTable(s1, At(p, d)), p, d + 1);
      }
    }
  }

  // ---------------------------------------------------------------- the pages that are lost

  /** Allocating and mapping a page; the frame is left over exactly when Loses says so. */
  lemma AllocInsertLoss(pick: Allocator, s: State, k: Key, w: bool, cow: bool, share: bool)
    requires Sound(s) && k.vpn < UTOP_PAGE && PageAlloc(pick, s).0.Done?
    ensures var (o, f) := PageAlloc(pick, s); var o1 := PageInsert(pick, o.s, k, Pte(f, w, cow, share));
            && f in o1.s.refs && (o1.Failed? <==> Loses(pick, s, k))
            && Unreturned(o1.s) == if Loses(pick, s, k) then Unreturned(s) + {f} else Unreturned(s)
  {
    hide PageAlloc, Counted, TabledMaps, Tabled, Unreturned, PageInsert;
    AllocKeeps(pick, s, {});
    AllocLoss(pick, s, {});
    AllocFresh(pick, s, {});
    AllocInsert(pick, s, k, w, cow, share);
    var (o, f) := PageAlloc(pick, s);
    InsertLoss(pick, o.s, k, Pte(f, w, cow, share), {} + {f});
    InsertFails(pick, o.s, k, Pte(f, w, cow, share));
    assert Unreturned(s) + {f} - {f} == Unreturned(s);
  }

  lemma DecreaseLoss(s: State, f: Frame)
    requires f in s.refs && s.refs[f] == 0
    ensures Unreturned(DecreaseRef(s, f)) == Unreturned(s)
    ensures f in DecreaseRef(s, f).refs && DecreaseRef(s, f).refs[f] == -1
  {
  }

  /** user_page_alloc. */
  lemma UserAllocLoss(pick: Allocator, s: State, k: Key, w: bool, cow: bool, share: bool)
    requires Sound(s) && k.vpn < UTOP_PAGE
    ensures var o, f := UserPageAlloc(pick, s, k, w, cow, share), FreshFrame(pick, s);
            && Unreturned(o.s) == (if Loses(pick, s, k) then Unreturned(s) + {f} else Unreturned(s))
            && (Loses(pick, s, k) ==> o.Failed? && f in o.s.refs && o.s.refs[f] == -1)
  {
    hide PageInsert, Counted, TabledMaps, Tabled, PageAlloc, Unreturned, DecreaseRef;
    AllocLoss(pick, s, {});
    var (o, f) := PageAlloc(pick, s);
    if o.Done? {
      AllocInsertLoss(pick, s, k, w, cow, share);
      AllocInsert(pick, s, k, w, cow, share);
      var o1 := PageInsert(pick, o.s, k, Pte(f, w, cow, share));
      if o1.Failed? {
        HeldAtZero(o1.s, f);
        DecreaseLoss(o1.s, f);
      }
    }
  }

  lemma HeldAtZero(s: State, f: Frame)
    requires Counted(s, {f})
    ensures f in s.refs && s.refs[f] == 0
  {
  }

  /** proc_region_alloc, which does not even lower the count. */
  lemma LazyLoss(pick: Allocator, s: State, k: Key)
    requires Sound(s) && k.vpn < UTOP_PAGE
    ensures Unreturned(LazyAlloc(pick, s, k).s)
            == if Loses(pick, s, k) then Unreturned(s) + {FreshFrame(pick, s)} else Unreturned(s)
  {
    hide PageInsert, Counted, TabledMaps, Tabled, PageAlloc, Unreturned;
    AllocLoss(pick, s, {});
    if PageAlloc(pick, s).0.Done? {
      AllocInsertLoss(pick, s, k, true, true, true);
    }
  }

  lemma MemLoss(s: State, mem: map<Frame, Content>)
    ensures Unreturned(s.(mem := mem)) == Unreturned(s)
  {
  }

  /** cow_pgfault loses the page for PFTEMP, if any. */
  lemma FaultLoss(pick: Allocator, s: State, p: nat, v: nat)
    requires Sound(s) && At(p, v) in s.pt && v != PFTEMP && At(p, PFTEMP) !in s.pt
    ensures Unreturned(CowPgFault(pick, s, p, v).s)
            == if Loses(pick, s, At(p, PFTEMP)) then Unreturned(s) + {FreshFrame(pick, s)} else Unreturned(s)
  {
    hide Sound, UserPageAlloc, UserPageMap, PageRemove, TableOf, Unreturned, FreshFrame, Loses, ContentKept;
    var k, t, f := At(p, v), At(p, PFTEMP), FreshFrame(pick, s);
    FieldsOf(s);
    UserAllocKeeps(pick, s, t, true, false, false);
    UserAllocLoss(pick, s, t, true, false, false);
    var o := UserPageAlloc(pick, s, t, true, false, false);
    if o.Done? {
      var s1 := o.s.(mem := o.s.mem[f := ContentOf(o.s, k)]);
      SoundMem(o.s, f, ContentOf(o.s, k));
      MemLoss(o.s, s1.mem);
      RemoveSound(s1, k);
      SoundRemoveLoss(s1, k);
      var s2 := PageRemove(s1, k);
      MapKeeps(pick, s2, t, k, true, false, false);
      MapLoss(pick, s2, t, k, true, false, false);
      var o2 := UserPageMap(pick, s2, t, k, true, false, false);
      if o2.Done? {
        SoundRemoveLoss(o2.s, t);
      }
    }
  }

  lemma SoundRemoveLoss(s: State, k: Key)
    requires Sound(s) && k in s.pt
    ensures Unreturned(PageRemove(s, k)) == Unreturned(s)
  {
    RemoveLoss(s, k, {});
  }

  // ---------------------------------------------------------------- runs

  /** The frames that one step loses: at most the page of a fault. */
  ghost function StepLosses(pick: Allocator, s: State, a: Action): set<Frame> {
    if a.Fault? && (if At(a.p, a.v) in s.pt && s.pt[At(a.p, a.v)].cow then Loses(pick, s, At(a.p, PFTEMP))
                    else a.heap && Loses(pick, s, At(a.p, a.v)))
    then {FreshFrame(pick, s)} else {}
  }

  lemma StepLoss(pick: Allocator, s: State, a: Action)
    requires Inv(s) && Enabled(s, a)
    ensures Unreturned(Apply(pick, s, a)) == Unreturned(s) + StepLosses(pick, s, a)
  {
    hide Sharing, Sound, CowFork, CowPgFault, LazyAlloc, PgdirFree, Unreturned, Look, EagerFork, EagerExit, Loses,
      FreshFrame;
    match a
    case Fork(p, c) =>
      ForkKeeps(pick, s, p, c, FORK_START);
      ForkLoss(pick, s, p, c, FORK_START);
      ExitLoss(CowFork(pick, s, p, c, FORK_START).s, c, 0);
    case Fault(p, v, heap) => FaultStepLoss(pick, s, p, v, heap);
    case Write(p, v, content) => MemLoss(s, s.mem[s.pt[At(p, v)].frame := content]);
    case Exit(p) => ExitLoss(s, p, 0);
  }

  lemma FaultStepLoss(pick: Allocator, s: State, p: nat, v: nat, heap: bool)
    requires Inv(s) && Enabled(s, Fault(p, v, heap))
    ensures Unreturned(Apply(pick, s, Fault(p, v, heap))) == Unreturned(s) + StepLosses(pick, s, Fault(p, v, heap))
  {
    hide Sharing, Sound, CowPgFault, LazyAlloc, PgdirFree, Unreturned, Look, Loses, FreshFrame;
    var k, o := At(p, v), PageFault(pick, s, p, v, heap);
    SharedIsWritable(s, k);
    if k in s.pt && s.pt[k].cow {
      FaultKeeps(pick, s, p, v);
      FaultLoss(pick, s, p, v);
    } else if heap {
      LazyKeeps(pick, s, k);
      LazyLoss(pick, s, k);
    }
    ExitLoss(o.s, p, 0);
  }

  ghost function RunLosses(pick: Allocator, s: State, acts: seq<Action>): set<Frame>
    requires Legal(pick, s, acts)
    decreases |acts|
  {
    if acts == [] then {}
    else StepLosses(pick, s, acts[0]) + RunLosses(pick, Apply(pick, s, acts[0]), acts[1..])
  }

  /** Over every run: a frame without a mapping is free, unless it was in neither use at the start or a fault
      of the run has lost it, which happens exactly where Loses holds; and those never come back. */
  lemma {:induction false} UnmappedIsFree(pick: Allocator, s: State, acts: seq<Action>)
    requires Inv(s) && Legal(pick, s, acts)
    ensures Unreturned(Final(pick, s, acts)) == Unreturned(s) + RunLosses(pick, s, acts)
    decreases |acts|
  {
    hide Inv, Apply, Unreturned, StepLosses, Look, EagerStep;
    if acts != [] {
      StepLoss(pick, s, acts[0]);
      StepRefines(pick, s, acts[0]);
      UnmappedIsFree(pick, Apply(pick, s, acts[0]), acts[1..]);
    }
  }

  /** The same frame by frame, with RunInvariants: a frame that a process maps somewhere is not free, and one
      whose last mapping went is. */
  lemma FreeExactlyWhenUnmapped(pick: Allocator, s: State, acts: seq<Action>, f: Frame)
    requires Inv(s) && Legal(pick, s, acts) && f in Final(pick, s, acts).refs
    requires f !in Unreturned(s) && f !in RunLosses(pick, s, acts)
    ensures var t := Final(pick, s, acts); f in t.free <==> Uses(t.pt, t.tables, f) == 0
  {
    hide Inv, Apply, StepLosses, Look, EagerStep, Legal, Final, RunLosses, Uses;
    UnmappedIsFree(pick, s, acts);
    RunRefines(pick, s, acts);
    var t := Final(pick, s, acts);
    InvFree(t);
    assert f in Unreturned(t) <==> f !in t.free && Uses(t.pt, t.tables, f) == 0;
  }

  lemma InvFree(s: State)
    requires Inv(s)
    ensures forall f :: f in s.free ==> f in s.refs && Uses(s.pt, s.tables, f) == 0
  {
    hide Uses;
  }

  // ---------------------------------------------------------------- failing inputs

  /** A machine with one free page. */
  function OnePage(f: Frame): State
    requires f != 0
  {
    State(map[], map[], map[0 := 1, f := 0], map[0 := Zeros(), f := Zeros()], {f}, 0, 0)
  }

  lemma Unmapped(s: State)
    requires s.pt == map[] && s.tables == map[]
    ensures forall g :: Uses(s.pt, s.tables, g) == 0
  {
    forall g ensures Uses(s.pt, s.tables, g) == 0 {
      Named(s.pt, s.tables, g);
    }
  }

  /** Its page is taken, there is none for the table, and afterwards no page is free and none is mapped.
      user_page_alloc leaves p_ref at -1, the lazy heap at 0. */
  lemma LossExample(pick: Allocator, f: Frame, p: nat, v: nat)
    requires f != 0 && v < UTOP_PAGE && v != PFTEMP && pick(0, {f}) == f
    ensures Inv(OnePage(f)) && Loses(pick, OnePage(f), At(p, v)) && Enabled(OnePage(f), Fault(p, v, true))
    ensures var t := UserPageAlloc(pick, OnePage(f), At(p, v), true, false, false).s;
            f in t.refs && t.refs[f] == -1 && t.free == {} && t.pt == map[] && t.tables == map[]
    ensures var t := Apply(pick, OnePage(f), Fault(p, v, true));
            f in t.refs && t.refs[f] == 0 && t.free == {} && t.pt == map[] && t.tables == map[]
  {
    var s := OnePage(f);
    Unmapped(s);
    hide Uses;
    var s1 := s.(requests := 1, free := {}, refs := s.refs[f := 0], mem := s.mem[f := Zeros()]);
    assert s.free - {f} == {};
    assert PageAlloc(pick, s) == (Done(s1), f);
    assert PageAlloc(pick, s1).0 == Failed(s1.(requests := 2, refused := 1));
    assert LazyAlloc(pick, s, At(p, v)) == Failed(s1.(requests := 2, refused := 1));
    NoTables(s1.(requests := 2, refused := 1), p, 0);
  }

  lemma {:induction false} NoTables(s: State, p: nat, d: nat)
    requires s.tables == map[]
    ensures PgdirFree(s, p, d) == s
    decreases UTOP_PAGE - d
  {
    if d < UTOP_PAGE / PDENTRIES {
      NoTables(s, p, d + 1);
    }
  }

  /** A machine with two free pages. */
  function TwoPages(): State {
    State(map[], map[], map[0 := 1, 1 := 0, 2 := 0], map[0 := Zeros(), 1 := Zeros(), 2 := Zeros()], {1, 2}, 0, 0)
  }

  lemma TwoPagesInv()
    ensures Inv(TwoPages())
  {
    Unmapped(TwoPages());
    hide Uses;
  }

  /** The fault on a first heap page takes one for the page and one for its table. */
  lemma FirstTouch(pick: Allocator, k: Key)
    requires pick(0, {1, 2}) == 1 && pick(1, {2}) == 2
    ensures var o := LazyAlloc(pick, TwoPages(), k);
            && o.Done? && o.s.pt == map[k := Pte(1, true, true, true)] && o.s.tables == map[TableOf(k) := 2]
            && 0 in o.s.refs && o.s.refs[0] == 1 && 0 !in o.s.free
  {
    var s := TwoPages();
    var s1 := s.(requests := 1, free := {2}, refs := s.refs[1 := 0], mem := s.mem[1 := Zeros()]);
    assert s.free - {1} == {2};
    assert PageAlloc(pick, s) == (Done(s1), 1);
  }

  lemma FirstFault(pick: Allocator, p: nat, v: nat)
    requires v < UTOP_PAGE && v != PFTEMP && LazyAlloc(pick, TwoPages(), At(p, v)).Done?
    ensures Enabled(TwoPages(), Fault(p, v, true))
    ensures Apply(pick, TwoPages(), Fault(p, v, true)) == LazyAlloc(pick, TwoPages(), At(p, v)).s
  {
    hide LazyAlloc;
  }

  /** page_remove of an unmapped page under an existing table, as sbrk does with heap pages that were never
      touched: here frame 0 loses its one reference and can be handed out. */
  lemma RemoveExample(pick: Allocator, p: nat, v: nat)
    requires v % PDENTRIES == 0 && v + 1 < UTOP_PAGE && v != PFTEMP && pick(0, {1, 2}) == 1 && pick(1, {2}) == 2
    ensures Inv(TwoPages()) && Enabled(TwoPages(), Fault(p, v, true))
    ensures var s, k := Apply(pick, TwoPages(), Fault(p, v, true)), At(p, v + 1);
            && Inv(s) && k !in s.pt && TableOf(k) in s.tables
            && 0 in s.refs && s.refs[0] == 1 && 0 !in s.free && 0 in PageRemove(s, k).free
  {
    TwoPagesInv();
    FirstTouch(pick, At(p, v));
    FirstFault(pick, p, v);
    assert TableOf(At(p, v + 1)) == TableOf(At(p, v));
    hide Inv, Enabled, Apply, LazyAlloc, EagerStep, TwoPages, TableOf;
    FaultRefines(pick, TwoPages(), p, v, true);
  }
}
