/** The page-table code in its own form: methods that change page tables, reference counts and memory in place,
    each proved to do what the functions of PageState and CowModel say. */
module Cow {
  import opened PageState
  import opened CowModel

  class Machine {
    const pick: Allocator
    var pt: map<Key, Pte>
    var tables: map<Key, Frame>
    var refs: map<Frame, int>
    var mem: map<Frame, Content>
    var free: set<Frame>
    var requests: nat
    ghost var refused: nat

    ghost function Now(): State
      reads this
    {
      State(pt, tables, refs, mem, free, requests, refused)
    }

    constructor (pick: Allocator, frames: set<Frame>, kernel: map<Frame, int>)
      requires 0 in kernel && frames !! kernel.Keys
      ensures Inv(Now()) && pt == map[] && this.pick == pick
    {
      this.pick := pick;
      pt, tables, free, requests, refused := map[], map[], frames, 0, 0;
      refs := kernel + map f | f in frames :: 0;
      mem := map f | f in frames + kernel.Keys :: Zeros();
      new;
      forall f ensures Uses(pt, tables, f) == 0 {
        assert Users(pt, f) == {} && Holders(tables, f) == {};
      }
    }

    /** page_alloc. */
    method Alloc() returns (ok: bool, f: Frame)
      modifies this
      ensures (if ok then Done(Now()) else Failed(Now()), f) == PageAlloc(pick, old(Now()))
    {
      f := pick(requests, free);
      requests := requests + 1;
      ok := f in free && f in refs;
      if ok {
        free := free - {f};
        refs := refs[f := 0];
        mem := mem[f := Zeros()];
      } else {
        refused := refused + 1;
      }
    }

    /** page_decrease_ref. */
    method DecreaseRef(f: Frame)
      requires f in refs
      modifies this
      ensures Now() == PageState.DecreaseRef(old(Now()), f)
    {
      refs := refs[f := refs[f] - 1];
      if refs[f] == 0 {
        free := free + {f};
      }
    }

    /** pgdir_walk; the answer is whether there is a table for page k. */
    method PgdirWalk(k: Key, create: bool) returns (ok: bool)
      modifies this
      ensures !create ==> Now() == old(Now()) && (ok <==> TableOf(k) in tables)
      ensures create ==> (if ok then Done(Now()) else Failed(Now())) == Walk(pick, old(Now()), k)
    {
      if TableOf(k) in tables {
        return true;
      }
      if !create {
        return false;
      }
      var got, f := Alloc();
      if !got {
        return false;
      }
      refs := refs[f := refs[f] + 1];
      tables := tables[TableOf(k) := f];
      return true;
    }

    /** page_remove.  It reads the entry without a look at PTE_P; PageState.RemoveAsWritten is about that. */
    method Remove(k: Key)
      requires 0 in refs && (k in pt ==> pt[k].frame in refs)
      modifies this
      ensures Now() == PageRemove(old(Now()), k)
    {
      var there := PgdirWalk(k, false);
      if there {
        DecreaseRef(if k in pt then pt[k].frame else 0);
        pt := pt - {k};
      }
    }

    /** page_insert. */
    method Insert(k: Key, e: Pte) returns (ok: bool)
      requires 0 in refs && e.frame in refs && (k in pt ==> TableOf(k) in tables && pt[k].frame in refs)
      modifies this
      ensures (if ok then Done(Now()) else Failed(Now())) == PageInsert(pick, old(Now()), k, e)
    {
      ok := PgdirWalk(k, true);
      if !ok {
        return;
      }
      if k in pt {
        if pt[k].frame == e.frame {
          pt := pt[k := e];
          return;
        }
        Remove(k);
      }
      pt := pt[k := e];
      refs := refs[e.frame := refs[e.frame] + 1];
    }

    /** user_page_map. */
    method MapPage(src: Key, dst: Key, w: bool, cow: bool, share: bool) returns (ok: bool)
      requires Sound(Now())
      modifies this
      ensures (if ok then Done(Now()) else Failed(Now())) == UserPageMap(pick, old(Now()), src, dst, w, cow, share)
    {
      hide Counted, TabledMaps, PageInsert;
      FieldsOf(Now());
      if src.vpn >= UTOP_PAGE || dst.vpn >= UTOP_PAGE {
        return false;
      }
      var there := PgdirWalk(src, false);
      if !there {
        return false;
      }
      if !(src in pt && pt[src].w) && w {
        return false;
      }
      ok := Insert(dst, Pte(if src in pt then pt[src].frame else 0, w, cow, share));
    }

    /** user_page_upmap below UTOP. */
    method UnmapPage(k: Key)
      requires Sound(Now())
      modifies this
      ensures Now() == PageRemove(old(Now()), k)
    {
      hide Counted, TabledMaps;
      FieldsOf(Now());
      Remove(k);
    }

    /** user_page_alloc. */
    method AllocPage(k: Key, w: bool, cow: bool, share: bool) returns (ok: bool)
      requires Sound(Now())
      modifies this
      ensures (if ok then Done(Now()) else Failed(Now())) == UserPageAlloc(pick, old(Now()), k, w, cow, share)
    {
      hide Counted, TabledMaps, PageInsert, PageState.PageAlloc;
      FieldsOf(Now());
      if k.vpn >= UTOP_PAGE {
        return false;
      }
      AllocKeeps(pick, Now(), {});
      ghost var s := Now();
      var f;
      ok, f := Alloc();
      if ok {
        FreshFields(s, f);
        ok := Insert(k, Pte(f, w, cow, share));
        if !ok {
          AllocInsert(pick, s, k, w, cow, share);
          DecreaseRef(f);
        }
      }
    }

    lemma FreshFields(s: State, f: Frame)
      requires Sound(s) && Counted(Now(), {} + {f}) && pt == s.pt && tables == s.tables && refs.Keys == s.refs.Keys
      ensures 0 in refs && f in refs && forall k :: k in pt ==> TableOf(k) in tables && pt[k].frame in refs
    {
    }

    /** duppage: page v of the current process p also for its child c. */
    method DuplicatePage(p: nat, c: nat, v: nat) returns (ok: bool)
      requires Sound(Now()) && At(p, v) in pt
      modifies this
      ensures (if ok then Done(Now()) else Failed(Now())) == DupPage(pick, old(Now()), p, c, v)
    {
      hide Sound, UserPageMap;
      var e := pt[At(p, v)];
      if e.share {
        ok := MapPage(At(p, v), At(c, v), e.w, e.cow, true);
        return;
      }
      var cow := false;
      if e.w || e.cow {
        cow := true;
      }
      MapKeeps(pick, Now(), At(p, v), At(c, v), false, cow, false);
      ok := MapPage(At(p, v), At(c, v), false, cow, false);
      if !ok {
        return;
      }
      if cow {
        ok := MapPage(At(p, v), At(p, v), false, cow, false);
      }
    }

    lemma SkipTable(s: State, p: nat, c: nat, v: nat, hi: nat)
      requires v <= hi <= UTOP_PAGE && forall u :: v <= u < hi ==> At(p, u) !in s.pt
      ensures CowFork(pick, s, p, c, v) == CowFork(pick, s, p, c, hi)
      decreases hi - v
    {
      if v < hi {
        SkipTable(s, p, c, v + 1, hi);
      }
    }

    /** The inner loop of cow_fork: the pages of table r. */
    method ForkTable(p: nat, c: nat, r: nat) returns (ok: bool)
      requires Inv(Now()) && p != c && (r + 1) * PDENTRIES <= UTOP_PAGE
      modifies this
      ensures ok ==> Inv(Now())
      ensures ok ==> CowFork(pick, Now(), p, c, (r + 1) * PDENTRIES) == CowFork(pick, old(Now()), p, c, r * PDENTRIES)
      ensures !ok ==> Failed(Now()) == CowFork(pick, old(Now()), p, c, r * PDENTRIES)
    {
      hide Inv, DupPage;
      var j := 0;
      while j < PDENTRIES
        invariant 0 <= j <= PDENTRIES && Inv(Now())
        invariant CowFork(pick, Now(), p, c, r * PDENTRIES + j) == CowFork(pick, old(Now()), p, c, r * PDENTRIES)
      {
        var pn := r * PDENTRIES + j;
        if At(p, pn) in pt {
          DupKeeps(pick, Now(), p, c, pn);
          InvSound(Now());
          ok := DuplicatePage(p, c, pn);
          if !ok {
            return;
          }
        }
        j := j + 1;
      }
      ok := true;
    }

    /** cow_fork: page tables from that of UTEXT up to UTOP, page by page. */
    method ForkPages(p: nat, c: nat) returns (ok: bool)
      requires Inv(Now()) && p != c
      modifies this
      ensures (if ok then Done(Now()) else Failed(Now())) == CowFork(pick, old(Now()), p, c, FORK_START)
    {
      hide Inv, DupPage;
      var r := FORK_START / PDENTRIES;
      while r < UTOP_PAGE / PDENTRIES
        invariant FORK_START <= r * PDENTRIES <= UTOP_PAGE && Inv(Now())
        invariant CowFork(pick, Now(), p, c, r * PDENTRIES) == CowFork(pick, old(Now()), p, c, FORK_START)
      {
        if At(p, r) in tables {
          ok := ForkTable(p, c, r);
          if !ok {
            return;
          }
        } else {
          EmptyTable(Now(), p, r);
          SkipTable(Now(), p, c, r * PDENTRIES, (r + 1) * PDENTRIES);
        }
        r := r + 1;
      }
      ok := true;
    }

    lemma InvSound(s: State)
      requires Inv(s)
      ensures Sound(s)
    {
    }

    lemma EmptyTable(s: State, p: nat, r: nat)
      requires Inv(s) && At(p, r) !in s.tables
      ensures forall u :: r * PDENTRIES <= u < (r + 1) * PDENTRIES ==> At(p, u) !in s.pt
    {
      hide Counted, Sharing;
      FieldsOf(s);
      forall u | r * PDENTRIES <= u < (r + 1) * PDENTRIES ensures At(p, u) !in s.pt {
        assert TableOf(At(p, u)) == At(p, r);
      }
    }

    /** One turn of pgdir_free: table d with its entries. */
    method FreeTable(p: nat, d: nat)
      requires Sound(Now()) && At(p, d) in tables && (d + 1) * PDENTRIES <= UTOP_PAGE
      requires forall k :: k in pt && k.pid == p ==> k.vpn >= d * PDENTRIES
      modifies this
      ensures Sound(Now()) && PgdirFree(Now(), p, d + 1) == PgdirFree(old(Now()), p, d)
      ensures forall k :: k in pt && k.pid == p ==> k.vpn >= (d + 1) * PDENTRIES
    {
      hide Counted, TabledMaps, PageRemove;
      ghost var s, lo, hi := Now(), d * PDENTRIES, (d + 1) * PDENTRIES;
      FieldsOf(s);
      FreeEntriesKeeps(s, p, lo, hi);
      var paddr := tables[At(p, d)];
      var j := 0;
      while j < PDENTRIES
        invariant 0 <= j <= PDENTRIES && Sound(Now()) && tables == s.tables
        invariant FreeEntries(Now(), p, lo + j, hi) == FreeEntries(s, p, lo, hi)
      {
        var k := At(p, d * PDENTRIES + j);
        if k in pt {
          RemoveSound(Now(), k);
          FieldsOf(Now());
          DropEntry(k);
        }
        j := j + 1;
      }
      DropTableKeeps(Now(), At(p, d));
      TableFrame(At(p, d));
      DecreaseRef(paddr);
      tables := tables - {At(p, d)};
    }

    /** pgdir_free.  A table's entries go with it. */
    method FreeAll(p: nat)
      requires Sound(Now())
      modifies this
      ensures Now() == PgdirFree(old(Now()), p, 0)
    {
      hide Sound, Counted, TabledMaps, PageRemove;
      var d := 0;
      while d < UTOP_PAGE / PDENTRIES
        invariant 0 <= d <= UTOP_PAGE / PDENTRIES && Sound(Now())
        invariant PgdirFree(Now(), p, d) == PgdirFree(old(Now()), p, 0)
        invariant forall k :: k in pt && k.pid == p ==> k.vpn >= d * PDENTRIES
      {
        if At(p, d) !in tables {
          EmptyBelow(p, d);
        } else {
          FreeTable(p, d);
        }
        d := d + 1;
      }
    }

    /** The inner step of pgdir_free: page_decrease_ref for the frame of a present entry. */
    method DropEntry(k: Key)
      requires k in pt && pt[k].frame in refs && TableOf(k) in tables
      modifies this
      ensures Now() == PageRemove(old(Now()), k)
    {
      DecreaseRef(pt[k].frame);
      pt := pt - {k};
    }

    lemma EmptyBelow(p: nat, d: nat)
      requires Sound(Now()) && At(p, d) !in tables && forall k :: k in pt && k.pid == p ==> k.vpn >= d * PDENTRIES
      ensures forall k :: k in pt && k.pid == p ==> k.vpn >= (d + 1) * PDENTRIES
    {
      hide Counted;
      forall k | k in pt && k.pid == p ensures k.vpn >= (d + 1) * PDENTRIES {
        assert TableOf(k) in tables;
      }
    }

    lemma TableFrame(t: Key)
      requires Sound(Now()) && t in tables
      ensures tables[t] in refs
    {
    }

    /** cow_pgfault, which exits when it gets no memory. */
    method CopyFault(p: nat, v: nat) returns (ok: bool)
      requires Sound(Now()) && At(p, v) in pt && v != PFTEMP && At(p, PFTEMP) !in pt
      modifies this
      ensures (if ok then Done(Now()) else Failed(Now())) == CowPgFault(pick, old(Now()), p, v)
      ensures ok <==> PageAlloc(pick, old(Now())).0.Done? && !Loses(pick, old(Now()), At(p, PFTEMP))
    {
      hide Counted, TabledMaps, PageRemove, UserPageAlloc, UserPageMap, TableOf;
      var k, t := At(p, v), At(p, PFTEMP);
      UserAllocKeeps(pick, Now(), t, true, false, false);
      ok := AllocPage(t, true, false, false);
      if !ok {
        return;
      }
      FieldsOf(Now());
      SoundMem(Now(), pt[t].frame, ContentOf(Now(), k));
      mem := mem[pt[t].frame := mem[pt[k].frame]];
      FieldsOf(Now());
      RemoveSound(Now(), k);
      UnmapPage(k);
      MapKeeps(pick, Now(), t, k, true, false, false);
      ok := MapPage(t, k, true, false, false);
      if !ok {
        return;
      }
      UnmapPage(t);
    }

    /** page_fault_handler for a write to page v; where the code calls exit the process is torn down. */
    method WriteFault(p: nat, v: nat, heap: bool)
      requires Inv(Now()) && Enabled(Now(), Fault(p, v, heap))
      modifies this
      ensures Now() == Apply(pick, old(Now()), Fault(p, v, heap))
      ensures Inv(Now()) && EagerStep(Look(old(Now())), Fault(p, v, heap), Look(Now()), refused > old(refused))
    {
      hide Counted, TabledMaps, Sharing, CowPgFault, PgdirFree, PageInsert, Look, EagerStep, PageState.PageAlloc;
      FaultRefines(pick, Now(), p, v, heap);
      var k, ok := At(p, v), true;
      if k in pt && pt[k].cow {
        ok := CopyFault(p, v);
      } else if heap {
        ghost var s := Now();
        AllocKeeps(pick, s, {});
        var f;
        ok, f := Alloc();
        if ok {
          FreshFields(s, f);
          ok := Insert(k, Pte(f, true, true, true));
        }
      }
      if !ok {
        FaultFailed(old(Now()), p, v, heap);
        FreeAll(p);
      }
    }

    lemma FaultFailed(s: State, p: nat, v: nat, heap: bool)
      requires Inv(s) && Enabled(s, Fault(p, v, heap)) && PageFault(pick, s, p, v, heap).Failed?
      ensures Sound(PageFault(pick, s, p, v, heap).s)
    {
      hide CowPgFault, LazyAlloc;
      SharedIsWritable(s, At(p, v));
      if At(p, v) in s.pt && s.pt[At(p, v)].cow {
        FaultKeeps(pick, s, p, v);
      } else if heap {
        LazyKeeps(pick, s, At(p, v));
      }
    }

    /** clone: the pages of a fork, given back when the fork fails. */
    method Clone(p: nat, c: nat) returns (ok: bool)
      requires Inv(Now()) && p != c
      modifies this
      ensures Now() == Apply(pick, old(Now()), Fork(p, c))
      ensures Inv(Now()) && EagerStep(Look(old(Now())), Fork(p, c), Look(Now()), refused > old(refused))
      ensures ok <==> refused == old(refused)
      ensures ok ==> Look(Now()) == EagerFork(Look(old(Now())), p, c, FORK_START)
    {
      hide Inv, CowFork, PgdirFree, Look, EagerStep, EagerFork;
      StepRefines(pick, Now(), Fork(p, c));
      ForkKeeps(pick, Now(), p, c, FORK_START);
      ok := ForkPages(p, c);
      if !ok {
        InvSound(Now());
        ExitKeeps(Now(), c);
        FreeAll(c);
      }
    }
  }
}
