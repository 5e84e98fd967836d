/** Copy-on-write against copying: each process sees what it would see if fork copied every page. */
module CowModel {
  // Fork, the write fault, user writes and exit are functions of the page state.

  import opened PageState

  // ---------------------------------------------------------------- system calls

  /** user_page_map: the frame of page src also at page dst.  page_lookup does not look at PTE_P, so that the
      empty entry of an existing table names frame 0. */
  function UserPageMap(pick: Allocator, s: State, src: Key, dst: Key, w: bool, cow: bool, share: bool): Outcome {
    if src.vpn >= UTOP_PAGE || dst.vpn >= UTOP_PAGE || TableOf(src) !in s.tables then Failed(s)
    else if w && !(src in s.pt && s.pt[src].w) then Failed(s)
    else PageInsert(pick, s, dst, Pte(if src in s.pt then s.pt[src].frame else 0, w, cow, share))
  }

  /** user_page_alloc.  When no table can be had, p_ref drops from 0 to -1 and the frame is lost. */
  function UserPageAlloc(pick: Allocator, s: State, k: Key, w: bool, cow: bool, share: bool): (o: Outcome)
    ensures o.Done? ==> k in o.s.pt
  {
    if k.vpn >= UTOP_PAGE then Failed(s)
    else
      var (o, f) := PageAlloc(pick, s);
      if o.Failed? then o
      else
        var o1 := PageInsert(pick, o.s, k, Pte(f, w, cow, share));
        if o1.Failed? then Failed(DecreaseRef(o1.s, f)) else o1
  }

  ghost predicate Sound(s: State) {
    Counted(s, {}) && Tabled(s)
  }

  /** duppage. */
  function DupPage(pick: Allocator, s: State, p: nat, c: nat, v: nat): Outcome
    requires At(p, v) in s.pt
  {
    var e := s.pt[At(p, v)];
    if e.share then UserPageMap(pick, s, At(p, v), At(c, v), e.w, e.cow, true)
    else
      var cow := e.w || e.cow;
      var o := UserPageMap(pick, s, At(p, v), At(c, v), false, cow, false);
      if o.Failed? || !cow then o
      else UserPageMap(pick, o.s, At(p, v), At(p, v), false, true, false)
  }

  lemma MapKeeps(pick: Allocator, s: State, src: Key, dst: Key, w: bool, cow: bool, share: bool)
    requires Sound(s) && src in s.pt
    ensures var o := UserPageMap(pick, s, src, dst, w, cow, share);
            && Sound(o.s) && (o.Failed? ==> o.s.pt == s.pt)
            && (o.Done? ==> o.s.pt == s.pt[dst := Pte(s.pt[src].frame, w, cow, share)])
            && (TableOf(dst) in s.tables && dst.vpn < UTOP_PAGE && (w ==> s.pt[src].w) ==> o.Done? && o.s.mem == s.mem)
            && ContentKept(s, o.s.mem, {}) && o.s.refs.Keys == s.refs.Keys
            && (dst.vpn < UTOP_PAGE && (w ==> s.pt[src].w) ==> FailsOnRefusal(s, o))
            && (forall j :: j in s.tables ==> j in o.s.tables)
  {
    hide Counted, TabledMaps, Tabled, PageInsert, ContentKept, TableOf;
    FieldsOf(s);
    var e := Pte(s.pt[src].frame, w, cow, share);
    if src.vpn >= UTOP_PAGE || dst.vpn >= UTOP_PAGE || (!s.pt[src].w && w) {
      assert ContentKept(s, s.mem, {}) by {
        ContentSame(s, {});
      }
    } else {
      InsertKeeps(pick, s, dst, e, {});
      assert {} - {e.frame} == {};
    }
  }

  /** A source that is not mapped is refused only where it has no table or the mapping is to be writable;
      otherwise the page at dst becomes frame 0. */
  lemma MapUnmapped(pick: Allocator, s: State, src: Key, dst: Key, w: bool, cow: bool, share: bool)
    requires Sound(s) && src !in s.pt && src.vpn < UTOP_PAGE && dst.vpn < UTOP_PAGE
    ensures var o := UserPageMap(pick, s, src, dst, w, cow, share);
            && (o.Done? <==> TableOf(src) in s.tables && !w && Walk(pick, s, dst).Done?)
            && (o.Done? ==> dst in o.s.pt && o.s.pt[dst].frame == 0)
  {
  }

  lemma ContentSame(s: State, held: set<Frame>)
    ensures ContentKept(s, s.mem, held)
  {
  }

  lemma FieldsOf(s: State)
    requires Sound(s)
    ensures 0 in s.refs && forall j :: j in s.pt ==> s.pt[j].frame in s.refs && s.pt[j].frame in s.mem
    ensures forall j :: j in s.pt ==> TableOf(j) in s.tables && j.vpn < UTOP_PAGE
  {
  }

  // ---------------------------------------------------------------- what a process sees

  /** A private page has a content of its own; the shared ones (PTE_SHARE) name the frame they share. */
  datatype Seen = Private(content: Content, writable: bool) | Shared(frame: Frame, content: Content)

  ghost function See(e: Pte, mem: map<Frame, Content>): Seen {
    var c := if e.frame in mem then mem[e.frame] else Zeros();
    if e.share then Shared(e.frame, c) else Private(c, e.w || e.cow)
  }

  type View = map<Key, Seen>

  ghost function Look(s: State): View {
    map k | k in s.pt :: See(s.pt[k], s.mem)
  }

  /** No frame is both private and shared; a private frame with a writable mapping has no other mapping. */
  ghost predicate Sharing(pt: map<Key, Pte>) {
    && (forall k :: k in pt && pt[k].share ==> pt[k].w)
    && (forall j, k :: j in pt && k in pt && j != k && pt[j].frame == pt[k].frame ==>
          pt[j].share == pt[k].share && (pt[j].share || !pt[j].w))
  }

  ghost predicate NoTemp(s: State) {
    forall k :: k in s.pt ==> k.vpn != PFTEMP
  }

  ghost predicate Inv(s: State) {
    Sound(s) && Sharing(s.pt) && NoTemp(s)
  }

  /** fork as copying: the child gets every page of the parent from page v on. */
  ghost function EagerFork(a: View, p: nat, c: nat, v: nat): View {
    map k | k in a.Keys + Copies(a, p, c, v) ::
      if k.pid == c && v <= k.vpn && At(p, k.vpn) in a then a[At(p, k.vpn)] else a[k]
  }

  ghost function Copies(a: View, p: nat, c: nat, v: nat): set<Key> {
    set j | j in a && j.pid == p && v <= j.vpn :: At(c, j.vpn)
  }

  ghost function EagerExit(a: View, p: nat): View {
    map k | k in a && k.pid != p :: a[k]
  }

  /** A write to a private page changes that page; a write to a shared frame all its pages. */
  ghost function EagerWrite(a: View, k: Key, content: Content): View
    requires k in a
  {
    if a[k].Private? then a[k := Private(content, a[k].writable)]
    else map j | j in a :: if a[j].Shared? && a[j].frame == a[k].frame then Shared(a[k].frame, content) else a[j]
  }

  lemma SharingDup(pt: map<Key, Pte>, kp: Key, kc: Key, e: Pte)
    requires Sharing(pt) && kp in pt && kp != kc && e.frame == pt[kp].frame && e.share == pt[kp].share
    requires if e.share then e.w else !e.w
    ensures Sharing(pt[kc := e][kp := e])
  {
  }

  lemma SeeKept(s: State, mem: map<Frame, Content>)
    requires Sound(s) && ContentKept(s, mem, {})
    ensures forall k :: k in s.pt ==> See(s.pt[k], mem) == See(s.pt[k], s.mem)
  {
  }

  lemma TempDup(pt: map<Key, Pte>, kp: Key, kc: Key, e: Pte)
    requires kp in pt && (forall k :: k in pt ==> k.vpn != PFTEMP) && kp.vpn == kc.vpn
    ensures forall k :: k in pt[kc := e][kp := e] ==> k.vpn != PFTEMP
  {
  }

  /** The entry that duppage leaves at both sides. */
  ghost function DupEntry(e: Pte): Pte {
    if e.share then e else Pte(e.frame, false, e.w || e.cow, false)
  }

  lemma DupEntries(pick: Allocator, s: State, p: nat, c: nat, v: nat)
    requires Sound(s) && At(p, v) in s.pt && p != c
    requires s.pt[At(p, v)].share ==> s.pt[At(p, v)].w
    ensures var o := DupPage(pick, s, p, c, v); var n := DupEntry(s.pt[At(p, v)]);
            && Sound(o.s) && ContentKept(s, o.s.mem, {}) && FailsOnRefusal(s, o)
            && o.s.pt == if o.Done? then s.pt[At(c, v) := n][At(p, v) := n] else s.pt
  {
    hide Sound, UserPageMap, ContentKept;
    var kp, kc := At(p, v), At(c, v);
    var e := s.pt[kp];
    var n := DupEntry(e);
    FieldsOf(s);
    MapKeeps(pick, s, kp, kc, n.w, n.cow, n.share);
    var o := UserPageMap(pick, s, kp, kc, n.w, n.cow, n.share);
    if o.Done? {
      if !e.share && n.cow {
        FieldsOf(o.s);
        MapKeeps(pick, o.s, kp, kp, false, true, false);
      } else {
        assert n == e;
        assert s.pt[kc := n][kp := n] == s.pt[kc := n];
      }
    }
  }

  /** duppage gives the child the page as copying would, and the parent keeps what it sees; it fails only for
      want of a page. */
  lemma DupKeeps(pick: Allocator, s: State, p: nat, c: nat, v: nat)
    requires Inv(s) && At(p, v) in s.pt && p != c
    ensures var o := DupPage(pick, s, p, c, v);
            && Inv(o.s) && Look(o.s) == (if o.Done? then Look(s)[At(c, v) := Look(s)[At(p, v)]] else Look(s))
            && FailsOnRefusal(s, o)
  {
    hide Sound, Sharing, DupPage, See, ContentKept;
    SharedWritable(s.pt, At(p, v));
    DupEntries(pick, s, p, c, v);
    var n := DupEntry(s.pt[At(p, v)]);
    SharingDup(s.pt, At(p, v), At(c, v), n);
    TempDup(s.pt, At(p, v), At(c, v), n);
    SeeKept(s, DupPage(pick, s, p, c, v).s.mem);
    SeeDup(s.pt[At(p, v)], DupPage(pick, s, p, c, v).s.mem);
  }

  lemma SeeDup(e: Pte, mem: map<Frame, Content>)
    ensures See(DupEntry(e), mem) == See(e, mem)
  {
  }

  lemma SharedWritable(pt: map<Key, Pte>, k: Key)
    requires Sharing(pt) && k in pt
    ensures pt[k].share ==> pt[k].w
  {
  }

  // ---------------------------------------------------------------- fork

  /** cow_fork from page v on. */
  function CowFork(pick: Allocator, s: State, p: nat, c: nat, v: nat): Outcome
    decreases UTOP_PAGE - v
  {
    if v >= UTOP_PAGE then Done(s)
    else if At(p, v) in s.pt then
      var o := DupPage(pick, s, p, c, v);
      if o.Failed? then o else CowFork(pick, o.s, p, c, v + 1)
    else CowFork(pick, s, p, c, v + 1)
  }

  lemma EagerForkStep(a: View, p: nat, c: nat, v: nat)
    requires p != c && At(p, v) in a
    ensures EagerFork(a[At(c, v) := a[At(p, v)]], p, c, v + 1) == EagerFork(a, p, c, v)
  {
    var b := a[At(c, v) := a[At(p, v)]];
    assert forall k :: k in a.Keys + Copies(a, p, c, v) <==> k in b.Keys + Copies(b, p, c, v + 1);
  }

  lemma EagerForkSkip(a: View, p: nat, c: nat, v: nat)
    requires p != c && At(p, v) !in a
    ensures EagerFork(a, p, c, v + 1) == EagerFork(a, p, c, v)
  {
    assert Copies(a, p, c, v + 1) == Copies(a, p, c, v);
  }

  lemma EagerForkEnd(a: View, p: nat, c: nat, v: nat)
    requires forall k :: k in a ==> k.vpn < v
    ensures EagerFork(a, p, c, v) == a
  {
    assert Copies(a, p, c, v) == {};
  }

  /** Fork gives what copying gives, unless the allocator turns a request down; a fork that failed half way
      changed no page but the child's. */
  lemma {:induction false} ForkKeeps(pick: Allocator, s: State, p: nat, c: nat, v: nat)
    requires Inv(s) && p != c
    ensures var o := CowFork(pick, s, p, c, v);
            && Inv(o.s) && FailsOnRefusal(s, o) && (o.Done? ==> Look(o.s) == EagerFork(Look(s), p, c, v))
            && EagerExit(Look(o.s), c) == EagerExit(Look(s), c)
    decreases UTOP_PAGE - v
  {
    hide Inv, DupPage, EagerFork;
    PagesBelow(s);
    if v >= UTOP_PAGE {
      EagerForkEnd(Look(s), p, c, v);
    } else if At(p, v) in s.pt {
      DupKeeps(pick, s, p, c, v);
      var o := DupPage(pick, s, p, c, v);
      if o.Done? {
        ForkKeeps(pick, o.s, p, c, v + 1);
        EagerForkStep(Look(s), p, c, v);
      }
    } else {
      ForkKeeps(pick, s, p, c, v + 1);
      EagerForkSkip(Look(s), p, c, v);
    }
  }

  lemma PagesBelow(s: State)
    requires Inv(s)
    ensures forall k :: k in s.pt ==> k.vpn < UTOP_PAGE
  {
  }

  // ---------------------------------------------------------------- exit

  /** The inner loop of pgdir_free: pages v up to hi of process p.  Its entries go with their table. */
  function FreeEntries(s: State, p: nat, v: nat, hi: nat): State
    decreases hi - v
  {
    if v >= hi then s
    else FreeEntries(if At(p, v) in s.pt then PageRemove(s, At(p, v)) else s, p, v + 1, hi)
  }

  function DropTable(s: State, t: Key): State {
    if t in s.tables then DecreaseRef(s, s.tables[t]).(tables := s.tables - {t}) else s
  }

  /** pgdir_free from directory entry d on. */
  function PgdirFree(s: State, p: nat, d: nat): State
    decreases UTOP_PAGE - d
  {
    if d >= UTOP_PAGE / PDENTRIES then s
    else if At(p, d) !in s.tables then PgdirFree(s, p, d + 1)
    else PgdirFree(DropTable(FreeEntries(s, p, d * PDENTRIES, (d + 1) * PDENTRIES), At(p, d)), p, d + 1)
  }

  lemma RemoveSound(s: State, k: Key)
    requires Sound(s) && k in s.pt
    ensures var s' := PageRemove(s, k);
            && Sound(s') && s'.pt == s.pt - {k} && s'.tables == s.tables && s'.mem == s.mem
            && s'.refused == s.refused
  {
    RemoveKeeps(s, k, {});
  }

  lemma {:induction false} FreeEntriesKeeps(s: State, p: nat, v: nat, hi: nat)
    requires Sound(s)
    ensures var s' := FreeEntries(s, p, v, hi);
            && Sound(s') && s'.tables == s.tables && s'.mem == s.mem && s'.refused == s.refused
            && s'.pt == (map k | k in s.pt && !(k.pid == p && v <= k.vpn < hi) :: s.pt[k])
    decreases hi - v
  {
    hide Sound, PageRemove;
    if v < hi {
      if At(p, v) in s.pt {
        RemoveSound(s, At(p, v));
      }
      var s1 := if At(p, v) in s.pt then PageRemove(s, At(p, v)) else s;
      FreeEntriesKeeps(s1, p, v + 1, hi);
    }
  }

  lemma DropTableKeeps(s: State, t: Key)
    requires Sound(s) && t in s.tables && forall k :: k in s.pt ==> TableOf(k) != t
    ensures var s' := DropTable(s, t);
            && Sound(s') && s'.pt == s.pt && s'.mem == s.mem && s'.tables == s.tables - {t}
            && s'.refused == s.refused
  {
    hide Uses, TabledMaps;
    UsesRemoveTable(s.pt, s.tables, t);
    TabledShrink(s.pt, s.tables, t);
    Named(s.pt, s.tables, s.tables[t]);
  }

  /** Exit releases every page of the process, and nothing of the others. */
  lemma {:induction false} PgdirFreeKeeps(s: State, p: nat, d: nat)
    requires Sound(s) && forall k :: k in s.pt && k.pid == p ==> k.vpn >= d * PDENTRIES
    ensures var s' := PgdirFree(s, p, d);
            && Sound(s') && s'.mem == s.mem && s'.refused == s.refused
            && s'.pt == map k | k in s.pt && k.pid != p :: s.pt[k]
    decreases UTOP_PAGE - d
  {
    hide Sound, DropTable;
    if d >= UTOP_PAGE / PDENTRIES {
      FieldsOf(s);
      assert s.pt == map k | k in s.pt && k.pid != p :: s.pt[k];
    } else if At(p, d) !in s.tables {
      FieldsOf(s);
      forall k | k in s.pt && k.pid == p ensures k.vpn >= (d + 1) * PDENTRIES {
        assert TableOf(k) in s.tables;
      }
      PgdirFreeKeeps(s, p, d + 1);
    } else {
      var s1 := FreeEntries(s, p, d * PDENTRIES, (d + 1) * PDENTRIES);
      FreeEntriesKeeps(s, p, d * PDENTRIES, (d + 1) * PDENTRIES);
      DropTableKeeps(s1, At(p, d));
      PgdirFreeKeeps(DropTable(s1, At(p, d)), p, d + 1);
    }
  }

  lemma ExitKeeps(s: State, p: nat)
    requires Inv(s)
    ensures Inv(PgdirFree(s, p, 0)) && Look(PgdirFree(s, p, 0)) == EagerExit(Look(s), p)
    ensures PgdirFree(s, p, 0).refused == s.refused
  {
    hide Sound, PgdirFree, Sharing, See;
    PgdirFreeKeeps(s, p, 0);
    SharingPart(s.pt, PgdirFree(s, p, 0).pt);
  }

  lemma SharingPart(pt: map<Key, Pte>, pt': map<Key, Pte>)
    requires Sharing(pt) && forall k :: k in pt' ==> k in pt && pt'[k] == pt[k]
    ensures Sharing(pt')
  {
  }

  // ---------------------------------------------------------------- faults

  ghost function FreshFrame(pick: Allocator, s: State): Frame {
    PageAlloc(pick, s).1
  }

  /** A fresh zeroed frame at page k, or the entries as they were. */
  ghost predicate FreshAt(s: State, o: Outcome, k: Key, f: Frame, w: bool, cow: bool, share: bool) {
    && Sound(o.s) && ContentKept(s, o.s.mem, {}) && FailsOnRefusal(s, o)
    && (forall j :: j in s.tables ==> j in o.s.tables)
    && (o.Failed? ==> o.s.pt == s.pt)
    && (o.Done? ==> o.s.pt == s.pt[k := Pte(f, w, cow, share)] && f in o.s.mem && o.s.mem[f] == Zeros()
                    && forall j :: j in s.pt ==> s.pt[j].frame != f)
  }

  /** A page is to be had, the address has no page table, and there is no further page for one. */
  predicate Loses(pick: Allocator, s: State, k: Key) {
    var (o, f) := PageAlloc(pick, s);
    o.Done? && TableOf(k) !in s.tables && PageAlloc(pick, o.s).0.Failed?
  }

  lemma AllocInsert(pick: Allocator, s: State, k: Key, w: bool, cow: bool, share: bool)
    requires Sound(s) && k.vpn < UTOP_PAGE && PageAlloc(pick, s).0.Done?
    ensures var (o, f) := PageAlloc(pick, s); var o1 := PageInsert(pick, o.s, k, Pte(f, w, cow, share));
            && Tabled(o1.s) && ContentKept(s, o1.s.mem, {}) && f in o1.s.refs
            && FailsOnRefusal(s, o1) && (o1.Failed? <==> Loses(pick, s, k))
            && (forall j :: j in s.tables ==> j in o1.s.tables)
            && (forall j :: j in s.pt ==> s.pt[j].frame != f)
            && (if o1.Done? then Counted(o1.s, {}) && o1.s.pt == s.pt[k := Pte(f, w, cow, share)]
                                 && f in o1.s.mem && o1.s.mem[f] == Zeros()
                else Counted(o1.s, {f}) && o1.s.pt == s.pt)
  {
    hide PageAlloc, PageInsert, Counted, TabledMaps, Tabled;
    AllocKeeps(pick, s, {});
    var (o, f) := PageAlloc(pick, s);
    assert {} + {f} == {f} && {f} - {f} == {};
    CountedIn(o.s, f);
    InsertKeeps(pick, o.s, k, Pte(f, w, cow, share), {f});
    InsertFails(pick, o.s, k, Pte(f, w, cow, share));
  }

  lemma CountedIn(s: State, f: Frame)
    requires Counted(s, {f})
    ensures f in s.refs && f in s.mem
  {
  }

  lemma Release(s: State, f: Frame)
    requires Counted(s, {f}) && Tabled(s)
    ensures Sound(s) && Sound(DecreaseRef(s, f))
  {
    hide Uses, TabledMaps;
  }

  lemma UserAllocKeeps(pick: Allocator, s: State, k: Key, w: bool, cow: bool, share: bool)
    requires Sound(s) && k.vpn < UTOP_PAGE
    ensures FreshAt(s, UserPageAlloc(pick, s, k, w, cow, share), k, FreshFrame(pick, s), w, cow, share)
    ensures UserPageAlloc(pick, s, k, w, cow, share).Done? <==> PageAlloc(pick, s).0.Done? && !Loses(pick, s, k)
  {
    hide PageInsert, Counted, TabledMaps, Tabled, PageAlloc, ContentKept, DecreaseRef;
    AllocKeeps(pick, s, {});
    var (o, f) := PageAlloc(pick, s);
    if o.Failed? {
      ContentSame(s, {});
    } else {
      AllocInsert(pick, s, k, w, cow, share);
      var o1 := PageInsert(pick, o.s, k, Pte(f, w, cow, share));
      if o1.Failed? {
        Release(o1.s, f);
        DecreaseFields(o1.s, f);
      }
    }
  }

  lemma DecreaseFields(s: State, f: Frame)
    ensures DecreaseRef(s, f).pt == s.pt && DecreaseRef(s, f).mem == s.mem && DecreaseRef(s, f).tables == s.tables
    ensures DecreaseRef(s, f).refused == s.refused
  {
  }

  /** proc_region_alloc for one page, with the bits that page_fault_handler gives it.  A page that finds no
      table is not given back. */
  function LazyAlloc(pick: Allocator, s: State, k: Key): Outcome {
    var (o, f) := PageAlloc(pick, s);
    if o.Failed? then o else PageInsert(pick, o.s, k, Pte(f, true, true, true))
  }

  lemma LazyAllocKeeps(pick: Allocator, s: State, k: Key)
    requires Sound(s) && k.vpn < UTOP_PAGE
    ensures FreshAt(s, LazyAlloc(pick, s, k), k, FreshFrame(pick, s), true, true, true)
    ensures LazyAlloc(pick, s, k).Done? <==> PageAlloc(pick, s).0.Done? && !Loses(pick, s, k)
  {
    hide PageInsert, Counted, TabledMaps, Tabled, PageAlloc, ContentKept;
    AllocKeeps(pick, s, {});
    var (o, f) := PageAlloc(pick, s);
    if o.Failed? {
      ContentSame(s, {});
    } else {
      AllocInsert(pick, s, k, true, true, true);
      var o1 := PageInsert(pick, o.s, k, Pte(f, true, true, true));
      if o1.Failed? {
        Release(o1.s, f);
      }
    }
  }

  function ContentOf(s: State, k: Key): Content {
    if k in s.pt && s.pt[k].frame in s.mem then s.mem[s.pt[k].frame] else Zeros()
  }

  /** cow_pgfault at page v: the copy is made at PFTEMP and then moved. */
  function CowPgFault(pick: Allocator, s: State, p: nat, v: nat): Outcome
    requires v != PFTEMP
  {
    var k, t := At(p, v), At(p, PFTEMP);
    var o := UserPageAlloc(pick, s, t, true, false, false);
    if o.Failed? then o
    else
      var s1 := o.s.(mem := o.s.mem[o.s.pt[t].frame := ContentOf(o.s, k)]);
      var o2 := UserPageMap(pick, PageRemove(s1, k), t, k, true, false, false);
      if o2.Failed? then o2 else Done(PageRemove(o2.s, t))
  }

  lemma SharingFresh(pt: map<Key, Pte>, k: Key, e: Pte)
    requires Sharing(pt) && (forall j :: j in pt ==> pt[j].frame != e.frame) && (e.share ==> e.w)
    ensures Sharing(pt[k := e])
  {
  }

  lemma SoundMem(s: State, f: Frame, content: Content)
    requires Sound(s)
    ensures Sound(s.(mem := s.mem[f := content]))
  {
    hide Uses;
  }

  /** What cow_pgfault leaves: page k has a frame of its own with the old content.  It fails exactly when there
      is no page for the copy, or none for a page table that PFTEMP lacks. */
  lemma FaultEntries(pick: Allocator, s: State, p: nat, v: nat)
    requires Sound(s) && At(p, v) in s.pt && v != PFTEMP && At(p, PFTEMP) !in s.pt
    ensures var k, o := At(p, v), CowPgFault(pick, s, p, v); var f := FreshFrame(pick, s);
            && Sound(o.s) && ContentKept(s, o.s.mem, {}) && FailsOnRefusal(s, o)
            && (o.Done? <==> PageAlloc(pick, s).0.Done? && !Loses(pick, s, At(p, PFTEMP)))
            && (o.Failed? ==> o.s.pt == s.pt)
            && (o.Done? ==> o.s.pt == s.pt[k := Pte(f, true, false, false)] && f in o.s.mem
                            && o.s.mem[f] == ContentOf(s, k)
                            && forall j :: j in s.pt ==> s.pt[j].frame != f)
  {
    hide Sound, UserPageAlloc, UserPageMap, PageRemove, TableOf, Loses, PageAlloc;
    var k, t, f := At(p, v), At(p, PFTEMP), FreshFrame(pick, s);
    FieldsOf(s);
    UserAllocKeeps(pick, s, t, true, false, false);
    var o := UserPageAlloc(pick, s, t, true, false, false);
    if o.Done? {
      var s1 := o.s.(mem := o.s.mem[f := ContentOf(o.s, k)]);
      SoundMem(o.s, f, ContentOf(o.s, k));
      RemoveSound(s1, k);
      var s2 := PageRemove(s1, k);
      FieldsOf(s1);
      MapKeeps(pick, s2, t, k, true, false, false);
      var o2 := UserPageMap(pick, s2, t, k, true, false, false);
      RemoveSound(o2.s, t);
      FaultPt(s.pt, k, t, f);
    }
  }

  lemma FaultPt(pt: map<Key, Pte>, k: Key, t: Key, f: Frame)
    requires k != t && t !in pt
    ensures var e := Pte(f, true, false, false);
            (pt[t := e] - {k})[k := e] - {t} == pt[k := e]
  {
  }

  lemma SeeFresh(s: State, s': State, k: Key, e: Pte)
    requires Sound(s) && ContentKept(s, s'.mem, {}) && s'.pt == s.pt[k := e]
    ensures Look(s') == Look(s)[k := See(e, s'.mem)]
  {
    hide Sound, ContentKept, See;
    SeeKept(s, s'.mem);
  }

  /** A write fault changes nothing that anyone sees.  It is handled exactly when the allocator has the pages
      for it, and then the page can be written. */
  lemma FaultKeeps(pick: Allocator, s: State, p: nat, v: nat)
    requires Inv(s) && At(p, v) in s.pt && v != PFTEMP && s.pt[At(p, v)].cow && !s.pt[At(p, v)].share
    ensures var o := CowPgFault(pick, s, p, v);
            && Inv(o.s) && Look(o.s) == Look(s) && FailsOnRefusal(s, o)
            && (o.Done? <==> PageAlloc(pick, s).0.Done? && !Loses(pick, s, At(p, PFTEMP)))
            && (o.Done? ==> At(p, v) in o.s.pt && o.s.pt[At(p, v)].w)
  {
    hide Sound, Sharing, CowPgFault, ContentKept, Loses, PageAlloc;
    FaultEntries(pick, s, p, v);
    var k, o, e := At(p, v), CowPgFault(pick, s, p, v), Pte(FreshFrame(pick, s), true, false, false);
    if o.Done? {
      SharingFresh(s.pt, k, e);
      SeeFresh(s, o.s, k, e);
      assert See(e, o.s.mem) == Look(s)[k];
    } else {
      SeeKept(s, o.s.mem);
    }
  }

  lemma LazyKeeps(pick: Allocator, s: State, k: Key)
    requires Inv(s) && k.vpn < UTOP_PAGE && k.vpn != PFTEMP
    ensures var o := LazyAlloc(pick, s, k);
            && Inv(o.s) && FailsOnRefusal(s, o)
            && (o.Done? <==> PageAlloc(pick, s).0.Done? && !Loses(pick, s, k))
            && (o.Failed? ==> Look(o.s) == Look(s))
            && (o.Done? ==> Look(o.s) == Look(s)[k := Shared(FreshFrame(pick, s), Zeros())]
                            && forall j :: j in s.pt ==> s.pt[j].frame != FreshFrame(pick, s))
  {
    hide Sound, Sharing, LazyAlloc, ContentKept, Loses, PageAlloc;
    LazyAllocKeeps(pick, s, k);
    var o, e := LazyAlloc(pick, s, k), Pte(FreshFrame(pick, s), true, true, true);
    if o.Done? {
      SharingFresh(s.pt, k, e);
      SeeFresh(s, o.s, k, e);
    } else {
      SeeKept(s, o.s.mem);
    }
  }

  /** A store that the page's entry allows, of a whole page. */
  function UserWrite(s: State, k: Key, content: Content): State
    requires k in s.pt
  {
    s.(mem := s.mem[s.pt[k].frame := content])
  }

  /** It reaches nobody else unless the page is shared on purpose. */
  lemma WriteKeeps(s: State, k: Key, content: Content)
    requires Inv(s) && k in s.pt && s.pt[k].w
    ensures Inv(UserWrite(s, k, content)) && Look(UserWrite(s, k, content)) == EagerWrite(Look(s), k, content)
  {
    hide Sound;
    SoundMem(s, s.pt[k].frame, content);
    FieldsOf(s);
  }

  // ---------------------------------------------------------------- runs

  /** A fault on a write; `heap` says whether the page lies in the lazy heap area. */
  datatype Action =
    | Fork(p: nat, c: nat)
    | Fault(p: nat, v: nat, heap: bool)
    | Write(p: nat, v: nat, content: Content)
    | Exit(p: nat)

  ghost predicate Enabled(s: State, a: Action) {
    match a
    case Fork(p, c) => p != c
    case Fault(p, v, _) => v != PFTEMP && v < UTOP_PAGE && (At(p, v) in s.pt ==> !s.pt[At(p, v)].w)
    case Write(p, v, _) => At(p, v) in s.pt && s.pt[At(p, v)].w
    case Exit(_) => true
  }

  /** page_fault_handler for a write. */
  function PageFault(pick: Allocator, s: State, p: nat, v: nat, heap: bool): Outcome
    requires v != PFTEMP
  {
    if At(p, v) in s.pt && s.pt[At(p, v)].cow then CowPgFault(pick, s, p, v)
    else if heap then LazyAlloc(pick, s, At(p, v))
    else Done(s)
  }

  function OrExit(o: Outcome, p: nat): State {
    if o.Done? then o.s else PgdirFree(o.s, p, 0)
  }

  function Apply(pick: Allocator, s: State, a: Action): State
    requires a.Fault? ==> a.v != PFTEMP
    requires a.Write? ==> At(a.p, a.v) in s.pt
  {
    match a
    case Fork(p, c) => OrExit(CowFork(pick, s, p, c, FORK_START), c)
    case Fault(p, v, heap) => OrExit(PageFault(pick, s, p, v, heap), p)
    case Write(p, v, content) => UserWrite(s, At(p, v), content)
    case Exit(p) => PgdirFree(s, p, 0)
  }

  /** The same actions where fork copies, without frames, entries or faults: a fault of a writable page is
      nothing, and one in the heap adds a page of zeros shared with nobody yet.  Where a request for memory was
      turned down, and only there, a fork leaves no child and a faulting process ends. */
  ghost predicate EagerStep(a: View, act: Action, b: View, refused: bool) {
    match act
    case Fork(p, c) => b == if refused then EagerExit(a, c) else EagerFork(a, p, c, FORK_START)
    case Fault(p, v, heap) =>
      if At(p, v) in a && a[At(p, v)].Private? && a[At(p, v)].writable then
        b == if refused then EagerExit(a, p) else a
      else if heap then
        if refused then b == EagerExit(a, p) else exists f: Frame :: NewShared(a, b, At(p, v), f)
      else
        !refused && b == a
    case Write(p, v, content) =>
      && !refused && At(p, v) in a && (a[At(p, v)].Private? ==> a[At(p, v)].writable)
      && b == EagerWrite(a, At(p, v), content)
    case Exit(p) => !refused && b == EagerExit(a, p)
  }

  ghost predicate NewShared(a: View, b: View, k: Key, f: Frame) {
    && (forall j :: j in a && a[j].Shared? ==> a[j].frame != f)
    && b == a[k := Shared(f, Zeros())]
  }

  lemma LookNames(s: State, k: Key)
    ensures k in Look(s) <==> k in s.pt
    ensures k in s.pt ==> (Look(s)[k].Shared? <==> s.pt[k].share)
    ensures k in s.pt && s.pt[k].share ==> Look(s)[k].frame == s.pt[k].frame
    ensures k in s.pt && !s.pt[k].share ==> (Look(s)[k].writable <==> s.pt[k].w || s.pt[k].cow)
  {
  }

  lemma FaultRefines(pick: Allocator, s: State, p: nat, v: nat, heap: bool)
    requires Inv(s) && Enabled(s, Fault(p, v, heap))
    ensures var s' := Apply(pick, s, Fault(p, v, heap));
            && Inv(s') && (s'.refused == s.refused || s'.refused == s.refused + 1)
            && EagerStep(Look(s), Fault(p, v, heap), Look(s'), s'.refused > s.refused)
  {
    hide Inv, Look, CowPgFault, LazyAlloc, PgdirFree, EagerExit;
    var k, o := At(p, v), PageFault(pick, s, p, v, heap);
    LookNames(s, k);
    SharedIsWritable(s, k);
    if k in s.pt && s.pt[k].cow {
      FaultKeeps(pick, s, p, v);
    } else if heap {
      LazyKeeps(pick, s, k);
      if o.Done? {
        var f := FreshFrame(pick, s);
        forall j | j in Look(s) && Look(s)[j].Shared? ensures Look(s)[j].frame != f {
          LookNames(s, j);
        }
        assert NewShared(Look(s), Look(o.s), k, f);
      }
    }
    if o.Failed? {
      ExitKeeps(o.s, p);
    }
  }

  lemma SharedIsWritable(s: State, k: Key)
    requires Inv(s)
    ensures k in s.pt && s.pt[k].share ==> s.pt[k].w
  {
  }

  /** Every step of the machine is a step of the machine that copies, and fails only with a refused request. */
  lemma StepRefines(pick: Allocator, s: State, a: Action)
    requires Inv(s) && Enabled(s, a)
    ensures var s' := Apply(pick, s, a);
            && Inv(s') && (s'.refused == s.refused || s'.refused == s.refused + 1)
            && EagerStep(Look(s), a, Look(s'), s'.refused > s.refused)
  {
    hide Inv, Look, CowFork, CowPgFault, LazyAlloc, PgdirFree, EagerFork, EagerExit, EagerWrite;
    match a
    case Fork(p, c) =>
      ForkKeeps(pick, s, p, c, FORK_START);
      var o := CowFork(pick, s, p, c, FORK_START);
      if o.Failed? {
        ExitKeeps(o.s, c);
      }
    case Fault(p, v, heap) => FaultRefines(pick, s, p, v, heap);
    case Write(p, v, content) =>
      LookNames(s, At(p, v));
      WriteKeeps(s, At(p, v), content);
    case Exit(p) => ExitKeeps(s, p);
  }

  ghost predicate Legal(pick: Allocator, s: State, acts: seq<Action>)
    decreases |acts|
  {
    acts == [] || (Enabled(s, acts[0]) && Legal(pick, Apply(pick, s, acts[0]), acts[1..]))
  }

  ghost function Final(pick: Allocator, s: State, acts: seq<Action>): State
    requires Legal(pick, s, acts)
    decreases |acts|
  {
    if acts == [] then s else Final(pick, Apply(pick, s, acts[0]), acts[1..])
  }

  /** A run of the copying machine in which `failures` steps fail. */
  ghost predicate EagerRun(a: View, acts: seq<Action>, b: View, failures: nat)
    decreases |acts|
  {
    if acts == [] then b == a && failures == 0
    else
      || (exists m: View :: EagerStep(a, acts[0], m, false) && EagerRun(m, acts[1..], b, failures))
      || (failures > 0 && exists m: View :: EagerStep(a, acts[0], m, true) && EagerRun(m, acts[1..], b, failures - 1))
  }

  /** Copy-on-write refines eager copying: whatever forks, faults, writes and exits happen, and however the
      page allocator answers, every process sees what it would see if fork had copied all pages; as many steps
      fail as requests were turned down. */
  lemma {:induction false} RunRefines(pick: Allocator, s: State, acts: seq<Action>)
    requires Inv(s) && Legal(pick, s, acts)
    ensures var t := Final(pick, s, acts);
            && Inv(t) && t.refused >= s.refused && EagerRun(Look(s), acts, Look(t), t.refused - s.refused)
    decreases |acts|
  {
    hide Inv, Look, EagerStep, Apply;
    if acts != [] {
      StepRefines(pick, s, acts[0]);
      var s1 := Apply(pick, s, acts[0]);
      RunRefines(pick, s1, acts[1..]);
      var t := Final(pick, s, acts);
      assert t == Final(pick, s1, acts[1..]);
      if s1.refused > s.refused {
        assert EagerStep(Look(s), acts[0], Look(s1), true);
        assert EagerRun(Look(s1), acts[1..], Look(t), t.refused - s.refused - 1);
      } else {
        assert EagerStep(Look(s), acts[0], Look(s1), false);
      }
    }
  }

  /** At every point of every run: p_ref counts the entries of a mapped frame, no free frame is mapped, and a
      writable private mapping is the only mapping of its frame. */
  lemma RunInvariants(pick: Allocator, s: State, acts: seq<Action>, k: Key)
    requires Inv(s) && Legal(pick, s, acts)
    ensures var t := Final(pick, s, acts);
            k in t.pt ==>
              var f := t.pt[k].frame;
              && f in t.refs && t.refs[f] == Uses(t.pt, t.tables, f) > 0 && f !in t.free
              && (t.pt[k].w && !t.pt[k].share ==> Users(t.pt, f) == {k} && t.refs[f] == 1)
  {
    hide Inv, Look, Apply;
    RunRefines(pick, s, acts);
    if k in Final(pick, s, acts).pt {
      CountAt(Final(pick, s, acts), k);
    }
  }

  lemma CountAt(t: State, k: Key)
    requires Inv(t) && k in t.pt
    ensures var f := t.pt[k].frame;
            && f in t.refs && t.refs[f] == Uses(t.pt, t.tables, f) > 0 && f !in t.free
            && (t.pt[k].w && !t.pt[k].share ==> Users(t.pt, f) == {k} && t.refs[f] == 1)
  {
    var f := t.pt[k].frame;
    assert f in t.refs && t.refs[f] == Uses(t.pt, t.tables, f) > 0 && f !in t.free by {
      hide Uses;
      Named(t.pt, t.tables, f);
    }
    if t.pt[k].w && !t.pt[k].share {
      OnlyUser(t.pt, k);
      assert Holders(t.tables, f) == {} by {
        hide Counted, Sharing;
      }
    }
    hide Counted, Sharing, Tabled;
  }

  lemma OnlyUser(pt: map<Key, Pte>, k: Key)
    requires Sharing(pt) && k in pt && pt[k].w && !pt[k].share
    ensures Users(pt, pt[k].frame) == {k}
  {
  }
}
