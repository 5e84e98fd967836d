/** How many free pages a fork and a write fault need when the allocator hands out a page as long as one is
    free. */
module CowRoom {
  import opened PageState
  import opened CowModel

  /** The allocator turns nobody down while a page is free. */
  ghost predicate Willing(pick: Allocator) {
    forall n: nat, free: set<Frame> :: free != {} ==> pick(n, free) in free
  }

  lemma AllocRoom(pick: Allocator, s: State, held: set<Frame>)
    requires Counted(s, held) && Willing(pick)
    ensures var o := PageAlloc(pick, s).0;
            && (o.Done? <==> s.free != {})
            && (o.Done? ==> |o.s.free| == |s.free| - 1) && (o.Failed? ==> o.s.free == s.free)
            && o.s.pt == s.pt && o.s.tables == s.tables
  {
    hide Uses;
  }

  /** A new mapping takes a page exactly for a page table that its address lacks. */
  lemma MapRoom(pick: Allocator, s: State, src: Key, dst: Key, w: bool, cow: bool, share: bool)
    requires Sound(s) && Willing(pick) && src in s.pt && dst !in s.pt && dst.vpn < UTOP_PAGE && (w ==> s.pt[src].w)
    ensures var o := UserPageMap(pick, s, src, dst, w, cow, share); var there := TableOf(dst) in s.tables;
            && (o.Done? <==> there || s.free != {})
            && (o.Done? ==> |o.s.free| == (if there then |s.free| else |s.free| - 1)
                            && o.s.tables.Keys == s.tables.Keys + {TableOf(dst)}
                            && o.s.pt.Keys == s.pt.Keys + {dst})
  {
    FieldsOf(s);
    AllocRoom(pick, s, {});
    hide Sound, PageAlloc, Willing, TableOf;
  }

  /** Changing the entry of a mapped page takes none. */
  lemma RemapRoom(pick: Allocator, s: State, k: Key, cow: bool)
    requires Sound(s) && k in s.pt
    ensures var o := UserPageMap(pick, s, k, k, false, cow, false);
            o.Done? && o.s.free == s.free && o.s.tables == s.tables && o.s.pt.Keys == s.pt.Keys
  {
    FieldsOf(s);
    hide Sound, TableOf;
  }

  lemma DupRoom(pick: Allocator, s: State, p: nat, c: nat, v: nat)
    requires Inv(s) && Willing(pick) && At(p, v) in s.pt && At(c, v) !in s.pt
    ensures var o := DupPage(pick, s, p, c, v); var t := TableOf(At(c, v));
            && (o.Done? <==> t in s.tables || s.free != {})
            && (o.Done? ==> |o.s.free| == (if t in s.tables then |s.free| else |s.free| - 1)
                            && o.s.tables.Keys == s.tables.Keys + {t} && o.s.pt.Keys == s.pt.Keys + {At(c, v)})
  {
    FieldsOf(s);
    SharedWritable(s.pt, At(p, v));
    hide Counted, Tabled, UserPageMap, TableOf;
    var e := s.pt[At(p, v)];
    var n := DupEntry(e);
    MapRoom(pick, s, At(p, v), At(c, v), n.w, n.cow, n.share);
    MapKeeps(pick, s, At(p, v), At(c, v), n.w, n.cow, n.share);
    var o := UserPageMap(pick, s, At(p, v), At(c, v), n.w, n.cow, n.share);
    if o.Done? && !e.share && n.cow {
      RemapRoom(pick, o.s, At(p, v), true);
    }
  }

  /** The page tables that the child lacks for the parent's pages from v on. */
  ghost function NewTables(s: State, p: nat, c: nat, v: nat): set<Key> {
    set k | k in s.pt && k.pid == p && v <= k.vpn && TableOf(At(c, k.vpn)) !in s.tables :: TableOf(At(c, k.vpn))
  }

  lemma NewTablesNext(s: State, s': State, p: nat, c: nat, v: nat)
    requires p != c && s'.pt.Keys == (if At(p, v) in s.pt then s.pt.Keys + {At(c, v)} else s.pt.Keys)
    requires s'.tables.Keys == (if At(p, v) in s.pt then s.tables.Keys + {TableOf(At(c, v))} else s.tables.Keys)
    ensures NewTables(s', p, c, v + 1)
            == if At(p, v) in s.pt then NewTables(s, p, c, v) - {TableOf(At(c, v))} else NewTables(s, p, c, v)
    ensures At(p, v) in s.pt && TableOf(At(c, v)) !in s.tables ==> TableOf(At(c, v)) in NewTables(s, p, c, v)
    ensures TableOf(At(c, v)) in s.tables ==> TableOf(At(c, v)) !in NewTables(s, p, c, v)
  {
    hide TableOf;
    forall k
      ensures k in s'.pt && k.pid == p && v + 1 <= k.vpn
              <==> k in s.pt && k.pid == p && v <= k.vpn && k != At(p, v)
    {
    }
  }

  /** One page: a page table that is made takes a free page and is no longer lacking. */
  lemma ForkTurn(pick: Allocator, s: State, p: nat, c: nat, v: nat)
    requires Inv(s) && Willing(pick) && p != c && At(p, v) in s.pt && At(c, v) !in s.pt
    ensures var o := DupPage(pick, s, p, c, v);
            if o.Done? then
              && |NewTables(s, p, c, v)| - |s.free| == |NewTables(o.s, p, c, v + 1)| - |o.s.free|
              && o.s.pt.Keys == s.pt.Keys + {At(c, v)}
            else s.free == {} && NewTables(s, p, c, v) != {}
  {
    hide Inv, DupPage, Willing, NewTables, TableOf;
    DupRoom(pick, s, p, c, v);
    var o := DupPage(pick, s, p, c, v);
    if o.Done? {
      NewTablesNext(s, o.s, p, c, v);
    } else {
      InNewTables(s, p, c, v);
    }
  }

  /** A fork into a process without pages succeeds exactly when there are as many free pages as page tables
      that the child lacks. */
  lemma {:induction false} ForkRoom(pick: Allocator, s: State, p: nat, c: nat, v: nat)
    requires Inv(s) && Willing(pick) && p != c && forall k :: k in s.pt && k.pid == c ==> k.vpn < v
    ensures CowFork(pick, s, p, c, v).Done? <==> |NewTables(s, p, c, v)| <= |s.free|
    decreases UTOP_PAGE - v
  {
    hide Inv, DupPage, Willing, NewTables, TableOf;
    PagesBelow(s);
    if v >= UTOP_PAGE {
      NothingLeft(s, p, c, v);
    } else if At(p, v) in s.pt {
      DupKeeps(pick, s, p, c, v);
      ForkTurn(pick, s, p, c, v);
      var o := DupPage(pick, s, p, c, v);
      if o.Done? {
        ForkRoom(pick, o.s, p, c, v + 1);
      } else {
        NotEmpty(NewTables(s, p, c, v));
      }
    } else {
      NewTablesNext(s, s, p, c, v);
      ForkRoom(pick, s, p, c, v + 1);
    }
  }

  lemma NotEmpty(t: set<Key>)
    requires t != {}
    ensures |t| > 0
  {
  }

  lemma NothingLeft(s: State, p: nat, c: nat, v: nat)
    requires forall k :: k in s.pt ==> k.vpn < v
    ensures NewTables(s, p, c, v) == {}
  {
  }

  lemma InNewTables(s: State, p: nat, c: nat, v: nat)
    requires At(p, v) in s.pt && TableOf(At(c, v)) !in s.tables
    ensures TableOf(At(c, v)) in NewTables(s, p, c, v)
  {
  }

  /** Pages that a fresh page at k takes: one, and one for its table. */
  function PagesFor(s: State, k: Key): nat {
    if TableOf(k) in s.tables then 1 else 2
  }

  lemma PageRoom(pick: Allocator, s: State, k: Key)
    requires Inv(s) && Willing(pick)
    ensures PageAlloc(pick, s).0.Done? && !Loses(pick, s, k) <==> PagesFor(s, k) <= |s.free|
  {
    hide Sharing, TabledMaps, Willing, PageAlloc, TableOf;
    AllocRoom(pick, s, {});
    AllocKeeps(pick, s, {});
    var (o, f) := PageAlloc(pick, s);
    if o.Done? {
      AllocRoom(pick, o.s, {} + {f});
    }
  }

  /** A write fault of a copy-on-write page is handled exactly when a page is free for the copy, and one more
      when PFTEMP has no page table; one of an untouched heap page likewise. */
  lemma FaultRoom(pick: Allocator, s: State, p: nat, v: nat, heap: bool)
    requires Inv(s) && Willing(pick) && Enabled(s, Fault(p, v, heap))
    ensures var k := At(p, v);
            PageFault(pick, s, p, v, heap).Done? <==>
              if k in s.pt && s.pt[k].cow then PagesFor(s, At(p, PFTEMP)) <= |s.free|
              else heap ==> PagesFor(s, k) <= |s.free|
  {
    hide Inv, CowPgFault, LazyAlloc, Willing, Loses, PageAlloc, PagesFor;
    var k := At(p, v);
    SharedIsWritable(s, k);
    if k in s.pt && s.pt[k].cow {
      FaultKeeps(pick, s, p, v);
      PageRoom(pick, s, At(p, PFTEMP));
    } else if heap {
      LazyKeeps(pick, s, k);
      PageRoom(pick, s, k);
    }
  }
}
