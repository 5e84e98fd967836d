/** Page tables and page reference counts as values: what kern/pmap.c, kern/sysfunc.c, kern/trap.c and
    kern/proc.c do to them, step by step. */
module PageState {

  type Frame = nat
  type Content = seq<int>

  function Zeros(): Content {
    seq(4096, _ => 0)
  }

  /** One directory entry covers so many pages; user pages lie below UTOP; fork starts with the directory entry
      of UTEXT; PFTEMP is the scratch page of the fault handler. */
  const PDENTRIES: nat := 1024
  const UTOP_PAGE: nat := 0xee800
  const FORK_START: nat := 0x8000
  const PFTEMP: nat := 0x8047

  /** A page of a process: the pid stands for its page directory. */
  datatype Key = At(pid: nat, vpn: nat)

  datatype Pte = Pte(frame: Frame, w: bool, cow: bool, share: bool)

  /** Which frame the page allocator hands out, for the n-th request and the free frames at that time; an
      answer that is not free stands for a failure. */
  type Allocator = (nat, set<Frame>) -> Frame

  datatype State = State(
    pt: map<Key, Pte>,          // the present entries
    tables: map<Key, Frame>,    // the present directory entries: At(pid, directory index)
    refs: map<Frame, int>,      // p_ref
    mem: map<Frame, Content>,
    free: set<Frame>,
    requests: nat,              // how many pages were asked for, and how many of these requests were turned down
    refused: nat)

  datatype Outcome = Done(s: State) | Failed(s: State)

  function TableOf(k: Key): Key {
    At(k.pid, k.vpn / PDENTRIES)
  }

  /** page_alloc with ALLOC_ZERO. */
  function PageAlloc(pick: Allocator, s: State): (Outcome, Frame) {
    var f := pick(s.requests, s.free);
    var s1 := s.(requests := s.requests + 1);
    if f in s.free && f in s.refs then
      (Done(s1.(free := s1.free - {f}, refs := s1.refs[f := 0], mem := s1.mem[f := Zeros()])), f)
    else (Failed(s1.(refused := s1.refused + 1)), f)
  }

  /** page_decrease_ref. */
  function DecreaseRef(s: State, f: Frame): State {
    var r := RefOf(s, f) - 1;
    s.(refs := s.refs[f := r], free := if r == 0 then s.free + {f} else s.free)
  }

  function RefOf(s: State, f: Frame): int {
    if f in s.refs then s.refs[f] else 0
  }

  /** pgdir_walk with create: afterwards the table that covers k is there. */
  function Walk(pick: Allocator, s: State, k: Key): Outcome {
    if TableOf(k) in s.tables then Done(s)
    else
      var (o, f) := PageAlloc(pick, s);
      if o.Failed? then o
      else Done(o.s.(tables := o.s.tables[TableOf(k) := f], refs := o.s.refs[f := 1]))
  }

  /** page_remove.  It does not look at PTE_P: the empty entry of an existing table names frame 0. */
  function PageRemove(s: State, k: Key): State {
    if TableOf(k) !in s.tables then s
    else
      var f := if k in s.pt then s.pt[k].frame else 0;
      DecreaseRef(s, f).(pt := s.pt - {k})
  }

  /** page_insert. */
  function PageInsert(pick: Allocator, s: State, k: Key, e: Pte): Outcome {
    var o := Walk(pick, s, k);
    if o.Failed? then o
    else if k in o.s.pt && o.s.pt[k].frame == e.frame then Done(o.s.(pt := o.s.pt[k := e]))
    else
      var s1 := if k in o.s.pt then PageRemove(o.s, k) else o.s;
      Done(s1.(pt := s1.pt[k := e], refs := s1.refs[e.frame := RefOf(s1, e.frame) + 1]))
  }

  /** Some request was turned down on the way from s, once, or the call has done its work. */
  ghost predicate FailsOnRefusal(s: State, o: Outcome) {
    o.s.refused == s.refused + if o.Done? then 0 else 1
  }

  lemma InsertFails(pick: Allocator, s: State, k: Key, e: Pte)
    ensures PageInsert(pick, s, k, e).Failed? <==> TableOf(k) !in s.tables && PageAlloc(pick, s).0.Failed?
  {
  }

  // ---------------------------------------------------------------- reference counts

  ghost function Users(pt: map<Key, Pte>, f: Frame): set<Key> {
    set k | k in pt && pt[k].frame == f
  }

  ghost function Holders(tables: map<Key, Frame>, f: Frame): set<Key> {
    set k | k in tables && tables[k] == f
  }

  /** How many present entries, of page tables and page directories, name f. */
  ghost function Uses(pt: map<Key, Pte>, tables: map<Key, Frame>, f: Frame): nat {
    |Users(pt, f)| + |Holders(tables, f)|
  }

  /** p_ref counts the entries, and the free frames have none.  Frames in `held` were just allocated. */
  ghost predicate Counted(s: State, held: set<Frame>) {
    && 0 in s.refs
    && (forall k :: k in s.pt ==> s.pt[k].frame in s.refs)
    && (forall k :: k in s.tables ==> s.tables[k] in s.refs)
    && (forall f :: f in s.refs ==> f in s.mem)
    && (forall f :: f in s.refs && Uses(s.pt, s.tables, f) > 0 ==> s.refs[f] == Uses(s.pt, s.tables, f))
    && (forall f :: f in s.free ==> f in s.refs && s.refs[f] == 0 && Uses(s.pt, s.tables, f) == 0)
    && (forall f :: f in held ==> f in s.refs && s.refs[f] == 0 && Uses(s.pt, s.tables, f) == 0 && f !in s.free)
  }

  /** Every entry has its table, and a table's frame is in no other use. */
  ghost predicate TabledMaps(pt: map<Key, Pte>, ts: map<Key, Frame>) {
    && (forall k :: k in pt ==> TableOf(k) in ts && k.vpn < UTOP_PAGE)
    && (forall k, t :: k in pt && t in ts ==> pt[k].frame != ts[t])
    && (forall t, u :: t in ts && u in ts && t != u ==> ts[t] != ts[u])
  }

  ghost predicate Tabled(s: State) {
    TabledMaps(s.pt, s.tables)
  }

  lemma TabledPut(pt: map<Key, Pte>, ts: map<Key, Frame>, k: Key, e: Pte)
    requires TabledMaps(pt, ts) && TableOf(k) in ts && k.vpn < UTOP_PAGE && forall t :: t in ts ==> ts[t] != e.frame
    ensures TabledMaps(pt[k := e], ts)
  {
  }

  lemma TabledGrow(pt: map<Key, Pte>, ts: map<Key, Frame>, t: Key, g: Frame)
    requires TabledMaps(pt, ts) && (forall k :: k in pt ==> pt[k].frame != g) && (forall u :: u in ts ==> ts[u] != g)
    ensures TabledMaps(pt, ts[t := g])
  {
  }

  lemma TabledDrop(pt: map<Key, Pte>, ts: map<Key, Frame>, k: Key)
    requires TabledMaps(pt, ts)
    ensures TabledMaps(pt - {k}, ts)
  {
  }

  lemma TabledShrink(pt: map<Key, Pte>, ts: map<Key, Frame>, t: Key)
    requires TabledMaps(pt, ts) && forall k :: k in pt ==> TableOf(k) != t
    ensures TabledMaps(pt, ts - {t})
  {
  }

  lemma UsesAdd(pt: map<Key, Pte>, ts: map<Key, Frame>, k: Key, e: Pte)
    requires k !in pt
    ensures forall f :: Uses(pt[k := e], ts, f) == Uses(pt, ts, f) + if e.frame == f then 1 else 0
  {
    forall f ensures Uses(pt[k := e], ts, f) == Uses(pt, ts, f) + if e.frame == f then 1 else 0 {
      assert Users(pt[k := e], f) == if e.frame == f then Users(pt, f) + {k} else Users(pt, f);
    }
  }

  lemma UsesRemove(pt: map<Key, Pte>, ts: map<Key, Frame>, k: Key)
    requires k in pt
    ensures forall f :: Uses(pt - {k}, ts, f) == Uses(pt, ts, f) - if pt[k].frame == f then 1 else 0
  {
    forall f ensures Uses(pt - {k}, ts, f) == Uses(pt, ts, f) - if pt[k].frame == f then 1 else 0 {
      assert Users(pt - {k}, f) == if pt[k].frame == f then Users(pt, f) - {k} else Users(pt, f);
    }
  }

  lemma UsesReplace(pt: map<Key, Pte>, ts: map<Key, Frame>, k: Key, e: Pte)
    requires k in pt && pt[k].frame == e.frame
    ensures forall f :: Uses(pt[k := e], ts, f) == Uses(pt, ts, f)
  {
    forall f ensures Uses(pt[k := e], ts, f) == Uses(pt, ts, f) {
      assert Users(pt[k := e], f) == Users(pt, f);
    }
  }

  lemma UsesAddTable(pt: map<Key, Pte>, ts: map<Key, Frame>, t: Key, g: Frame)
    requires t !in ts
    ensures forall f :: Uses(pt, ts[t := g], f) == Uses(pt, ts, f) + if g == f then 1 else 0
  {
    forall f ensures Uses(pt, ts[t := g], f) == Uses(pt, ts, f) + if g == f then 1 else 0 {
      assert Holders(ts[t := g], f) == if g == f then Holders(ts, f) + {t} else Holders(ts, f);
    }
  }

  lemma UsesRemoveTable(pt: map<Key, Pte>, ts: map<Key, Frame>, t: Key)
    requires t in ts
    ensures forall f :: Uses(pt, ts - {t}, f) == Uses(pt, ts, f) - if ts[t] == f then 1 else 0
  {
    forall f ensures Uses(pt, ts - {t}, f) == Uses(pt, ts, f) - if ts[t] == f then 1 else 0 {
      assert Holders(ts - {t}, f) == if ts[t] == f then Holders(ts, f) - {t} else Holders(ts, f);
    }
  }

  /** A frame without uses is named nowhere, and one that is named has uses. */
  lemma Named(pt: map<Key, Pte>, ts: map<Key, Frame>, f: Frame)
    ensures Uses(pt, ts, f) == 0 <==> (forall k :: k in pt ==> pt[k].frame != f) && (forall t :: t in ts ==> ts[t] != f)
  {
    if forall k :: k in pt ==> pt[k].frame != f {
      assert Users(pt, f) == {};
    } else {
      var k :| k in pt && pt[k].frame == f;
      assert k in Users(pt, f);
    }
    if forall t :: t in ts ==> ts[t] != f {
      assert Holders(ts, f) == {};
    } else {
      var t :| t in ts && ts[t] == f;
      assert t in Holders(ts, f);
    }
  }

  lemma AllocKeeps(pick: Allocator, s: State, held: set<Frame>)
    requires Counted(s, held) && Tabled(s)
    ensures var (o, f) := PageAlloc(pick, s);
            && Tabled(o.s) && o.s.pt == s.pt && o.s.tables == s.tables && o.s.refs.Keys == s.refs.Keys
            && FailsOnRefusal(s, o) && (o.Done? <==> pick(s.requests, s.free) in s.free)
            && (o.Failed? ==> Counted(o.s, held) && o.s.mem == s.mem)
            && (o.Done? ==> Counted(o.s, held + {f}) && f !in held && f in s.free && o.s.mem == s.mem[f := Zeros()]
                            && (forall k :: k in s.pt ==> s.pt[k].frame != f)
                            && (forall t :: t in s.tables ==> s.tables[t] != f))
  {
    hide Uses;
    var (o, f) := PageAlloc(pick, s);
    if o.Done? {
      Named(s.pt, s.tables, f);
    }
  }

  lemma TableIn(s: State, k: Key)
    requires Tabled(s) && k in s.pt
    ensures TableOf(k) in s.tables
  {
  }

  /** The count follows a removed entry; a frame becomes free exactly when its last entry goes. */
  lemma RemoveKeeps(s: State, k: Key, held: set<Frame>)
    requires Counted(s, held) && Tabled(s) && k in s.pt
    ensures var s' := PageRemove(s, k);
            && Counted(s', held) && Tabled(s') && s'.pt == s.pt - {k} && s'.tables == s.tables && s'.mem == s.mem
            && s'.refs.Keys == s.refs.Keys && s'.requests == s.requests && s'.refused == s.refused
            && (forall f :: f in s'.free <==> f in s.free || (f == s.pt[k].frame && Uses(s'.pt, s'.tables, f) == 0))
  {
    hide Uses, TabledMaps;
    assert TableOf(k) in s.tables by {
      TableIn(s, k);
    }
    TabledDrop(s.pt, s.tables, k);
    UsesRemove(s.pt, s.tables, k);
    Named(s.pt, s.tables, s.pt[k].frame);
  }

  /** As written, without the test of PTE_P: the counts change as the entries do exactly when the address is
      mapped or has no page table.  Otherwise frame 0 loses a reference that it may not have. */
  lemma RemoveAsWritten(s: State, k: Key, held: set<Frame>)
    requires Counted(s, held) && Tabled(s)
    ensures var s' := PageRemove(s, k);
            (forall f :: f in s.refs ==> s'.refs[f] - s.refs[f] == Uses(s'.pt, s'.tables, f) - Uses(s.pt, s.tables, f))
            <==> k in s.pt || TableOf(k) !in s.tables
  {
    hide Uses;
    if k in s.pt {
      UsesRemove(s.pt, s.tables, k);
    } else {
      assert s.pt - {k} == s.pt;
      assert Uses(s.pt - {k}, s.tables, 0) == Uses(s.pt, s.tables, 0);
    }
  }

  /** A frame just allocated becomes a page table. */
  lemma TableCounted(s: State, t: Key, g: Frame, held: set<Frame>)
    requires Counted(s, held + {g}) && g !in held && t !in s.tables
    ensures Counted(s.(tables := s.tables[t := g], refs := s.refs[g := 1]), held)
  {
    hide Uses;
    UsesAddTable(s.pt, s.tables, t, g);
  }

  /** Clearing a free frame changes no contents that count. */
  lemma AllocContent(s: State, g: Frame, held: set<Frame>)
    requires g !in held && forall k :: k in s.pt ==> s.pt[k].frame != g
    ensures ContentKept(s, s.mem[g := Zeros()], held)
  {
  }

  lemma WalkKeeps(pick: Allocator, s: State, k: Key, held: set<Frame>)
    requires Counted(s, held) && Tabled(s)
    ensures var o := Walk(pick, s, k);
            && Counted(o.s, held) && Tabled(o.s) && o.s.pt == s.pt && o.s.refs.Keys == s.refs.Keys
            && FailsOnRefusal(s, o)
            && (o.Failed? ==> o.s.mem == s.mem && o.s.tables == s.tables && TableOf(k) !in s.tables)
            && (o.Done? ==> TableOf(k) in o.s.tables && (forall j :: j in s.tables ==> j in o.s.tables))
            && ContentKept(s, o.s.mem, held) && (TableOf(k) in s.tables ==> o.s.mem == s.mem)
  {
    hide Uses, PageAlloc, TabledMaps;
    if TableOf(k) !in s.tables {
      AllocKeeps(pick, s, held);
      var (o, g) := PageAlloc(pick, s);
      if o.Done? {
        TabledGrow(s.pt, s.tables, TableOf(k), g);
        TableCounted(o.s, TableOf(k), g, held);
        AllocContent(s, g, held);
      }
      hide Counted;
    }
  }

  /** The mapped and the held frames have their contents. */
  ghost predicate ContentKept(s: State, mem: map<Frame, Content>, held: set<Frame>) {
    && (forall j :: j in s.pt && s.pt[j].frame in s.mem ==>
          s.pt[j].frame in mem && mem[s.pt[j].frame] == s.mem[s.pt[j].frame])
    && (forall f :: f in held && f in s.mem ==> f in mem && mem[f] == s.mem[f])
  }

  lemma PutCounted(s: State, k: Key, e: Pte, held: set<Frame>)
    requires Counted(s, held) && k !in s.pt && e.frame in s.refs && e.frame !in s.free
    requires e.frame in held || Uses(s.pt, s.tables, e.frame) > 0
    ensures Counted(s.(pt := s.pt[k := e], refs := s.refs[e.frame := s.refs[e.frame] + 1]), held - {e.frame})
  {
    hide Uses;
    UsesAdd(s.pt, s.tables, k, e);
  }

  lemma InsertEntry(s: State, k: Key, e: Pte, held: set<Frame>)
    requires Counted(s, held) && Tabled(s) && k.vpn < UTOP_PAGE && TableOf(k) in s.tables
    requires e.frame in held || exists j :: j in s.pt && s.pt[j].frame == e.frame
    ensures e.frame in s.refs
    ensures k in s.pt && s.pt[k].frame == e.frame ==>
              Counted(s.(pt := s.pt[k := e]), held - {e.frame}) && Tabled(s.(pt := s.pt[k := e]))
    ensures !(k in s.pt && s.pt[k].frame == e.frame) ==>
              var s1 := if k in s.pt then PageRemove(s, k) else s;
              && s1.mem == s.mem && s1.refs.Keys == s.refs.Keys && s1.tables == s.tables && s1.refused == s.refused
              && s1.pt[k := e] == s.pt[k := e]
              && var s2 := s1.(pt := s1.pt[k := e], refs := s1.refs[e.frame := s1.refs[e.frame] + 1]);
              Counted(s2, held - {e.frame}) && Tabled(s2)
  {
    hide Uses, PageRemove, TabledMaps;
    FrameApart(s, e.frame, held);
    TabledPut(s.pt, s.tables, k, e);
    Named(s.pt, s.tables, e.frame);
    if k in s.pt && s.pt[k].frame == e.frame {
      UsesReplace(s.pt, s.tables, k, e);
    } else {
      var s1 := if k in s.pt then PageRemove(s, k) else s;
      if k in s.pt {
        RemoveKeeps(s, k, held);
        UsesRemove(s.pt, s.tables, k);
      }
      hide Counted;
      InsertPut(s, s1, k, e, held);
    }
  }

  lemma InsertPut(s: State, s1: State, k: Key, e: Pte, held: set<Frame>)
    requires Counted(s1, held) && k !in s1.pt && e.frame in s.refs && s1.refs.Keys == s.refs.Keys
    requires e.frame in held || Uses(s1.pt, s1.tables, e.frame) > 0
    ensures Counted(s1.(pt := s1.pt[k := e], refs := s1.refs[e.frame := s1.refs[e.frame] + 1]), held - {e.frame})
  {
    hide Uses;
    PutCounted(s1, k, e, held);
  }

  lemma FrameApart(s: State, f: Frame, held: set<Frame>)
    requires Counted(s, held) && Tabled(s) && (f in held || exists j :: j in s.pt && s.pt[j].frame == f)
    ensures f in s.refs && forall t :: t in s.tables ==> s.tables[t] != f
  {
    hide Uses;
    Named(s.pt, s.tables, f);
  }

  /** page_insert of a frame that is mapped somewhere or was just allocated. */
  lemma InsertKeeps(pick: Allocator, s: State, k: Key, e: Pte, held: set<Frame>)
    requires Counted(s, held) && Tabled(s) && k.vpn < UTOP_PAGE
    requires e.frame in held || exists j :: j in s.pt && s.pt[j].frame == e.frame
    ensures e.frame in s.refs
    ensures var o := PageInsert(pick, s, k, e);
            && Tabled(o.s) && o.s.refs.Keys == s.refs.Keys && FailsOnRefusal(s, o)
            && (o.Failed? ==> Counted(o.s, held) && o.s.pt == s.pt && TableOf(k) !in s.tables)
            && (o.Done? ==> Counted(o.s, held - {e.frame}) && o.s.pt == s.pt[k := e] && TableOf(k) in o.s.tables)
            && (forall j :: j in s.tables ==> j in o.s.tables)
            && ContentKept(s, o.s.mem, held) && (TableOf(k) in s.tables ==> o.s.mem == s.mem)
  {
    hide Uses, Walk, PageRemove, Counted, TabledMaps, TableOf, ContentKept;
    FrameApart(s, e.frame, held);
    WalkKeeps(pick, s, k, held);
    var o := Walk(pick, s, k);
    if o.Done? {
      InsertEntry(o.s, k, e, held);
    }
  }
}
