/** The page store and the in-memory store, side by side: the flash layout keeps what a plain table keeps. */
module StoreAgreement {
  import opened Bytes
  import MemStore
  import PageStore
  import PageRules
  import PageRun

  datatype Step =
    | Begin
    | Write(buf: seq<byte>)
    | End(digest: Digest)
    | Abort
    | Drop(digest: Digest)
    | Fetch(digest: Digest)
    | Restart

  /** What both hold, and the bytes both have staged. */
  datatype Table = Table(held: map<Digest, seq<byte>>, staged: Option<seq<byte>>)

  /** The two hold the same blobs and have the same bytes staged. */
  ghost predicate Same(p: PageStore.PageStore, m: MemStore.MemStore)
    reads p, p.refs, p.adopted, m
  {
    && p.Valid() && m.Valid() && p.Contents() == m.Contents()
    && p.active == m.staged.Some?
    && (p.active ==> p.intact && p.staged == m.staged.value)
  }

  ghost function TableOf(m: MemStore.MemStore): Table
    reads m
  {
    Table(m.Contents(), m.staged)
  }

  /**
   * A step on a plain table, which both accept or both refuse. A stage is ended only when it has bytes, as the registry
   * does.
   */
  ghost predicate Applied(s: Step, a: Table, b: Table, refused: bool) {
    match s
    case Begin => b == if a.staged.None? then a.(staged := Some([])) else a
    case Write(buf) => b == if a.staged.None? then a else a.(staged := Some(a.staged.value + buf))
    case End(d) =>
      if a.staged.None? || a.staged.value == [] then b == a
      else if refused then b == Table(a.held, None)
      else b == Table(if d in a.held then a.held else a.held[d := a.staged.value], None)
    case Abort => b == a.(staged := None)
    case Drop(d) => b == if refused then a else a.(held := a.held - {d})
    case Fetch(_) => b == a
    case Restart => b == a.(staged := None)
  }

  /** What kept a store from the step: a call that failed since, or nothing left to take. */
  ghost predicate Blocked(s: Step, p: PageStore.PageStore, m: MemStore.MemStore, faults: nat, calls: nat)
    reads p, p.refs, m
  {
    match s
    case Begin => m.calls > calls && m.fails(m.calls - 1)
    case Write(buf) =>
      || p.Faults(p.calls) > faults || PageRules.TakeStuck(p.refs[..], p.runs, p.g.scattered)
      || (m.calls > calls && m.fails(m.calls - 1))
      || (m.limit > 0 && m.staged.Some? && m.used + |m.staged.value| + |buf| > m.limit)
    case End(_) => p.Faults(p.calls) > faults || forall i | 0 <= i < |m.slots| :: m.slots[i].Some?
    case Drop(d) => p.Faults(p.calls) > faults || MemStore.MapsOf(m.slots, d) > 0
    case Fetch(_) => p.Faults(p.calls) > faults
    case _ => false
  }

  /** Where one may do what the other cannot: memory, flash, files or slots run out or fail. */
  ghost predicate MayDiffer(s: Step, a: Table) {
    match s
    case Begin => a.staged.None?
    case Write(_) => a.staged.Some?
    case End(d) => a.staged.Some? && a.staged.value != [] && d !in a.held
    case Abort => false
    case Drop(d) => d in a.held
    case Fetch(d) => d in a.held
    case Restart => false
  }

  lemma {:induction false} FilesHeld(p: PageStore.PageStore)
    requires p.Valid()
    ensures forall d: Digest :: d in p.Contents() <==> d in p.files
  {
    hide p.g.Contents;
    p.ContentsKeys();
  }

  /** A reset: the page store rebuilds its map from the files it finds, and the table only loses its stage. */
  method Restart(p: PageStore.PageStore, m: MemStore.MemStore)
    requires Same(p, m)
    modifies p, p.refs, p.adopted, m
    ensures Same(p, m) && TableOf(m) == old(TableOf(m)).(staged := None)
    ensures p.calls == old(p.calls) && m.calls == old(m.calls)
  {
    hide p.g.Contents, MemStore.ContentsOf, PageRules.AgreeUpTo255,
      PageRules.Agree, PageRules.Countable;
    PageRun.ValidIsCountable(p);
    var order := PageRun.ListDir(p.files);
    p.Init(order);
    if m.staged.Some? {
      m.StageAbort();
    }
  }

  /** A step of a stage on both. */
  method BothStage(p: PageStore.PageStore, m: MemStore.MemStore, s: Step) returns (agree: bool, refused: bool)
    requires Same(p, m) && (s.Begin? || s.Write? || s.End?)
    modifies p, p.refs, p.adopted, m
    ensures p.Valid() && p.Faults(old(p.calls)) <= p.Faults(p.calls) && old(m.calls) <= m.calls
    ensures agree ==> Same(p, m) && Applied(s, old(TableOf(m)), TableOf(m), refused)
    ensures agree && refused && !(s.Drop? && s.digest !in old(TableOf(m)).held) ==>
              MayDiffer(s, old(TableOf(m))) && p.Faults(old(p.calls)) < p.Faults(p.calls)
    ensures !agree ==> MayDiffer(s, old(TableOf(m))) && Blocked(s, p, m, p.Faults(old(p.calls)), old(m.calls))
  {
    hide p.Valid, p.g.Contents, MemStore.ContentsOf, MemStore.MapsOf, p.Faults, PageRules.TakeStuck;
    agree, refused := true, false;
    match s
    case Begin =>
      if m.staged.None? {
        var a := p.StageBegin();
        var b := m.StageBegin();
        agree := a == b;
      }
    case Write(buf) =>
      if m.staged.Some? {
        var a := p.StageWrite(buf);
        var b := m.StageWrite(buf);
        agree := a && b;
      }
    case End(d) =>
      if m.staged.Some? && m.staged.value != [] {
        FilesHeld(p);
        var a := p.StageEnd(d, |m.staged.value|);
        var b := m.StageEnd(d);
        agree, refused := a.Done? == b.Done?, !b.Done?;
      }
  }

  /** One step on both: they agree wherever neither can run out or fail, and then hold what the table does. */
  method Both(p: PageStore.PageStore, m: MemStore.MemStore, s: Step) returns (agree: bool, refused: bool)
    requires Same(p, m)
    modifies p, p.refs, p.adopted, m
    ensures p.Valid() && p.Faults(old(p.calls)) <= p.Faults(p.calls) && old(m.calls) <= m.calls
    ensures agree ==> Same(p, m) && Applied(s, old(TableOf(m)), TableOf(m), refused)
    ensures agree && refused && !(s.Drop? && s.digest !in old(TableOf(m)).held) ==>
              MayDiffer(s, old(TableOf(m))) && p.Faults(old(p.calls)) < p.Faults(p.calls)
    ensures !agree ==> MayDiffer(s, old(TableOf(m))) && Blocked(s, p, m, p.Faults(old(p.calls)), old(m.calls))
  {
    hide p.Valid, p.g.Contents, MemStore.ContentsOf, MemStore.MapsOf, p.Faults, PageRules.TakeStuck;
    agree, refused := true, false;
    match s
    case Begin =>
      agree, refused := BothStage(p, m, s);
    case Write(_) =>
      agree, refused := BothStage(p, m, s);
    case End(_) =>
      agree, refused := BothStage(p, m, s);
    case Abort =>
      if m.staged.Some? {
        p.StageAbort();
        m.StageAbort();
      }
    case Drop(d) =>
      var a := p.BlobDrop(d);
      var b := m.BlobDrop(d);
      agree, refused := a.Done? == b.Done?, !b.Done?;
    case Fetch(d) =>
      var a, failed := p.BlobMap(d);
      var b := m.BlobMap(d);
      assert !failed ==> a == b;
      agree := !failed;
      if b.Some? {
        var k := m.Find(d);
        m.BlobUnmap(k);
      }
    case Restart =>
      Restart(p, m);
  }

  /** A run on both, resets included: step by step they hold what a plain table holds, byte for byte, up to the first
      step that one could do and the other not. */
  method Lockstep(p: PageStore.PageStore, m: MemStore.MemStore, steps: seq<Step>)
    returns (n: nat, agree: bool, refused: seq<bool>, ghost trace: seq<Table>)
    requires Same(p, m)
    modifies p, p.refs, p.adopted, m
    ensures n <= |steps| && |trace| == n + 1 && trace[0] == old(TableOf(m))
    ensures |refused| == n && forall i | 0 <= i < n :: Applied(steps[i], trace[i], trace[i + 1], refused[i])
    ensures p.Faults(p.calls) == p.Faults(old(p.calls)) ==>
              forall i | 0 <= i < n && refused[i] :: steps[i].Drop? && steps[i].digest !in trace[i].held
    ensures agree ==> n == |steps| && Same(p, m) && trace[n] == TableOf(m)
    ensures !agree ==>
              && n < |steps| && MayDiffer(steps[n], trace[n])
              && p.Valid() && Blocked(steps[n], p, m, p.Faults(old(p.calls)), old(m.calls))
  {
    hide Same, Applied, MayDiffer, TableOf, p.Valid, p.Faults;
    n, agree, refused, trace := 0, true, [], [TableOf(m)];
    while n < |steps| && agree
      invariant n <= |steps| && |trace| == n + 1 && trace[0] == old(TableOf(m))
      invariant |refused| == n && forall i | 0 <= i < n :: Applied(steps[i], trace[i], trace[i + 1], refused[i])
      invariant p.Faults(p.calls) == p.Faults(old(p.calls)) ==>
                  forall i | 0 <= i < n && refused[i] :: steps[i].Drop? && steps[i].digest !in trace[i].held
      invariant p.Faults(old(p.calls)) <= p.Faults(p.calls) && old(m.calls) <= m.calls
      invariant agree ==> Same(p, m) && trace[n] == TableOf(m)
      invariant !agree ==>
                  && n < |steps| && MayDiffer(steps[n], trace[n])
                  && p.Valid() && Blocked(steps[n], p, m, p.Faults(old(p.calls)), old(m.calls))
      decreases |steps| - n, agree
    {
      var no;
      agree, no := Both(p, m, steps[n]);
      if agree {
        trace, refused := trace + [TableOf(m)], refused + [no];
        n := n + 1;
      }
    }
  }
}
