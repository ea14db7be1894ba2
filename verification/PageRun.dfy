/** Whole runs of the page store, with a reset allowed after and inside every step. */
module PageRun {
  import opened Bytes
  import opened BlobRecord
  import opened FlashLayout
  import opened UnitScan
  import opened StageLayout
  import opened PageRules
  import opened PageStore

  datatype Step =
    | Begin
    | Write(buf: seq<byte>)
    | End(digest: Digest, len: nat)
    | Abort
    | Drop(digest: Digest)
    | Adopt(digest: Digest, offset: uint32, length: uint32)

  type Held = map<Digest, seq<byte>>

  /**
   * What the store holds, the bytes given to an open stage whose writes all succeeded, and what is on the flash; and
   * the unit map, whether a stage is open at all, and how many calls to the flash and the files have failed.
   */
  datatype Moment = Moment(held: Held, staged: Option<seq<byte>>, flash: seq<byte>, active: bool, refs: seq<byte>,
                           adopted: seq<bool>, runs: seq<Run>, faults: nat)

  /** How a step ended; a cut is a reset after it or inside it. */
  datatype Outcome = Did | Refused | Skipped | Cut

  /** What a step that is done leaves held: a store of whole blobs, where one is added whole or taken away. */
  ghost predicate Holds(step: Step, pre: Moment, held: Held) {
    match step
    case End(d, len) =>
      && pre.staged.Some?
      && if d in pre.held then held == pre.held
         else 0 < len == |pre.staged.value| && held == pre.held[d := pre.staged.value]
    case Drop(d) => d in pre.held && held == pre.held - {d}
    case Adopt(d, offset, length) =>
      && length > 0
      && if d in pre.held then held == pre.held
         else offset + length <= |pre.flash| && held == pre.held[d := pre.flash[offset..offset + length]]
    case _ => held == pre.held
  }

  /** What a step that is done leaves staged. */
  ghost predicate Stages(step: Step, pre: Moment, staged: Option<seq<byte>>) {
    match step
    case Begin => pre.staged.None? && staged == Some([])
    case Write(buf) => pre.staged.Some? && staged == Some(pre.staged.value + buf)
    case End(_, _) => staged.None?
    case Abort => staged.None?
    case Drop(_) => staged == pre.staged
    case Adopt(_, _, _) => staged == pre.staged
  }

  /** Why a step is refused though no call failed: a stage is open or is not, no unit is left for it, its length is not
      the one said, the blob is not there, or its bytes are not free to take. */
  ghost predicate Unable(g: Geometry, step: Step, pre: Moment, post: Moment)
    requires g.Ok()
  {
    match step
    case Begin => pre.active
    case Write(_) => pre.staged.None? || TakeStuck(post.refs, post.runs, g.scattered)
    case End(d, len) => pre.staged.None? || (d !in pre.held && (len == 0 || len != |pre.staged.value|))
    case Abort => false
    case Drop(d) => d !in pre.held
    case Adopt(d, offset, length) =>
      || length == 0
      || (d !in pre.held && |pre.refs| == |pre.adopted| == g.units
          && !Claimable(g, pre.refs, pre.adopted, Blob(d, length, 1, [Extent(offset, length)])))
  }

  /** One step of a store of whole blobs: done, refused with nothing changed but a stage that failed, left out, or cut
      and then as if it had been done or had not. It is refused only if a call failed or the step cannot be done. */
  ghost predicate Legal(g: Geometry, step: Step, outcome: Outcome, pre: Moment, post: Moment)
    requires g.Ok()
  {
    match outcome
    case Did => Holds(step, pre, post.held) && Stages(step, pre, post.staged)
    case Refused =>
      && !step.Abort? && post.held == pre.held
      && (if step.Write? || step.End? then post.staged.None? else post.staged == pre.staged)
      && (post.faults > pre.faults || Unable(g, step, pre, post))
    case Skipped =>
      && step.Adopt? && |pre.refs| == g.units && Crowded(g, pre.refs, Extent(step.offset, step.length)) && post == pre
    case Cut => post.staged.None? && (post.held == pre.held || Holds(step, pre, post.held))
  }

  ghost function MomentOf(s: PageStore, open: bool): Moment
    requires s.g.Ok() && s.g.Good(s.Now())
    reads s, s.refs, s.adopted
  {
    Moment(s.Contents(), if open then Some(s.staged) else None, Values(s.cells), s.active, s.refs[..], s.adopted[..],
           s.runs, s.Faults(s.calls))
  }

  lemma {:induction false} ValuesPart(cells: seq<Cell>, a: nat, b: nat)
    requires a <= b <= |cells|
    ensures |Values(cells)| == |cells| && Values(cells[a..b]) == Values(cells)[a..b]
  {
  }

  lemma {:induction false} ValidIsCountable(s: PageStore)
    requires s.Valid()
    ensures Countable(s.files, s.g)
  {
    hide Sound, Agree, Owners, RunHits, Intact, RunsOk;
    forall u | 0 <= u < s.g.units ensures Owners(RecordsOf(s.files), s.g.unit, u) <= 255 {
      AgreeAt(s.refs[..], s.adopted[..], RecordsOf(s.files), s.runs, s.g.unit, u);
    }
  }

  /** The names of a directory, in some order. */
  method ListDir(files: Files) returns (order: seq<Digest>)
    ensures forall d :: d in files <==> d in order
    ensures forall i, j | 0 <= i < j < |order| :: order[i] != order[j]
  {
    order := [];
    var left := files.Keys;
    while left != {}
      invariant left <= files.Keys
      invariant forall d :: d in files <==> d in left || d in order
      invariant forall d | d in order :: d !in left
      invariant forall i, j | 0 <= i < j < |order| :: order[i] != order[j]
      decreases |left|
    {
      var d :| d in left;
      order := order + [d];
      left := left - {d};
    }
  }

  /** A reset: the memory is gone, and the medium is one of those a cut could have left. */
  method Reset(s: PageStore, ghost files0: Files, ghost held0: Held, ghost files1: Files, ghost held1: Held)
    requires s.Shape() && s.seen != {}
    requires Countable(files0, s.g) && Countable(files1, s.g)
    requires forall m | m in s.seen :: s.g.Shows(m, files0, held0) || s.g.Shows(m, files1, held1)
    modifies s, s.refs, s.adopted
    ensures s.Valid() && !s.active
    ensures s.Contents() == held0 || s.Contents() == held1
  {
    hide Countable, Sound, AgreeUpTo255, RunsOk, Owners;
    hide s.g.Contents;
    var m :| m in s.seen;
    s.cells, s.files := m.cells, m.files;
    var order := ListDir(s.files);
    s.Init(order);
  }

  /** One step. `open` says a stage is open and no write to it has failed; its user ends or writes none other. */
  method Do(s: PageStore, step: Step, open: bool) returns (ok: bool, open': bool)
    requires s.Valid() && (open ==> s.active && s.intact)
    requires step.Adopt? ==> !Crowded(s.g, s.refs[..], Extent(step.offset, step.length))
    modifies s, s.refs, s.adopted
    ensures s.Valid() && (open' ==> s.active && s.intact)
    ensures Legal(s.g, step, if ok then Did else Refused, old(MomentOf(s, open)), MomentOf(s, open'))
    ensures forall m | m in s.seen ::
              m in old(s.seen) || s.g.Shows(m, old(s.files), old(s.Contents())) || s.g.Shows(m, s.files, s.Contents())
    ensures old(s.seen) <= s.seen
  {
    hide PageStore.Valid, Legal, PageStore.Faults, Values;
    hide s.g.Contents;
    open' := open;
    if step.Drop? || step.Adopt? {
      ok := DoBlob(s, step, open);
    } else {
      ok, open' := DoStage(s, step, open);
    }
  }

  /** A step of a stage. */
  method DoStage(s: PageStore, step: Step, open: bool) returns (ok: bool, open': bool)
    requires s.Valid() && (open ==> s.active && s.intact) && !step.Drop? && !step.Adopt?
    modifies s, s.refs, s.adopted
    ensures s.Valid() && (open' ==> s.active && s.intact)
    ensures Legal(s.g, step, if ok then Did else Refused, old(MomentOf(s, open)), MomentOf(s, open'))
    ensures forall m | m in s.seen ::
              m in old(s.seen) || s.g.Shows(m, old(s.files), old(s.Contents())) || s.g.Shows(m, s.files, s.Contents())
    ensures old(s.seen) <= s.seen
  {
    hide Sound, Agree, RunsOk, Intact, Crowded, Claimable, Values, PageStore.Faults, TakeStuck;
    hide s.g.Contents;
    ok, open' := false, open;
    match step
    case Begin =>
      var began := s.StageBegin();
      ok, open' := began, open || began;
    case Write(buf) =>
      if open {
        ok := s.StageWrite(buf);
        open' := ok;
      }
    case End(d, len) =>
      if open {
        s.ContentsKeys();
        SoundRecords(s.files, s.g);
        var r := s.StageEnd(d, len);
        ok, open' := r == Done, false;
      }
    case Abort =>
      s.StageAbort();
      ok, open' := true, false;
  }

  /** A step that drops or adopts a blob. */
  method DoBlob(s: PageStore, step: Step, open: bool) returns (ok: bool)
    requires s.Valid() && (open ==> s.active && s.intact) && (step.Drop? || step.Adopt?)
    requires step.Adopt? ==> !Crowded(s.g, s.refs[..], Extent(step.offset, step.length))
    modifies s, s.refs, s.adopted
    ensures s.Valid() && (open ==> s.active && s.intact)
    ensures Legal(s.g, step, if ok then Did else Refused, old(MomentOf(s, open)), MomentOf(s, open))
    ensures forall m | m in s.seen ::
              m in old(s.seen) || s.g.Shows(m, old(s.files), old(s.Contents())) || s.g.Shows(m, s.files, s.Contents())
    ensures old(s.seen) <= s.seen
  {
    hide Sound, Agree, RunsOk, Intact, Crowded, Claimable, Values, PageStore.Faults, TakeStuck;
    hide s.g.Contents;
    match step
    case Drop(d) =>
      var r := s.BlobDrop(d);
      ok := r == Done;
    case Adopt(d, offset, length) =>
      var r := s.Adopt(d, offset, length);
      ok := r == Done;
      if offset + length <= |s.cells| {
        ValuesPart(s.cells, offset, offset + length);
      }
  }

  /** Whether a unit of the extent already has 255 owners. */
  method IsCrowded(s: PageStore, e: Extent) returns (full: bool)
    requires s.Shape()
    ensures full == Crowded(s.g, s.refs[..], e)
  {
    for u := 0 to s.g.units
      invariant forall v | 0 <= v < u && Touches(e, s.g.unit, v) :: s.refs[v] != 255
    {
      if Touches(e, s.g.unit, u) && s.refs[u] == 255 {
        return true;
      }
    }
    return false;
  }

  /** Any run, with a reset after or inside any step: every moment follows from the one before as its outcome says, so a
      reset leaves each blob whole or not there. A step that would overrun a unit's count is left out. */
  method Run(s: PageStore, steps: seq<Step>) returns (outcomes: seq<Outcome>, ghost trace: seq<Moment>)
    requires s.Valid() && !s.active
    modifies s, s.refs, s.adopted
    ensures s.Valid()
    ensures |outcomes| == |steps| && |trace| == |steps| + 1
    ensures trace[0] == old(MomentOf(s, false))
    ensures trace[|steps|].held == s.Contents()
    ensures forall i | 0 <= i < |steps| :: Legal(s.g, steps[i], outcomes[i], trace[i], trace[i + 1])
  {
    hide Sound, Agree, RunsOk, Intact, Legal, PageStore.Valid, Values;
    hide s.g.Contents;
    Readable(s);
    var open := false;
    outcomes, trace := [], [MomentOf(s, false)];
    for i := 0 to |steps|
      invariant s.Valid() && (open ==> s.active && s.intact)
      invariant |outcomes| == i && |trace| == i + 1
      invariant s.g.Ok() && s.g.Good(s.Now()) && trace[i] == MomentOf(s, open)
      invariant trace[0] == old(MomentOf(s, false))
      invariant forall k | 0 <= k < i :: Legal(s.g, steps[k], outcomes[k], trace[k], trace[k + 1])
    {
      var outcome;
      outcome, open := StepOrCut(s, steps[i], open);
      outcomes, trace := outcomes + [outcome], trace + [MomentOf(s, open)];
    }
  }

  /** One step of a run and what may follow it. */
  method StepOrCut(s: PageStore, step: Step, open: bool) returns (outcome: Outcome, open': bool)
    requires s.Valid() && (open ==> s.active && s.intact)
    modifies s, s.refs, s.adopted
    ensures s.Valid() && (open' ==> s.active && s.intact) && s.g.Ok() && s.g.Good(s.Now())
    ensures Legal(s.g, step, outcome, old(MomentOf(s, open)), MomentOf(s, open'))
  {
    hide Sound, Agree, RunsOk, Intact, Crowded, Legal, Countable, Values;
    hide s.g.Contents;
    ghost var pre := MomentOf(s, open);
    ghost var files0, held0 := s.files, s.Contents();
    ValidIsCountable(s);
    s.seen := {s.Now()};
    outcome, open' := Skipped, open;
    var full := false;
    if step.Adopt? {
      full := IsCrowded(s, Extent(step.offset, step.length));
    }
    if !full {
      var ok;
      ok, open' := Do(s, step, open);
      outcome := if ok then Did else Refused;
    } else {
      LeftOut(s.g, step, pre);
    }
    ghost var post := MomentOf(s, open');
    var cut: bool := *;
    if cut {
      ValidIsCountable(s);
      Reset(s, files0, held0, s.files, s.Contents());
      CutIsLegal(s.g, step, outcome, pre, post, MomentOf(s, false));
      outcome, open' := Cut, false;
    }
  }

  lemma {:induction false} Readable(s: PageStore)
    requires s.Valid()
    ensures s.g.Ok() && s.g.Good(s.Now())
  {
    hide Agree, RunsOk, Intact;
  }

  lemma {:induction false} LeftOut(g: Geometry, step: Step, pre: Moment)
    requires step.Adopt? && g.Ok() && |pre.refs| == g.units && Crowded(g, pre.refs, Extent(step.offset, step.length))
    ensures Legal(g, step, Skipped, pre, pre)
  {
  }

  /** A reset leaves what the step began with or what it made, with no stage. */
  lemma {:induction false} CutIsLegal(g: Geometry, step: Step, outcome: Outcome, pre: Moment, post: Moment,
                                      after: Moment)
    requires g.Ok() && Legal(g, step, outcome, pre, post)
    requires after.staged.None? && (after.held == pre.held || after.held == post.held)
    ensures Legal(g, step, Cut, pre, after)
  {
  }
}
