/** The find-and-replace-by-signature mechanism shared by both notebook
    patchers: walk the cells in order, skip the ones that are not code, and
    rewrite the source of the first code cell whose joined text holds both
    the definition marker and the defect marker. */
module CellPatch {
  import opened Text

  datatype Option<T> = None | Some(value: T)

  /** A notebook cell: its `cell_type`, its `source` lines, and everything
      else the cell holds (metadata, outputs, execution count), carried as
      an uninterpreted value of type `Extra`. */
  datatype Cell<Extra> = Cell(cellType: string, source: seq<string>, other: Extra)

  /** One patch job: the signature pair and the replacement body. */
  datatype Job = Job(definitionMarker: string, defectMarker: string, body: string)

  const CodeCellType: string := "code"

  /** The joined text of a cell, `''.join(cell['source'])`. */
  function JoinedSource<Extra>(cell: Cell<Extra>): string
  {
    Join(cell.source)
  }

  /** The test a cell must pass to be rewritten: a code cell whose joined
      source contains both markers. */
  predicate IsTarget<Extra>(cell: Cell<Extra>, job: Job)
  {
    cell.cellType == CodeCellType &&
    Contains(JoinedSource(cell), job.definitionMarker) &&
    Contains(JoinedSource(cell), job.defectMarker)
  }

  /** The index of the first target at or after `from`, if any. */
  function FirstTargetFrom<Extra>(cells: seq<Cell<Extra>>, job: Job, from: nat): (r: Option<nat>)
    requires from <= |cells|
    ensures r.Some? ==>
      from <= r.value < |cells| && IsTarget(cells[r.value], job) &&
      forall j :: from <= j < r.value ==> !IsTarget(cells[j], job)
    ensures r.None? ==> forall j :: from <= j < |cells| ==> !IsTarget(cells[j], job)
    decreases |cells| - from
  {
    if from == |cells| then None
    else if IsTarget(cells[from], job) then Some(from)
    else FirstTargetFrom(cells, job, from + 1)
  }

  /** The index of the lowest-numbered target cell, if any. */
  function FirstTarget<Extra>(cells: seq<Cell<Extra>>, job: Job): Option<nat>
  {
    FirstTargetFrom(cells, job, 0)
  }

  /** The cell with its source replaced by the stored form of `body`; its
      type and every other field are kept. */
  function Rewrite<Extra>(cell: Cell<Extra>, body: string): Cell<Extra>
  {
    cell.(source := SourceLines(body))
  }

  /** The cells after one run of the job. */
  function Patched<Extra>(cells: seq<Cell<Extra>>, job: Job): seq<Cell<Extra>>
  {
    match FirstTarget(cells, job)
    case None => cells
    case Some(i) => cells[i := Rewrite(cells[i], job.body)]
  }

  /** One run of a job over the notebook's cell list, in place: the first
      target cell gets the new source and the loop stops. `found` says
      whether a cell was rewritten. */
  method ApplyPatch<Extra>(cells: array<Cell<Extra>>, job: Job) returns (found: bool)
    modifies cells
    ensures cells[..] == Patched(old(cells[..]), job)
    ensures found <==> FirstTarget(old(cells[..]), job).Some?
  {
    found := false;
    var i := 0;
    while i < cells.Length
      invariant 0 <= i <= cells.Length
      invariant cells[..] == old(cells[..])
      invariant forall j :: 0 <= j < i ==> !IsTarget(cells[j], job)
    {
      var cell := cells[i];
      if cell.cellType == CodeCellType {
        var source := Join(cell.source);
        if Contains(source, job.definitionMarker) && Contains(source, job.defectMarker) {
          cells[i] := cell.(source := SourceLines(job.body));
          found := true;
          break;
        }
      }
      i := i + 1;
    }
  }

  // ---------------------------------------------------------------------
  // What one run changes.

  /** The cell count and order are kept, and so are every cell's type and
      other fields: a run only ever changes a `source`. */
  lemma PatchedKeepsShape<Extra>(cells: seq<Cell<Extra>>, job: Job)
    ensures |Patched(cells, job)| == |cells|
    ensures forall j :: 0 <= j < |cells| ==>
      Patched(cells, job)[j].cellType == cells[j].cellType &&
      Patched(cells, job)[j].other == cells[j].other
  {
  }

  /** Every cell that changes is the first target: at most one cell changes,
      it is a code cell, and its joined source held both markers. */
  lemma {:induction false} OnlyFirstTargetChanges<Extra>(cells: seq<Cell<Extra>>, job: Job, j: nat)
    requires j < |cells|
    requires Patched(cells, job)[j] != cells[j]
    ensures FirstTarget(cells, job) == Some(j)
    ensures cells[j].cellType == CodeCellType
    ensures Contains(JoinedSource(cells[j]), job.definitionMarker)
    ensures Contains(JoinedSource(cells[j]), job.defectMarker)
  {
    match FirstTarget(cells, job)
    case Some(i) =>
      assert Patched(cells, job) == cells[i := Rewrite(cells[i], job.body)];
  }

  /** At most one cell differs after a run. */
  lemma AtMostOneCellChanges<Extra>(cells: seq<Cell<Extra>>, job: Job, j: nat, k: nat)
    requires j < |cells| && k < |cells|
    requires Patched(cells, job)[j] != cells[j] && Patched(cells, job)[k] != cells[k]
    ensures j == k
  {
    OnlyFirstTargetChanges(cells, job, j);
    OnlyFirstTargetChanges(cells, job, k);
  }

  /** Markdown and raw cells are never touched, whatever text they hold. */
  lemma NonCodeCellUntouched<Extra>(cells: seq<Cell<Extra>>, job: Job, j: nat)
    requires j < |cells| && cells[j].cellType != CodeCellType
    ensures Patched(cells, job)[j] == cells[j]
  {
    if Patched(cells, job)[j] != cells[j] {
      OnlyFirstTargetChanges(cells, job, j);
    }
  }

  /** A cell whose text lacks the defect marker, such as one that was
      already fixed, is never touched, even if it defines the function. */
  lemma CellWithoutDefectUntouched<Extra>(cells: seq<Cell<Extra>>, job: Job, j: nat)
    requires j < |cells| && !Contains(JoinedSource(cells[j]), job.defectMarker)
    ensures Patched(cells, job)[j] == cells[j]
  {
    if Patched(cells, job)[j] != cells[j] {
      OnlyFirstTargetChanges(cells, job, j);
    }
  }

  /** The first target gets the new source: one newline-terminated line per
      line of the body, whose join is the body plus one newline. */
  lemma TargetRewritten<Extra>(cells: seq<Cell<Extra>>, job: Job, i: nat)
    requires FirstTarget(cells, job) == Some(i)
    ensures i < |cells|
    ensures Patched(cells, job)[i] == cells[i].(source := SourceLines(job.body))
    ensures JoinedSource(Patched(cells, job)[i]) == job.body + [Newline]
    ensures |Patched(cells, job)[i].source| == Count(job.body, Newline) + 1
  {
    JoinSourceLines(job.body);
    SourceLinesShape(job.body);
  }

  /** First match wins: of two target cells the later one is left as it
      was, and the cell that is rewritten lies at or before the earlier. */
  lemma FirstMatchWins<Extra>(cells: seq<Cell<Extra>>, job: Job, i: nat, k: nat)
    requires i < k < |cells|
    requires IsTarget(cells[i], job) && IsTarget(cells[k], job)
    ensures FirstTarget(cells, job).Some? && FirstTarget(cells, job).value <= i
    ensures Patched(cells, job)[k] == cells[k]
  {
    match FirstTarget(cells, job)
    case Some(f) =>
      assert f <= i;
      assert Patched(cells, job) == cells[f := Rewrite(cells[f], job.body)];
  }

  /** With no target at all, a run leaves the cells exactly as they were. */
  lemma NoTargetNoChange<Extra>(cells: seq<Cell<Extra>>, job: Job)
    requires forall j :: 0 <= j < |cells| ==> !IsTarget(cells[j], job)
    ensures Patched(cells, job) == cells
  {
    match FirstTarget(cells, job)
    case None =>
  }

  // ---------------------------------------------------------------------
  // Running a job twice.

  /** A target cell's new text does not hold the defect marker, provided the
      body followed by a newline does not. */
  lemma RewrittenNotTarget<Extra>(cell: Cell<Extra>, job: Job)
    requires !Contains(job.body + [Newline], job.defectMarker)
    ensures !IsTarget(Rewrite(cell, job.body), job)
  {
    JoinSourceLines(job.body);
  }

  /** Whether a target exists beyond the first one. */
  predicate HasSecondTarget<Extra>(cells: seq<Cell<Extra>>, job: Job)
  {
    match FirstTarget(cells, job)
    case None => false
    case Some(i) => FirstTargetFrom(cells, job, i + 1).Some?
  }

  /** After a run, the first target of the result is the second target of
      the input. */
  lemma {:induction false} SecondRunTarget<Extra>(cells: seq<Cell<Extra>>, job: Job)
    requires !Contains(job.body + [Newline], job.defectMarker)
    ensures FirstTarget(Patched(cells, job), job) ==
      match FirstTarget(cells, job)
      case None => None
      case Some(i) => FirstTargetFrom(cells, job, i + 1)
  {
    match FirstTarget(cells, job)
    case None =>
    case Some(i) =>
      var after := Patched(cells, job);
      RewrittenNotTarget(cells[i], job);
      assert forall j :: 0 <= j < |cells| && j != i ==> after[j] == cells[j];
      assert !IsTarget(after[i], job);
      match FirstTargetFrom(cells, job, i + 1)
      case None =>
        assert forall j :: 0 <= j < |after| ==> !IsTarget(after[j], job) by {
          forall j | 0 <= j < |after| ensures !IsTarget(after[j], job) {
            if j != i { assert after[j] == cells[j]; }
          }
        }
        FirstTargetNoneWhenNoTarget(after, job);
      case Some(k) =>
        assert IsTarget(after[k], job);
        assert forall j :: 0 <= j < k ==> !IsTarget(after[j], job) by {
          forall j | 0 <= j < k ensures !IsTarget(after[j], job) {
            if j != i { assert after[j] == cells[j]; }
          }
        }
        FirstTargetIsUnique(after, job, k);
  }

  lemma FirstTargetNoneWhenNoTarget<Extra>(cells: seq<Cell<Extra>>, job: Job)
    requires forall j :: 0 <= j < |cells| ==> !IsTarget(cells[j], job)
    ensures FirstTarget(cells, job) == None
  {
    match FirstTarget(cells, job)
    case None =>
  }

  lemma FirstTargetIsUnique<Extra>(cells: seq<Cell<Extra>>, job: Job, k: nat)
    requires k < |cells| && IsTarget(cells[k], job)
    requires forall j :: 0 <= j < k ==> !IsTarget(cells[j], job)
    ensures FirstTarget(cells, job) == Some(k)
  {
    match FirstTarget(cells, job)
    case Some(i) =>
      assert !(i < k) && !(k < i);
  }

  /** Running the job a second time changes nothing exactly when the input
      held at most one target cell; with two defective copies the second run
      rewrites the next one. This needs the replacement body (with its
      trailing newline) to be free of the defect marker. */
  lemma {:induction false} IdempotentIffSingleTarget<Extra>(cells: seq<Cell<Extra>>, job: Job)
    requires !Contains(job.body + [Newline], job.defectMarker)
    ensures Patched(Patched(cells, job), job) == Patched(cells, job) <==> !HasSecondTarget(cells, job)
  {
    var once := Patched(cells, job);
    SecondRunTarget(cells, job);
    match FirstTarget(cells, job)
    case None =>
    case Some(i) =>
      match FirstTargetFrom(cells, job, i + 1)
      case None =>
      case Some(k) =>
        // The second run rewrites cell k, whose text still holds the defect
        // marker, so its source really changes.
        assert once[k] == cells[k];
        JoinSourceLines(job.body);
        assert JoinedSource(Rewrite(once[k], job.body)) == job.body + [Newline];
        assert Patched(once, job)[k] != once[k];
  }

  /** The usual single-defect case: the second run finds no target. */
  lemma SecondRunFindsNothing<Extra>(cells: seq<Cell<Extra>>, job: Job)
    requires !Contains(job.body + [Newline], job.defectMarker)
    requires !HasSecondTarget(cells, job)
    ensures FirstTarget(Patched(cells, job), job) == None
  {
    SecondRunTarget(cells, job);
  }
}
