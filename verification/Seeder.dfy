/** The checkpointed corpus seeder: rows go in by batches, each batch is committed and then the
    checkpoint file is rewritten, and the process may die at any point in between. */
module Seeder {
  import opened Sequences
  import opened Rows
  import opened BulkInsert

  const BATCH := 500

  /** The checkpoint file.  It is rewritten in place, so dying inside the write leaves it unreadable. */
  datatype Checkpoint = Missing | Saved(rows: nat) | Torn

  datatype Fate = Survives | DiesBeforeCommit | DiesBeforeSave | DiesInSave

  /** When one run dies: creating the checkpoint, at the flush after a given row, or at the end. */
  datatype Plan = Plan(first: Fate, flush: nat -> Fate, last: Fate)

  /** Nothing interrupts the run. */
  ghost predicate Undisturbed(plan: Plan) {
    plan.first == Survives && plan.last == Survives && forall row: nat :: plan.flush(row) == Survives
  }

  /** The run could die inside a checkpoint write. */
  ghost predicate Tears(plan: Plan) {
    plan.first == DiesInSave || plan.last == DiesInSave || exists row: nat :: plan.flush(row) == DiesInSave
  }

  function Span(a: nat, b: nat): (s: seq<nat>)
    ensures |s| == (if a <= b then b - a else 0)
    ensures forall k :: 0 <= k < |s| ==> s[k] == a + k
  {
    if a <= b then seq(b - a, k requires 0 <= k => a + k) else []
  }

  /** A batch that became durable without the checkpoint recording it. */
  datatype Gap = Gap(from: nat, upto: nat)

  function GapSize(gaps: seq<Gap>): int {
    if gaps == [] then 0
    else GapSize(gaps[..|gaps| - 1]) + gaps[|gaps| - 1].upto - gaps[|gaps| - 1].from
  }

  function Covering(gaps: seq<Gap>, i: nat): nat {
    if gaps == [] then 0
    else Covering(gaps[..|gaps| - 1], i) + (if gaps[|gaps| - 1].from <= i < gaps[|gaps| - 1].upto then 1 else 0)
  }

  lemma OnlyTheFirstBatchStarts(count: nat, batches: nat)
    requires count <= BATCH && 0 <= Steps(batches, BATCH) < count
    ensures batches == 0 && Steps(batches, BATCH) == 0
  {
    if batches > 0 {
      StepsGrow(batches - 1, BATCH);
    }
  }

  /** The call a flush makes: `create_many` on at most one batch, so all of it becomes durable or none. */
  method FlushIsAllOrNothing(c: Connection, items: seq<Item>, now: int, hash: string -> string, newId: nat -> string,
                             w: Weather)
    returns (r: Reply<nat>)
    requires |items| <= BATCH && c.open == []
    modifies c
    ensures r.Returned? ==> c.durable == old(c.durable) + StampAll(items, now, hash, newId) && c.open == []
    ensures r.Raised? ==> c.durable == old(c.durable)
    ensures r.Raised? <==> items != [] && BatchFails(items, BATCH, w, 0)
  {
    ghost var batches;
    r, batches := c.CreateMany(items, BATCH, now, hash, newId, w);
    if r.Raised? {
      OnlyTheFirstBatchStarts(|items|, batches);
    } else if items != [] {
      assert batches > 0;
    }
  }

  lemma {:induction false} SpanCounts(a: nat, b: nat, i: nat)
    ensures multiset(Span(a, b))[i] == if a <= i < b then 1 else 0
    decreases b
  {
    if a < b {
      assert Span(a, b) == Span(a, b - 1) + [b - 1];
      SpanCounts(a, b - 1, i);
    } else {
      assert Span(a, b) == [];
    }
  }

  /** Exact accounting: every index is durable once if the checkpoint covers it, and once more for
      each unrecorded batch it was in. */
  ghost predicate Accounted(durable: seq<nat>, saved: nat, gaps: seq<Gap>) {
    && (forall i: nat :: multiset(durable)[i] == (if i < saved then 1 else 0) + Covering(gaps, i))
    && |durable| == saved + GapSize(gaps)
  }

  ghost predicate GapsFit(gaps: seq<Gap>, total: nat) {
    forall g :: g in gaps ==> g.from < g.upto <= total && g.upto - g.from <= BATCH
  }

  lemma RecordedFlush(durable: seq<nat>, saved: nat, gaps: seq<Gap>, upto: nat)
    requires Accounted(durable, saved, gaps) && saved <= upto
    ensures Accounted(durable + Span(saved, upto), upto, gaps)
  {
    forall i: nat ensures multiset(durable + Span(saved, upto))[i] == (if i < upto then 1 else 0) + Covering(gaps, i) {
      SpanCounts(saved, upto, i);
    }
  }

  lemma UnrecordedFlush(durable: seq<nat>, saved: nat, gaps: seq<Gap>, upto: nat, total: nat)
    requires Accounted(durable, saved, gaps) && GapsFit(gaps, total) && saved < upto <= total && upto - saved <= BATCH
    ensures Accounted(durable + Span(saved, upto), saved, gaps + [Gap(saved, upto)])
    ensures GapsFit(gaps + [Gap(saved, upto)], total)
  {
    var more := gaps + [Gap(saved, upto)];
    assert more[..|gaps|] == gaps;
    forall i: nat ensures multiset(durable + Span(saved, upto))[i] == (if i < saved then 1 else 0) + Covering(more, i) {
      SpanCounts(saved, upto, i);
    }
  }

  class Corpus {
    const total: nat
    var durable: seq<nat>
    var checkpoint: Checkpoint
    ghost var saved: nat     // the last row count a complete checkpoint write recorded
    ghost var gaps: seq<Gap>

    ghost predicate Valid()
      reads this
    {
      && saved <= total
      && (checkpoint.Saved? ==> checkpoint.rows == saved)
      && (checkpoint.Missing? ==> durable == [] && saved == 0 && gaps == [])
      && Accounted(durable, saved, gaps)
      && GapsFit(gaps, total)
    }

    constructor (total: nat)
      ensures Valid() && this.total == total && durable == [] && checkpoint == Missing && gaps == []
    {
      this.total := total;
      durable, checkpoint, saved, gaps := [], Missing, 0, [];
    }

    /** Commit a batch, then save the checkpoint.  `FlushIsAllOrNothing` is why dying in the call leaves
        none of the batch or all of it. */
    method Flush(batch: seq<nat>, upto: nat, fate: Fate) returns (alive: bool)
      requires Valid() && checkpoint.Saved? && saved < upto <= total && batch == Span(saved, upto) && |batch| <= BATCH
      modifies this
      ensures Valid()
      ensures alive <==> fate == Survives
      ensures alive ==> checkpoint == Saved(upto) && gaps == old(gaps) && durable == old(durable) + batch
      ensures !alive ==> saved == old(saved) && (checkpoint == old(checkpoint) || checkpoint == Torn)
      ensures checkpoint == Torn <==> fate == DiesInSave
      ensures fate == DiesBeforeCommit ==> gaps == old(gaps) && durable == old(durable)
      ensures fate == DiesBeforeSave || fate == DiesInSave ==>
        gaps == old(gaps) + [Gap(saved, upto)] && durable == old(durable) + batch
    {
      if fate == DiesBeforeCommit {
        return false;
      }
      ghost var durable0 := durable;
      durable := durable + batch;
      if fate == DiesBeforeSave || fate == DiesInSave {
        UnrecordedFlush(durable0, saved, gaps, upto, total);
        gaps := gaps + [Gap(saved, upto)];
        if fate == DiesInSave {
          checkpoint := Torn;
        }
        return false;
      }
      RecordedFlush(durable0, saved, gaps, upto);
      checkpoint := Saved(upto);
      saved := upto;
      return true;
    }

    /** `_load_checkpoint`, or a first `_save_checkpoint`. */
    method LoadOrCreate(fate: Fate) returns (ready: bool)
      requires Valid()
      modifies this`checkpoint
      ensures Valid()
      ensures ready <==> checkpoint.Saved? && (old(checkpoint).Saved? || fate == Survives)
      ensures old(checkpoint) != Missing ==> checkpoint == old(checkpoint)
      ensures fate == Survives && old(checkpoint) != Torn ==> ready
      ensures checkpoint == Torn ==> old(checkpoint) == Torn || fate == DiesInSave
    {
      if checkpoint == Torn {
        return false;
      }
      if checkpoint == Missing {
        if fate == DiesInSave {
          checkpoint := Torn;
        } else if fate == Survives {
          checkpoint := Saved(0);
        }
        return fate == Survives;
      }
      return true;
    }

    /** The `for row_index in range(start_index, total_rows)` loop. */
    method FillRows(plan: Plan) returns (alive: bool, batch: seq<nat>)
      requires Valid() && checkpoint.Saved?
      modifies this
      ensures Valid() && saved >= old(saved) && |durable| >= |old(durable)|
      ensures alive ==> checkpoint.Saved? && gaps == old(gaps) && batch == Span(saved, total) && |batch| < BATCH
      ensures old(saved) == total ==> alive && durable == old(durable)
      ensures !alive ==> |gaps| <= |old(gaps)| + 1
      ensures (forall row: nat :: plan.flush(row) == Survives) ==> alive
      ensures checkpoint == Torn ==> exists row: nat :: plan.flush(row) == DiesInSave
    {
      var startIndex := checkpoint.rows;
      batch := [];
      for row := startIndex to total
        invariant Valid() && checkpoint.Saved? && startIndex <= saved <= row
        invariant batch == Span(saved, row) && |batch| < BATCH
        invariant gaps == old(gaps) && |durable| >= |old(durable)|
        invariant row == startIndex ==> durable == old(durable)
      {
        batch := batch + [row];
        assert batch == Span(saved, row + 1);
        if |batch| >= BATCH {
          alive := Flush(batch, row + 1, plan.flush(row));
          if !alive {
            return;
          }
          batch := [];
        }
      }
      return true, batch;
    }

    /** `seed_corpus`.  `finished` is a return without an exception or a kill. */
    method Seed(plan: Plan) returns (finished: bool)
      requires Valid()
      modifies this
      ensures Valid()
      ensures finished ==> checkpoint == Saved(total) && saved == total
      // a finishing run leaves no unrecorded batch, an interrupted one at most one
      ensures finished ==> gaps == old(gaps)
      ensures |gaps| <= |old(gaps)| + 1
      ensures saved >= old(saved) && |durable| >= |old(durable)|
      // a run that nothing interrupts finishes exactly if it does not find a torn checkpoint
      ensures Undisturbed(plan) ==> (finished <==> old(checkpoint) != Torn)
      // only dying inside a checkpoint write tears it
      ensures checkpoint == Torn ==> old(checkpoint) == Torn || Tears(plan)
      // a torn checkpoint stops every later run before it writes anything
      ensures old(checkpoint) == Torn ==> !finished && checkpoint == Torn && durable == old(durable)
      // a finished corpus is not written again
      ensures old(checkpoint) == Saved(total) ==> durable == old(durable)
    {
      var ready := LoadOrCreate(plan.first);
      if !ready {
        return false;
      }
      var alive, batch := FillRows(plan);
      if !alive {
        return false;
      }
      if batch != [] {
        alive := Flush(batch, total, plan.last);
        if !alive {
          return false;
        }
      }
      if plan.last == DiesInSave {
        checkpoint := Torn;
      } else if plan.last == Survives {
        checkpoint := Saved(total);
      }
      return plan.last == Survives;
    }

    /** Runs the seeder once per plan until one run finishes. */
    method SeedUntilFinished(plans: seq<Plan>) returns (finished: bool, interruptions: nat)
      requires Valid() && gaps == []
      modifies this
      ensures Valid()
      ensures |gaps| <= interruptions <= |plans|
      // with an undisturbed run among them, one finishes unless the checkpoint was torn before
      ensures (exists i :: 0 <= i < |plans| && Undisturbed(plans[i])) ==> (finished <==> checkpoint != Torn)
      ensures checkpoint == Torn ==> old(checkpoint) == Torn || exists i :: 0 <= i < |plans| && Tears(plans[i])
      ensures saved <= |durable| == saved + GapSize(gaps)
      // after a finishing run every index is durable, once more for each unrecorded batch it was in
      ensures finished ==>
        saved == total && forall i: nat :: i < total ==> multiset(durable)[i] == 1 + Covering(gaps, i)
      ensures finished ==> |durable| == total + GapSize(gaps)
    {
      finished, interruptions := false, 0;
      while interruptions < |plans| && !finished
        invariant Valid() && |gaps| <= interruptions <= |plans|
        invariant finished ==> saved == total && checkpoint == Saved(total)
        invariant !finished && (exists i :: 0 <= i < interruptions && Undisturbed(plans[i])) ==> checkpoint == Torn
        invariant checkpoint == Torn ==> old(checkpoint) == Torn || exists i :: 0 <= i < |plans| && Tears(plans[i])
        decreases |plans| - interruptions, !finished
      {
        finished := Seed(plans[interruptions]);
        if !finished {
          interruptions := interruptions + 1;
        }
      }
      GapSizeIsNatural(gaps, total);
    }
  }

  lemma {:induction false} GapSizeIsNatural(gaps: seq<Gap>, total: nat)
    requires GapsFit(gaps, total)
    ensures 0 <= GapSize(gaps) <= |gaps| * BATCH
  {
    if gaps != [] {
      var g := gaps[|gaps| - 1];
      assert g in gaps && forall h :: h in gaps[..|gaps| - 1] ==> h in gaps;
      GapSizeIsNatural(gaps[..|gaps| - 1], total);
    }
  }

  /** An index is durable twice only through an unrecorded batch containing it. */
  lemma {:induction false} CoveredIffInSomeGap(gaps: seq<Gap>, i: nat)
    ensures Covering(gaps, i) > 0 <==> exists g :: g in gaps && g.from <= i < g.upto
    ensures Covering(gaps, i) <= |gaps|
  {
    if gaps != [] {
      CoveredIffInSomeGap(gaps[..|gaps| - 1], i);
      assert forall g :: g in gaps <==> g in gaps[..|gaps| - 1] || g == gaps[|gaps| - 1];
    }
  }
}
