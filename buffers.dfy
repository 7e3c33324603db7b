/** The row buffer pool: one list of pending rows per table, a threshold
    flush (`save_all`) and the log of bulk inserts it issues.  A bulk insert
    (`conn.execute(insert, table_l)`) is modelled as appending one Batch to
    that log. */
module Buffers {
  import opened Seqs
  import opened Tables

  /** One bulk insert: the number of the table and the rows sent to it. */
  datatype Batch<R> = Batch(table: nat, rows: seq<R>)

  /** Buffers p after appending r to buffer t (no buffer t: unchanged). */
  function Add<R>(p: seq<seq<R>>, t: nat, r: R): seq<seq<R>>
  {
    if t < |p| then p[t := p[t] + [r]] else p
  }

  /** Buffers p after appending every row of `rows`, in order, to its table's buffer. */
  function Pushed<R>(p: seq<seq<R>>, rows: seq<R>, tableOf: R -> nat): seq<seq<R>>
  {
    if rows == [] then p
    else Add(Pushed(p, rows[..|rows| - 1], tableOf), tableOf(rows[|rows| - 1]), rows[|rows| - 1])
  }

  /** Appending a + b is appending a, then b. */
  lemma {:induction false} PushedConcat<R>(p: seq<seq<R>>, a: seq<R>, b: seq<R>, tableOf: R -> nat)
    ensures Pushed(p, a + b, tableOf) == Pushed(Pushed(p, a, tableOf), b, tableOf)
    decreases |b|
  {
    if b == [] {
      assert a + b == a;
    } else {
      var b' := b[..|b| - 1];
      assert (a + b)[..|a + b| - 1] == a + b';
      assert (a + b)[|a + b| - 1] == b[|b| - 1];
      PushedConcat(p, a, b', tableOf);
    }
  }

  /** After appending `rows`, buffer t holds what it held before followed by
      the rows of table t, in order; the number of buffers is unchanged. */
  lemma {:induction false} PushedAt<R>(p: seq<seq<R>>, rows: seq<R>, tableOf: R -> nat)
    ensures |Pushed(p, rows, tableOf)| == |p|
    ensures forall t :: 0 <= t < |p| ==> Pushed(p, rows, tableOf)[t] == p[t] + Filter(rows, t, tableOf)
    decreases |rows|
  {
    if rows != [] {
      PushedAt(p, rows[..|rows| - 1], tableOf);
    }
  }

  /** The rows a log of bulk inserts committed to table t, in order. */
  function Committed<R>(log: seq<Batch<R>>, t: nat): seq<R>
  {
    if log == [] then []
    else Committed(log[..|log| - 1], t) + (if log[|log| - 1].table == t then log[|log| - 1].rows else [])
  }

  lemma {:induction false} CommittedConcat<R>(a: seq<Batch<R>>, b: seq<Batch<R>>, t: nat)
    ensures Committed(a + b, t) == Committed(a, t) + Committed(b, t)
    decreases |b|
  {
    if b == [] {
      assert a + b == a;
    } else {
      var b' := b[..|b| - 1];
      assert (a + b)[..|a + b| - 1] == a + b';
      CommittedConcat(a, b', t);
    }
  }

  /** A log with no batch for table t committed nothing to it. */
  lemma {:induction false} CommittedNone<R>(log: seq<Batch<R>>, t: nat)
    requires forall i :: 0 <= i < |log| ==> log[i].table != t
    ensures Committed(log, t) == []
    decreases |log|
  {
    if log != [] {
      CommittedNone(log[..|log| - 1], t);
    }
  }

  /** The buffers `save_all` leaves behind: every buffer longer than the
      threshold is emptied, every other one is kept as it is. */
  function Flushed<R>(p: seq<seq<R>>, threshold: nat): seq<seq<R>>
  {
    seq(|p|, t requires 0 <= t < |p| => if |p[t]| > threshold then [] else p[t])
  }

  /** The bulk inserts `save_all` issues, in the order of the buffer list. */
  function Batches<R>(p: seq<seq<R>>, threshold: nat): seq<Batch<R>>
  {
    if p == [] then []
    else Batches(p[..|p| - 1], threshold)
         + (if |p[|p| - 1]| > threshold then [Batch(|p| - 1, p[|p| - 1])] else [])
  }

  /** The batches of one more buffer. */
  lemma BatchesSnoc<R>(p: seq<seq<R>>, i: nat, threshold: nat)
    requires i < |p|
    ensures Batches(p[..i + 1], threshold)
            == if |p[i]| > threshold then Batches(p[..i], threshold) + [Batch(i, p[i])] else Batches(p[..i], threshold)
  {
    assert p[..i + 1][..i] == p[..i];
    assert Batches(p[..i], threshold) + [] == Batches(p[..i], threshold);
  }

  /** Each batch `save_all` issues is a whole buffer longer than the
      threshold, and the batches follow the buffer list's order. */
  lemma {:induction false} BatchesAreWholeBuffers<R>(p: seq<seq<R>>, threshold: nat)
    ensures forall i :: 0 <= i < |Batches(p, threshold)| ==>
              var b := Batches(p, threshold)[i]; b.table < |p| && b.rows == p[b.table] && |b.rows| > threshold
    ensures forall i, j :: 0 <= i < j < |Batches(p, threshold)| ==>
              Batches(p, threshold)[i].table < Batches(p, threshold)[j].table
    decreases |p|
  {
    if p != [] {
      var n := |p| - 1;
      BatchesAreWholeBuffers(p[..n], threshold);
      assert forall t :: 0 <= t < n ==> p[..n][t] == p[t];
    }
  }

  /** `save_all` commits to each table either its whole buffer (when longer
      than the threshold) or nothing. */
  lemma {:induction false} BatchesCommit<R>(p: seq<seq<R>>, threshold: nat)
    ensures forall t :: 0 <= t < |p| ==>
              Committed(Batches(p, threshold), t) == if |p[t]| > threshold then p[t] else []
    decreases |p|
  {
    if p != [] {
      var n := |p| - 1;
      var init := p[..n];
      BatchesCommit(init, threshold);
      BatchesAreWholeBuffers(init, threshold);
      var b0 := Batches(init, threshold);
      var last: seq<Batch<R>> := if |p[n]| > threshold then [Batch(n, p[n])] else [];
      assert Batches(p, threshold) == b0 + last;
      forall t | 0 <= t < |p|
        ensures Committed(Batches(p, threshold), t) == if |p[t]| > threshold then p[t] else []
      {
        CommittedConcat(b0, last, t);
        if t < n {
          assert init[t] == p[t];
          assert Committed(last, t) == [] by {
            assert last != [] ==> Committed(last, t) == Committed(last[..0], t);
          }
        } else {
          CommittedNone(b0, t);
          assert last != [] ==> last[..0] == [];
        }
      }
    }
  }

  /** A buffer longer than the threshold gets a batch. */
  lemma {:induction false} BatchCovers<R>(p: seq<seq<R>>, threshold: nat, t: nat)
    requires t < |p| && |p[t]| > threshold
    ensures exists i :: 0 <= i < |Batches(p, threshold)| && Batches(p, threshold)[i].table == t
    decreases |p|
  {
    var n := |p| - 1;
    var b0 := Batches(p[..n], threshold);
    var bs := Batches(p, threshold);
    assert bs == b0 + [Batch(n, p[n])] || bs == b0;
    if t < n {
      assert p[..n][t] == p[t];
      BatchCovers(p[..n], threshold, t);
      var i :| 0 <= i < |b0| && b0[i].table == t;
      assert bs[i] == b0[i];
    } else {
      assert bs[|b0|].table == t;
    }
  }

  /** `save_all` inserts exactly the buffers longer than the threshold, each
      once, whole and in list order, and commits nothing of any other buffer. */
  lemma BatchesExact<R>(p: seq<seq<R>>, threshold: nat)
    ensures forall i :: 0 <= i < |Batches(p, threshold)| ==>
              var b := Batches(p, threshold)[i]; b.table < |p| && b.rows == p[b.table] && |b.rows| > threshold
    ensures forall i, j :: 0 <= i < j < |Batches(p, threshold)| ==>
              Batches(p, threshold)[i].table < Batches(p, threshold)[j].table
    ensures forall t :: 0 <= t < |p| && |p[t]| > threshold ==>
              exists i :: 0 <= i < |Batches(p, threshold)| && Batches(p, threshold)[i].table == t
    ensures forall t :: 0 <= t < |p| ==>
              Committed(Batches(p, threshold), t) == if |p[t]| > threshold then p[t] else []
  {
    BatchesAreWholeBuffers(p, threshold);
    BatchesCommit(p, threshold);
    forall t | 0 <= t < |p| && |p[t]| > threshold
      ensures exists i :: 0 <= i < |Batches(p, threshold)| && Batches(p, threshold)[i].table == t
    {
      BatchCovers(p, threshold, t);
    }
  }

  /** The end-of-run flush (threshold 0): every buffer is left empty and every
      non-empty buffer, and no empty one, is inserted exactly once, whole. */
  lemma FlushAllEmpties<R>(p: seq<seq<R>>)
    ensures forall t :: 0 <= t < |p| ==> Flushed(p, 0)[t] == []
    ensures forall t :: 0 <= t < |p| ==> Committed(Batches(p, 0), t) == p[t]
    ensures forall i :: 0 <= i < |Batches(p, 0)| ==> Batches(p, 0)[i].rows != []
    ensures forall i, j :: 0 <= i < j < |Batches(p, 0)| ==> Batches(p, 0)[i].table != Batches(p, 0)[j].table
  {
    BatchesExact(p, 0);
  }

  /** A flush keeps table t's rows: committed then pending is what it was. */
  lemma FlushAt<R>(log: seq<Batch<R>>, p: seq<seq<R>>, threshold: nat, t: nat)
    requires t < |p|
    ensures t < |Flushed(p, threshold)|
    ensures Committed(log + Batches(p, threshold), t) + Flushed(p, threshold)[t] == Committed(log, t) + p[t]
  {
    var b, c := Batches(p, threshold), Committed(log, t);
    BatchesCommit(p, threshold);
    CommittedConcat(log, b, t);
    if |p[t]| > threshold {
      assert Committed(b, t) == p[t] && Flushed(p, threshold)[t] == [];
      assert c + p[t] + [] == c + p[t];
    } else {
      assert Committed(b, t) == [] && Flushed(p, threshold)[t] == p[t];
      assert c + [] + p[t] == c + p[t];
    }
  }

  /** A flush moves rows from the buffers to the log without losing or
      reordering any: committed-then-pending is the same before and after. */
  lemma FlushKeepsRows<R>(log: seq<Batch<R>>, p: seq<seq<R>>, appended: seq<seq<R>>, threshold: nat)
    requires |appended| == |p|
    requires forall t :: 0 <= t < |p| ==> Committed(log, t) + p[t] == appended[t]
    ensures forall t :: 0 <= t < |p| ==>
              Committed(log + Batches(p, threshold), t) + Flushed(p, threshold)[t] == appended[t]
  {
    forall t | 0 <= t < |p|
      ensures Committed(log + Batches(p, threshold), t) + Flushed(p, threshold)[t] == appended[t]
    {
      FlushAt(log, p, threshold, t);
    }
  }

  /** A flush issues no rows to a table that has never been appended more
      rows than the threshold: its buffer cannot exceed the threshold. */
  lemma FlushUntouched<R>(log: seq<Batch<R>>, p: seq<seq<R>>, appended: seq<seq<R>>, threshold: nat, t: nat)
    requires t < |p|
    requires t < |appended| && Committed(log, t) + p[t] == appended[t]
    requires |appended[t]| <= threshold
    ensures Committed(log + Batches(p, threshold), t) == Committed(log, t)
  {
    BatchesCommit(p, threshold);
    CommittedConcat(log, Batches(p, threshold), t);
  }

  // ---- the periodic save_all of a stream driver ----

  /** How far a stream driver's periodic flushing has got: the buffers, the
      log of bulk inserts, its counter `save_now`, and how many times it has
      called save_all. */
  datatype Flow<R> = Flow(pending: seq<seq<R>>, inserts: seq<Batch<R>>, saveNow: nat, saves: nat)

  /** One counted element, whose dispatch appends `rows`: save_now goes up
      by one, and once it exceeds nToSave, save_all runs with the threshold
      and save_now goes back to 0. */
  function Counted<R>(f: Flow<R>, rows: seq<R>, tableOf: R -> nat, nToSave: nat, threshold: nat): Flow<R>
  {
    var p := Pushed(f.pending, rows, tableOf);
    if f.saveNow + 1 > nToSave then Flow(Flushed(p, threshold), f.inserts + Batches(p, threshold), 0, f.saves + 1)
    else Flow(p, f.inserts, f.saveNow + 1, f.saves)
  }

  /** The flushing over the counted elements of a stream, one block of rows
      per element, in order. */
  function Drive<R>(f: Flow<R>, blocks: seq<seq<R>>, tableOf: R -> nat, nToSave: nat, threshold: nat): Flow<R>
  {
    if blocks == [] then f
    else Counted(Drive(f, blocks[..|blocks| - 1], tableOf, nToSave, threshold), blocks[|blocks| - 1], tableOf, nToSave, threshold)
  }

  /** Drive over one more element. */
  lemma DriveSnoc<R>(f: Flow<R>, blocks: seq<seq<R>>, b: seq<R>, tableOf: R -> nat, nToSave: nat, threshold: nat)
    ensures Drive(f, blocks + [b], tableOf, nToSave, threshold)
            == Counted(Drive(f, blocks, tableOf, nToSave, threshold), b, tableOf, nToSave, threshold)
  {
    assert (blocks + [b])[..|blocks|] == blocks;
  }

  /** save_all runs once per nToSave + 1 counted elements: the number of
      runs and save_now are the quotient and the remainder of the count by
      nToSave + 1. */
  lemma {:induction false} DriveCounts<R>(f: Flow<R>, blocks: seq<seq<R>>, tableOf: R -> nat, nToSave: nat, threshold: nat)
    requires f.saveNow <= nToSave
    ensures var g := Drive(f, blocks, tableOf, nToSave, threshold);
            && g.saveNow <= nToSave
            && g.saves * (nToSave + 1) + g.saveNow == f.saves * (nToSave + 1) + f.saveNow + |blocks|
    decreases |blocks|
  {
    if blocks != [] {
      var g := Drive(f, blocks[..|blocks| - 1], tableOf, nToSave, threshold);
      DriveCounts(f, blocks[..|blocks| - 1], tableOf, nToSave, threshold);
      assert (g.saves + 1) * (nToSave + 1) == g.saves * (nToSave + 1) + nToSave + 1;
    }
  }

  /** As long as save_now does not exceed nToSave, nothing is inserted: the
      rows are only appended. */
  lemma {:induction false} DriveQuiet<R>(f: Flow<R>, blocks: seq<seq<R>>, tableOf: R -> nat, nToSave: nat, threshold: nat)
    requires f.saveNow + |blocks| <= nToSave
    ensures Drive(f, blocks, tableOf, nToSave, threshold)
            == Flow(Pushed(f.pending, Flatten(blocks), tableOf), f.inserts, f.saveNow + |blocks|, f.saves)
    decreases |blocks|
  {
    if blocks != [] {
      var init := blocks[..|blocks| - 1];
      DriveQuiet(f, init, tableOf, nToSave, threshold);
      PushedConcat(f.pending, Flatten(init), blocks[|blocks| - 1], tableOf);
    }
  }

  /** The inserts issued before stay in the log, first and in order. */
  lemma {:induction false} DriveExtends<R>(f: Flow<R>, blocks: seq<seq<R>>, tableOf: R -> nat, nToSave: nat, threshold: nat)
    ensures var g := Drive(f, blocks, tableOf, nToSave, threshold);
            |f.inserts| <= |g.inserts| && g.inserts[..|f.inserts|] == f.inserts
    decreases |blocks|
  {
    if blocks != [] {
      var g := Drive(f, blocks[..|blocks| - 1], tableOf, nToSave, threshold);
      DriveExtends(f, blocks[..|blocks| - 1], tableOf, nToSave, threshold);
      var p := Pushed(g.pending, blocks[|blocks| - 1], tableOf);
      assert (g.inserts + Batches(p, threshold))[..|f.inserts|] == g.inserts[..|f.inserts|];
    }
  }

  /** One counted element loses no row of table t: committed then pending
      is what it was, followed by the element's rows of that table. */
  lemma CountedKeepsRowsAt<R>(f: Flow<R>, rows: seq<R>, tableOf: R -> nat, nToSave: nat, threshold: nat, t: nat)
    requires t < |f.pending|
    ensures var g := Counted(f, rows, tableOf, nToSave, threshold);
            t < |g.pending| && Committed(g.inserts, t) + g.pending[t] == Committed(f.inserts, t) + f.pending[t] + Filter(rows, t, tableOf)
  {
    var p := Pushed(f.pending, rows, tableOf);
    PushedAt(f.pending, rows, tableOf);
    var c, a, r := Committed(f.inserts, t), f.pending[t], Filter(rows, t, tableOf);
    assert p[t] == a + r;
    assert c + (a + r) == c + a + r;
    if f.saveNow + 1 > nToSave {
      assert Counted(f, rows, tableOf, nToSave, threshold) == Flow(Flushed(p, threshold), f.inserts + Batches(p, threshold), 0, f.saves + 1);
      FlushAt(f.inserts, p, threshold, t);
    } else {
      assert Counted(f, rows, tableOf, nToSave, threshold) == Flow(p, f.inserts, f.saveNow + 1, f.saves);
    }
  }

  /** One counted element loses no row: for each table, committed then
      pending is what it was, followed by the element's rows of that table. */
  lemma CountedKeepsRows<R>(f: Flow<R>, rows: seq<R>, tableOf: R -> nat, nToSave: nat, threshold: nat)
    ensures |Counted(f, rows, tableOf, nToSave, threshold).pending| == |f.pending|
    ensures forall t :: 0 <= t < |f.pending| ==>
              Committed(Counted(f, rows, tableOf, nToSave, threshold).inserts, t) + Counted(f, rows, tableOf, nToSave, threshold).pending[t]
              == Committed(f.inserts, t) + f.pending[t] + Filter(rows, t, tableOf)
  {
    PushedAt(f.pending, rows, tableOf);
    forall t | 0 <= t < |f.pending|
      ensures Committed(Counted(f, rows, tableOf, nToSave, threshold).inserts, t) + Counted(f, rows, tableOf, nToSave, threshold).pending[t]
              == Committed(f.inserts, t) + f.pending[t] + Filter(rows, t, tableOf)
    {
      CountedKeepsRowsAt(f, rows, tableOf, nToSave, threshold, t);
    }
  }

  /** The periodic flushing loses no row: for each table, committed then
      pending is what it was, followed by that table's rows of every
      element, in order. */
  lemma {:induction false} DriveKeepsRows<R>(f: Flow<R>, blocks: seq<seq<R>>, tableOf: R -> nat, nToSave: nat, threshold: nat)
    ensures |Drive(f, blocks, tableOf, nToSave, threshold).pending| == |f.pending|
    ensures forall t :: 0 <= t < |f.pending| ==>
              Committed(Drive(f, blocks, tableOf, nToSave, threshold).inserts, t) + Drive(f, blocks, tableOf, nToSave, threshold).pending[t]
              == Committed(f.inserts, t) + f.pending[t] + Filter(Flatten(blocks), t, tableOf)
    decreases |blocks|
  {
    if blocks != [] {
      var init, b := blocks[..|blocks| - 1], blocks[|blocks| - 1];
      var g := Drive(f, init, tableOf, nToSave, threshold);
      DriveKeepsRows(f, init, tableOf, nToSave, threshold);
      CountedKeepsRows(g, b, tableOf, nToSave, threshold);
      forall t | 0 <= t < |f.pending|
        ensures Committed(Drive(f, blocks, tableOf, nToSave, threshold).inserts, t) + Drive(f, blocks, tableOf, nToSave, threshold).pending[t]
                == Committed(f.inserts, t) + f.pending[t] + Filter(Flatten(blocks), t, tableOf)
      {
        FilterConcat(Flatten(init), b, t, tableOf);
      }
    }
  }

  /** The buffer pool of one dictionary loader. */
  class RowPool<R> {
    /** One list of pending rows per table, in the order of the loader's `all_l`. */
    var pending: seq<seq<R>>
    /** Every bulk insert issued so far, in order. */
    var inserts: seq<Batch<R>>
    /** Every row ever appended to each table. */
    ghost var appended: seq<seq<R>>

    /** No row is lost: of the rows appended to a table, those already
        committed come first, in order, and the rest are still pending. */
    ghost predicate Valid()
      reads this
    {
      && |appended| == |pending|
      && forall t :: 0 <= t < |pending| ==> Committed(inserts, t) + pending[t] == appended[t]
    }

    constructor (tables: nat)
      ensures Valid()
      ensures |pending| == tables && forall t :: 0 <= t < tables ==> pending[t] == []
      ensures inserts == [] && appended == pending
    {
      pending := seq(tables, _ => []);
      inserts := [];
      appended := pending;
    }

    /** `table_l.append(row)`. */
    method Append(t: nat, r: R)
      requires Valid() && t < |pending|
      modifies this
      ensures Valid()
      ensures pending == Add(old(pending), t, r)
      ensures appended == Add(old(appended), t, r)
      ensures inserts == old(inserts)
    {
      pending := pending[t := pending[t] + [r]];
      appended := appended[t := appended[t] + [r]];
      forall u | 0 <= u < |pending|
        ensures Committed(inserts, u) + pending[u] == appended[u]
      {
        if u == t {
          assert Committed(inserts, u) + old(pending)[u] == old(appended)[u];
        } else {
          assert pending[u] == old(pending)[u] && appended[u] == old(appended)[u];
        }
      }
    }

    /** `save_all()` with `n_to_commit == threshold`: insert and empty every
        buffer holding more than `threshold` rows, leave the others alone. */
    method SaveAll(threshold: nat)
      requires Valid()
      modifies this
      ensures Valid()
      ensures pending == Flushed(old(pending), threshold)
      ensures inserts == old(inserts) + Batches(old(pending), threshold)
      ensures appended == old(appended)
    {
      ghost var log, p := inserts, pending;
      Flush(threshold);
      FlushKeepsRows(log, p, appended, threshold);
    }

    /** The loop of `save_all` over `all_l`. */
    method Flush(threshold: nat)
      modifies this
      ensures pending == Flushed(old(pending), threshold)
      ensures inserts == old(inserts) + Batches(old(pending), threshold)
      ensures appended == old(appended)
    {
      ghost var p := pending;
      var i := 0;
      while i < |pending|
        invariant 0 <= i <= |pending| == |p|
        invariant forall t :: 0 <= t < i ==> pending[t] == if |p[t]| > threshold then [] else p[t]
        invariant forall t :: i <= t < |pending| ==> pending[t] == p[t]
        invariant inserts == old(inserts) + Batches(p[..i], threshold)
        invariant appended == old(appended)
      {
        BatchesSnoc(p, i, threshold);
        if |pending[i]| > threshold {
          inserts := inserts + [Batch(i, pending[i])];
          pending := pending[i := []];
        }
        i := i + 1;
      }
      assert p[..i] == p;
      assert pending == Flushed(p, threshold);
    }
  }
}
