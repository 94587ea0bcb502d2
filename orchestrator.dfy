/** The batch loop of the run: for each batch, collect the DeepSeek and then
    the Gemini answers for its labels, merge them, and write each merged row
    through one lazily created CSV writer. */
module Orchestrator {
  import opened Common
  import opened Extractor
  import opened LabelFilter
  import opened Batching
  import opened Reconciler

  /** The indices 0, 1, ..., n - 1. */
  function Range(n: nat): (r: seq<nat>)
    ensures |r| == n
    ensures forall j :: 0 <= j < n ==> r[j] == j
  {
    if n == 0 then [] else Range(n - 1) + [n - 1]
  }

  /** `order` lists every index below `n` exactly once. */
  predicate IsPermutation(order: seq<nat>, n: nat)
  {
    multiset(order) == multiset(Range(n))
  }

  /** Every entry of `order` is below `n`. */
  predicate Below(order: seq<nat>, n: nat)
  {
    forall j :: 0 <= j < |order| ==> order[j] < n
  }

  lemma PermutationBounds(order: seq<nat>, n: nat)
    requires IsPermutation(order, n)
    ensures Below(order, n)
  {
    forall j | 0 <= j < |order| ensures order[j] < n {
      assert order[j] in multiset(order);
      assert order[j] in Range(n);
    }
  }

  /** The lists `L[order[0]]`, `L[order[1]]`, ... joined in that order. */
  function Gather<T>(L: seq<seq<T>>, order: seq<nat>): seq<T>
    requires Below(order, |L|)
  {
    if order == [] then []
    else Gather(L, order[..|order| - 1]) + L[order[|order| - 1]]
  }

  lemma {:induction false} GatherAppend<T>(L: seq<seq<T>>, a: seq<nat>, b: seq<nat>)
    requires Below(a, |L|) && Below(b, |L|)
    ensures Below(a + b, |L|)
    ensures Gather(L, a + b) == Gather(L, a) + Gather(L, b)
    decreases |b|
  {
    if b == [] {
      assert a + b == a;
    } else {
      var b', y := b[..|b| - 1], b[|b| - 1];
      SnocSplit(a, b);
      GatherAppend(L, a, b');
      GatherSnoc(L, a + b', y);
      GatherSnoc(L, b', y);
    }
  }

  lemma SnocSplit<X>(a: seq<X>, b: seq<X>)
    requires b != []
    ensures b == b[..|b| - 1] + [b[|b| - 1]]
    ensures a + b == (a + b[..|b| - 1]) + [b[|b| - 1]]
  {
  }

  /** Taking the last index of `a` out of `b` as well: what is left of the
      two has equal multisets again. */
  lemma PickOut(a: seq<nat>, b: seq<nat>, n: nat) returns (x: nat, b1: seq<nat>, b2: seq<nat>)
    requires a != [] && multiset(a) == multiset(b) && Below(a, n) && Below(b, n)
    ensures a == a[..|a| - 1] + [x] && b == b1 + [x] + b2 && x < n
    ensures Below(a[..|a| - 1], n) && Below(b1, n) && Below(b2, n)
    ensures multiset(a[..|a| - 1]) == multiset(b1 + b2)
  {
    x := a[|a| - 1];
    assert a == a[..|a| - 1] + [x];
    assert x in multiset(b);
    var k :| 0 <= k < |b| && b[k] == x;
    b1, b2 := b[..k], b[k + 1..];
    assert b == b1 + [x] + b2;
    RemoveOne(a[..|a| - 1], x, b1, b2);
  }

  /** Taking the same element out of two equal multisets leaves equal
      multisets. */
  lemma RemoveOne(a: seq<nat>, x: nat, b1: seq<nat>, b2: seq<nat>)
    requires multiset(a + [x]) == multiset(b1 + [x] + b2)
    ensures multiset(a) == multiset(b1 + b2)
  {
    calc {
      multiset(a) + multiset{x};
      multiset(a + [x]);
      multiset(b1 + [x] + b2);
      multiset(b1 + b2) + multiset{x};
    }
    forall e ensures multiset(b1 + b2)[e] == multiset(a)[e] {
      assert (multiset(a) + multiset{x})[e] == (multiset(b1 + b2) + multiset{x})[e];
    }
  }

  /** The order in which the lists are joined does not change which
      elements are collected, nor how often. */
  lemma {:induction false} GatherPermuted<T>(L: seq<seq<T>>, a: seq<nat>, b: seq<nat>)
    requires Below(a, |L|) && Below(b, |L|)
    requires multiset(a) == multiset(b)
    ensures multiset(Gather(L, a)) == multiset(Gather(L, b))
    decreases |a|
  {
    if a != [] {
      var a' := a[..|a| - 1];
      var x, b1, b2 := PickOut(a, b, |L|);
      GatherAppend(L, b1, b2);
      GatherPermuted(L, a', b1 + b2);
      GatherPermutedStep(L, a', x, b1, b2);
    }
  }

  /** Inserting the same block at the end of one sequence and in the
      middle of another keeps their multisets equal. */
  lemma MultisetMiddle<T>(ga: seq<T>, g1: seq<T>, m: seq<T>, g2: seq<T>)
    requires multiset(ga) == multiset(g1 + g2)
    ensures multiset(ga + m) == multiset(g1 + m + g2)
  {
    forall e ensures multiset(ga + m)[e] == multiset(g1 + m + g2)[e] {
      assert multiset(ga)[e] == multiset(g1)[e] + multiset(g2)[e];
    }
  }

  lemma GatherSnoc<T>(L: seq<seq<T>>, a: seq<nat>, x: nat)
    requires Below(a, |L|) && x < |L|
    ensures Below(a + [x], |L|)
    ensures Gather(L, a + [x]) == Gather(L, a) + L[x]
  {
    assert (a + [x])[..|a|] == a;
  }

  lemma GatherPermutedStep<T>(L: seq<seq<T>>, a: seq<nat>, x: nat, b1: seq<nat>, b2: seq<nat>)
    requires Below(a, |L|) && Below(b1, |L|) && Below(b2, |L|) && x < |L|
    requires Below(b1 + b2, |L|)
    requires multiset(Gather(L, a)) == multiset(Gather(L, b1 + b2))
    ensures Below(a + [x], |L|) && Below(b1 + [x] + b2, |L|)
    ensures multiset(Gather(L, a + [x])) == multiset(Gather(L, b1 + [x] + b2))
  {
    GatherSplit(L, b1, x, b2);
    GatherSnoc(L, a, x);
    MultisetMiddle(Gather(L, a), Gather(L, b1), L[x], Gather(L, b2));
  }

  /** Taking one index out of the middle of an order takes its list out of
      the middle of the gathered sequence. */
  lemma GatherSplit<T>(L: seq<seq<T>>, b1: seq<nat>, x: nat, b2: seq<nat>)
    requires Below(b1, |L|) && Below(b2, |L|) && x < |L|
    ensures Below(b1 + [x] + b2, |L|) && Below(b1 + b2, |L|)
    ensures Gather(L, b1 + [x] + b2) == Gather(L, b1) + L[x] + Gather(L, b2)
    ensures Gather(L, b1 + b2) == Gather(L, b1) + Gather(L, b2)
  {
    GatherSnoc(L, b1, x);
    GatherAppend(L, b1, b2);
    GatherAppend(L, b1 + [x], b2);
  }

  lemma {:induction false} GatherRange<T>(L: seq<seq<T>>, n: nat)
    requires n <= |L|
    ensures Below(Range(n), |L|)
    ensures Gather(L, Range(n)) == Concat(L[..n])
  {
    if n > 0 {
      GatherRange(L, n - 1);
      assert Range(n) == Range(n - 1) + [n - 1];
      GatherSnoc(L, Range(n - 1), n - 1);
      ConcatSnoc(L, n - 1);
    }
  }

  /** What one provider sent back for the labels of one batch: the raw
      response to the call for label `i` (None where the HTTP exchange
      failed), and the order in which the calls completed. */
  datatype ProviderRound = ProviderRound(responses: seq<Option<string>>, arrival: seq<nat>)
  {
    predicate Fits(n: nat)
    {
      |responses| == n && IsPermutation(arrival, n)
    }
  }

  /** The records each label's call contributed, in label order. */
  function PerLabel(responses: seq<Option<string>>, parse: Decoder): (L: seq<seq<Record>>)
    ensures |L| == |responses|
  {
    if responses == [] then []
    else PerLabel(responses[..|responses| - 1], parse) + [SafeRecords(responses[|responses| - 1], parse)]
  }

  /** Entry `k` is what the call for label `k` returned. */
  lemma {:induction false} PerLabelAt(responses: seq<Option<string>>, parse: Decoder, k: nat)
    requires k < |responses|
    ensures PerLabel(responses, parse)[k] == SafeRecords(responses[k], parse)
  {
    if k < |responses| - 1 {
      var front := responses[..|responses| - 1];
      PerLabelAt(front, parse, k);
    }
  }

  /** `ds_results` / `gm_results`: the per-label record lists joined in the
      order the calls completed. */
  function Collected(round: ProviderRound, parse: Decoder): seq<Record>
    requires round.Fits(|round.responses|)
  {
    PermutationBounds(round.arrival, |round.responses|);
    Gather(PerLabel(round.responses, parse), round.arrival)
  }

  /** Whatever order the calls complete in, the collected records are
      exactly the per-label records, each as often as it was returned. */
  lemma ArrivalOrderIrrelevant(round: ProviderRound, parse: Decoder)
    requires round.Fits(|round.responses|)
    ensures multiset(Collected(round, parse)) == multiset(Concat(PerLabel(round.responses, parse)))
  {
    var L := PerLabel(round.responses, parse);
    PermutationBounds(round.arrival, |L|);
    GatherRange(L, |L|);
    GatherPermuted(L, round.arrival, Range(|L|));
    assert L[..|L|] == L;
  }

  /** Lines 206-208: one call per label, submitted in label order; each
      call's outcome is what its future will yield. */
  method SubmitAll(responses: seq<Option<string>>, parse: Decoder)
    returns (futures: seq<seq<Record>>)
    ensures futures == PerLabel(responses, parse)
  {
    futures := [];
    var i := 0;
    while i < |responses|
      invariant 0 <= i <= |responses|
      invariant futures == PerLabel(responses[..i], parse)
    {
      futures := SubmitOne(futures, responses, i, parse);
      i := i + 1;
    }
    assert responses[..i] == responses;
  }

  /** One submission of the loop above: the call for label `i`. */
  method SubmitOne(futures: seq<seq<Record>>, responses: seq<Option<string>>, i: nat, parse: Decoder)
    returns (next: seq<seq<Record>>)
    requires i < |responses| && futures == PerLabel(responses[..i], parse)
    ensures next == PerLabel(responses[..i + 1], parse)
  {
    var records := CallSafe(responses[i], parse);
    assert responses[..i + 1][..i] == responses[..i];
    next := futures + [records];
  }

  /** Lines 209-215: `as_completed` hands the futures back in `order`, and
      each result list is appended as it arrives. */
  method CollectInOrder<T>(futures: seq<seq<T>>, order: seq<nat>) returns (results: seq<T>)
    requires Below(order, |futures|)
    ensures results == Gather(futures, order)
  {
    results := [];
    var j := 0;
    while j < |order|
      invariant 0 <= j <= |order|
      invariant Below(order[..j], |futures|)
      invariant results == Gather(futures, order[..j])
    {
      assert order[..j + 1] == order[..j] + [order[j]];
      GatherSnoc(futures, order[..j], order[j]);
      results := results + futures[order[j]];
      j := j + 1;
    }
    assert order[..j] == order;
  }

  /** Lines 206-215: every label's call, with the results joined in the
      order the calls completed. */
  method FanIn(round: ProviderRound, parse: Decoder) returns (results: seq<Record>)
    requires round.Fits(|round.responses|)
    ensures results == Collected(round, parse)
    ensures multiset(results) == multiset(Concat(PerLabel(round.responses, parse)))
  {
    var futures := SubmitAll(round.responses, parse);
    PermutationBounds(round.arrival, |futures|);
    results := CollectInOrder(futures, round.arrival);
    ArrivalOrderIrrelevant(round, parse);
  }

  /** The rows one batch writes: every DeepSeek record, in the order the
      DeepSeek calls completed, merged with the Gemini index. */
  function BatchRows(ds: ProviderRound, gm: ProviderRound, parse: Decoder): (rows: seq<Record>)
    requires ds.Fits(|ds.responses|) && gm.Fits(|gm.responses|)
    ensures |rows| == |Collected(ds, parse)|
  {
    MergeAll(Collected(ds, parse), GeminiIndex(Collected(gm, parse)))
  }

  /** The output file as the run sees it: whether it exists, the writer
      (its field names, once created), the header lines written and the
      rows handed to `writerow`. */
  class OutputSink {
    ghost const existedAtStart: bool
    var fileExists: bool
    var fieldnames: Option<set<string>>
    var headerWrites: nat
    var rows: seq<Record>

    /** The writer exists once a row has been written and its field names
        are the first row's keys; every written row fits them; the header
        was written once if the file was new and a row was written, and
        never otherwise. */
    ghost predicate Valid()
      reads this
    {
      && (fieldnames.None? <==> rows == [])
      && (rows != [] ==> fieldnames == Some(rows[0].Keys))
      && (fieldnames.Some? ==> forall i :: 0 <= i < |rows| ==> rows[i].Keys <= fieldnames.value)
      && headerWrites == (if !existedAtStart && rows != [] then 1 else 0)
      && fileExists == (existedAtStart || rows != [])
    }

    /** Line 183 and 197: the existence check and `writer = None`. */
    constructor (existed: bool)
      ensures Valid() && existedAtStart == existed
      ensures rows == [] && headerWrites == 0
    {
      existedAtStart := existed;
      fileExists := existed;
      fieldnames := None;
      headerWrites := 0;
      rows := [];
    }

    /** Lines 234-240: create the writer from the first row's keys, writing
        the header if the file did not exist, then write the row.
        `writerow` refuses (raises) a row with a key outside the field
        names. */
    method WriteRow(row: Record) returns (ok: bool)
      requires Valid()
      modifies this
      ensures Valid()
      ensures old(fieldnames).Some? ==> fieldnames == old(fieldnames)
      ensures ok <==> old(rows) == [] || row.Keys <= old(fieldnames).value
      ensures rows == if ok then old(rows) + [row] else old(rows)
    {
      if fieldnames.None? {
        fieldnames := Some(row.Keys);
        if !fileExists {
          headerWrites := headerWrites + 1;
          fileExists := true;
        }
      }
      ok := row.Keys <= fieldnames.value;
      if ok {
        rows := rows + [row];
      }
    }
  }

  /** Lines 234-240 repeated: write the rows in order through the sink,
      stopping at the first row `writerow` refuses. */
  method WriteRows(sink: OutputSink, rows: seq<Record>) returns (ok: bool, written: nat)
    requires sink.Valid()
    modifies sink
    ensures sink.Valid()
    ensures written <= |rows|
    ensures sink.rows == old(sink.rows) + rows[..written]
    ensures ok <==> written == |rows|
    ensures !ok ==> sink.fieldnames.Some? && !(rows[written].Keys <= sink.fieldnames.value)
  {
    written := 0;
    while written < |rows|
      invariant 0 <= written <= |rows|
      invariant sink.Valid()
      invariant sink.rows == old(sink.rows) + rows[..written]
    {
      var accepted := sink.WriteRow(rows[written]);
      if !accepted {
        return false, written;
      }
      assert rows[..written + 1] == rows[..written] + [rows[written]];
      written := written + 1;
    }
    assert rows[..written] == rows;
    return true, written;
  }

  /** Lines 203-242 for one batch: collect both providers' records, index
      the Gemini ones, and write each merged DeepSeek record. `written`
      counts the rows written; the batch stops early only when `writerow`
      refuses a row. The source merges each record just before writing
      it; merging is pure, so merging the batch first writes the same
      rows. */
  method ProcessBatch(sink: OutputSink, batch: seq<string>, ds: ProviderRound, gm: ProviderRound,
                      parse: Decoder)
    returns (ok: bool, written: nat)
    requires sink.Valid() && ds.Fits(|batch|) && gm.Fits(|batch|)
    modifies sink
    ensures sink.Valid()
    ensures written <= |BatchRows(ds, gm, parse)|
    ensures sink.rows == old(sink.rows) + BatchRows(ds, gm, parse)[..written]
    ensures ok <==> written == |BatchRows(ds, gm, parse)|
    ensures !ok ==> sink.fieldnames.Some?
                    && !(BatchRows(ds, gm, parse)[written].Keys <= sink.fieldnames.value)
  {
    var dsResults := FanIn(ds, parse);
    var gmResults := FanIn(gm, parse);
    var index := GeminiIndex(gmResults);
    var merged := MergeAll(dsResults, index);
    ok, written := WriteRows(sink, merged);
  }

  /** The answers for every batch fit the batches of `devices`. */
  predicate RoundsFit(devices: seq<string>, rounds: seq<ProviderRound>)
  {
    && |rounds| == |Batches(devices, BatchSize)|
    && forall b :: 0 <= b < |rounds| ==> rounds[b].Fits(|Batches(devices, BatchSize)[b]|)
  }

  predicate RoundsWellFormed(ds: seq<ProviderRound>, gm: seq<ProviderRound>)
  {
    && |ds| == |gm|
    && (forall b :: 0 <= b < |ds| ==> ds[b].Fits(|ds[b].responses|))
    && (forall b :: 0 <= b < |gm| ==> gm[b].Fits(|gm[b].responses|))
  }

  /** The rows of each batch, batch by batch. */
  function PerBatch(ds: seq<ProviderRound>, gm: seq<ProviderRound>, parse: Decoder)
    : (L: seq<seq<Record>>)
    requires RoundsWellFormed(ds, gm)
    ensures |L| == |ds|
  {
    seq(|ds|, b requires 0 <= b < |ds| => BatchRows(ds[b], gm[b], parse))
  }

  /** Every row of the run, batch after batch. */
  function RunRows(ds: seq<ProviderRound>, gm: seq<ProviderRound>, parse: Decoder): seq<Record>
    requires RoundsWellFormed(ds, gm)
  {
    Concat(PerBatch(ds, gm, parse))
  }

  /** The concatenation of the first `b` lists is a prefix of the whole. */
  lemma ConcatPrefix<T>(L: seq<seq<T>>, b: nat)
    requires b <= |L|
    ensures Concat(L[..b]) <= Concat(L)
  {
    assert L == L[..b] + L[b..];
    ConcatAppend(L[..b], L[b..]);
  }

  /** One pass of the batch loop: process the batch starting at `i`,
      which is batch `b` of the run. */
  method RunBatchAt(sink: OutputSink, devices: seq<string>, ds: seq<ProviderRound>, gm: seq<ProviderRound>,
                    parse: Decoder, i: nat, b: nat)
    returns (ok: bool)
    requires RoundsFit(devices, ds) && RoundsFit(devices, gm)
    requires i < |devices| && b <= |Batches(devices, BatchSize)|
    requires BatchesFrom(devices, BatchSize, i) == Batches(devices, BatchSize)[b..]
    requires RoundsWellFormed(ds, gm)
    requires sink.Valid() && sink.rows == Concat(PerBatch(ds, gm, parse)[..b])
    modifies sink
    ensures sink.Valid()
    ensures b < |ds| && BatchesFrom(devices, BatchSize, i + BatchSize) == Batches(devices, BatchSize)[b + 1..]
    ensures sink.rows <= RunRows(ds, gm, parse)
    ensures ok ==> sink.rows == Concat(PerBatch(ds, gm, parse)[..b + 1])
    ensures !ok ==> && |sink.rows| < |RunRows(ds, gm, parse)|
                    && sink.fieldnames.Some?
                    && !(RunRows(ds, gm, parse)[|sink.rows|].Keys <= sink.fieldnames.value)
  {
    ghost var L := PerBatch(ds, gm, parse);
    NextBatch(devices, i, Batches(devices, BatchSize), b);
    var batch := devices[i..Min(i + BatchSize, |devices|)];
    assert L[b] == BatchRows(ds[b], gm[b], parse);
    var written;
    ok, written := ProcessBatch(sink, batch, ds[b], gm[b], parse);
    RowsAfterBatch(L, b, written);
  }

  /** Lines 196-244: the batch loop over `range(0, len(devices), BATCH_SIZE)`.
      The rows written are the run's rows in batch order, all of them
      unless `writerow` refused one, in which case the run ends there; the
      header is written at most once and never to a file that existed. */
  method RunBatches(sink: OutputSink, devices: seq<string>, ds: seq<ProviderRound>, gm: seq<ProviderRound>,
                    parse: Decoder)
    returns (completed: bool)
    requires sink.Valid() && sink.rows == []
    requires RoundsFit(devices, ds) && RoundsFit(devices, gm)
    modifies sink
    ensures sink.Valid()
    ensures RoundsWellFormed(ds, gm)
    ensures sink.rows <= RunRows(ds, gm, parse)
    ensures completed <==> sink.rows == RunRows(ds, gm, parse)
    ensures !completed ==> && |sink.rows| < |RunRows(ds, gm, parse)|
                           && sink.fieldnames.Some?
                           && !(RunRows(ds, gm, parse)[|sink.rows|].Keys <= sink.fieldnames.value)
    ensures sink.headerWrites <= 1 && (sink.existedAtStart ==> sink.headerWrites == 0)
  {
    assert RoundsWellFormed(ds, gm);
    ghost var L := PerBatch(ds, gm, parse);
    var i := 0;
    var b := 0;
    while i < |devices|
      invariant 0 <= b <= |ds|
      invariant BatchesFrom(devices, BatchSize, i) == Batches(devices, BatchSize)[b..]
      invariant sink.Valid()
      invariant sink.rows == Concat(L[..b])
      decreases |devices| - i
    {
      var ok := RunBatchAt(sink, devices, ds, gm, parse, i, b);
      if !ok {
        return false;
      }
      i := i + BatchSize;
      b := b + 1;
    }
    assert BatchesFrom(devices, BatchSize, i) == [];
    assert L[..b] == L;
    return true;
  }

  /** The batch starting at `i` is batch `b`, and the rest follow it. */
  lemma NextBatch(devices: seq<string>, i: nat, all: seq<seq<string>>, b: nat)
    requires i < |devices| && b <= |all|
    requires BatchesFrom(devices, BatchSize, i) == all[b..]
    ensures b < |all| && all[b] == devices[i..Min(i + BatchSize, |devices|)]
    ensures BatchesFrom(devices, BatchSize, i + BatchSize) == all[b + 1..]
  {
    assert all[b..][0] == all[b];
    assert all[b..][1..] == all[b + 1..];
  }

  /** After batch `b` wrote its first `written` rows, the output is a
      prefix of the whole run; when it wrote them all it holds the first
      `b + 1` batches, and otherwise the next row of the run is the
      batch's refused row. */
  lemma RowsAfterBatch<T>(L: seq<seq<T>>, b: nat, written: nat)
    requires b < |L| && written <= |L[b]|
    ensures Concat(L[..b]) + L[b][..written] <= Concat(L)
    ensures written == |L[b]| ==> Concat(L[..b]) + L[b][..written] == Concat(L[..b + 1])
    ensures written < |L[b]| ==> && |Concat(L[..b]) + L[b][..written]| < |Concat(L)|
                                 && Concat(L)[|Concat(L[..b]) + L[b][..written]|] == L[b][written]
  {
    ConcatSnoc(L, b);
    ConcatPrefix(L, b + 1);
    assert L[b][..|L[b]|] == L[b];
    var p := Concat(L[..b]);
    assert Concat(L[..b + 1]) == p + L[b];
    if written < |L[b]| {
      assert (p + L[b])[|p| + written] == L[b][written];
    }
  }

  /** The whole run: select the labels, open the output, process every
      batch. `existed` is whether the output file existed at start. */
  method Run(input: seq<RawRow>, existed: bool, ds: seq<ProviderRound>, gm: seq<ProviderRound>,
             parse: Decoder)
    returns (sink: OutputSink, completed: bool)
    requires RoundsFit(KeptLabels(input), ds) && RoundsFit(KeptLabels(input), gm)
    ensures sink.Valid() && sink.existedAtStart == existed
    ensures RoundsWellFormed(ds, gm)
    ensures completed <==> sink.rows == RunRows(ds, gm, parse)
    ensures sink.rows <= RunRows(ds, gm, parse)
    ensures !completed ==> && |sink.rows| < |RunRows(ds, gm, parse)|
                           && sink.fieldnames.Some?
                           && !(RunRows(ds, gm, parse)[|sink.rows|].Keys <= sink.fieldnames.value)
    ensures sink.headerWrites == (if !existed && sink.rows != [] then 1 else 0)
  {
    var devices := SelectLabels(input);
    sink := new OutputSink(existed);
    completed := RunBatches(sink, devices, ds, gm, parse);
  }
}
