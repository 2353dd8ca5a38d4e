/**
 * `GoogleSheetsService`: the worksheet is a table of text cells; reading it is
 * `get_all_values()`, and the service's whole-table passes decide what, if
 * anything, is written back.
 */
module Sheets {
  import opened Wrappers
  import opened Seqs
  import opened Text
  import opened LinkVerification
  import opened Workflow
  import opened ContactExtraction

  /** The remote worksheet: its cells, row by row, and how many write requests it has received. */
  class Worksheet {
    var values: seq<seq<string>>
    var writes: nat

    constructor (values: seq<seq<string>>)
      ensures this.values == values && writes == 0
    {
      this.values := values;
      writes := 0;
    }

    /** `clear()` */
    method Clear()
      modifies this
      ensures values == [] && writes == old(writes) + 1
    {
      values := [];
      writes := writes + 1;
    }

    /** `update(rows)` on a cleared sheet: the rows are written from the top-left cell. */
    method Update(rows: seq<seq<string>>)
      requires values == []
      modifies this
      ensures values == rows && writes == old(writes) + 1
    {
      values := rows;
      writes := writes + 1;
    }

    /** `append_row(row)` */
    method AppendRow(row: seq<string>)
      modifies this
      ensures values == old(values) + [row] && writes == old(writes) + 1
    {
      values := values + [row];
      writes := writes + 1;
    }

    /** `append_rows(rows)` */
    method AppendRows(rows: seq<seq<string>>)
      modifies this
      ensures values == old(values) + rows && writes == old(writes) + 1
    {
      values := values + rows;
      writes := writes + 1;
    }
  }

  // ---------------------------------------------------------------------------
  // `remove_duplicates`: what the pass sees of each data row.
  // ---------------------------------------------------------------------------

  /** `row[0].strip().lower() if row[0] else ""` */
  function FirstColumnKey(row: seq<string>): string
    requires row != []
  {
    if row[0] == [] then [] else Lower(Strip(row[0]))
  }

  /** A data row as the pass classifies it: empty (dropped), with an empty key (always
      kept), or with a key (kept the first time the key is seen). */
  datatype Entry = EmptyRow | Unnamed(row: seq<string>) | Named(key: string, row: seq<string>)

  function EntryOf(row: seq<string>): Entry {
    if row == [] then EmptyRow
    else if FirstColumnKey(row) == [] then Unnamed(row)
    else Named(FirstColumnKey(row), row)
  }

  function Entries(rows: seq<seq<string>>): (es: seq<Entry>)
    ensures |es| == |rows|
  {
    seq(|rows|, i requires 0 <= i < |rows| => EntryOf(rows[i]))
  }

  /** The entries kept by the pass, `seen` the keys met so far. */
  function KeepFirst(es: seq<Entry>, seen: set<string>): seq<Entry>
    decreases |es|
  {
    if es == [] then []
    else match es[0]
      case EmptyRow => KeepFirst(es[1..], seen)
      case Unnamed(_) => [es[0]] + KeepFirst(es[1..], seen)
      case Named(key, _) =>
        if key !in seen then [es[0]] + KeepFirst(es[1..], seen + {key})
        else KeepFirst(es[1..], seen)
  }

  /** `duplicates_removed` */
  function Duplicates(es: seq<Entry>, seen: set<string>): nat
    decreases |es|
  {
    if es == [] then 0
    else match es[0]
      case Named(key, _) =>
        if key !in seen then Duplicates(es[1..], seen + {key}) else 1 + Duplicates(es[1..], seen)
      case _ => Duplicates(es[1..], seen)
  }

  /** The row an entry stands for. */
  function RowOf(e: Entry): seq<string> {
    match e
    case EmptyRow => []
    case Unnamed(row) => row
    case Named(_, row) => row
  }

  function RowsOf(es: seq<Entry>): (rows: seq<seq<string>>)
    ensures |rows| == |es|
  {
    seq(|es|, k requires 0 <= k < |es| => RowOf(es[k]))
  }

  /** The entry at `i` is kept: it has an empty key, or a key not already seen and not
      carried by any earlier row. */
  ghost predicate IsKept(es: seq<Entry>, seen: set<string>, i: int)
    requires 0 <= i < |es|
  {
    es[i].Unnamed?
    || (es[i].Named? && es[i].key !in seen && forall j :: 0 <= j < i && es[j].Named? ==> es[j].key != es[i].key)
  }

  /** `idx` lists, in increasing order, the positions of `es` whose entries are kept. */
  ghost predicate KeptPositions(es: seq<Entry>, seen: set<string>, kept: seq<Entry>, idx: seq<nat>) {
    |idx| == |kept|
    && (forall j, k :: 0 <= j < k < |idx| ==> idx[j] < idx[k])
    && (forall k :: 0 <= k < |idx| ==> idx[k] < |es| && kept[k] == es[idx[k]] && IsKept(es, seen, idx[k]))
    && (forall i :: 0 <= i < |es| && IsKept(es, seen, i) ==> i in idx)
  }

  /** The seen keys after the first entry. */
  function SeenAfter(e: Entry, seen: set<string>): set<string> {
    if e.Named? && e.key !in seen then seen + {e.key} else seen
  }

  /** The kept entries are exactly the entries satisfying `IsKept`, in their original order. */
  lemma {:induction false} KeepFirstIsFilter(es: seq<Entry>, seen: set<string>) returns (idx: seq<nat>)
    ensures KeptPositions(es, seen, KeepFirst(es, seen), idx)
    decreases |es|
  {
    if es == [] {
      idx := [];
    } else {
      var rest := KeepFirstIsFilter(es[1..], SeenAfter(es[0], seen));
      idx := LiftPositions(es, seen, rest);
    }
  }

  /** From the kept positions of the tail to those of the whole sequence. */
  lemma LiftPositions(es: seq<Entry>, seen: set<string>, rest: seq<nat>) returns (idx: seq<nat>)
    requires es != []
    requires KeptPositions(es[1..], SeenAfter(es[0], seen), KeepFirst(es[1..], SeenAfter(es[0], seen)), rest)
    ensures KeptPositions(es, seen, KeepFirst(es, seen), idx)
  {
    forall i | 0 < i < |es| ensures IsKept(es, seen, i) <==> IsKept(es[1..], SeenAfter(es[0], seen), i - 1) {
      KeptShift(es, seen, SeenAfter(es[0], seen), i);
    }
    if es[0].EmptyRow? || (es[0].Named? && es[0].key in seen) {
      idx := LiftSkipped(es, seen, rest);
    } else {
      idx := LiftKept(es, seen, rest);
    }
  }

  lemma LiftSkipped(es: seq<Entry>, seen: set<string>, rest: seq<nat>) returns (idx: seq<nat>)
    requires es != [] && (es[0].EmptyRow? || (es[0].Named? && es[0].key in seen))
    requires KeptPositions(es[1..], seen, KeepFirst(es[1..], seen), rest)
    requires forall i :: 0 < i < |es| ==> (IsKept(es, seen, i) <==> IsKept(es[1..], seen, i - 1))
    ensures KeptPositions(es, seen, KeepFirst(es, seen), idx)
  {
    idx := Lift(rest);
    LiftSkippedCells(es, seen, rest);
    LiftSkippedComplete(es, seen, rest);
  }

  lemma LiftSkippedCells(es: seq<Entry>, seen: set<string>, rest: seq<nat>)
    requires es != [] && (es[0].EmptyRow? || (es[0].Named? && es[0].key in seen))
    requires KeptPositions(es[1..], seen, KeepFirst(es[1..], seen), rest)
    requires forall i :: 0 < i < |es| ==> (IsKept(es, seen, i) <==> IsKept(es[1..], seen, i - 1))
    ensures var idx, kept := Lift(rest), KeepFirst(es, seen);
      |idx| == |kept|
      && (forall j, k :: 0 <= j < k < |idx| ==> idx[j] < idx[k])
      && forall k :: 0 <= k < |idx| ==> idx[k] < |es| && kept[k] == es[idx[k]] && IsKept(es, seen, idx[k])
  {
    var tail := es[1..];
    assert KeepFirst(es, seen) == KeepFirst(tail, seen);
    forall k | 0 <= k < |rest| ensures es[rest[k] + 1] == tail[rest[k]] {
    }
  }

  lemma LiftSkippedComplete(es: seq<Entry>, seen: set<string>, rest: seq<nat>)
    requires es != [] && (es[0].EmptyRow? || (es[0].Named? && es[0].key in seen))
    requires KeptPositions(es[1..], seen, KeepFirst(es[1..], seen), rest)
    requires forall i :: 0 < i < |es| ==> (IsKept(es, seen, i) <==> IsKept(es[1..], seen, i - 1))
    ensures forall i :: 0 <= i < |es| && IsKept(es, seen, i) ==> i in Lift(rest)
  {
    forall i | 0 <= i < |es| && IsKept(es, seen, i) ensures i in Lift(rest) {
      var k := IndexIn(rest, i - 1);
      assert Lift(rest)[k] == i;
    }
  }

  lemma LiftKept(es: seq<Entry>, seen: set<string>, rest: seq<nat>) returns (idx: seq<nat>)
    requires es != [] && (es[0].Unnamed? || (es[0].Named? && es[0].key !in seen))
    requires KeptPositions(es[1..], SeenAfter(es[0], seen), KeepFirst(es[1..], SeenAfter(es[0], seen)), rest)
    requires forall i :: 0 < i < |es| ==> (IsKept(es, seen, i) <==> IsKept(es[1..], SeenAfter(es[0], seen), i - 1))
    ensures KeptPositions(es, seen, KeepFirst(es, seen), idx)
  {
    idx := [0] + Lift(rest);
    LiftOrdered(rest);
    LiftKeptCells(es, seen, rest);
    LiftKeptComplete(es, seen, rest);
  }

  /** Positions in `es[1..]` shifted to positions in `es`. */
  function Lift(rest: seq<nat>): (r: seq<nat>)
    ensures |r| == |rest| && forall k :: 0 <= k < |rest| ==> r[k] == rest[k] + 1
  {
    seq(|rest|, k requires 0 <= k < |rest| => rest[k] + 1)
  }

  lemma LiftOrdered(rest: seq<nat>)
    requires forall j, k :: 0 <= j < k < |rest| ==> rest[j] < rest[k]
    ensures var idx := [0] + Lift(rest); forall j, k :: 0 <= j < k < |idx| ==> idx[j] < idx[k]
  {
    var idx := [0] + Lift(rest);
    forall k | 0 < k < |idx| ensures idx[k] == rest[k - 1] + 1 {
      assert idx[k] == Lift(rest)[k - 1];
    }
  }

  lemma LiftKeptCells(es: seq<Entry>, seen: set<string>, rest: seq<nat>)
    requires es != [] && (es[0].Unnamed? || (es[0].Named? && es[0].key !in seen))
    requires KeptPositions(es[1..], SeenAfter(es[0], seen), KeepFirst(es[1..], SeenAfter(es[0], seen)), rest)
    requires forall i :: 0 < i < |es| ==> (IsKept(es, seen, i) <==> IsKept(es[1..], SeenAfter(es[0], seen), i - 1))
    ensures var idx, kept := [0] + Lift(rest), KeepFirst(es, seen);
      |idx| == |kept|
      && forall k :: 0 <= k < |idx| ==> idx[k] < |es| && kept[k] == es[idx[k]] && IsKept(es, seen, idx[k])
  {
    var kept := KeepFirst(es, seen);
    assert kept == [es[0]] + KeepFirst(es[1..], SeenAfter(es[0], seen));
    forall k | 0 < k < |rest| + 1
      ensures ([0] + Lift(rest))[k] < |es| && kept[k] == es[([0] + Lift(rest))[k]] && IsKept(es, seen, ([0] + Lift(rest))[k])
    {
      LiftKeptCell(es, seen, rest, k);
    }
  }

  lemma LiftKeptCell(es: seq<Entry>, seen: set<string>, rest: seq<nat>, k: nat)
    requires es != [] && (es[0].Unnamed? || (es[0].Named? && es[0].key !in seen))
    requires KeptPositions(es[1..], SeenAfter(es[0], seen), KeepFirst(es[1..], SeenAfter(es[0], seen)), rest)
    requires forall i :: 0 < i < |es| ==> (IsKept(es, seen, i) <==> IsKept(es[1..], SeenAfter(es[0], seen), i - 1))
    requires 0 < k < |rest| + 1
    ensures var idx, kept := [0] + Lift(rest), KeepFirst(es, seen);
      idx[k] < |es| && kept[k] == es[idx[k]] && IsKept(es, seen, idx[k])
  {
    var tail, seen' := es[1..], SeenAfter(es[0], seen);
    var kt := KeepFirst(tail, seen');
    var p := rest[k - 1];
    assert p < |tail| && kt[k - 1] == tail[p] && IsKept(tail, seen', p);
    assert ([0] + Lift(rest))[k] == Lift(rest)[k - 1] == p + 1;
    assert KeepFirst(es, seen) == [es[0]] + kt;
    assert KeepFirst(es, seen)[k] == kt[k - 1];
    assert tail[p] == es[p + 1];
    assert IsKept(es, seen, p + 1);
  }


  lemma LiftKeptComplete(es: seq<Entry>, seen: set<string>, rest: seq<nat>)
    requires es != []
    requires KeptPositions(es[1..], SeenAfter(es[0], seen), KeepFirst(es[1..], SeenAfter(es[0], seen)), rest)
    requires forall i :: 0 < i < |es| ==> (IsKept(es, seen, i) <==> IsKept(es[1..], SeenAfter(es[0], seen), i - 1))
    ensures forall i :: 0 <= i < |es| && IsKept(es, seen, i) ==> i in [0] + Lift(rest)
  {
    var idx := [0] + Lift(rest);
    forall i | 0 <= i < |es| && IsKept(es, seen, i) ensures i in idx {
      if i > 0 {
        var k := IndexIn(rest, i - 1);
        assert idx[k + 1] == Lift(rest)[k] == i;
      }
    }
  }



  /** Where `x` sits in `s`. */
  function IndexIn(s: seq<nat>, x: nat): (k: nat)
    requires x in s
    ensures k < |s| && s[k] == x
  {
    if s[0] == x then 0 else 1 + IndexIn(s[1..], x)
  }

  /** Whether an entry past the first is kept, seen from the rest of the sequence. */
  lemma KeptShift(es: seq<Entry>, seen: set<string>, seen': set<string>, i: int)
    requires 0 < i < |es|
    requires seen' == if es[0].Named? && es[0].key !in seen then seen + {es[0].key} else seen
    ensures IsKept(es, seen, i) <==> IsKept(es[1..], seen', i - 1)
  {
    var tail := es[1..];
    assert es[i] == tail[i - 1];
    if es[i].Named? {
      var key := es[i].key;
      assert (forall j :: 0 <= j < i && es[j].Named? ==> es[j].key != key)
         <==> (es[0].Named? ==> es[0].key != key) && (forall j :: 0 <= j < i - 1 && tail[j].Named? ==> tail[j].key != key) by {
        forall j | 0 <= j < i - 1 ensures tail[j] == es[j + 1] {
        }
      }
    }
  }

  /** Among the kept rows no key repeats, and none was seen before the pass. */
  lemma KeptKeysDistinct(es: seq<Entry>, seen: set<string>)
    ensures var kept := KeepFirst(es, seen);
      (forall k :: 0 <= k < |kept| && kept[k].Named? ==> kept[k].key !in seen)
      && (forall j, k :: 0 <= j < k < |kept| && kept[j].Named? && kept[k].Named? ==> kept[j].key != kept[k].key)
  {
    var idx := KeepFirstIsFilter(es, seen);
    var kept := KeepFirst(es, seen);
    forall j, k | 0 <= j < k < |kept| && kept[j].Named? && kept[k].Named?
      ensures kept[j].key != kept[k].key
    {
      assert IsKept(es, seen, idx[k]) && idx[j] < idx[k];
    }
  }

  function EmptyRows(es: seq<Entry>): nat
    decreases |es|
  {
    if es == [] then 0 else (if es[0].EmptyRow? then 1 else 0) + EmptyRows(es[1..])
  }

  /** Every data row is kept, counted as a duplicate, or dropped as empty. */
  lemma {:induction false} DedupBalance(es: seq<Entry>, seen: set<string>)
    ensures |KeepFirst(es, seen)| + Duplicates(es, seen) + EmptyRows(es) == |es|
    decreases |es|
  {
    if es != [] {
      DedupBalance(es[1..], SeenAfter(es[0], seen));
    }
  }

  /** No duplicate is counted exactly when every keyed row is kept. */
  lemma {:induction false} NoDuplicatesIff(es: seq<Entry>, seen: set<string>)
    ensures Duplicates(es, seen) == 0 <==> forall i :: 0 <= i < |es| && es[i].Named? ==> IsKept(es, seen, i)
    decreases |es|
  {
    if es != [] {
      var seen' := SeenAfter(es[0], seen);
      NoDuplicatesIff(es[1..], seen');
      forall i | 0 < i < |es| ensures IsKept(es, seen, i) <==> IsKept(es[1..], seen', i - 1) {
        KeptShift(es, seen, seen', i);
      }
      forall i | 0 < i < |es| ensures es[i] == es[1..][i - 1] {
      }
    }
  }

  /** The rows of the entries are the entries: classifying them again changes nothing. */
  lemma EntriesOfRows(rows: seq<seq<string>>, kept: seq<Entry>)
    requires forall k :: 0 <= k < |kept| ==> kept[k] in Entries(rows) && !kept[k].EmptyRow?
    ensures Entries(RowsOf(kept)) == kept
  {
    forall k | 0 <= k < |kept| ensures EntryOf(RowOf(kept[k])) == kept[k] {
      var i :| 0 <= i < |rows| && Entries(rows)[i] == kept[k];
      assert kept[k] == EntryOf(rows[i]) && RowOf(kept[k]) == rows[i];
    }
  }

  /** Deduplicating the deduplicated rows finds nothing to remove. */
  lemma DedupIdempotent(rows: seq<seq<string>>)
    ensures var kept := KeepFirst(Entries(rows), {});
      (forall k :: 0 <= k < |kept| ==> !kept[k].EmptyRow?)
      && Duplicates(Entries(RowsOf(kept)), {}) == 0
      && KeepFirst(Entries(RowsOf(kept)), {}) == kept
  {
    var es := Entries(rows);
    var kept := KeepFirst(es, {});
    var idx := KeepFirstIsFilter(es, {});
    forall k | 0 <= k < |kept| ensures kept[k] in es && !kept[k].EmptyRow? {
      assert kept[k] == es[idx[k]];
    }
    EntriesOfRows(rows, kept);
    KeptKeysDistinct(es, {});
    forall i | 0 <= i < |kept| && kept[i].Named? ensures IsKept(kept, {}, i) {
    }
    NoDuplicatesIff(kept, {});
    DedupBalance(kept, {});
    KeepAllWhenDistinct(kept, {});
  }

  /** With no duplicate and no empty row, the pass keeps every row. */
  lemma {:induction false} KeepAllWhenDistinct(es: seq<Entry>, seen: set<string>)
    requires forall k :: 0 <= k < |es| ==> !es[k].EmptyRow?
    requires Duplicates(es, seen) == 0
    ensures KeepFirst(es, seen) == es
    decreases |es|
  {
    if es != [] {
      assert forall k :: 0 <= k < |es[1..]| ==> es[1..][k] == es[k + 1];
      KeepAllWhenDistinct(es[1..], SeenAfter(es[0], seen));
    }
  }

  /** One step of the pass, by the kind of the first entry. */
  lemma DedupStep(es: seq<Entry>, seen: set<string>)
    requires es != []
    ensures RowsOf(KeepFirst(es, seen))
         == (if Skips(es[0], seen) then [] else [RowOf(es[0])]) + RowsOf(KeepFirst(es[1..], SeenAfter(es[0], seen)))
    ensures Duplicates(es, seen)
         == (if es[0].Named? && es[0].key in seen then 1 else 0) + Duplicates(es[1..], SeenAfter(es[0], seen))
  {
    var e, tail := es[0], es[1..];
    if Skips(e, seen) {
      assert KeepFirst(es, seen) == KeepFirst(tail, SeenAfter(e, seen));
      assert [] + RowsOf(KeepFirst(tail, SeenAfter(e, seen))) == RowsOf(KeepFirst(tail, SeenAfter(e, seen)));
    } else {
      assert KeepFirst(es, seen) == [e] + KeepFirst(tail, SeenAfter(e, seen));
      RowsOfCons(e, KeepFirst(tail, SeenAfter(e, seen)));
    }
  }

  /** The pass drops the entry: an empty row, or a key already seen. */
  predicate Skips(e: Entry, seen: set<string>) {
    e.EmptyRow? || (e.Named? && e.key in seen)
  }

  lemma RowsOfCons(e: Entry, rest: seq<Entry>)
    ensures RowsOf([e] + rest) == [RowOf(e)] + RowsOf(rest)
  {
    var lhs, rhs := RowsOf([e] + rest), [RowOf(e)] + RowsOf(rest);
    forall k | 0 <= k < |lhs| ensures lhs[k] == rhs[k] {
      if k > 0 {
        assert ([e] + rest)[k] == rest[k - 1];
      }
    }
  }

  /** The loop of `remove_duplicates` over the data rows: the rows it keeps and
      `duplicates_removed`. */
  method DedupPass(dataRows: seq<seq<string>>) returns (kept: seq<seq<string>>, duplicatesRemoved: nat)
    ensures kept == RowsOf(KeepFirst(Entries(dataRows), {}))
    ensures duplicatesRemoved == Duplicates(Entries(dataRows), {})
  {
    ghost var all := Entries(dataRows);
    var seenNames: set<string> := {};
    kept := [];
    duplicatesRemoved := 0;
    assert all[0..] == all;
    for i := 0 to |dataRows|
      invariant kept + RowsOf(KeepFirst(all[i..], seenNames)) == RowsOf(KeepFirst(all, {}))
      invariant duplicatesRemoved + Duplicates(all[i..], seenNames) == Duplicates(all, {})
    {
      var row := dataRows[i];
      PassStep(all, i, seenNames, kept, duplicatesRemoved);
      if row != [] {
        var firstColValue := FirstColumnKey(row);
        if firstColValue == [] {
          kept := kept + [row];
        } else if firstColValue !in seenNames {
          seenNames := seenNames + {firstColValue};
          kept := kept + [row];
        } else {
          duplicatesRemoved := duplicatesRemoved + 1;
        }
      }
    }
  }

  /** The loop invariant of the pass survives one row. */
  lemma PassStep(all: seq<Entry>, i: nat, seen: set<string>, kept: seq<seq<string>>, removed: nat)
    requires i < |all|
    requires kept + RowsOf(KeepFirst(all[i..], seen)) == RowsOf(KeepFirst(all, {}))
    requires removed + Duplicates(all[i..], seen) == Duplicates(all, {})
    ensures var e := all[i];
      var kept' := if Skips(e, seen) then kept else kept + [RowOf(e)];
      var removed' := if e.Named? && e.key in seen then removed + 1 else removed;
      kept' + RowsOf(KeepFirst(all[i + 1..], SeenAfter(e, seen))) == RowsOf(KeepFirst(all, {}))
      && removed' + Duplicates(all[i + 1..], SeenAfter(e, seen)) == Duplicates(all, {})
  {
    var es := all[i..];
    assert es[0] == all[i] && es[1..] == all[i + 1..];
    DedupStep(es, seen);
    var e := all[i];
    var mid: seq<seq<string>> := if Skips(e, seen) then [] else [RowOf(e)];
    ConcatStep(kept, mid, RowsOf(KeepFirst(all[i + 1..], SeenAfter(e, seen))), RowsOf(KeepFirst(all, {})));
  }

  /** The table `remove_duplicates` writes back: the header, then the kept data rows. */
  function DedupedTable(values: seq<seq<string>>): seq<seq<string>>
    requires values != []
  {
    [values[0]] + RowsOf(KeepFirst(Entries(values[1..]), {}))
  }

  /** Whether `remove_duplicates` rewrites the sheet: only when a duplicate was found. */
  predicate DedupRewrites(values: seq<seq<string>>) {
    |values| > 1 && Duplicates(Entries(values[1..]), {}) > 0
  }

  // ---------------------------------------------------------------------------
  // `verify_and_clean_links`
  // ---------------------------------------------------------------------------

  /** The index of the last header whose lower-cased text is `name`: the column search
      overwrites its answer at every match. */
  function LastHeader(headers: seq<string>, name: string): (r: Option<nat>)
    ensures r.Some? ==> r.value < |headers| && Lower(headers[r.value]) == name
                        && forall j :: r.value < j < |headers| ==> Lower(headers[j]) != name
    ensures r.None? ==> forall j :: 0 <= j < |headers| ==> Lower(headers[j]) != name
    decreases |headers|
  {
    if headers == [] then None
    else if Lower(headers[|headers| - 1]) == name then Some(|headers| - 1)
    else LastHeader(headers[..|headers| - 1], name)
  }

  /** The column search of `verify_and_clean_links`. */
  method FindSocialColumns(headers: seq<string>) returns (instagramCol: Option<nat>, facebookCol: Option<nat>)
    ensures instagramCol == LastHeader(headers, "instagram")
    ensures facebookCol == LastHeader(headers, "facebook")
  {
    instagramCol, facebookCol := None, None;
    for i := 0 to |headers|
      invariant instagramCol == LastHeader(headers[..i], "instagram")
      invariant facebookCol == LastHeader(headers[..i], "facebook")
    {
      assert headers[..i + 1][..i] == headers[..i];
      var header := Lower(headers[i]);
      if header == "instagram" {
        instagramCol := Some(i);
      } else if header == "facebook" {
        facebookCol := Some(i);
      }
    }
    assert headers[..|headers|] == headers;
  }

  /** `row` with `""` appended until it is `n` cells wide. */
  function Padded(row: seq<string>, n: nat): (r: seq<string>)
    ensures |r| == if |row| < n then n else |row|
    ensures r[..|row|] == row && forall k :: |row| <= k < |r| ==> r[k] == ""
  {
    if |row| >= n then row else row + seq(n - |row|, _ => "")
  }

  /** `while len(row) < len(headers): row.append("")` */
  method PadRow(row: seq<string>, n: nat) returns (r: seq<string>)
    ensures r == Padded(row, n)
  {
    r := row;
    while |r| < n
      invariant |row| <= |r| <= (if |row| < n then n else |row|)
      invariant r[..|row|] == row && forall k :: |row| <= k < |r| ==> r[k] == ""
      decreases n - |r|
    {
      r := r + [""];
    }
  }

  /** The `verifier` handed to `verify_and_clean_links`: one check per platform. */
  datatype Verifier = Verifier(instagram: string -> bool, facebook: string -> bool)

  /** `LinkVerificationService`, its HEAD requests answered by `probe`. */
  function LinkVerifier(probe: string -> Probe): Verifier {
    Verifier(url => VerifyInstagram(url, probe), url => VerifyFacebook(url, probe))
  }

  /** A cell whose stripped text is a link the check rejects. */
  predicate Rejected(check: string -> bool, cell: string) {
    Strip(cell) != [] && !check(Strip(cell))
  }

  /** The row after the check of column `col`: the cell is cleared when rejected. */
  function CheckCell(row: seq<string>, col: Option<nat>, check: string -> bool): seq<string> {
    if col.Some? && col.value < |row| && Rejected(check, row[col.value]) then row[col.value := ""] else row
  }

  /** 1 when the check of column `col` clears the cell, else 0. */
  function Clears(row: seq<string>, col: Option<nat>, check: string -> bool): nat {
    if col.Some? && col.value < |row| && Rejected(check, row[col.value]) then 1 else 0
  }

  /** A data row after padding and both checks. */
  function CleanRow(row: seq<string>, n: nat, ig: Option<nat>, fb: Option<nat>, v: Verifier): seq<string> {
    var padded := Padded(row, n);
    CheckCell(CheckCell(padded, ig, v.instagram), fb, v.facebook)
  }

  /** The cleaning of one data row, as a function value. */
  function Cleaner(n: nat, ig: Option<nat>, fb: Option<nat>, v: Verifier): seq<string> -> seq<string> {
    row => CleanRow(row, n, ig, fb, v)
  }

  function CleanRows(rows: seq<seq<string>>, n: nat, ig: Option<nat>, fb: Option<nat>, v: Verifier): seq<seq<string>> {
    Map(rows, Cleaner(n, ig, fb, v))
  }

  /** The links cleared in a row, Instagram then Facebook. */
  function RowClears(row: seq<string>, n: nat, ig: Option<nat>, fb: Option<nat>, v: Verifier): nat {
    var padded := Padded(row, n);
    Clears(padded, ig, v.instagram) + Clears(CheckCell(padded, ig, v.instagram), fb, v.facebook)
  }

  /** `instagram_cleaned + facebook_cleaned` over the rows. */
  function ClearedCount(rows: seq<seq<string>>, n: nat, ig: Option<nat>, fb: Option<nat>, v: Verifier): nat {
    Sum(RowCounts(rows, n, ig, fb, v))
  }

  /** The links cleared in one data row, as a function value. */
  function Counter(n: nat, ig: Option<nat>, fb: Option<nat>, v: Verifier): seq<string> -> nat {
    row => RowClears(row, n, ig, fb, v)
  }

  /** The links cleared in each row. */
  function RowCounts(rows: seq<seq<string>>, n: nat, ig: Option<nat>, fb: Option<nat>, v: Verifier): seq<nat> {
    Map(rows, Counter(n, ig, fb, v))
  }

  function Sum(xs: seq<nat>): nat
    decreases |xs|
  {
    if xs == [] then 0 else Sum(xs[..|xs| - 1]) + xs[|xs| - 1]
  }

  /** A sum of counts is zero exactly when every count is. */
  lemma {:induction false} SumZeroIff(xs: seq<nat>)
    ensures Sum(xs) == 0 <==> forall i :: 0 <= i < |xs| ==> xs[i] == 0
    decreases |xs|
  {
    if xs != [] {
      var init := xs[..|xs| - 1];
      SumZeroIff(init);
      assert forall i :: 0 <= i < |init| ==> init[i] == xs[i];
    }
  }

  /** The table `verify_and_clean_links` writes back. */
  function CleanedTable(values: seq<seq<string>>, v: Verifier): seq<seq<string>>
    requires values != []
  {
    var headers := values[0];
    [headers] + CleanRows(values[1..], |headers|, LastHeader(headers, "instagram"), LastHeader(headers, "facebook"), v)
  }

  /** Whether `verify_and_clean_links` rewrites the sheet: it has data rows, a social
      column, and at least one link was cleared. */
  predicate LinksRewrite(values: seq<seq<string>>, v: Verifier) {
    |values| > 1
    && var headers := values[0];
    var ig, fb := LastHeader(headers, "instagram"), LastHeader(headers, "facebook");
    (ig.Some? || fb.Some?) && ClearedCount(values[1..], |headers|, ig, fb, v) > 0
  }

  /** One platform's check of a padded row: strip the cell, and clear it when the check rejects it. */
  method CheckColumn(row: seq<string>, col: Option<nat>, check: string -> bool)
    returns (r: seq<string>, cleared: nat)
    ensures r == CheckCell(row, col, check) && cleared == Clears(row, col, check)
  {
    r, cleared := row, 0;
    if col.Some? && col.value < |row| {
      var url := Strip(row[col.value]);
      if url != [] && !check(url) {
        r := row[col.value := ""];
        cleared := 1;
      }
    }
  }

  /** The body of the row loop of `verify_and_clean_links`: pad, then check Instagram, then Facebook. */
  method CleanOneRow(dataRow: seq<string>, n: nat, instagramCol: Option<nat>, facebookCol: Option<nat>, verifier: Verifier)
    returns (row: seq<string>, instagramCleared: nat, facebookCleared: nat)
    ensures row == CleanRow(dataRow, n, instagramCol, facebookCol, verifier)
    ensures instagramCleared + facebookCleared == RowClears(dataRow, n, instagramCol, facebookCol, verifier)
  {
    row := PadRow(dataRow, n);
    row, instagramCleared := CheckColumn(row, instagramCol, verifier.instagram);
    row, facebookCleared := CheckColumn(row, facebookCol, verifier.facebook);
  }

  /** Cleaning one more row extends the cleaned rows and the count by that row's share. */
  lemma CleanStep(rows: seq<seq<string>>, i: nat, n: nat, ig: Option<nat>, fb: Option<nat>, v: Verifier)
    requires i < |rows|
    ensures CleanRows(rows[..i + 1], n, ig, fb, v) == CleanRows(rows[..i], n, ig, fb, v) + [CleanRow(rows[i], n, ig, fb, v)]
    ensures ClearedCount(rows[..i + 1], n, ig, fb, v) == ClearedCount(rows[..i], n, ig, fb, v) + RowClears(rows[i], n, ig, fb, v)
  {
    CleanRowsStep(rows, i, n, ig, fb, v);
    RowCountsStep(rows, i, n, ig, fb, v);
  }

  lemma CleanRowsStep(rows: seq<seq<string>>, i: nat, n: nat, ig: Option<nat>, fb: Option<nat>, v: Verifier)
    requires i < |rows|
    ensures CleanRows(rows[..i + 1], n, ig, fb, v) == CleanRows(rows[..i], n, ig, fb, v) + [CleanRow(rows[i], n, ig, fb, v)]
  {
    MapSnoc(rows, i, Cleaner(n, ig, fb, v));
  }

  lemma RowCountsStep(rows: seq<seq<string>>, i: nat, n: nat, ig: Option<nat>, fb: Option<nat>, v: Verifier)
    requires i < |rows|
    ensures RowCounts(rows[..i + 1], n, ig, fb, v) == RowCounts(rows[..i], n, ig, fb, v) + [RowClears(rows[i], n, ig, fb, v)]
  {
    MapSnoc(rows, i, Counter(n, ig, fb, v));
  }

  /** The loop over the data rows of `verify_and_clean_links`. */
  method CleanPass(dataRows: seq<seq<string>>, n: nat, instagramCol: Option<nat>, facebookCol: Option<nat>, verifier: Verifier)
    returns (updatedRows: seq<seq<string>>, instagramCleaned: nat, facebookCleaned: nat)
    ensures updatedRows == CleanRows(dataRows, n, instagramCol, facebookCol, verifier)
    ensures instagramCleaned + facebookCleaned == ClearedCount(dataRows, n, instagramCol, facebookCol, verifier)
  {
    updatedRows := [];
    instagramCleaned, facebookCleaned := 0, 0;
    for i := 0 to |dataRows|
      invariant updatedRows == CleanRows(dataRows[..i], n, instagramCol, facebookCol, verifier)
      invariant instagramCleaned + facebookCleaned == ClearedCount(dataRows[..i], n, instagramCol, facebookCol, verifier)
    {
      var row, igCleared, fbCleared := CleanOneRow(dataRows[i], n, instagramCol, facebookCol, verifier);
      CleanStep(dataRows, i, n, instagramCol, facebookCol, verifier);
      updatedRows := updatedRows + [row];
      instagramCleaned, facebookCleaned := instagramCleaned + igCleared, facebookCleaned + fbCleared;
    }
    assert dataRows[..|dataRows|] == dataRows;
  }

  /** The cell `k` of a padded row is one the check of column `col` clears. */
  predicate ClearedAt(padded: seq<string>, k: nat, col: Option<nat>, check: string -> bool) {
    col == Some(k) && k < |padded| && Rejected(check, padded[k])
  }

  /** Only the Instagram and Facebook cells of the padded row can change, only to `""`,
      and exactly when their stripped text is non-empty and the verifier rejects it. */
  lemma CleanRowCells(row: seq<string>, n: nat, ig: Option<nat>, fb: Option<nat>, v: Verifier)
    requires ig.Some? && fb.Some? ==> ig.value != fb.value
    ensures |CleanRow(row, n, ig, fb, v)| == |Padded(row, n)|
    ensures forall k :: 0 <= k < |Padded(row, n)| ==>
      CleanRow(row, n, ig, fb, v)[k]
        == if ClearedAt(Padded(row, n), k, ig, v.instagram) || ClearedAt(Padded(row, n), k, fb, v.facebook)
           then "" else Padded(row, n)[k]
  {
    CheckBothCells(Padded(row, n), ig, fb, v.instagram, v.facebook);
  }

  lemma CheckBothCells(p: seq<string>, ig: Option<nat>, fb: Option<nat>, ci: string -> bool, cf: string -> bool)
    requires ig.Some? && fb.Some? ==> ig.value != fb.value
    ensures |CheckCell(CheckCell(p, ig, ci), fb, cf)| == |p|
    ensures forall k :: 0 <= k < |p| ==>
      CheckCell(CheckCell(p, ig, ci), fb, cf)[k] == if ClearedAt(p, k, ig, ci) || ClearedAt(p, k, fb, cf) then "" else p[k]
  {
    forall k | 0 <= k < |p|
      ensures CheckCell(CheckCell(p, ig, ci), fb, cf)[k] == if ClearedAt(p, k, ig, ci) || ClearedAt(p, k, fb, cf) then "" else p[k]
    {
      CheckBothCellAt(p, ig, fb, ci, cf, k);
    }
  }

  lemma CheckBothCellAt(p: seq<string>, ig: Option<nat>, fb: Option<nat>, ci: string -> bool, cf: string -> bool, k: nat)
    requires ig.Some? && fb.Some? ==> ig.value != fb.value
    requires k < |p|
    ensures |CheckCell(p, ig, ci)| == |p|
    ensures CheckCell(CheckCell(p, ig, ci), fb, cf)[k] == if ClearedAt(p, k, ig, ci) || ClearedAt(p, k, fb, cf) then "" else p[k]
  {
    var q := CheckCell(p, ig, ci);
    CheckCellAt(p, ig, ci, k);
    CheckCellAt(q, fb, cf, k);
    if fb.Some? && fb.value < |p| {
      CheckCellAt(p, ig, ci, fb.value);
    }
  }

  /** One cell after one check: cleared exactly when that check rejects it. */
  lemma CheckCellAt(row: seq<string>, col: Option<nat>, check: string -> bool, k: nat)
    requires k < |row|
    ensures |CheckCell(row, col, check)| == |row|
    ensures CheckCell(row, col, check)[k] == if ClearedAt(row, k, col, check) then "" else row[k]
  {
  }

  /** A row is left as padded exactly when none of its links was cleared: a cleared
      cell held text, so clearing it always changes the row. */
  lemma RowClearsZeroIffUnchanged(row: seq<string>, n: nat, ig: Option<nat>, fb: Option<nat>, v: Verifier)
    ensures RowClears(row, n, ig, fb, v) == 0 <==> CleanRow(row, n, ig, fb, v) == Padded(row, n)
  {
    var p := Padded(row, n);
    var q := CheckCell(p, ig, v.instagram);
    if Clears(p, ig, v.instagram) == 1 {
      var k := ig.value;
      assert Strip("") == "";
      assert q[k] == [];
      if Clears(q, fb, v.facebook) == 1 {
        assert fb.value != k;
      }
      assert CleanRow(row, n, ig, fb, v)[k] == [];
    } else if Clears(q, fb, v.facebook) == 1 {
      var k := fb.value;
      assert Strip("") == "";
      assert CleanRow(row, n, ig, fb, v)[k] == [];
    }
  }

  /** No link was cleared in the rows exactly when none was cleared in any one row. */
  lemma ClearedCountZeroIff(rows: seq<seq<string>>, n: nat, ig: Option<nat>, fb: Option<nat>, v: Verifier)
    ensures ClearedCount(rows, n, ig, fb, v) == 0 <==>
      forall i :: 0 <= i < |rows| ==> RowClears(rows[i], n, ig, fb, v) == 0
  {
    var counts := RowCounts(rows, n, ig, fb, v);
    SumZeroIff(counts);
    assert forall i :: 0 <= i < |rows| ==> counts[i] == RowClears(rows[i], n, ig, fb, v);
  }

  /** The sheet is rewritten exactly when it has data rows, an Instagram or Facebook
      column, and some row whose cleaned form differs from the padded original. */
  lemma LinksRewriteIff(values: seq<seq<string>>, v: Verifier)
    ensures LinksRewrite(values, v) <==>
      |values| > 1
      && (LastHeader(values[0], "instagram").Some? || LastHeader(values[0], "facebook").Some?)
      && exists i :: 1 <= i < |values| && CleanedTable(values, v)[i] != Padded(values[i], |values[0]|)
  {
    if |values| > 1 {
      var headers, rows := values[0], values[1..];
      var ig, fb := LastHeader(headers, "instagram"), LastHeader(headers, "facebook");
      ClearedCountZeroIff(rows, |headers|, ig, fb, v);
      var t := CleanedTable(values, v);
      forall i | 1 <= i < |values|
        ensures RowClears(rows[i - 1], |headers|, ig, fb, v) == 0 <==> t[i] == Padded(values[i], |headers|)
      {
        CleanedRowAt(values, v, i);
        assert rows[i - 1] == values[i];
        RowClearsZeroIffUnchanged(values[i], |headers|, ig, fb, v);
      }
      if ClearedCount(rows, |headers|, ig, fb, v) != 0 {
        var j :| 0 <= j < |rows| && RowClears(rows[j], |headers|, ig, fb, v) != 0;
        assert t[j + 1] != Padded(values[j + 1], |headers|);
      }
    }
  }

  /** Each cell of `cleaned` is the cell of `orig` or `""`. */
  predicate ClearedOrKept(cleaned: seq<string>, orig: seq<string>) {
    |cleaned| == |orig| && forall k :: 0 <= k < |cleaned| ==> cleaned[k] == "" || cleaned[k] == orig[k]
  }

  /** The written table keeps the header, the number and order of the rows, and pads every
      data row to the header's width; each cell is the padded original or `""`. */
  lemma CleanedTableShape(values: seq<seq<string>>, v: Verifier)
    requires values != []
    ensures |CleanedTable(values, v)| == |values| && CleanedTable(values, v)[0] == values[0]
    ensures forall i :: 1 <= i < |values| ==>
      |Padded(values[i], |values[0]|)| >= |values[0]|
      && ClearedOrKept(CleanedTable(values, v)[i], Padded(values[i], |values[0]|))
  {
    forall i | 1 <= i < |values|
      ensures |Padded(values[i], |values[0]|)| >= |values[0]|
      ensures ClearedOrKept(CleanedTable(values, v)[i], Padded(values[i], |values[0]|))
    {
      CleanedRowAt(values, v, i);
      CleanRowShape(values[i], |values[0]|, LastHeader(values[0], "instagram"), LastHeader(values[0], "facebook"), v);
    }
  }

  /** Row `i` of the written table is data row `i` cleaned. */
  lemma CleanedRowAt(values: seq<seq<string>>, v: Verifier, i: nat)
    requires 1 <= i < |values|
    ensures CleanedTable(values, v)[i]
      == CleanRow(values[i], |values[0]|, LastHeader(values[0], "instagram"), LastHeader(values[0], "facebook"), v)
  {
    MapTail(values, Cleaner(|values[0]|, LastHeader(values[0], "instagram"), LastHeader(values[0], "facebook"), v), i);
  }

  /** Past the first element, `f` mapped over the tail lines up with the whole sequence. */
  lemma MapTail<A>(xs: seq<A>, f: A -> A, i: nat)
    requires 1 <= i < |xs|
    ensures ([xs[0]] + Map(xs[1..], f))[i] == f(xs[i])
  {
    assert xs[1..][i - 1] == xs[i];
  }

  /** A check changes at most its own cell, and only to `""`. */
  lemma CheckCellShape(row: seq<string>, col: Option<nat>, check: string -> bool)
    ensures ClearedOrKept(CheckCell(row, col, check), row)
  {
  }

  lemma CleanRowShape(row: seq<string>, n: nat, ig: Option<nat>, fb: Option<nat>, v: Verifier)
    ensures |Padded(row, n)| >= n
    ensures ClearedOrKept(CleanRow(row, n, ig, fb, v), Padded(row, n))
  {
    var p := Padded(row, n);
    var q := CheckCell(p, ig, v.instagram);
    CheckCellShape(p, ig, v.instagram);
    CheckCellShape(q, fb, v.facebook);
  }

  /** Without an Instagram or a Facebook column the sheet is never rewritten. */
  lemma NoSocialColumnsNoRewrite(values: seq<seq<string>>, v: Verifier)
    requires values != []
    requires forall j :: 0 <= j < |values[0]| ==> Lower(values[0][j]) != "instagram" && Lower(values[0][j]) != "facebook"
    ensures !LinksRewrite(values, v)
  {
  }

  /** Cleaning is idempotent: a second pass over the rows the first pass produced clears nothing. */
  lemma CleanRowStable(row: seq<string>, n: nat, ig: Option<nat>, fb: Option<nat>, v: Verifier)
    ensures RowClears(CleanRow(row, n, ig, fb, v), n, ig, fb, v) == 0
    ensures CleanRow(CleanRow(row, n, ig, fb, v), n, ig, fb, v) == CleanRow(row, n, ig, fb, v)
  {
    var p := Padded(row, n);
    var q := CheckCell(p, ig, v.instagram);
    var r := CheckCell(q, fb, v.facebook);
    CheckCellCleans(p, ig, v.instagram);
    CheckCellKeepsClean(q, fb, v.facebook, ig, v.instagram);
    CheckCellCleans(q, fb, v.facebook);
    PaddedWide(r, n);
  }

  /** After its check, a column holds nothing more to clear. */
  lemma CheckCellCleans(row: seq<string>, col: Option<nat>, check: string -> bool)
    ensures Clears(CheckCell(row, col, check), col, check) == 0
  {
    if Clears(row, col, check) == 1 {
      assert CheckCell(row, col, check)[col.value] == "";
      assert Strip("") == "";
    }
  }

  /** A check only ever writes `""`, so a column with nothing to clear stays so. */
  lemma CheckCellKeepsClean(row: seq<string>, col: Option<nat>, check: string -> bool, other: Option<nat>, otherCheck: string -> bool)
    requires Clears(row, other, otherCheck) == 0
    ensures Clears(CheckCell(row, col, check), other, otherCheck) == 0
  {
    if Clears(row, col, check) == 1 && other == col {
      assert CheckCell(row, col, check)[col.value] == "";
      assert Strip("") == "";
    }
  }

  lemma PaddedWide(row: seq<string>, n: nat)
    requires |row| >= n
    ensures Padded(row, n) == row
  {
  }

  lemma CleanRowsStable(rows: seq<seq<string>>, n: nat, ig: Option<nat>, fb: Option<nat>, v: Verifier)
    ensures ClearedCount(CleanRows(rows, n, ig, fb, v), n, ig, fb, v) == 0
  {
    var c := CleanRows(rows, n, ig, fb, v);
    forall i | 0 <= i < |c| ensures RowClears(c[i], n, ig, fb, v) == 0 {
      CleanRowStable(rows[i], n, ig, fb, v);
    }
    ClearedCountZeroIff(c, n, ig, fb, v);
  }

  /** Running `verify_and_clean_links` again on the table it wrote changes nothing. */
  lemma CleanTwiceNoRewrite(values: seq<seq<string>>, v: Verifier)
    requires values != []
    ensures !LinksRewrite(CleanedTable(values, v), v)
  {
    var headers := values[0];
    var t := CleanedTable(values, v);
    assert t[0] == headers && t[1..] == CleanRows(values[1..], |headers|, LastHeader(headers, "instagram"), LastHeader(headers, "facebook"), v);
    CleanRowsStable(values[1..], |headers|, LastHeader(headers, "instagram"), LastHeader(headers, "facebook"), v);
  }

  /** With the real verifier, a profile link whose request lands on Instagram's bare home
      page is cleared from its row. */
  lemma InstagramHomepageCleared(row: seq<string>, n: nat, ig: Option<nat>, fb: Option<nat>, probe: string -> Probe)
    requires ig.Some? && ig.value < |row| && Strip(row[ig.value]) != []
    requires probe(Strip(row[ig.value])) == Response(200, "https://www.Instagram.com/")
    ensures CleanRow(row, n, ig, fb, LinkVerifier(probe))[ig.value] == ""
    ensures RowClears(row, n, ig, fb, LinkVerifier(probe)) >= 1
  {
    var p := Padded(row, n);
    assert p[ig.value] == row[ig.value];
    InstagramHomepageRejected(Strip(row[ig.value]), probe);
    assert Strip("") == "";
  }

  // ---------------------------------------------------------------------------
  // `get_all_emails`
  // ---------------------------------------------------------------------------

  /** The index of the first header whose lower-cased text is `name`: the search stops there. */
  function FirstHeader(headers: seq<string>, name: string): (r: Option<nat>)
    ensures r.Some? ==> r.value < |headers| && Lower(headers[r.value]) == name
                        && forall j :: 0 <= j < r.value ==> Lower(headers[j]) != name
    ensures r.None? ==> forall j :: 0 <= j < |headers| ==> Lower(headers[j]) != name
    decreases |headers|
  {
    if headers == [] then None
    else if Lower(headers[0]) == name then Some(0)
    else match FirstHeader(headers[1..], name)
      case None => None
      case Some(j) => Some(j + 1)
  }

  /** The email a row contributes: its stripped cell in column `col`, when there is one and it is not blank. */
  function CellEmail(row: seq<string>, col: nat): seq<string> {
    if col < |row| && Strip(row[col]) != [] then [Strip(row[col])] else []
  }

  /** The contribution of each row, in row order. */
  function RowEmails(rows: seq<seq<string>>, col: nat): (r: seq<seq<string>>)
    ensures |r| == |rows|
  {
    Map(rows, row => CellEmail(row, col))
  }

  /** The non-blank stripped cells of column `col`, in row order. */
  function ColumnEmails(rows: seq<seq<string>>, col: nat): seq<string> {
    Flatten(RowEmails(rows, col))
  }

  function Flatten<T>(xss: seq<seq<T>>): seq<T>
    decreases |xss|
  {
    if xss == [] then [] else Flatten(xss[..|xss| - 1]) + xss[|xss| - 1]
  }

  /** An element of the flattening is an element of one of the parts, and each part's elements are in it. */
  lemma {:induction false} FlattenMember<T>(xss: seq<seq<T>>, e: T)
    ensures e in Flatten(xss) <==> exists i :: 0 <= i < |xss| && e in xss[i]
    decreases |xss|
  {
    if xss != [] {
      var init := xss[..|xss| - 1];
      FlattenMember(init, e);
      if e in Flatten(init) {
        var i :| 0 <= i < |init| && e in init[i];
        assert init[i] == xss[i];
      }
    }
  }

  /** Flattening works part by part, so the order of the parts is kept. */
  lemma {:induction false} FlattenConcat<T>(a: seq<seq<T>>, b: seq<seq<T>>)
    ensures Flatten(a + b) == Flatten(a) + Flatten(b)
    decreases |b|
  {
    if b == [] {
      assert a + b == a;
    } else {
      var init, last := b[..|b| - 1], b[|b| - 1];
      assert (a + b)[..|a + b| - 1] == a + init && (a + b)[|a + b| - 1] == last;
      FlattenConcat(a, init);
      assert Flatten(a + b) == (Flatten(a) + Flatten(init)) + last;
      assert (Flatten(a) + Flatten(init)) + last == Flatten(a) + (Flatten(init) + last);
    }
  }

  /** Parts of at most one element flatten to at most one element per part. */
  lemma {:induction false} FlattenBound<T>(xss: seq<seq<T>>)
    requires forall i :: 0 <= i < |xss| ==> |xss[i]| <= 1
    ensures |Flatten(xss)| <= |xss|
    decreases |xss|
  {
    if xss != [] {
      FlattenBound(xss[..|xss| - 1]);
    }
  }

  /** What `get_all_emails` returns for the table `values`. */
  function SheetEmails(values: seq<seq<string>>): seq<string> {
    if |values| <= 1 then []
    else match FirstHeader(values[0], "email")
      case None => []
      case Some(col) => ColumnEmails(values[1..], col)
  }

  /** Every email returned is non-blank and already stripped. */
  lemma ColumnEmailsStripped(rows: seq<seq<string>>, col: nat)
    ensures forall e :: e in ColumnEmails(rows, col) ==> e != [] && Strip(e) == e
  {
    var parts := RowEmails(rows, col);
    forall e | e in ColumnEmails(rows, col) ensures e != [] && Strip(e) == e {
      FlattenMember(parts, e);
      var i :| 0 <= i < |parts| && e in parts[i];
      CellEmailStripped(rows[i], col, e);
    }
  }

  lemma CellEmailStripped(row: seq<string>, col: nat, e: string)
    requires e in CellEmail(row, col)
    ensures e != [] && Strip(e) == e
  {
    var t := Strip(row[col]);
    assert col < |row| && t != [] && CellEmail(row, col) == [t];
    assert e == t;
    StripIdempotent(row[col]);
  }

  /** A text is returned exactly when some row contributes it: it is that row's non-blank
      stripped cell of the column. */
  lemma ColumnEmailsAreCells(rows: seq<seq<string>>, col: nat, e: string)
    ensures e in ColumnEmails(rows, col) <==>
      exists i :: 0 <= i < |rows| && col < |rows[i]| && Strip(rows[i][col]) == e && e != []
  {
    var parts := RowEmails(rows, col);
    FlattenMember(parts, e);
    assert forall i :: 0 <= i < |rows| ==> parts[i] == CellEmail(rows[i], col);
  }

  /** Extraction works row by row: the emails of two blocks of rows are the emails of the
      first block followed by those of the second, so row order is kept. */
  lemma ColumnEmailsConcat(a: seq<seq<string>>, b: seq<seq<string>>, col: nat)
    ensures ColumnEmails(a + b, col) == ColumnEmails(a, col) + ColumnEmails(b, col)
  {
    MapConcat(a, b, row => CellEmail(row, col));
    FlattenConcat(RowEmails(a, col), RowEmails(b, col));
  }

  /** At most one email per data row. */
  lemma ColumnEmailsBound(rows: seq<seq<string>>, col: nat)
    ensures |ColumnEmails(rows, col)| <= |rows|
  {
    FlattenBound(RowEmails(rows, col));
  }

  /** The first matching column wins: a later "Email" column is never read. */
  lemma FirstEmailColumnWins(values: seq<seq<string>>, j: nat)
    requires |values| > 1 && j < |values[0]| && Lower(values[0][j]) == "email"
    ensures exists c :: 0 <= c <= j && SheetEmails(values) == ColumnEmails(values[1..], c)
  {
    var c := FirstHeader(values[0], "email");
    assert c.Some? && c.value <= j;
    assert SheetEmails(values) == ColumnEmails(values[1..], c.value);
  }

  /** The header search of `get_all_emails`. */
  method FindEmailColumn(headers: seq<string>) returns (emailCol: Option<nat>)
    ensures emailCol == FirstHeader(headers, "email")
  {
    emailCol := None;
    var i := 0;
    while i < |headers|
      invariant 0 <= i <= |headers|
      invariant forall j :: 0 <= j < i ==> Lower(headers[j]) != "email"
    {
      if Lower(headers[i]) == "email" {
        emailCol := Some(i);
        break;
      }
      i := i + 1;
    }
    FirstHeaderIsFirstMatch(headers, "email", emailCol);
  }

  /** `FirstHeader` is the one index (or absence) with the first-match property. */
  lemma {:induction false} FirstHeaderIsFirstMatch(headers: seq<string>, name: string, r: Option<nat>)
    requires r.Some? ==> r.value < |headers| && Lower(headers[r.value]) == name
                         && forall j :: 0 <= j < r.value ==> Lower(headers[j]) != name
    requires r.None? ==> forall j :: 0 <= j < |headers| ==> Lower(headers[j]) != name
    ensures r == FirstHeader(headers, name)
  {
    var f := FirstHeader(headers, name);
    if r.Some? && f.Some? {
      if r.value < f.value { assert false; }
      if f.value < r.value { assert false; }
    }
  }

  /** The row loop of `get_all_emails`. */
  method CollectEmails(dataRows: seq<seq<string>>, emailCol: nat) returns (emails: seq<string>)
    ensures emails == ColumnEmails(dataRows, emailCol)
  {
    emails := [];
    for i := 0 to |dataRows|
      invariant emails == ColumnEmails(dataRows[..i], emailCol)
    {
      MapSnoc(dataRows, i, row => CellEmail(row, emailCol));
      var row := dataRows[i];
      if emailCol < |row| {
        var email := Strip(row[emailCol]);
        if email != [] {
          emails := emails + [email];
        }
      }
    }
    assert dataRows[..|dataRows|] == dataRows;
  }

  // ---------------------------------------------------------------------------
  // `append_leads` and the columns `read_leads` gives back
  // ---------------------------------------------------------------------------

  /** The header row `append_leads` writes to a sheet without one. */
  const DefaultHeaders: seq<string> := ["Name", "Phone", "Address", "Website", "Email", "Instagram", "Facebook", "LinkedIn"]

  /** `row_dict.get(h, "")`: the lead field mapped to sheet header `h`, or `""` for any
      other header. The match is exact, so case matters. */
  function HeaderCell(lead: Lead, h: string): string {
    if h == "Name" then lead.title
    else if h == "Phone" then lead.phone
    else if h == "Address" then lead.address.GetOr("")
    else if h == "Website" then lead.website.GetOr("")
    else if h == "Email" then lead.email
    else if h == "Instagram" then lead.instagram
    else if h == "Facebook" then lead.facebook
    else if h == "LinkedIn" then lead.linkedin
    else ""
  }

  /** The row written for `lead` under `headers`, one cell per header in header order. */
  function LeadRow(headers: seq<string>, lead: Lead): seq<string> {
    seq(|headers|, i requires 0 <= i < |headers| => HeaderCell(lead, headers[i]))
  }

  function LeadRows(headers: seq<string>, leads: seq<Lead>): (r: seq<seq<string>>)
    ensures |r| == |leads|
  {
    seq(|leads|, k requires 0 <= k < |leads| => LeadRow(headers, leads[k]))
  }

  /** A sheet without a header row: nothing in it, or an empty first row. */
  predicate NeedsHeaders(values: seq<seq<string>>) {
    values == [] || values[0] == []
  }

  /** The table after `append_leads`. */
  function AppendedTable(values: seq<seq<string>>, leads: seq<Lead>): seq<seq<string>> {
    if leads == [] then values
    else if NeedsHeaders(values) then values + [DefaultHeaders] + LeadRows(DefaultHeaders, leads)
    else values + LeadRows(values[0], leads)
  }

  /** The write requests `append_leads` sends. */
  function AppendWrites(values: seq<seq<string>>, leads: seq<Lead>): nat {
    if leads == [] then 0 else if NeedsHeaders(values) then 2 else 1
  }

  /** Under the default headers, a lead's row lists its eight fields in their fixed order. */
  lemma DefaultRowLayout(lead: Lead)
    ensures LeadRow(DefaultHeaders, lead)
      == [lead.title, lead.phone, lead.address.GetOr(""), lead.website.GetOr(""),
          lead.email, lead.instagram, lead.facebook, lead.linkedin]
  {
  }

  /** Appending keeps every existing row, adds one row per lead (after a header row when
      the sheet had none), and each new row is as wide as the header row. */
  lemma AppendShape(values: seq<seq<string>>, leads: seq<Lead>)
    requires leads != []
    ensures var t := AppendedTable(values, leads);
      var extra := if NeedsHeaders(values) then 1 else 0;
      var headers := if NeedsHeaders(values) then DefaultHeaders else values[0];
      |t| == |values| + extra + |leads| && t[..|values|] == values
      && (NeedsHeaders(values) ==> t[|values|] == DefaultHeaders)
      && forall k :: 0 <= k < |leads| ==> t[|values| + extra + k] == LeadRow(headers, leads[k])
  {
  }

  /** The index of the last header equal to `name`: `read_leads` builds each record with a
      dict comprehension over the headers, so a later duplicate header overwrites an earlier one. */
  function LastExact(headers: seq<string>, name: string): (r: Option<nat>)
    ensures r.Some? ==> r.value < |headers| && headers[r.value] == name
                        && forall j :: r.value < j < |headers| ==> headers[j] != name
    ensures r.None? <==> name !in headers
    decreases |headers|
  {
    if headers == [] then None
    else if headers[|headers| - 1] == name then Some(|headers| - 1)
    else LastExact(headers[..|headers| - 1], name)
  }

  /** `row[i] if i < len(row) else None` for the column headed `name`; `None` when no header matches. */
  function ReadCell(headers: seq<string>, row: seq<string>, name: string): Option<string> {
    match LastExact(headers, name)
    case None => None
    case Some(j) => if j < |row| then Some(row[j]) else None
  }

  /** The column headed `name`, read from every data row as `read_leads` reads it. */
  function ColumnCells(values: seq<seq<string>>, name: string): (r: seq<Option<string>>)
    ensures |r| == if values == [] then 0 else |values| - 1
  {
    if values == [] then [] else Map(values[1..], Reader(values[0], name))
  }

  /** Reading the cell under `name` of a row, as a function value. */
  function Reader(headers: seq<string>, name: string): seq<string> -> Option<string> {
    row => ReadCell(headers, row, name)
  }

  /** `read_leads`: one `ExistingLead` per data row; only the `Business` and `Phone` columns survive. */
  function ReadLeads(values: seq<seq<string>>): (r: seq<ExistingLead>)
    ensures |r| == if values == [] then 0 else |values| - 1
  {
    var business, phone := ColumnCells(values, "Business"), ColumnCells(values, "Phone");
    seq(|business|, i requires 0 <= i < |business| => ExistingLead(business[i], phone[i]))
  }

  /** A sheet whose headers `append_leads` wrote has no `Business` column, so the name
      of every lead read back is missing. */
  lemma BusinessNeverRead(values: seq<seq<string>>)
    requires values != [] && values[0] == DefaultHeaders
    ensures forall i :: 0 <= i < |ReadLeads(values)| ==> ReadLeads(values)[i].business.None?
  {
    assert "Business" !in DefaultHeaders;
    MissingColumn(values, "Business");
  }

  /** A header absent from the header row reads as missing in every data row. */
  lemma MissingColumn(values: seq<seq<string>>, name: string)
    requires values != [] && name !in values[0]
    ensures forall i :: 0 <= i < |ColumnCells(values, name)| ==> ColumnCells(values, name)[i].None?
  {
    assert LastExact(values[0], name).None?;
  }

  /** As written, the run stops with an exception as soon as the sheet holds one data row. */
  lemma AsWrittenCrashesOnAnySheetWithData(values: seq<seq<string>>, scraped: seq<ScrapedItem>)
    requires |values| >= 2
    ensures FilterNewLeadsAsWritten(scraped, ReadLeads(values)) == Failure(MissingAttribute("Name"))
  {
    assert |ReadLeads(values)| >= 1;
  }

  /** A lead row read back under a header present in the row's headers gives the lead's field. */
  lemma ReadLeadRow(headers: seq<string>, lead: Lead, name: string)
    requires name in headers
    ensures ReadCell(headers, LeadRow(headers, lead), name) == Some(HeaderCell(lead, name))
  {
    var j := LastExact(headers, name).value;
    assert LeadRow(headers, lead)[j] == HeaderCell(lead, headers[j]);
  }

  /** Appended lead rows read back, under a header present in the sheet, as the leads' fields. */
  lemma AppendedColumn(values: seq<seq<string>>, leads: seq<Lead>, name: string)
    requires leads != []
    requires if NeedsHeaders(values) then values == [] && name in DefaultHeaders else name in values[0]
    ensures ColumnCells(AppendedTable(values, leads), name) == ColumnCells(values, name) + LeadCells(leads, name)
  {
    if values == [] {
      AppendedColumnToEmpty(leads, name);
    } else {
      AppendedColumnToTable(values, leads, name);
    }
  }

  lemma AppendedColumnToEmpty(leads: seq<Lead>, name: string)
    requires leads != [] && name in DefaultHeaders
    ensures ColumnCells(AppendedTable([], leads), name) == LeadCells(leads, name)
  {
    assert AppendedTable([], leads) == [DefaultHeaders] + ([] + LeadRows(DefaultHeaders, leads));
    ReadRowsConcat(DefaultHeaders, [], leads, name);
  }

  lemma AppendedColumnToTable(values: seq<seq<string>>, leads: seq<Lead>, name: string)
    requires leads != [] && values != [] && name in values[0]
    ensures ColumnCells(AppendedTable(values, leads), name) == ColumnCells(values, name) + LeadCells(leads, name)
  {
    var headers := values[0];
    assert values == [headers] + values[1..];
    assert AppendedTable(values, leads) == [headers] + (values[1..] + LeadRows(headers, leads));
    ReadRowsConcat(headers, values[1..], leads, name);
  }

  /** Reading column `name` under `headers` from existing rows followed by lead rows. */
  lemma ReadRowsConcat(headers: seq<string>, rows: seq<seq<string>>, leads: seq<Lead>, name: string)
    requires name in headers
    ensures ColumnCells([headers] + (rows + LeadRows(headers, leads)), name)
         == ColumnCells([headers] + rows, name) + LeadCells(leads, name)
  {
    assert ([headers] + (rows + LeadRows(headers, leads)))[1..] == rows + LeadRows(headers, leads);
    assert ([headers] + rows)[1..] == rows;
    MapConcat(rows, LeadRows(headers, leads), Reader(headers, name));
    ReadLeadRows(headers, leads, name);
  }

  /** Lead rows read back under a header of theirs give the leads' fields. */
  lemma ReadLeadRows(headers: seq<string>, leads: seq<Lead>, name: string)
    requires name in headers
    ensures Map(LeadRows(headers, leads), Reader(headers, name)) == LeadCells(leads, name)
  {
    var lhs := Map(LeadRows(headers, leads), Reader(headers, name));
    forall k | 0 <= k < |leads| ensures lhs[k] == Some(HeaderCell(leads[k], name)) {
      ReadLeadRow(headers, leads[k], name);
    }
  }

  /** The cells the leads put under header `name`. */
  function LeadCells(leads: seq<Lead>, name: string): (r: seq<Option<string>>)
    ensures |r| == |leads|
  {
    seq(|leads|, k requires 0 <= k < |leads| => Some(HeaderCell(leads[k], name)))
  }

  /** The row-building loop of `append_leads`. */
  method BuildRows(headers: seq<string>, leads: seq<Lead>) returns (rows: seq<seq<string>>)
    ensures rows == LeadRows(headers, leads)
  {
    rows := [];
    for k := 0 to |leads|
      invariant rows == LeadRows(headers, leads[..k])
    {
      var row := [];
      for i := 0 to |headers|
        invariant row == LeadRow(headers[..i], leads[k])
      {
        row := row + [HeaderCell(leads[k], headers[i])];
      }
      assert headers[..|headers|] == headers;
      rows := rows + [row];
    }
    assert leads[..|leads|] == leads;
  }

  /** A run of the workflow reads the sheet's Name and Phone columns, filters the scraped
      batch against them, enriches and appends the new leads. Running it again with the
      same batch on the sheet it wrote adds nothing. */
  lemma SecondRunAddsNothing(values: seq<seq<string>>, scraped: seq<ScrapedItem>, fetch: string -> FetchResult)
    requires values == [] || ("Name" in values[0] && "Phone" in values[0])
    ensures var added := NewLeads(scraped, ColumnCells(values, "Name"), ColumnCells(values, "Phone"));
      var enriched := seq(|added|, k requires 0 <= k < |added| => Enriched(added[k], fetch));
      var after := AppendedTable(values, enriched);
      NewLeads(scraped, ColumnCells(after, "Name"), ColumnCells(after, "Phone")) == []
  {
    var added := NewLeads(scraped, ColumnCells(values, "Name"), ColumnCells(values, "Phone"));
    EnrichedCells(added, fetch);
    RerunOnAppended(values, scraped, added, seq(|added|, k requires 0 <= k < |added| => Enriched(added[k], fetch)));
  }

  /** Enrichment leaves the Name and Phone cells of the new leads as they were. */
  lemma EnrichedCells(added: seq<Lead>, fetch: string -> FetchResult)
    ensures var enriched := seq(|added|, k requires 0 <= k < |added| => Enriched(added[k], fetch));
      LeadCells(enriched, "Name") == NameCells(added) && LeadCells(enriched, "Phone") == PhoneCells(added)
  {
    var enriched := seq(|added|, k requires 0 <= k < |added| => Enriched(added[k], fetch));
    forall k | 0 <= k < |added|
      ensures enriched[k].title == added[k].title && enriched[k].phone == added[k].phone
    {
      EnrichedKeys(added[k], fetch);
    }
  }

  /** Appending leads that carry the new leads' Name and Phone cells makes every scraped
      lead a known one. */
  lemma RerunOnAppended(values: seq<seq<string>>, scraped: seq<ScrapedItem>, added: seq<Lead>, appended: seq<Lead>)
    requires values == [] || ("Name" in values[0] && "Phone" in values[0])
    requires added == NewLeads(scraped, ColumnCells(values, "Name"), ColumnCells(values, "Phone"))
    requires LeadCells(appended, "Name") == NameCells(added) && LeadCells(appended, "Phone") == PhoneCells(added)
    ensures var after := AppendedTable(values, appended);
      NewLeads(scraped, ColumnCells(after, "Name"), ColumnCells(after, "Phone")) == []
  {
    if appended != [] {
      AppendedColumn(values, appended, "Name");
      AppendedColumn(values, appended, "Phone");
      RerunAddsNothing(scraped, ColumnCells(values, "Name"), ColumnCells(values, "Phone"));
    }
  }

  class GoogleSheetsService {
    const worksheet: Worksheet

    constructor (worksheet: Worksheet)
      ensures this.worksheet == worksheet
    {
      this.worksheet := worksheet;
    }

    /** `remove_duplicates`: keep the first row of each first-column name. */
    method RemoveDuplicates()
      modifies worksheet
      ensures DedupRewrites(old(worksheet.values)) ==>
        worksheet.values == DedupedTable(old(worksheet.values)) && worksheet.writes == old(worksheet.writes) + 2
      ensures !DedupRewrites(old(worksheet.values)) ==>
        worksheet.values == old(worksheet.values) && worksheet.writes == old(worksheet.writes)
    {
      var allValues := worksheet.values;
      if |allValues| <= 1 {
        return;
      }
      var headers := allValues[0];
      var kept, duplicatesRemoved := DedupPass(allValues[1..]);
      if duplicatesRemoved == 0 {
        return;
      }
      worksheet.Clear();
      worksheet.Update([headers] + kept);
    }

    /** `verify_and_clean_links`: clear the Instagram and Facebook cells whose links the verifier rejects. */
    method VerifyAndCleanLinks(verifier: Verifier)
      modifies worksheet
      ensures LinksRewrite(old(worksheet.values), verifier) ==>
        worksheet.values == CleanedTable(old(worksheet.values), verifier) && worksheet.writes == old(worksheet.writes) + 2
      ensures !LinksRewrite(old(worksheet.values), verifier) ==>
        worksheet.values == old(worksheet.values) && worksheet.writes == old(worksheet.writes)
    {
      var allValues := worksheet.values;
      if |allValues| <= 1 {
        return;
      }
      var headers := allValues[0];
      var instagramCol, facebookCol := FindSocialColumns(headers);
      if instagramCol.None? && facebookCol.None? {
        return;
      }
      var updatedRows, instagramCleaned, facebookCleaned := CleanPass(allValues[1..], |headers|, instagramCol, facebookCol, verifier);
      if instagramCleaned + facebookCleaned == 0 {
        return;
      }
      worksheet.Clear();
      worksheet.Update([headers] + updatedRows);
    }

    /** `get_all_emails`: the non-blank stripped cells of the first Email column. */
    method GetAllEmails() returns (emails: seq<string>)
      ensures emails == SheetEmails(worksheet.values)
    {
      var allValues := worksheet.values;
      if |allValues| <= 1 {
        return [];
      }
      var emailCol := FindEmailColumn(allValues[0]);
      if emailCol.None? {
        return [];
      }
      emails := CollectEmails(allValues[1..], emailCol.value);
    }

    /** `append_leads`: add a header row to a sheet without one, then one row per lead. */
    method AppendLeads(leads: seq<Lead>)
      modifies worksheet
      ensures worksheet.values == AppendedTable(old(worksheet.values), leads)
      ensures worksheet.writes == old(worksheet.writes) + AppendWrites(old(worksheet.values), leads)
    {
      if leads == [] {
        return;
      }
      var allValues := worksheet.values;
      var headers;
      if allValues == [] || allValues[0] == [] {
        headers := DefaultHeaders;
        worksheet.AppendRow(headers);
      } else {
        headers := allValues[0];
      }
      var valuesToAppend := BuildRows(headers, leads);
      if valuesToAppend != [] {
        worksheet.AppendRows(valuesToAppend);
      }
    }
  }
}
