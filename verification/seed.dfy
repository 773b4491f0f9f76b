/** The inventory seed script (src/db/seed.ts): spreadsheet rows become pole
    records keyed by their IP identifier, and the records are inserted in
    batches of 100 with "do nothing on conflict", counting what was inserted
    and what was skipped. The spreadsheet reader and the database are left
    out: rows arrive as a sequence, and the `poles` table is a map from
    `externalId` to record. */
module Seed {

  import opened Common
  import opened Text
  import opened JsNumbers

  const BATCH_SIZE: nat := 100

  /** A spreadsheet cell as `sheet_to_json` hands it over: missing
      (`undefined` or `null`), a string, or a number together with the text
      `String(value)` renders for it. */
  datatype Cell = Absent | Str(s: string) | Num(value: JsNumber, shown: string)

  /** `String(cell ?? "")`. */
  function CellText(c: Cell): string
  {
    match c
    case Absent => ""
    case Str(s) => s
    case Num(_, shown) => shown
  }

  /** `String(cell ?? "").trim()`. */
  function Trimmed(c: Cell): string
  {
    Trim(CellText(c))
  }

  // ---------------------------------------------------------------------
  // parseNumber.

  /** The text `parseNumber` hands to `parseFloat`: the cell's text with
      its first comma turned into a point. */
  function LocaleText(c: Cell): string
  {
    ReplaceFirst(CellText(c), ',', '.')
  }

  /** `parseNumber`: 0 for a missing or empty cell, otherwise `parseFloat`
      of the text with its first comma made a point, and 0 again when that
      is NaN. */
  function ParseNumber(c: Cell): (r: JsNumber)
    ensures !r.NaN?
    ensures c.Absent? || c == Str("") ==> r == Finite(0.0)
    ensures !HasNumericPrefix(LocaleText(c)) ==> r == Finite(0.0)
    ensures !c.Absent? && c != Str("") && HasNumericPrefix(LocaleText(c)) ==> r == ParseFloat(LocaleText(c))
  {
    if c.Absent? || c == Str("") then Finite(0.0)
    else
      var n := ParseFloat(LocaleText(c));
      if n.NaN? then Finite(0.0) else n
  }

  /** A coordinate: a numeric cell is taken as it is, anything else goes
      through `parseNumber`. */
  function Coordinate(c: Cell): (r: JsNumber)
    ensures c.Num? ==> r == c.value
    ensures !c.Num? ==> r == ParseNumber(c) && !r.NaN?
  {
    if c.Num? then c.value else ParseNumber(c)
  }

  /** `x === 0`: true of 0 and -0, false of NaN. */
  predicate IsZero(x: JsNumber)
  {
    x.Finite? && x.value == 0.0
  }

  /** A text cell that fails to parse reads as the coordinate 0, and so
      drops its row; a numeric NaN does not. */
  lemma UnparsableCoordinate(c: Cell)
    requires !c.Num? && !HasNumericPrefix(LocaleText(c))
    ensures IsZero(Coordinate(c))
  {
  }

  lemma NumericNaNCoordinate(shown: string)
    ensures !IsZero(Coordinate(Num(NaN, shown)))
  {
  }

  // ---------------------------------------------------------------------
  // Rows and records.

  datatype RawRow = RawRow(
    idPoste: Cell,
    idIp: Cell,
    cidade: Cell,
    tipoLampada: Cell,
    potenciaW: Cell,
    latitude: Cell,
    longitude: Cell)

  /** A row of the `poles` table before insertion. */
  datatype PoleRecord = PoleRecord(
    externalId: string,
    latitude: JsNumber,
    longitude: JsNumber,
    lampType: Option<string>,
    powerW: string,
    ips: seq<string>,
    addressId: Option<string>)

  /** A row is kept when its IP identifier is not blank and neither
      coordinate is zero. */
  predicate Keeps(row: RawRow)
  {
    Trimmed(row.idIp) != "" && !IsZero(Coordinate(row.latitude)) && !IsZero(Coordinate(row.longitude))
  }

  /** `String(Math.round(parseNumber(cell)))`. */
  function PowerText(c: Cell): string
  {
    IntegralText(Round(ParseNumber(c)))
  }

  /** The record a kept row becomes: the trimmed IP identifier as key, the
      coordinates, the trimmed lamp type or null, the rounded power, the
      trimmed pole identifier as the only IP (none when blank) and no
      address. */
  function MakeRecord(row: RawRow): PoleRecord
  {
    var idPoste := Trimmed(row.idPoste);
    var lamp := Trimmed(row.tipoLampada);
    PoleRecord(
      Trimmed(row.idIp),
      Coordinate(row.latitude),
      Coordinate(row.longitude),
      if lamp == "" then None else Some(lamp),
      PowerText(row.potenciaW),
      if idPoste == "" then [] else [idPoste],
      None)
  }

  /** What `main` pushes for the rows, in feed order. */
  function Records(rows: seq<RawRow>): seq<PoleRecord>
  {
    FilterMap(rows, Keeps, MakeRecord)
  }

  /** One record per kept row, in feed order, and each record comes from a
      kept row: it has a non-blank key and non-zero coordinates. */
  lemma RecordsOfKept(rows: seq<RawRow>)
    ensures |Records(rows)| == |Filter(rows, Keeps)|
    ensures forall k :: 0 <= k < |Records(rows)| ==> Records(rows)[k] == MakeRecord(Filter(rows, Keeps)[k])
    ensures forall k :: 0 <= k < |Records(rows)| ==>
      && Records(rows)[k].externalId != ""
      && !IsZero(Records(rows)[k].latitude) && !IsZero(Records(rows)[k].longitude)
  {
    FilterMapOfFilter(rows, Keeps, MakeRecord);
    var kept := Filter(rows, Keeps);
    forall k | 0 <= k < |kept|
      ensures Keeps(kept[k])
    {
    }
  }

  /** The loop over the rows: each kept row pushes its record. */
  method PrepareRecords(rows: seq<RawRow>) returns (records: seq<PoleRecord>)
    ensures records == Records(rows)
  {
    records := [];
    var i := 0;
    while i < |rows|
      invariant 0 <= i <= |rows|
      invariant records == FilterMap(rows[..i], Keeps, MakeRecord)
    {
      var row := rows[i];
      assert rows[..i + 1][..i] == rows[..i];
      if Keeps(row) {
        records := records + [MakeRecord(row)];
      }
      i := i + 1;
    }
    assert rows[..i] == rows;
  }

  // ---------------------------------------------------------------------
  // Power in watts.

  /** A power written with a decimal comma: only the first comma becomes a
      point, so the Brazilian thousands notation `1.500,5` reads as 1.5 and
      is stored as "2". */
  lemma LocaleThousands()
    ensures PowerText(Str("1.500,5")) == "2"
  {
    ThousandsText();
    ThousandsValue();
    assert ParseNumber(Str("1.500,5")) == Finite(1.5);
    assert Round(Finite(1.5)) == Finite(2.0);
    assert IntegerText(2) == "2";
  }

  /** Only the comma changes: the thousands point stays. */
  lemma ThousandsText()
    ensures LocaleText(Str("1.500,5")) == "1.500.5"
  {
    assert ReplacedAt("1.500,5", "1.500.5", 5, ',', '.');
    ReplaceFirstAt("1.500,5", "1.500.5", 5, ',', '.');
  }

  /** `parseFloat("1.500.5")` stops at the second point. */
  lemma ThousandsValue()
    ensures ParseFloat("1.500.5") == Finite(1.5)
  {
    assert "1" + "." + "500" + ".5" == "1.500.5";
    ParseFloatPointPrefix("1", "500", ".5");
    ThousandsLiteral();
  }

  /** The digits `1` and `500` around a point denote 1.5. */
  lemma ThousandsLiteral()
    ensures LiteralValue(Literal("1", "500", 0)) == 1.5
  {
    var v := LiteralValue(Literal("1", "500", 0));
    PointValue("1", "500");
    assert "1" + "500" == "1500";
    FifteenHundred();
    assert |"500"| == 3;
    assert Pow10(3) == 1000;
    assert v * 1000.0 == 1500.0;
  }

  lemma FifteenHundred()
    ensures DecimalValue("1500") == 1500
  {
    assert DecimalValue("15") == 15 by { assert "15"[..1] == "1"; }
    assert DecimalValue("150") == 150 by { assert "150"[..2] == "15"; }
    assert "1500"[..3] == "150";
  }

  /** A power written as a plain natural number is stored as written. */
  lemma PowerOfNatural(n: nat)
    ensures PowerText(Str(ToDecimal(n))) == ToDecimal(n)
  {
    var s := ToDecimal(n);
    var x := Finite(n as real);
    assert ParseNumber(Str(s)) == x by {
      NoCommaInDigits(s);
      ParseFloatDecimal(n);
    }
    assert Round(x) == x by {
      assert (n as real + 0.5).Floor == n;
    }
    assert IntegralText(x) == s by {
      assert x.value.Floor == n;
    }
  }

  /** Digits have no comma for `parseNumber` to replace. */
  lemma NoCommaInDigits(s: string)
    requires AllDigits(s)
    ensures LocaleText(Str(s)) == s
  {
    assert ',' !in s by {
      forall i | 0 <= i < |s|
        ensures s[i] != ','
      {
        assert IsDigit(s[i]);
      }
    }
  }

  // ---------------------------------------------------------------------
  // The store and the insert.

  /** The `poles` table, keyed by its unique `externalId`. */
  type Store = map<string, PoleRecord>

  /** What an insert statement leaves behind: the table and the rows
      `returning` reports. */
  datatype Inserted = Inserted(store: Store, returned: seq<PoleRecord>)

  /** `insert(...).values(batch).onConflictDoNothing({ target: externalId })`:
      the records go in one after another, and one whose key is already
      taken, in the table or earlier in the same batch, is skipped. */
  function InsertBatch(st: Store, batch: seq<PoleRecord>): Inserted
    decreases |batch|
  {
    if |batch| == 0 then Inserted(st, [])
    else
      var rec := batch[0];
      if rec.externalId in st then InsertBatch(st, batch[1..])
      else
        var rest := InsertBatch(st[rec.externalId := rec], batch[1..]);
        Inserted(rest.store, [rec] + rest.returned)
  }

  /** Every returned row is one new key in the table, and no more rows
      come back than were sent. */
  lemma {:induction false} InsertBatchCounts(st: Store, batch: seq<PoleRecord>)
    ensures var r := InsertBatch(st, batch);
      |r.store| == |st| + |r.returned| && |r.returned| <= |batch|
    decreases |batch|
  {
    if |batch| > 0 {
      var rec := batch[0];
      if rec.externalId in st {
        InsertBatchCounts(st, batch[1..]);
      } else {
        var st' := st[rec.externalId := rec];
        assert st'.Keys == st.Keys + {rec.externalId};
        InsertBatchCounts(st', batch[1..]);
      }
    }
  }

  /** An insert never changes a stored record, stores every key of the
      batch, and adds no key from elsewhere. */
  lemma InsertBatchStore(st: Store, batch: seq<PoleRecord>)
    ensures var r := InsertBatch(st, batch).store;
      && (forall key :: key in st ==> key in r && r[key] == st[key])
      && (forall i :: 0 <= i < |batch| ==> batch[i].externalId in r)
      && (forall key :: key in r && key !in st ==> exists i :: 0 <= i < |batch| && batch[i].externalId == key)
  {
    InsertKeepsStored(st, batch);
    InsertStoresBatch(st, batch);
    InsertAddsOnlyBatch(st, batch);
  }

  lemma {:induction false} InsertKeepsStored(st: Store, batch: seq<PoleRecord>)
    ensures var r := InsertBatch(st, batch).store;
      forall key :: key in st ==> key in r && r[key] == st[key]
    decreases |batch|
  {
    if |batch| > 0 {
      var rec := batch[0];
      var st' := if rec.externalId in st then st else st[rec.externalId := rec];
      InsertKeepsStored(st', batch[1..]);
      var r := InsertBatch(st', batch[1..]).store;
      assert InsertBatch(st, batch).store == r;
      forall key | key in st
        ensures key in r && r[key] == st[key]
      {
        assert key in st' && st'[key] == st[key];
      }
    }
  }

  lemma {:induction false} InsertStoresBatch(st: Store, batch: seq<PoleRecord>)
    ensures var r := InsertBatch(st, batch).store;
      forall i :: 0 <= i < |batch| ==> batch[i].externalId in r
    decreases |batch|
  {
    if |batch| > 0 {
      var rec := batch[0];
      var st' := if rec.externalId in st then st else st[rec.externalId := rec];
      InsertStoresBatch(st', batch[1..]);
      var r := InsertBatch(st', batch[1..]).store;
      assert InsertBatch(st, batch).store == r;
      forall i | 0 <= i < |batch|
        ensures batch[i].externalId in r
      {
        if i == 0 {
          InsertKeepsStored(st', batch[1..]);
          assert rec.externalId in st';
        } else {
          assert batch[i] == batch[1..][i - 1];
        }
      }
    }
  }

  lemma {:induction false} InsertAddsOnlyBatch(st: Store, batch: seq<PoleRecord>)
    ensures var r := InsertBatch(st, batch).store;
      forall key :: key in r && key !in st ==> exists i :: 0 <= i < |batch| && batch[i].externalId == key
    decreases |batch|
  {
    if |batch| > 0 {
      var rec := batch[0];
      var st' := if rec.externalId in st then st else st[rec.externalId := rec];
      InsertAddsOnlyBatch(st', batch[1..]);
      var r := InsertBatch(st', batch[1..]).store;
      assert InsertBatch(st, batch).store == r;
      forall key | key in r && key !in st
        ensures exists i :: 0 <= i < |batch| && batch[i].externalId == key
      {
        if key != rec.externalId {
          var i :| 0 <= i < |batch[1..]| && batch[1..][i].externalId == key;
          assert batch[i + 1].externalId == key;
        }
      }
    }
  }

  /** What an insert returns are records of the batch, in batch order,
      whose keys were free. */
  lemma {:induction false} InsertBatchReturned(st: Store, batch: seq<PoleRecord>)
    ensures var r := InsertBatch(st, batch).returned;
      && IsSubsequence(r, batch)
      && (forall i :: 0 <= i < |r| ==> r[i].externalId !in st)
    decreases |batch|
  {
    if |batch| > 0 {
      var rec := batch[0];
      var st' := if rec.externalId in st then st else st[rec.externalId := rec];
      InsertBatchReturned(st', batch[1..]);
      var rest := InsertBatch(st', batch[1..]).returned;
      if rec.externalId in st {
        assert InsertBatch(st, batch).returned == rest;
        SubsequenceOfTail(rest, batch);
      } else {
        assert InsertBatch(st, batch).returned == [rec] + rest;
        assert ([rec] + rest)[1..] == rest;
      }
    }
  }

  /** Inserting `a + b` is inserting `a`, then `b` into the result. */
  lemma {:induction false} InsertBatchAppend(st: Store, a: seq<PoleRecord>, b: seq<PoleRecord>)
    ensures var first := InsertBatch(st, a);
      var second := InsertBatch(first.store, b);
      InsertBatch(st, a + b) == Inserted(second.store, first.returned + second.returned)
    decreases |a|
  {
    if |a| == 0 {
      assert a + b == b;
    } else {
      assert (a + b)[0] == a[0];
      assert (a + b)[1..] == a[1..] + b;
      var rec := a[0];
      var st' := if rec.externalId in st then st else st[rec.externalId := rec];
      var head: seq<PoleRecord> := if rec.externalId in st then [] else [rec];
      InsertBatchAppend(st', a[1..], b);
      var tail := InsertBatch(st', a[1..]);
      var second := InsertBatch(tail.store, b);
      assert InsertBatch(st, a) == Inserted(tail.store, head + tail.returned);
      assert InsertBatch(st, a + b) == Inserted(second.store, head + (tail.returned + second.returned));
      assert head + (tail.returned + second.returned) == (head + tail.returned) + second.returned;
    }
  }

  /** Inserting the records up to `end` is inserting those up to `i`, then
      the slice between. */
  lemma InsertPrefixStep(store: Store, records: seq<PoleRecord>, i: nat, end: nat)
    requires i <= end <= |records|
    ensures var before := InsertBatch(store, records[..i]);
      var step := InsertBatch(before.store, records[i..end]);
      && InsertBatch(store, records[..end]).store == step.store
      && |InsertBatch(store, records[..end]).returned| == |before.returned| + |step.returned|
  {
    InsertBatchAppend(store, records[..i], records[i..end]);
    SliceJoin(records, i, end);
  }

  /** A batch whose keys are all taken changes nothing and returns nothing. */
  lemma {:induction false} InsertBatchPresent(st: Store, batch: seq<PoleRecord>)
    requires forall i :: 0 <= i < |batch| ==> batch[i].externalId in st
    ensures InsertBatch(st, batch) == Inserted(st, [])
    decreases |batch|
  {
    if |batch| > 0 {
      assert batch[0].externalId in st;
      InsertBatchPresent(st, batch[1..]);
    }
  }

  /** Inserting the same batch a second time inserts nothing. */
  lemma InsertBatchIdempotent(st: Store, batch: seq<PoleRecord>)
    ensures var once := InsertBatch(st, batch).store;
      InsertBatch(once, batch) == Inserted(once, [])
  {
    InsertBatchStore(st, batch);
    InsertBatchPresent(InsertBatch(st, batch).store, batch);
  }

  /** The first record with a key wins: after an insert into an empty
      table, each key holds the earliest record of the batch with it. */
  lemma {:induction false} FirstRecordWins(st: Store, batch: seq<PoleRecord>, i: nat)
    requires i < |batch| && batch[i].externalId !in st
    requires forall j :: 0 <= j < i ==> batch[j].externalId != batch[i].externalId
    ensures var s := InsertBatch(st, batch).store;
      batch[i].externalId in s && s[batch[i].externalId] == batch[i]
    decreases i
  {
    var rec := batch[0];
    if i > 0 {
      var st' := if rec.externalId in st then st else st[rec.externalId := rec];
      FirstRecordWins(st', batch[1..], i - 1);
    } else {
      InsertBatchStore(st[rec.externalId := rec], batch[1..]);
    }
  }

  // ---------------------------------------------------------------------
  // The batch loop.

  datatype SeedOutcome =
    | NothingToInsert
    | Done(store: Store, inserted: nat, skipped: nat, progress: seq<nat>, batches: seq<seq<PoleRecord>>)

  /** The state of the insert loop after the batches before `i`. */
  datatype Run = Run(i: nat, st: Store, inserted: nat, skipped: nat, progress: seq<nat>, batches: seq<seq<PoleRecord>>)

  /** What the insert loop keeps: the batches so far and the rest of the
      records chunk the records; the store and the counts are those of one
      sequential insert of the records handled; one progress figure per batch. */
  ghost predicate RunInvariant(store: Store, records: seq<PoleRecord>, r: Run)
  {
    && ChunkedUpTo(records, r.i, BATCH_SIZE, r.batches)
    && InsertedUpTo(store, records, r)
    && ProgressUpTo(|records|, r.i, r.progress)
    && |r.batches| == |r.progress|
  }

  /** The store and the counts after handling the records before `r.i`. */
  ghost predicate InsertedUpTo(store: Store, records: seq<PoleRecord>, r: Run)
  {
    var done := Min(r.i, |records|);
    && r.st == InsertBatch(store, records[..done]).store
    && r.inserted == |InsertBatch(store, records[..done]).returned|
    && r.inserted + r.skipped == done
  }

  /** One progress figure `min(100 * (j + 1), n)` per batch handled. */
  ghost predicate ProgressUpTo(n: nat, i: nat, progress: seq<nat>)
  {
    && i == BATCH_SIZE * |progress|
    && (forall j :: 0 <= j < |progress| ==> progress[j] == Min(BATCH_SIZE * (j + 1), n))
  }

  /** One iteration: `records.slice(i, i + 100)` inserted, the counts and the
      progress figure `min(i + 100, n)` updated. */
  function NextRun(records: seq<PoleRecord>, r: Run): (r': Run)
    requires r.i < |records|
    ensures r'.i == r.i + BATCH_SIZE
  {
    var end := Min(r.i + BATCH_SIZE, |records|);
    var batch := records[r.i..end];
    var result := InsertBatch(r.st, batch);
    InsertBatchCounts(r.st, batch);
    Run(r.i + BATCH_SIZE, result.store, r.inserted + |result.returned|,
        r.skipped + (|batch| - |result.returned|), r.progress + [end], r.batches + [batch])
  }

  /** An iteration keeps the loop invariant. */
  lemma NextRunKeeps(store: Store, records: seq<PoleRecord>, r: Run)
    requires RunInvariant(store, records, r) && r.i < |records|
    ensures RunInvariant(store, records, NextRun(records, r))
  {
    NextRunChunked(records, r);
    NextRunInserted(store, records, r);
    NextRunProgress(records, r);
  }

  lemma NextRunChunked(records: seq<PoleRecord>, r: Run)
    requires ChunkedUpTo(records, r.i, BATCH_SIZE, r.batches) && r.i < |records|
    ensures var r' := NextRun(records, r);
      ChunkedUpTo(records, r'.i, BATCH_SIZE, r'.batches) && |r'.batches| == |r.batches| + 1
  {
    ChunkedStep(records, r.i, BATCH_SIZE, r.batches);
  }

  lemma NextRunProgress(records: seq<PoleRecord>, r: Run)
    requires ProgressUpTo(|records|, r.i, r.progress) && r.i < |records|
    ensures var r' := NextRun(records, r);
      ProgressUpTo(|records|, r'.i, r'.progress) && |r'.progress| == |r.progress| + 1
  {
    ProgressStep(|records|, r.i, r.progress);
  }

  lemma NextRunInserted(store: Store, records: seq<PoleRecord>, r: Run)
    requires InsertedUpTo(store, records, r) && r.i < |records|
    ensures InsertedUpTo(store, records, NextRun(records, r))
  {
    var end := Min(r.i + BATCH_SIZE, |records|);
    InsertPrefixStep(store, records, r.i, end);
  }

  lemma ProgressStep(n: nat, i: nat, progress: seq<nat>)
    requires ProgressUpTo(n, i, progress)
    ensures ProgressUpTo(n, i + BATCH_SIZE, progress + [Min(i + BATCH_SIZE, n)])
  {
  }

  /** When the loop stops, every record has been handled: the batches are
      the chunks of all records, the store and counts those of inserting
      them all, and the last progress figure is `n`. */
  lemma RunFinished(store: Store, records: seq<PoleRecord>, r: Run)
    requires RunInvariant(store, records, r)
    requires 0 < |records| <= r.i < |records| + BATCH_SIZE
    ensures r.batches == Chunks(records, BATCH_SIZE)
    ensures r.st == InsertBatch(store, records).store
    ensures r.inserted == |InsertBatch(store, records).returned|
    ensures r.inserted + r.skipped == |records|
    ensures r.inserted == |r.st| - |store|
    ensures |r.progress| == |r.batches| && r.progress[|r.progress| - 1] == |records|
  {
    var n := |records|;
    assert records[..n] == records;
    assert Chunks(records[n..], BATCH_SIZE) == [];
    assert r.progress[|r.progress| - 1] == Min(BATCH_SIZE * |r.progress|, n);
    InsertBatchCounts(store, records);
  }

  /** The insert loop of `main`: no store interaction at all without
      records; otherwise consecutive batches of at most 100, with running
      counts and the progress figure `min(i + 100, n)` after each batch. */
  method InsertAll(store: Store, records: seq<PoleRecord>) returns (out: SeedOutcome)
    ensures out.NothingToInsert? <==> |records| == 0
    ensures out.Done? ==>
      && out.batches == Chunks(records, BATCH_SIZE)
      && out.store == InsertBatch(store, records).store
      && out.inserted == |InsertBatch(store, records).returned|
      && out.inserted + out.skipped == |records|
      && out.inserted == |out.store| - |store|
    ensures out.Done? ==>
      && |out.progress| == |out.batches|
      && (forall j :: 0 <= j < |out.progress| ==> out.progress[j] == Min(BATCH_SIZE * (j + 1), |records|))
      && out.progress[|out.progress| - 1] == |records|
  {
    var n := |records|;
    if n == 0 {
      return NothingToInsert;
    }
    var r := Run(0, store, 0, 0, [], []);
    while r.i < n
      invariant RunInvariant(store, records, r)
      invariant r.i < n + BATCH_SIZE
    {
      NextRunKeeps(store, records, r);
      r := NextRun(records, r);
    }
    RunFinished(store, records, r);
    return Done(r.st, r.inserted, r.skipped, r.progress, r.batches);
  }

  /** The whole script: rows to records, then the insert loop. */
  method SeedRows(store: Store, rows: seq<RawRow>) returns (out: SeedOutcome)
    ensures out.NothingToInsert? <==> |Filter(rows, Keeps)| == 0
    ensures out.Done? ==> |out.store| == |store| + out.inserted
    ensures out.Done? ==>
      && out.store == InsertBatch(store, Records(rows)).store
      && out.inserted + out.skipped == |Records(rows)|
  {
    var records := PrepareRecords(rows);
    RecordsOfKept(rows);
    out := InsertAll(store, records);
  }
}
