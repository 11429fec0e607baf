/** What the body decoder promises, proved about the reference definition in
    module Body (and so, through ExtractAccelerometerData's postcondition,
    about the loop itself): plain samples come out one row per group, the
    sentinel and run-length groups repeat the previous row, nothing after the
    tail marker matters, and the buffer is large enough except for a full
    run on old firmware. */
module BodyProperties {
  import opened Bytes
  import opened Body

  /** A group that stands for itself: neither a run-length group, nor the
      invalid sentinel, nor the first three bytes of a .datx tail marker.
      This is sufficient for a sample, not necessary: a .datx group
      (116, 97, 105) whose next byte is not 108 is decoded as a sample too,
      but is not plain. */
  predicate PlainGroup(x: byte, y: byte, z: byte, datx: bool) {
    && !(x == 0 && y == 0)
    && !(x == 255 && y == 255 && z == 255)
    && !(datx && x == 116 && y == 97 && z == 105)
  }

  /** b is a whole number of plain groups. */
  predicate PlainGroups(b: seq<byte>, datx: bool)
    decreases |b|
  {
    b == [] || (|b| >= 3 && PlainGroup(b[0], b[1], b[2], datx) && PlainGroups(b[3..], datx))
  }

  /** The rows a sequence of groups stands for when each is a sample. */
  function Triplets(b: seq<byte>): seq<Row>
    requires |b| % 3 == 0
    decreases |b|
  {
    if b == [] then [] else [Row(b[0], b[1], b[2])] + Triplets(b[3..])
  }

  /** One row per group, the g-th row being the g-th triplet. */
  lemma {:induction false} TripletsAt(b: seq<byte>, g: nat)
    requires |b| % 3 == 0
    ensures |Triplets(b)| == |b| / 3
    ensures g < |b| / 3 ==> Triplets(b)[g] == Row(b[3 * g], b[3 * g + 1], b[3 * g + 2])
    decreases |b|
  {
    if b != [] {
      TripletsAt(b[3..], if g == 0 then 0 else g - 1);
    }
  }

  /** A plain group is decoded as a sample. */
  lemma PlainGroupIsNormal(body: seq<byte>, i: nat, datx: bool)
    requires i + 2 < |body| && PlainGroup(body[i], body[i + 1], body[i + 2], datx)
    ensures Classify(body, i, datx) == Ok(NormalGroup(Row(body[i], body[i + 1], body[i + 2])))
  {
    ClassifyMeaning(body, i, datx);
    ClassifyErrMeaning(body, i, datx);
  }

  /** The first group of a run of plain groups, and the rest of the run. */
  lemma PlainGroupsFirst(body: seq<byte>, i: nat, e: nat, datx: bool)
    requires i < e <= |body| && (e - i) % 3 == 0
    requires PlainGroups(body[i..e], datx)
    ensures i + 2 < e && PlainGroup(body[i], body[i + 1], body[i + 2], datx)
    ensures PlainGroups(body[i + 3..e], datx)
    ensures Triplets(body[i..e]) == [Row(body[i], body[i + 1], body[i + 2])] + Triplets(body[i + 3..e])
  {
    var g := body[i..e];
    assert g[0] == body[i] && g[1] == body[i + 1] && g[2] == body[i + 2];
    assert g[3..] == body[i + 3..e];
  }

  /** A normal group with room for it appends its row and moves on. */
  lemma NormalGroupStep(
    body: seq<byte>, firmware: int, datx: bool, capacity: nat, i: nat, rows: seq<Row>, row: Row)
    requires i + 2 < |body| && Classify(body, i, datx) == Ok(NormalGroup(row))
    requires |rows| < capacity
    ensures ScanFrom(body, firmware, datx, capacity, i, rows) ==
            ScanFrom(body, firmware, datx, capacity, i + 3, rows + [row])
  {
    ScanStep(body, firmware, datx, capacity, i, rows);
  }

  /** Scanning over plain groups appends their triplets and nothing else. */
  lemma {:induction false} ScanOverPlainGroups(
    body: seq<byte>, firmware: int, datx: bool, capacity: nat, i: nat, e: nat, rows: seq<Row>)
    requires i <= e <= |body| && (e - i) % 3 == 0
    requires PlainGroups(body[i..e], datx)
    requires |rows| + (e - i) / 3 <= capacity
    ensures ScanFrom(body, firmware, datx, capacity, i, rows) ==
            ScanFrom(body, firmware, datx, capacity, e, rows + Triplets(body[i..e]))
    decreases e - i
  {
    if i < e {
      var row := Row(body[i], body[i + 1], body[i + 2]);
      PlainGroupsFirst(body, i, e, datx);
      var rest := body[i + 3..e];
      assert rows + [row] + Triplets(rest) == rows + Triplets(body[i..e]);
      PlainGroupIsNormal(body, i, datx);
      NormalGroupStep(body, firmware, datx, capacity, i, rows, row);
      ScanOverPlainGroups(body, firmware, datx, capacity, i + 3, e, rows + [row]);
    } else {
      assert rows + Triplets(body[i..e]) == rows;
    }
  }

  /** A body made only of plain samples, with no tail marker: every triplet
      becomes one row, followed by the untouched zero rows of the buffer. */
  lemma PlainBodyDecodesToTriplets(body: seq<byte>, firmware: int, datx: bool)
    requires |body| % 3 == 0 && PlainGroups(body, datx)
    ensures Decode(body, firmware, datx) ==
            Ok(Triplets(body) + Repeat(ZeroRow, MaxRows(body) - |body| / 3))
  {
    TripletsAt(body, 0);
    assert body[0..|body|] == body;
    assert [] + Triplets(body) == Triplets(body);
    ScanOverPlainGroups(body, firmware, datx, MaxRows(body), 0, |body|, []);
    assert ScanFrom(body, firmware, datx, MaxRows(body), 0, []) == Ok(Scan(Triplets(body), false, |body|));
  }

  /** Plain samples followed by a complete tail marker (and then anything at
      all): exactly the samples' triplets, with no padding. */
  lemma PlainBodyThenTail(b: seq<byte>, marker: seq<byte>, rest: seq<byte>, firmware: int, datx: bool)
    requires |b| % 3 == 0 && PlainGroups(b, datx)
    requires IsTailAt(marker, 0, datx)
    ensures Decode(b + marker + rest, firmware, datx) == Ok(Triplets(b))
  {
    var body := b + marker + rest;
    TripletsAt(b, 0);
    assert body[0..|b|] == b;
    ScanOverPlainGroups(body, firmware, datx, MaxRows(body), 0, |b|, []);
    TailAtConcat(b, marker, rest, datx);
    TailStopsScan(body, firmware, datx, MaxRows(body), |b|, [] + Triplets(b));
    assert [] + Triplets(b) == Triplets(b);
  }

  lemma TailAtConcat(b: seq<byte>, marker: seq<byte>, rest: seq<byte>, datx: bool)
    requires IsTailAt(marker, 0, datx)
    ensures IsTailAt(b + marker + rest, |b|, datx)
  {
    var body := b + marker + rest;
    var p := TailPattern(datx);
    assert forall j :: 0 <= j < |p| ==> body[|b| + j] == marker[j];
  }

  /** A scan that reaches a tail marker ends there with the rows it has. */
  lemma TailStopsScan(body: seq<byte>, firmware: int, datx: bool, capacity: nat, i: nat, rows: seq<Row>)
    requires IsTailAt(body, i, datx)
    ensures ScanFrom(body, firmware, datx, capacity, i, rows) == Ok(Scan(rows, true, i))
  {
    ClassifyMeaning(body, i, datx);
  }

  /** The invalid sentinel is never a tail marker and appends one copy of the
      previous row (the wrapped, zero, last buffer row at the very start). */
  lemma InvalidGroupRepeatsPrevious(
    body: seq<byte>, firmware: int, datx: bool, capacity: nat, i: nat, rows: seq<Row>)
    requires i + 2 < |body| && body[i] == 255 && body[i + 1] == 255 && body[i + 2] == 255
    ensures |rows| < capacity ==>
      ScanFrom(body, firmware, datx, capacity, i, rows) ==
      ScanFrom(body, firmware, datx, capacity, i + 3, rows + [Previous(rows)])
    ensures |rows| >= capacity ==> ScanFrom(body, firmware, datx, capacity, i, rows) == Err(BufferOverflow)
  {
    ClassifyMeaning(body, i, datx);
    ClassifyErrMeaning(body, i, datx);
    ScanStep(body, firmware, datx, capacity, i, rows);
  }

  /** The number of copies a run-length group with count z stands for. */
  function RunLength(z: byte, firmware: int): (n: nat)
    ensures firmware < RunLengthFirmware ==> n == z as int + 1
    ensures firmware >= RunLengthFirmware ==> n == z as int
  {
    RowCount(CompressedGroup(z), firmware)
  }

  /** A run-length group (0, 0, z) that is not a tail marker appends
      RunLength(z) copies of the previous row, or overflows the buffer; on
      firmware 218 and later a count of zero appends nothing. When the marker
      check runs out of bytes first (a .dat run near the end of the body) the
      scan fails with ReadPastEnd instead. */
  lemma RunLengthGroupRepeatsPrevious(
    body: seq<byte>, firmware: int, datx: bool, capacity: nat, i: nat, rows: seq<Row>)
    requires i + 2 < |body| && body[i] == 0 && body[i + 1] == 0
    requires !IsTailAt(body, i, datx)
    ensures Classify(body, i, datx).Err? ==>
      ScanFrom(body, firmware, datx, capacity, i, rows) == Err(ReadPastEnd)
    ensures var n := RunLength(body[i + 2], firmware);
      && (Classify(body, i, datx).Ok? && |rows| + n <= capacity ==>
            ScanFrom(body, firmware, datx, capacity, i, rows) ==
            ScanFrom(body, firmware, datx, capacity, i + 3, rows + Repeat(Previous(rows), n)))
      && (Classify(body, i, datx).Ok? && |rows| + n > capacity ==>
            ScanFrom(body, firmware, datx, capacity, i, rows) == Err(BufferOverflow))
  {
    ClassifyMeaning(body, i, datx);
    ScanStep(body, firmware, datx, capacity, i, rows);
  }

  /** A .datx run-length group, or a .dat one with at least eight bytes from
      its offset on, always passes the marker check. */
  lemma RunLengthGroupClassifies(body: seq<byte>, i: nat, datx: bool)
    requires i + 2 < |body| && body[i] == 0 && body[i + 1] == 0
    requires datx || body[i + 2] == 0 || i + 8 <= |body|
    ensures Classify(body, i, datx).Ok?
  {
    if Classify(body, i, datx).Err? {
      ClassifyErrMeaning(body, i, datx);
      MatchFromMeaning(body, i, TailPattern(datx), 0);
      assert false;
    }
  }

  /** A .dat run-length group in one of the last two groups, followed by a
      sample: the run's RunLength(5) copies of the zero row (six before
      firmware 218, five from 218 on) and then the sample; no error. */
  lemma DatRunBeforeLastGroup(firmware: int)
    ensures var body: seq<byte> := [0, 0, 5, 1, 2, 3];
      ScanFrom(body, firmware, false, MaxRows(body), 0, []) ==
        Ok(Scan(Repeat(ZeroRow, RunLength(5, firmware)) + [Row(1, 2, 3)], false, 6))
  {
    var body: seq<byte> := [0, 0, 5, 1, 2, 3];
    var run := Repeat(ZeroRow, RunLength(5, firmware));
    assert MatchFrom(body, 0, DatTail, 0) == Ok(false) by {
      MatchFromMeaning(body, 0, DatTail, 0);
    }
    assert MatchFrom(body, 3, DatTail, 0) == Ok(false) by {
      MatchFromMeaning(body, 3, DatTail, 0);
    }
    assert Classify(body, 0, false) == Ok(CompressedGroup(5));
    assert Classify(body, 3, false) == Ok(NormalGroup(Row(1, 2, 3)));
    assert ScanFrom(body, firmware, false, MaxRows(body), 0, []) ==
           ScanFrom(body, firmware, false, MaxRows(body), 3, run) by {
      assert [] + Repeat(Previous([]), RunLength(5, firmware)) == run;
      RunLengthGroupRepeatsPrevious(body, firmware, false, MaxRows(body), 0, []);
    }
    NormalGroupStep(body, firmware, false, MaxRows(body), 3, run, Row(1, 2, 3));
  }

  /** The marker check at offset i depends only on the bytes the marker
      covers. */
  lemma {:induction false} MatchFromLocal(b1: seq<byte>, b2: seq<byte>, i: nat, pat: seq<ByteTest>, k: nat)
    requires k <= |pat| && i + |pat| <= |b1| && i + |pat| <= |b2|
    requires forall j :: i <= j < i + |pat| ==> b1[j] == b2[j]
    ensures MatchFrom(b1, i, pat, k) == MatchFrom(b2, i, pat, k)
    decreases |pat| - k
  {
    if k < |pat| {
      assert b1[i + k] == b2[i + k];
      MatchFromLocal(b1, b2, i, pat, k + 1);
    }
  }

  lemma ClassifyLocal(b1: seq<byte>, b2: seq<byte>, i: nat, datx: bool)
    requires var n := i + |TailPattern(datx)|; n <= |b1| && n <= |b2|
    requires forall j :: i <= j < i + |TailPattern(datx)| ==> b1[j] == b2[j]
    ensures Classify(b1, i, datx) == Classify(b2, i, datx)
  {
    MatchFromLocal(b1, b2, i, TailPattern(datx), 0);
    assert b1[i] == b2[i] && b1[i + 1] == b2[i + 1] && b1[i + 2] == b2[i + 2];
  }

  /** A scan that ends at a tail marker reads nothing past the marker: any body
      that agrees with it up to the marker's end scans the same way. */
  lemma {:induction false} ScanIgnoresBytesAfterTail(
    b1: seq<byte>, b2: seq<byte>, firmware: int, datx: bool, capacity: nat, i: nat, rows: seq<Row>)
    requires var s := ScanFrom(b1, firmware, datx, capacity, i, rows);
      && s.Ok? && s.value.tail
      && s.value.stop + |TailPattern(datx)| <= |b1|
      && s.value.stop + |TailPattern(datx)| <= |b2|
      && forall j :: 0 <= j < s.value.stop + |TailPattern(datx)| ==> b1[j] == b2[j]
    ensures ScanFrom(b2, firmware, datx, capacity, i, rows) == ScanFrom(b1, firmware, datx, capacity, i, rows)
    decreases |b1| - i
  {
    var s := ScanFrom(b1, firmware, datx, capacity, i, rows);
    var t := s.value.stop;
    ScanFromMeaning(b1, firmware, datx, capacity, i, rows);
    assert i < |b1|;
    ClassifyMeaning(b1, i, datx);
    ClassifyLocal(b1, b2, i, datx);
    ScanStep(b1, firmware, datx, capacity, i, rows);
    ScanStep(b2, firmware, datx, capacity, i, rows);
    var c := Classify(b1, i, datx);
    if !c.value.TailGroup? {
      ScanIgnoresBytesAfterTail(b1, b2, firmware, datx, capacity, i + 3, Emit(rows, c.value, firmware));
    }
  }

  /** A successful scan is the same with any buffer that holds its rows. */
  lemma {:induction false} ScanCapacityIrrelevant(
    body: seq<byte>, firmware: int, datx: bool, c1: nat, c2: nat, i: nat, rows: seq<Row>)
    requires var s := ScanFrom(body, firmware, datx, c1, i, rows); s.Ok? && |s.value.rows| <= c2
    ensures ScanFrom(body, firmware, datx, c2, i, rows) == ScanFrom(body, firmware, datx, c1, i, rows)
    decreases |body| - i
  {
    if i < |body| {
      var c := Classify(body, i, datx);
      if c.Ok? && !c.value.TailGroup? {
        var next := Emit(rows, c.value, firmware);
        EmitMeaning(rows, c.value, firmware);
        ScanFromMeaning(body, firmware, datx, c1, i + 3, next);
        ScanCapacityIrrelevant(body, firmware, datx, c1, c2, i + 3, next);
      }
    }
  }

  /** The top-level form: once the first body decodes with a tail marker,
      whatever follows the marker is irrelevant, provided the other body's
      buffer holds the rows (always so when it is not shorter). */
  lemma DecodeIgnoresBytesAfterTail(b1: seq<byte>, b2: seq<byte>, firmware: int, datx: bool)
    requires var s := ScanFrom(b1, firmware, datx, MaxRows(b1), 0, []);
      && s.Ok? && s.value.tail
      && s.value.stop + |TailPattern(datx)| <= |b1|
      && s.value.stop + |TailPattern(datx)| <= |b2|
      && b1[..s.value.stop + |TailPattern(datx)|] == b2[..s.value.stop + |TailPattern(datx)|]
      && (|b1| <= |b2| || |s.value.rows| <= MaxRows(b2))
    ensures Decode(b2, firmware, datx) == Decode(b1, firmware, datx)
  {
    var s := ScanFrom(b1, firmware, datx, MaxRows(b1), 0, []);
    var e := s.value.stop + |TailPattern(datx)|;
    PrefixesAgree(b1, b2, e);
    ScanFromMeaning(b1, firmware, datx, MaxRows(b1), 0, []);
    ScanIgnoresBytesAfterTail(b1, b2, firmware, datx, MaxRows(b1), 0, []);
    if |b1| <= |b2| {
      MaxRowsMonotone(b1, b2);
    }
    ScanCapacityIrrelevant(b2, firmware, datx, MaxRows(b1), MaxRows(b2), 0, []);
    assert ScanFrom(b2, firmware, datx, MaxRows(b2), 0, []) == s;
  }

  lemma PrefixesAgree(b1: seq<byte>, b2: seq<byte>, e: nat)
    requires e <= |b1| && e <= |b2| && b1[..e] == b2[..e]
    ensures forall j :: 0 <= j < e ==> b1[j] == b2[j]
  {
    assert forall j :: 0 <= j < e ==> b1[j] == b1[..e][j] && b2[j] == b2[..e][j];
  }

  lemma MaxRowsMonotone(b1: seq<byte>, b2: seq<byte>)
    requires |b1| <= |b2|
    ensures MaxRows(b1) <= MaxRows(b2)
  {
    assert |b1| / 3 <= |b2| / 3;
  }

  /** A full run (0, 0, 255) stands for 256 rows on firmware before 218. */
  predicate FullRunAt(body: seq<byte>, i: nat)
    requires i + 2 < |body|
  {
    body[i] == 0 && body[i + 1] == 0 && body[i + 2] == 255
  }

  /** Every group the scan decodes from offset i on stands for at most 255
      rows: from firmware 218 on any group does; before 218, every aligned
      full run at or after i comes after (or starts) a tail marker, which
      ends the scan first. */
  predicate NoOversizedGroupFrom(body: seq<byte>, firmware: int, datx: bool, i: nat) {
    firmware >= RunLengthFirmware ||
    forall g :: i / 3 <= g < |body| / 3 && FullRunAt(body, 3 * g) ==>
      exists t :: i / 3 <= t <= g && IsTailAt(body, 3 * t, datx)
  }

  /** No group the decoder reaches stands for more than 255 rows. */
  predicate NoOversizedGroup(body: seq<byte>, firmware: int, datx: bool) {
    NoOversizedGroupFrom(body, firmware, datx, 0)
  }

  /** In particular a body without any aligned full run qualifies. */
  lemma NoFullRunIsNoOversizedGroup(body: seq<byte>, firmware: int, datx: bool)
    requires forall g :: 0 <= g < |body| / 3 ==> !FullRunAt(body, 3 * g)
    ensures NoOversizedGroup(body, firmware, datx)
  {
  }

  /** Without an oversized group, the scan never emits more than 255 rows per
      group it has passed, and so never overflows the 255-rows-per-group
      buffer. */
  lemma {:induction false} BoundedGroupsFrom(
    body: seq<byte>, firmware: int, datx: bool, i: nat, rows: seq<Row>)
    requires NoOversizedGroupFrom(body, firmware, datx, i)
    requires i % 3 == 0 && |rows| <= 255 * (i / 3)
    ensures var s := ScanFrom(body, firmware, datx, MaxRows(body), i, rows);
      && s != Err(BufferOverflow)
      && (s.Ok? ==> s.value.stop % 3 == 0 && |s.value.rows| <= 255 * (s.value.stop / 3))
    decreases |body| - i
  {
    if i < |body| {
      var c := Classify(body, i, datx);
      if c.Ok? && !c.value.TailGroup? {
        ClassifyMeaning(body, i, datx);
        assert i + 2 < |body| && 3 * (i / 3) == i && (i + 3) / 3 == i / 3 + 1;
        if firmware < RunLengthFirmware {
          assert !FullRunAt(body, 3 * (i / 3));
          forall g | (i + 3) / 3 <= g < |body| / 3 && FullRunAt(body, 3 * g)
            ensures exists t :: (i + 3) / 3 <= t <= g && IsTailAt(body, 3 * t, datx)
          {
            var t :| i / 3 <= t <= g && IsTailAt(body, 3 * t, datx);
            assert t != i / 3;
          }
        }
        assert RowCount(c.value, firmware) <= 255;
        assert i / 3 + 1 <= |body| / 3;
        assert |rows| + RowCount(c.value, firmware) <= MaxRows(body);
        EmitMeaning(rows, c.value, firmware);
        BoundedGroupsFrom(body, firmware, datx, i + 3, Emit(rows, c.value, firmware));
      }
    }
  }

  lemma DecodeNeverOverflows(body: seq<byte>, firmware: int, datx: bool)
    requires NoOversizedGroup(body, firmware, datx)
    ensures Decode(body, firmware, datx) != Err(BufferOverflow)
  {
    BoundedGroupsFrom(body, firmware, datx, 0, []);
  }

  /** A .dat body whose only full runs start and follow the tail marker
      decodes, before firmware 218, without overflow: it meets the
      hypothesis above. */
  lemma FullRunsAtOrAfterTailAreHarmless(firmware: int)
    ensures var body: seq<byte> := [0, 0, 255, 0, 0, 1, 1, 0, 0, 0, 0, 255];
      NoOversizedGroup(body, firmware, false) && Decode(body, firmware, false) == Ok([])
  {
    var body: seq<byte> := [0, 0, 255, 0, 0, 1, 1, 0, 0, 0, 0, 255];
    assert IsTailAt(body, 3 * 0, false);
    assert Decode(body, firmware, false) == Ok([]) by {
      TailStopsScan(body, firmware, false, MaxRows(body), 0, []);
    }
  }

  /** On firmware before 218 a single full run in a .datx body already needs
      256 rows of a 255-row buffer. */
  lemma FullRunOverflowsBuffer(firmware: int)
    requires firmware < RunLengthFirmware
    ensures Decode([0, 0, 255], firmware, true) == Err(BufferOverflow)
  {
    var body: seq<byte> := [0, 0, 255];
    assert !IsTailAt(body, 0, true);
    RunLengthGroupClassifies(body, 0, true);
    RunLengthGroupRepeatsPrevious(body, firmware, true, MaxRows(body), 0, []);
  }

  /** A .dat run-length group with a non-zero count at the very end of the
      body sends the tail check past the end. */
  lemma DatRunAtEndReadsPastEnd(z: byte, firmware: int)
    requires z > 0
    ensures Decode([0, 0, z], firmware, false) == Err(ReadPastEnd)
  {
    var body: seq<byte> := [0, 0, z];
    ClassifyMeaning(body, 0, false);
    MatchFromMeaning(body, 0, DatTail, 0);
    ScanStep(body, firmware, false, MaxRows(body), 0, []);
  }

  /** The inline .dat tail test at offset i is _old_tail_check on the bytes
      from i on. */
  lemma {:induction false} MatchFromShift(body: seq<byte>, i: nat, pat: seq<ByteTest>, k: nat)
    requires i <= |body| && k <= |pat|
    ensures MatchFrom(body, i, pat, k) == MatchFrom(body[i..], 0, pat, k)
    decreases |pat| - k
  {
    if k < |pat| && i + k < |body| {
      assert body[i..][k] == body[i + k];
      MatchFromShift(body, i, pat, k + 1);
    }
  }

  lemma InlineTailIsOldTailCheck(body: seq<byte>, i: nat)
    requires i <= |body|
    ensures MatchFrom(body, i, TailPattern(false), 0) == OldTailCheck(body[i..])
  {
    MatchFromShift(body, i, DatTail, 0);
  }
}
