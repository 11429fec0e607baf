/** extract_accelerometer_data as the loop the source runs: one forward pass
    over the body in steps of three, filling a pre-sized, zero-filled row
    buffer under a row counter, with an inner loop for run-length groups and
    an early exit at the tail marker. The body of the outer loop is the method
    DecodeGroup, its inner loop the method AppendCopies. */
module Decoder {
  import opened Bytes
  import opened Body

  /** How one turn of the outer loop ends: go on with the next group, or
      leave the loop with the function's result (the break at the tail, or an
      IndexError). */
  datatype Step = Next | Done(result: Result<seq<Row>, DecodeError>)

  method ExtractAccelerometerData(body: seq<byte>, firmware: int, datx: bool)
    returns (r: Result<seq<Row>, DecodeError>)
    ensures r == Decode(body, firmware, datx)
  {
    var length := |body|;
    var maxRows := (length / 3) * 255;
    var signals := new Row[maxRows](_ => ZeroRow);
    var row: nat := 0;
    var i: nat := 0;
    ghost var goal := ScanFrom(body, firmware, datx, maxRows, 0, []);
    while i < length
      invariant row <= maxRows == signals.Length
      invariant forall k :: row <= k < maxRows ==> signals[k] == ZeroRow
      invariant ScanFrom(body, firmware, datx, maxRows, i, signals[..row]) == goal
      decreases length - i
    {
      var step;
      row, step := DecodeGroup(body, firmware, datx, signals, row, i);
      if step.Done? {
        r := step.result;
        return;
      }
      i := i + 3;
    }
    assert signals[..] == signals[..row] + Repeat(ZeroRow, maxRows - row);
    r := Ok(signals[..]);
  }

  /** One turn of the loop over the three-byte groups: reads the group at
      offset i, classifies it and writes the rows it stands for into the buffer. */
  method DecodeGroup(body: seq<byte>, firmware: int, datx: bool, signals: array<Row>, row: nat, i: nat)
    returns (next: nat, step: Step)
    requires i < |body| && signals.Length == MaxRows(body)
    requires row <= signals.Length
    requires forall k :: row <= k < signals.Length ==> signals[k] == ZeroRow
    modifies signals
    ensures var s := ScanFrom(body, firmware, datx, signals.Length, i, old(signals[..row]));
      && (step.Next? ==>
            && next <= signals.Length
            && Classify(body, i, datx).Ok? && !Classify(body, i, datx).value.TailGroup?
            && signals[..next] == Emit(old(signals[..row]), Classify(body, i, datx).value, firmware)
            && (forall k :: next <= k < signals.Length ==> signals[k] == ZeroRow)
            && s == ScanFrom(body, firmware, datx, signals.Length, i + 3, signals[..next]))
      && (step.Done? ==>
            || (s.Err? && step.result == Err(s.error))
            || (s == Ok(Scan(old(signals[..row]), true, i)) && step.result == Ok(old(signals[..row]))))
  {
    next := row;
    var maxRows := signals.Length;
    ghost var before := signals[..row];
    if i + 2 >= |body| {
      // y = body[i + 1] or z = body[i + 2] lies past the end
      step := Done(Err(ReadPastEnd));
      return;
    }
    ScanStep(body, firmware, datx, maxRows, i, before);
    var x, y, z := body[i], body[i + 1], body[i + 2];
    var tail := MatchFrom(body, i, TailPattern(datx), 0);
    if tail.Err? {
      step := Done(Err(ReadPastEnd));
      return;
    }
    var invalid := x == 255 && y == 255 && z == 255;
    var compressed := x == 0 && y == 0;
    assert 255 <= maxRows && (row == 0 ==> signals[maxRows - 1] == ZeroRow);
    if tail.value {
      step := Done(Ok(signals[..row]));
    } else if invalid {
      // index -1 at row 0 wraps to the last, still zero, row of the buffer
      var previous := if row == 0 then signals[maxRows - 1] else signals[row - 1];
      assert previous == Previous(before);
      if row == maxRows {
        step := Done(Err(BufferOverflow));
        return;
      }
      signals[row] := previous;
      next := row + 1;
      assert signals[..next] == before + [previous];
      step := Next;
    } else if compressed {
      var previous := if row == 0 then signals[maxRows - 1] else signals[row - 1];
      assert previous == Previous(before);
      var duplicates := if firmware < RunLengthFirmware then z as int + 1 else z as int;
      var fits;
      next, fits := AppendCopies(signals, row, previous, duplicates);
      if !fits {
        step := Done(Err(BufferOverflow));
        return;
      }
      assert signals[..next] == Emit(before, CompressedGroup(z), firmware);
      step := Next;
    } else {
      if row == maxRows {
        step := Done(Err(BufferOverflow));
        return;
      }
      signals[row] := Row(x, y, z);
      next := row + 1;
      assert signals[..next] == before + [Row(x, y, z)];
      step := Next;
    }
  }

  /** The copy loop of a run-length group: writes `previous` into
      successive rows from `row` on, and reports failure (IndexError) when the
      buffer runs out first. */
  method AppendCopies(signals: array<Row>, row: nat, previous: Row, n: nat)
    returns (next: nat, fits: bool)
    requires row <= signals.Length
    modifies signals
    ensures fits <==> row + n <= signals.Length
    ensures fits ==> next == row + n && signals[..next] == old(signals[..row]) + Repeat(previous, n)
    ensures fits ==> forall k :: next <= k < signals.Length ==> signals[k] == old(signals[k])
  {
    next := row;
    var d := 0;
    while d < n
      invariant 0 <= d <= n
      invariant next == row + d <= signals.Length
      invariant signals[..next] == old(signals[..row]) + Repeat(previous, d)
      invariant forall k :: next <= k < signals.Length ==> signals[k] == old(signals[k])
    {
      if next == signals.Length {
        fits := false;
        return;
      }
      signals[next] := previous;
      next := next + 1;
      d := d + 1;
      assert signals[..next] == old(signals[..row]) + Repeat(previous, d);
    }
    fits := true;
  }
}
