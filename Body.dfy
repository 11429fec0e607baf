/** The body format of an activPAL raw file and the reference (functional)
    definition of what extract_accelerometer_data computes from it.

    The body is read in groups of three bytes (x, y, z). Each group is, in this
    order of priority, the tail marker, the invalid sentinel (255, 255, 255), a
    run-length group (0, 0, z) or a normal sample. Reads past the end of the
    body and writes past the end of the pre-sized row buffer are IndexErrors in
    the Python code; here they are the two DecodeError values. */
module Body {
  import opened Bytes

  /** One decoded sample: the three raw axis bytes. */
  datatype Row = Row(x: byte, y: byte, z: byte)

  /** The value every row of the fresh (np.zeros) buffer holds. */
  const ZeroRow := Row(0, 0, 0)

  datatype DecodeError =
    | ReadPastEnd     // a byte at or beyond len(body) was indexed
    | BufferOverflow  // a row at or beyond max_rows was written

  /** Firmware versions below this one repeat a run-length row z + 1 times. */
  const RunLengthFirmware := 218

  /** A tail marker is a sequence of tests, one per byte. */
  datatype ByteTest = Equals(v: byte) | Positive

  predicate Passes(t: ByteTest, b: byte) {
    match t
    case Equals(v) => b == v
    case Positive => b > 0
  }

  /** The .datx tail: the ASCII bytes of "tail". */
  const DatxTail: seq<ByteTest> := [Equals(116), Equals(97), Equals(105), Equals(108)]

  /** The .dat tail: x = 0, y = 0, z > 0, then 0, 0, > 0, > 0, 0. */
  const DatTail: seq<ByteTest> :=
    [Equals(0), Equals(0), Positive, Equals(0), Equals(0), Positive, Positive, Equals(0)]

  function TailPattern(datx: bool): (p: seq<ByteTest>)
    ensures 4 <= |p| <= 8
  {
    if datx then DatxTail else DatTail
  }

  /** Evaluates the tests pat[k..] against body[i + k..] the way a chain of
      Python `and`s does: left to right, stopping at the first false test, and
      raising only when a byte that is actually reached lies past the end. */
  function MatchFrom(body: seq<byte>, i: nat, pat: seq<ByteTest>, k: nat): (r: Result<bool, DecodeError>)
    requires k <= |pat|
    ensures r.Err? ==> r.error == ReadPastEnd && |body| < i + |pat|
    ensures r == Ok(true) && k < |pat| ==> i + |pat| <= |body|
    decreases |pat| - k
  {
    if k == |pat| then Ok(true)
    else if i + k >= |body| then Err(ReadPastEnd)
    else if !Passes(pat[k], body[i + k]) then Ok(false)
    else MatchFrom(body, i, pat, k + 1)
  }

  /** What the short-circuit evaluation yields: true exactly when every test
      passes on bytes that are all present; an error exactly when every byte
      that is present passes but the body ends before the pattern does. */
  lemma {:induction false} MatchFromMeaning(body: seq<byte>, i: nat, pat: seq<ByteTest>, k: nat)
    requires k <= |pat|
    requires k < |pat| || i + k <= |body|
    decreases |pat| - k
    ensures var r := MatchFrom(body, i, pat, k);
      && (r == Ok(true) <==>
            i + |pat| <= |body| && forall j :: k <= j < |pat| ==> Passes(pat[j], body[i + j]))
      && (r.Err? <==>
            i + |pat| > |body| && forall j :: k <= j < |pat| && i + j < |body| ==> Passes(pat[j], body[i + j]))
      && (r.Err? ==> r.error == ReadPastEnd)
  {
    if k < |pat| && i + k < |body| && Passes(pat[k], body[i + k]) {
      MatchFromMeaning(body, i, pat, k + 1);
    }
  }

  /** The whole tail marker starts at offset i. */
  predicate IsTailAt(body: seq<byte>, i: nat, datx: bool) {
    var p := TailPattern(datx);
    i + |p| <= |body| && forall j :: 0 <= j < |p| ==> Passes(p[j], body[i + j])
  }

  /** _old_tail_check: the .dat tail test on an eight-byte window, with the
      same short-circuit evaluation. */
  function OldTailCheck(w: seq<byte>): (r: Result<bool, DecodeError>)
    ensures r == Ok(true) <==>
      |w| >= 8 && w[0] == 0 && w[1] == 0 && w[2] > 0 && w[3] == 0 &&
      w[4] == 0 && w[5] > 0 && w[6] > 0 && w[7] == 0
  {
    var r := MatchFrom(w, 0, DatTail, 0);
    MatchFromMeaning(w, 0, DatTail, 0);
    assert r == Ok(true) ==> forall j :: 0 <= j < 8 ==> Passes(DatTail[j], w[j]);
    r
  }

  /** What one group of three bytes is. */
  datatype Kind =
    | TailGroup
    | InvalidGroup
    | CompressedGroup(z: byte)
    | NormalGroup(row: Row)

  /** Classifies the group at offset i, tests in the order the source makes them. */
  function Classify(body: seq<byte>, i: nat, datx: bool): (r: Result<Kind, DecodeError>)
    requires i < |body|
    ensures r.Err? ==> r.error == ReadPastEnd
    ensures r.Ok? ==> i + 2 < |body|
  {
    if i + 2 >= |body| then Err(ReadPastEnd)
    else
      var x, y, z := body[i], body[i + 1], body[i + 2];
      match MatchFrom(body, i, TailPattern(datx), 0)
      case Err(e) => Err(e)
      case Ok(tail) =>
        if tail then Ok(TailGroup)
        else if x == 255 && y == 255 && z == 255 then Ok(InvalidGroup)
        else if x == 0 && y == 0 then Ok(CompressedGroup(z))
        else Ok(NormalGroup(Row(x, y, z)))
  }

  /** The priority of the tests: a tail marker wins; (255, 255, 255) is never
      the start of a tail and is always the invalid sentinel; a run-length or
      normal group is neither a tail nor the sentinel. */
  lemma ClassifyMeaning(body: seq<byte>, i: nat, datx: bool)
    requires i < |body|
    ensures var r := Classify(body, i, datx);
      && (i + 2 >= |body| ==> r == Err(ReadPastEnd))
      && (r.Err? ==> r.error == ReadPastEnd)
      && (r == Ok(TailGroup) <==> IsTailAt(body, i, datx))
      && (i + 2 < |body| ==>
            (r == Ok(InvalidGroup) <==> body[i] == 255 && body[i + 1] == 255 && body[i + 2] == 255))
      && (r.Ok? && r.value.CompressedGroup? ==>
            body[i] == 0 && body[i + 1] == 0 && r.value.z == body[i + 2] && !IsTailAt(body, i, datx))
      && (r.Ok? && r.value.NormalGroup? ==>
            r.value.row == Row(body[i], body[i + 1], body[i + 2]) &&
            !(body[i] == 0 && body[i + 1] == 0) &&
            !(body[i] == 255 && body[i + 1] == 255 && body[i + 2] == 255) &&
            !IsTailAt(body, i, datx))
  {
    MatchFromMeaning(body, i, TailPattern(datx), 0);
  }

  /** A complete group can only fail to classify when its three bytes pass
      the first three tests of the tail marker, so that the marker check
      reads on past the body. */
  lemma ClassifyErrMeaning(body: seq<byte>, i: nat, datx: bool)
    requires i + 2 < |body|
    ensures var p := TailPattern(datx);
      Classify(body, i, datx).Err? ==>
        Passes(p[0], body[i]) && Passes(p[1], body[i + 1]) && Passes(p[2], body[i + 2])
  {
    MatchFromMeaning(body, i, TailPattern(datx), 0);
  }

  /** The number of rows a group other than the tail appends. */
  function RowCount(k: Kind, firmware: int): (n: nat)
    requires !k.TailGroup?
    ensures 0 <= n <= 256
    ensures n == 256 <==> k == CompressedGroup(255) && firmware < RunLengthFirmware
    ensures n == 0 <==> k == CompressedGroup(0) && firmware >= RunLengthFirmware
  {
    match k
    case InvalidGroup => 1
    case CompressedGroup(z) => if firmware < RunLengthFirmware then z as int + 1 else z as int
    case NormalGroup(_) => 1
  }

  function Repeat(r: Row, n: nat): (s: seq<Row>)
    ensures |s| == n && forall j :: 0 <= j < n ==> s[j] == r
  {
    seq(n, _ => r)
  }

  /** The row before the write position in a buffer holding `rows` and then
      zero rows: index -1 at position 0 wraps, as NumPy indexing does, to the
      last row of the buffer, which nothing has written yet. */
  function Previous(rows: seq<Row>): (r: Row)
    ensures r == ZeroRow || r in rows
  {
    if |rows| == 0 then ZeroRow else rows[|rows| - 1]
  }

  /** Previous is the buffer read at index -1 relative to the write position,
      with the negative index taken modulo the buffer's length. */
  lemma PreviousWrapsAround(rows: seq<Row>, pad: nat)
    requires pad > 0
    ensures Previous(rows) == (rows + Repeat(ZeroRow, pad))[(|rows| - 1) % (|rows| + pad)]
  {
    var n := |rows| + pad;
    if |rows| == 0 {
      assert (|rows| - 1) % n == n - 1;
    } else {
      assert (|rows| - 1) % n == |rows| - 1;
    }
  }

  /** The rows after a group other than the tail. */
  function Emit(rows: seq<Row>, k: Kind, firmware: int): (r: seq<Row>)
    requires !k.TailGroup?
    ensures |r| == |rows| + RowCount(k, firmware) && rows <= r
  {
    match k
    case InvalidGroup => rows + [Previous(rows)]
    case CompressedGroup(_) => rows + Repeat(Previous(rows), RowCount(k, firmware))
    case NormalGroup(row) => rows + [row]
  }

  /** A group other than the tail leaves the earlier rows untouched and
      appends RowCount new rows: the triplet itself for a normal group, copies
      of the previous row for the invalid sentinel and a run-length group. */
  lemma EmitMeaning(rows: seq<Row>, k: Kind, firmware: int)
    requires !k.TailGroup?
    ensures var r := Emit(rows, k, firmware);
      && |r| == |rows| + RowCount(k, firmware)
      && r[..|rows|] == rows
      && forall j :: |rows| <= j < |r| ==> r[j] == (if k.NormalGroup? then k.row else Previous(rows))
  {
  }

  /** Where the scan of the body ended: the rows emitted, whether a tail
      ended it, and the offset of that tail (or the first offset past the body). */
  datatype Scan = Scan(rows: seq<Row>, tail: bool, stop: nat)

  /** The decoding loop from offset i on, with `rows` already emitted and a
      buffer of `capacity` rows. */
  function ScanFrom(body: seq<byte>, firmware: int, datx: bool, capacity: nat, i: nat, rows: seq<Row>)
    : (r: Result<Scan, DecodeError>)
    ensures r.Ok? ==> i <= r.value.stop
    ensures r.Ok? && r.value.tail ==> r.value.stop + 2 < |body|
    ensures r.Ok? && !r.value.tail ==> |body| <= r.value.stop
    decreases |body| - i
  {
    if i >= |body| then Ok(Scan(rows, false, i))
    else
      match Classify(body, i, datx)
      case Err(e) => Err(e)
      case Ok(k) =>
        if k.TailGroup? then Ok(Scan(rows, true, i))
        else if |rows| + RowCount(k, firmware) > capacity then Err(BufferOverflow)
        else ScanFrom(body, firmware, datx, capacity, i + 3, Emit(rows, k, firmware))
  }

  /** Rows emitted earlier are never changed, the buffer is never exceeded,
      the scan stops at a tail marker or at the end of the body, in steps of
      one group. */
  lemma {:induction false} ScanFromMeaning(body: seq<byte>, firmware: int, datx: bool, capacity: nat, i: nat, rows: seq<Row>)
    decreases |body| - i
    ensures var r := ScanFrom(body, firmware, datx, capacity, i, rows);
      && (r.Ok? ==> rows <= r.value.rows)
      && (r.Ok? && |rows| <= capacity ==> |r.value.rows| <= capacity)
      && (r.Ok? ==> r.value.stop == i || i + 3 <= r.value.stop)
      && (r.Ok? && r.value.tail ==> IsTailAt(body, r.value.stop, datx))
      && (r.Ok? && !r.value.tail && i <= |body| ==> r.value.stop == |body|)
  {
    if i < |body| {
      ClassifyMeaning(body, i, datx);
      var c := Classify(body, i, datx);
      if c.Ok? && !c.value.TailGroup? && |rows| + RowCount(c.value, firmware) <= capacity {
        EmitMeaning(rows, c.value, firmware);
        ScanFromMeaning(body, firmware, datx, capacity, i + 3, Emit(rows, c.value, firmware));
      }
    }
  }

  /** One turn of the decoding loop at a complete group. */
  lemma ScanStep(body: seq<byte>, firmware: int, datx: bool, capacity: nat, i: nat, rows: seq<Row>)
    requires i + 2 < |body|
    ensures var c := Classify(body, i, datx);
      ScanFrom(body, firmware, datx, capacity, i, rows) ==
        if c.Err? then Err(c.error)
        else if c.value.TailGroup? then Ok(Scan(rows, true, i))
        else if |rows| + RowCount(c.value, firmware) > capacity then Err(BufferOverflow)
        else ScanFrom(body, firmware, datx, capacity, i + 3, Emit(rows, c.value, firmware))
  {
  }

  /** max_rows: every complete group is given room for 255 rows. */
  function MaxRows(body: seq<byte>): (n: nat)
    ensures n % 255 == 0 && n / 255 == |body| / 3
    ensures n == 0 <==> |body| < 3
  {
    (|body| / 3) * 255
  }

  /** extract_accelerometer_data: the rows before the tail when there is one;
      otherwise the whole pre-sized buffer, the emitted rows followed by zero rows. */
  function Decode(body: seq<byte>, firmware: int, datx: bool): (r: Result<seq<Row>, DecodeError>)
    ensures var s := ScanFrom(body, firmware, datx, MaxRows(body), 0, []);
      && (r.Err? <==> s.Err?)
      && (s.Err? ==> r.error == s.error)
      && (s.Ok? && s.value.tail ==> r == Ok(s.value.rows))
      && (s.Ok? && !s.value.tail ==>
            r.Ok? && |r.value| == MaxRows(body) && |s.value.rows| <= MaxRows(body) && r.value[..|s.value.rows|] == s.value.rows &&
            forall j :: |s.value.rows| <= j < |r.value| ==> r.value[j] == ZeroRow)
  {
    ScanFromMeaning(body, firmware, datx, MaxRows(body), 0, []);
    match ScanFrom(body, firmware, datx, MaxRows(body), 0, [])
    case Err(e) => Err(e)
    case Ok(s) =>
      if s.tail then Ok(s.rows)
      else Ok(s.rows + Repeat(ZeroRow, MaxRows(body) - |s.rows|))
  }
}
