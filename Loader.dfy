/** load_activpal_data without the file system: the extension picks the
    header length, the content is split there, the header is decoded into
    metadata and the body into rows with the header's firmware version. */
module Loader {
  import opened Bytes
  import opened Body
  import Header
  import ChangeCode
  import BodyProperties

  datatype LoadError =
    | UnknownExtension                      // ValueError for any extension but .datx and .dat
    | BadHeader(header: Header.HeaderError)  // raised by extract_metadata
    | BadBody(body: DecodeError)            // raised by extract_accelerometer_data

  const DatxHeaderLength := 1024
  const DatHeaderLength := 1023

  /** The header length for an extension, None for one that is not known. */
  function HeaderEnd(ext: string): (r: Option<nat>)
    ensures r == Some(DatxHeaderLength) <==> ext == ".datx"
    ensures r == Some(DatHeaderLength) <==> ext == ".dat"
    ensures r.None? <==> ext != ".datx" && ext != ".dat"
  {
    if ext == ".datx" then Some(DatxHeaderLength)
    else if ext == ".dat" then Some(DatHeaderLength)
    else None
  }

  /** file_content[:end] and file_content[end:], clipped to the content as
      NumPy slices are. */
  function Split(content: seq<byte>, end: nat): (parts: (seq<byte>, seq<byte>))
    ensures parts.0 + parts.1 == content
    ensures |parts.0| == Min(end, |content|)
  {
    var cut := Min(end, |content|);
    (content[..cut], content[cut..])
  }

  /** The decoder's datx flag: the extension is .datx, the one whose header
      is 1024 bytes long. */
  predicate IsDatx(ext: string): (datx: bool)
    ensures datx <==> HeaderEnd(ext) == Some(DatxHeaderLength)
    ensures !datx && HeaderEnd(ext).Some? ==> HeaderEnd(ext) == Some(DatHeaderLength)
  {
    ext == ".datx"
  }

  function LoadActivpalData(ext: string, content: seq<byte>): (r: Result<(Header.Meta, seq<Row>), LoadError>)
    ensures r == Err(UnknownExtension) <==> HeaderEnd(ext).None?
    ensures r.Ok? ==>
      var parts := Split(content, HeaderEnd(ext).value);
      && Header.ExtractMetadata(parts.0) == Ok(r.value.0)
      && Decode(parts.1, r.value.0.firmware, IsDatx(ext)) == Ok(r.value.1)
  {
    match HeaderEnd(ext)
    case None => Err(UnknownExtension)
    case Some(end) =>
      var parts := Split(content, end);
      match Header.ExtractMetadata(parts.0)
      case Err(e) => Err(BadHeader(e))
      case Ok(meta) =>
        match Decode(parts.1, meta.firmware, IsDatx(ext))
        case Err(e) => Err(BadBody(e))
        case Ok(rows) => Ok((meta, rows))
  }

  /** Errors come in the order the source meets them: the extension, then the
      header, then the body. */
  lemma LoadErrorOrder(ext: string, content: seq<byte>)
    requires HeaderEnd(ext).Some?
    ensures var parts := Split(content, HeaderEnd(ext).value);
      var m := Header.ExtractMetadata(parts.0);
      && (m.Err? ==> LoadActivpalData(ext, content) == Err(BadHeader(m.error)))
      && (m.Ok? && Decode(parts.1, m.value.firmware, IsDatx(ext)).Err? ==>
            LoadActivpalData(ext, content) == Err(BadBody(Decode(parts.1, m.value.firmware, IsDatx(ext)).error)))
  {
  }

  /** A .datx file whose body opens with the tail marker has no rows. */
  lemma DatxTailFirstGivesNoRows(header: seq<byte>, rest: seq<byte>)
    requires |header| == DatxHeaderLength
    requires Header.ExtractMetadata(header).Ok?
    ensures var content := header + [116, 97, 105, 108] + rest;
      LoadActivpalData(".datx", content) == Ok((Header.ExtractMetadata(header).value, []))
  {
    var marker: seq<byte> := [116, 97, 105, 108];
    var content := header + marker + rest;
    var body := marker + rest;
    var meta := Header.ExtractMetadata(header).value;
    assert content == header + body;
    assert Split(content, DatxHeaderLength) == (header, body) by {
      assert content[..DatxHeaderLength] == header && content[DatxHeaderLength..] == body;
    }
    assert Decode(body, meta.firmware, true) == Ok([]) by {
      assert IsTailAt(marker, 0, true);
      assert [] + marker + rest == body;
      BodyProperties.PlainBodyThenTail([], marker, rest, meta.firmware, true);
    }
  }

  /** change_file_code then load_activpal_data: the same rows, and the same
      metadata but for the new file code, for any content that holds the
      file code field (a header cut short by the content included). */
  lemma ChangeCodeThenLoad(ext: string, content: seq<byte>, code: string)
    requires HeaderEnd(ext).Some?
    requires |content| >= Header.FileCodeStart + Header.FileCodeLength
    requires ChangeCode.NewCodeBytes(code).Ok?
    requires forall j :: 0 <= j < |code| ==> code[j] != 0 as char
    ensures var patched := ChangeCode.PatchFileCode(content, ChangeCode.NewCodeBytes(code).value);
      match LoadActivpalData(ext, content)
      case Ok(v) => LoadActivpalData(ext, patched) == Ok((v.0.(fileCode := code), v.1))
      case Err(e) => LoadActivpalData(ext, patched) == Err(e)
  {
    var cut := Min(HeaderEnd(ext).value, |content|);
    var nb := ChangeCode.NewCodeBytes(code).value;
    var patched := ChangeCode.PatchFileCode(content, nb);
    var h, b := content[..cut], content[cut..];
    var ph, pb := patched[..cut], patched[cut..];
    assert |patched| == |content|;
    assert Split(content, HeaderEnd(ext).value) == (h, b);
    assert Split(patched, HeaderEnd(ext).value) == (ph, pb);
    assert pb == b;
    assert ph == ChangeCode.PatchFileCode(h, nb);
    ChangeCode.PatchChangesOnlyFileCode(h, code);
  }
}
