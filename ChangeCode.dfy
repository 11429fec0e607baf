/** change_file_code: the new file code, ASCII-encoded and NUL-padded to
    eight bytes, overwrites bytes 512 to 519 of the file. The file is a byte
    array updated in place; PatchFileCode is the same write on a value. */
module ChangeCode {
  import opened Bytes
  import Header

  datatype CodeError =
    | CodeTooLong  // AssertionError: more than eight characters
    | NotAscii     // UnicodeEncodeError from bytes(new_code, 'ascii')

  predicate IsAscii(code: string) {
    forall j :: 0 <= j < |code| ==> code[j] as int < 128
  }

  /** bytes(code, 'ascii') for an ASCII code. */
  function AsciiBytes(code: string): (b: seq<byte>)
    requires IsAscii(code)
    ensures |b| == |code|
    ensures forall j :: 0 <= j < |code| ==> b[j] as int == code[j] as int
  {
    seq(|code|, j requires 0 <= j < |code| => code[j] as int as byte)
  }

  function Zeros(n: nat): (z: seq<byte>)
    ensures |z| == n && forall j :: 0 <= j < n ==> z[j] == 0
  {
    seq(n, _ => 0)
  }

  /** The eight bytes change_file_code writes, or the error it raises first:
      the length check comes before the encoding. */
  function NewCodeBytes(code: string): (r: Result<seq<byte>, CodeError>)
    ensures r == Err(CodeTooLong) <==> |code| > Header.FileCodeLength
    ensures r == Err(NotAscii) <==> |code| <= Header.FileCodeLength && !IsAscii(code)
    ensures r.Ok? ==>
      && |r.value| == Header.FileCodeLength
      && (forall j :: 0 <= j < |code| ==> r.value[j] as int == code[j] as int)
      && (forall j :: |code| <= j < Header.FileCodeLength ==> r.value[j] == 0)
  {
    if |code| > Header.FileCodeLength then Err(CodeTooLong)
    else if !IsAscii(code) then Err(NotAscii)
    else Ok(AsciiBytes(code) + Zeros(Header.FileCodeLength - |code|))
  }

  /** Writing the eight bytes at offset 512 of the content, the way a seek and
      write on a file opened 'r+b' does: a file shorter than 512 bytes is first
      extended with zero bytes, and the write grows a file it runs past. */
  function PatchFileCode(content: seq<byte>, codeBytes: seq<byte>): (r: seq<byte>)
    requires |codeBytes| == Header.FileCodeLength
    ensures |r| == Max(|content|, Header.FileCodeStart + Header.FileCodeLength)
    ensures r[Header.FileCodeStart..Header.FileCodeStart + Header.FileCodeLength] == codeBytes
    ensures forall j :: 0 <= j < |r| && !(Header.FileCodeStart <= j < Header.FileCodeStart + Header.FileCodeLength) ==>
      r[j] == if j < |content| then content[j] else 0
  {
    var start, end := Header.FileCodeStart, Header.FileCodeStart + Header.FileCodeLength;
    var front := if |content| >= start then content[..start] else content + Zeros(start - |content|);
    var back := if |content| > end then content[end..] else [];
    front + codeBytes + back
  }

  /** The in-place version, on a file that already holds the whole file
      code field. On an error nothing is written. */
  method ChangeFileCode(file: array<byte>, code: string) returns (r: Result<(), CodeError>)
    requires file.Length >= Header.FileCodeStart + Header.FileCodeLength
    modifies file
    ensures NewCodeBytes(code).Err? ==> r == Err(NewCodeBytes(code).error) && file[..] == old(file[..])
    ensures NewCodeBytes(code).Ok? ==> r == Ok(()) && file[..] == PatchFileCode(old(file[..]), NewCodeBytes(code).value)
  {
    var encoded := NewCodeBytes(code);
    if encoded.Err? {
      return Err(encoded.error);
    }
    var codeBytes := encoded.value;
    forall j | Header.FileCodeStart <= j < Header.FileCodeStart + Header.FileCodeLength {
      file[j] := codeBytes[j - Header.FileCodeStart];
    }
    r := Ok(());
  }

  /** Reading back the encoded bytes of a NUL-free code gives the code. */
  lemma ReadBackCodeBytes(code: string)
    requires NewCodeBytes(code).Ok?
    requires forall j :: 0 <= j < |code| ==> code[j] != 0 as char
    ensures Header.NonZeroChars(NewCodeBytes(code).value) == code
  {
    var b := NewCodeBytes(code).value;
    AsciiNonZeroChars(code);
    assert b == AsciiBytes(code) + Zeros(Header.FileCodeLength - |code|);
    Header.NonZeroCharsAppend(AsciiBytes(code), Zeros(Header.FileCodeLength - |code|));
    ZerosVanish(Header.FileCodeLength - |code|);
  }

  lemma {:induction false} AsciiNonZeroChars(code: string)
    requires IsAscii(code)
    requires forall j :: 0 <= j < |code| ==> code[j] != 0 as char
    ensures Header.NonZeroChars(AsciiBytes(code)) == code
    decreases |code|
  {
    if code != [] {
      var b := AsciiBytes(code);
      assert b[1..] == AsciiBytes(code[1..]);
      assert b[0] != 0 && b[0] as int as char == code[0];
      AsciiNonZeroChars(code[1..]);
      assert code == [code[0]] + code[1..];
    }
  }

  lemma {:induction false} ZerosVanish(n: nat)
    ensures Header.NonZeroChars(Zeros(n)) == []
    decreases n
  {
    if n > 0 {
      assert Zeros(n)[1..] == Zeros(n - 1);
      ZerosVanish(n - 1);
    }
  }

  /** The round trip: after a successful change, the header's file code is
      the new code (for a code without NUL characters). */
  lemma PatchThenReadFileCode(content: seq<byte>, code: string)
    requires NewCodeBytes(code).Ok?
    requires forall j :: 0 <= j < |code| ==> code[j] != 0 as char
    ensures Header.FileCode(PatchFileCode(content, NewCodeBytes(code).value)) == code
  {
    var p := PatchFileCode(content, NewCodeBytes(code).value);
    assert Header.FileCodeBytes(p) == NewCodeBytes(code).value;
    ReadBackCodeBytes(code);
  }

  /** The ascii codec accepts NUL, but reading back drops it: the code "A"
      followed by a NUL character reads back as "A". */
  lemma NulInCodeIsDropped(content: seq<byte>)
    ensures NewCodeBytes("A\0").Ok?
    ensures Header.FileCode(PatchFileCode(content, NewCodeBytes("A\0").value)) == "A"
  {
    var code := "A\0";
    assert IsAscii(code);
    var b := NewCodeBytes(code).value;
    var one: seq<byte> := [65];
    assert b == one + Zeros(7);
    var p := PatchFileCode(content, b);
    assert Header.FileCodeBytes(p) == b;
    Header.NonZeroCharsAppend(one, Zeros(7));
    ZerosVanish(7);
    Header.NonZeroCharsOfByte(65);
  }

  /** Changing the code changes nothing else in the metadata of a header
      long enough to have any. */
  lemma PatchChangesOnlyFileCode(h: seq<byte>, code: string)
    requires |h| >= Header.MinHeaderLength
    requires NewCodeBytes(code).Ok?
    requires forall j :: 0 <= j < |code| ==> code[j] != 0 as char
    ensures var p := PatchFileCode(h, NewCodeBytes(code).value);
      match Header.ExtractMetadata(h)
      case Ok(m) => Header.ExtractMetadata(p) == Ok(m.(fileCode := code))
      case Err(e) => Header.ExtractMetadata(p) == Err(e)
  {
    var p := PatchFileCode(h, NewCodeBytes(code).value);
    PatchThenReadFileCode(h, code);
    assert forall j :: 0 <= j < Header.MinHeaderLength ==> p[j] == h[j];
    assert Header.StartTimestamp(p) == Header.StartTimestamp(h);
    assert Header.StopTimestamp(p) == Header.StopTimestamp(h);
  }
}
