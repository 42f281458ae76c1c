/**
 * The archive reader of the worker (`parseTar`, worker/src/arxiv-handler.js):
 * the ustar layout of POSIX.1 (IEEE Std 1003.1, "pax" utility), read one
 * 512-byte header at a time, with each regular entry classified by its
 * extension into text, image or other binary content.
 *
 * The UTF-8 decoder (`TextDecoder`) and the base64 encoder
 * (`arrayBufferToBase64`) are parameters: the model says where their results
 * go, not what they are.
 */
module Tar {
  import opened Wrappers
  import opened Text

  newtype Byte = b: int | 0 <= b < 256

  /** `new TextDecoder().decode(bytes)`: lenient UTF-8 decoding. */
  type Decoder = seq<Byte> -> string

  /** `arrayBufferToBase64(bytes)`. */
  type Encoder = seq<Byte> -> string

  const BlockSize: nat := 512
  const NameLength: nat := 100
  const SizeOffset: nat := 124
  const SizeLength: nat := 12
  const TypeFlagOffset: nat := 156
  /** The type flag `'5'`: a directory. */
  const DirectoryFlag: Byte := 0x35

  const TextExtensions: seq<string> := ["tex", "txt", "bib", "sty", "cls", "bst"]
  const ImageExtensions: seq<string> := ["pdf", "png", "jpg", "jpeg", "eps", "svg"]

  /** What an entry keeps of its content: decoded text for text files, the
      raw bytes and their base64 form for images, nothing for other files. */
  datatype Payload =
    | TextContent(content: string)
    | ImageData(binary: seq<Byte>, base64: string)
    | NoPayload

  /** One file of the archive, as `parseTar` pushes it. */
  datatype FileRecord = FileRecord(path: string, size: nat, extension: string, payload: Payload)
  {
    predicate IsText() { payload.TextContent? }
    predicate IsImage() { payload.ImageData? }
  }

  // ----- the size field -----

  predicate IsOctalDigit(c: char) { '0' <= c <= '7' }

  function OctalRunEnd(s: string, i: nat): (e: nat)
    requires i <= |s|
    decreases |s| - i
    ensures i <= e <= |s|
    ensures forall k | i <= k < e :: IsOctalDigit(s[k])
    ensures e < |s| ==> !IsOctalDigit(s[e])
  {
    if i < |s| && IsOctalDigit(s[i]) then OctalRunEnd(s, i + 1) else i
  }

  /** A run of octal digits that ends at `m` is the maximal run. */
  lemma {:induction false} OctalRunEndAt(s: string, i: nat, m: nat)
    requires i <= m <= |s|
    requires forall k | i <= k < m :: IsOctalDigit(s[k])
    requires m == |s| || !IsOctalDigit(s[m])
    ensures OctalRunEnd(s, i) == m
    decreases m - i
  {
    if i < m {
      OctalRunEndAt(s, i + 1, m);
    }
  }

  /** The value of a string of octal digits. */
  function OctalValue(s: string): nat
    requires forall k | 0 <= k < |s| :: IsOctalDigit(s[k])
  {
    if s == [] then 0
    else
      var last := s[|s| - 1];
      assert IsOctalDigit(last);
      8 * OctalValue(s[..|s| - 1]) + (last as int - '0' as int)
  }

  /** `parseInt(s, 8)`: leading white space, an optional sign, then the
      longest run of octal digits; `None` stands for `NaN` (no digit). */
  function ParseOctal(s: string): (r: Option<int>)
    ensures r.Some? && r.value < 0 ==> '-' in s
  {
    var t := s[LeadingSpaces(s)..];
    var start := if t != [] && (t[0] == '-' || t[0] == '+') then 1 else 0;
    var e := OctalRunEnd(t, start);
    if e == start then None
    else
      var v: int := OctalValue(t[start..e]);
      Some(if start == 1 && t[0] == '-' then -v else v)
  }

  /** What `parseInt(s, 8)` reads: after the leading white space and an
      optional sign, the maximal run of octal digits. The result is `NaN`
      exactly when no octal digit follows the sign; otherwise it is the value
      of that run, negated after a `-`. */
  lemma ParseOctalReads(s: string)
    ensures var t := s[LeadingSpaces(s)..];
      var start := if t != [] && (t[0] == '-' || t[0] == '+') then 1 else 0;
      && (ParseOctal(s).None? <==> start == |t| || !IsOctalDigit(t[start]))
      && (ParseOctal(s).Some? ==>
            var e := OctalRunEnd(t, start);
            var v: int := OctalValue(t[start..e]);
            start < e && ParseOctal(s).value == if t[0] == '-' then -v else v)
  {
  }

  /** `parseInt(s, 8) || 0`: an empty or unparseable field reads as 0. */
  function SizeField(s: string): (size: int)
    ensures ParseOctal(s).None? ==> size == 0
    ensures '-' !in s ==> size >= 0
  {
    match ParseOctal(s)
    case None => 0
    case Some(v) => v
  }

  /** The octal digits a tar writer stores for `n`. */
  function Octal(n: nat): (r: string)
    ensures r != []
    ensures forall k | 0 <= k < |r| :: IsOctalDigit(r[k])
  {
    if n < 8 then [('0' as int + n) as char]
    else Octal(n / 8) + [('0' as int + n % 8) as char]
  }

  lemma {:induction false} OctalValueOfOctal(n: nat)
    ensures OctalValue(Octal(n)) == n
  {
    if n >= 8 {
      OctalValueOfOctal(n / 8);
      var r := Octal(n);
      assert r[..|r| - 1] == Octal(n / 8);
    }
  }

  /** `z` zero digits, the left padding of a size field. */
  function Zeros(z: nat): (r: string)
    ensures |r| == z && forall k | 0 <= k < z :: r[k] == '0'
  {
    seq(z, _ => '0')
  }

  lemma {:induction false} OctalValueOfZeros(z: nat)
    ensures OctalValue(Zeros(z)) == 0
  {
    if z > 0 {
      OctalValueOfZeros(z - 1);
      assert Zeros(z)[..z - 1] == Zeros(z - 1);
    }
  }

  /** Leading zeros do not change the value of an octal numeral. */
  lemma {:induction false} OctalValueLeadingZeros(z: nat, d: string)
    requires forall k | 0 <= k < |d| :: IsOctalDigit(d[k])
    ensures OctalValue(Zeros(z) + d) == OctalValue(d)
    decreases |d|
  {
    if d == [] {
      assert Zeros(z) + d == Zeros(z);
      OctalValueOfZeros(z);
    } else {
      var w := Zeros(z) + d;
      OctalValueLeadingZeros(z, d[..|d| - 1]);
      assert w[..|w| - 1] == Zeros(z) + d[..|d| - 1];
      assert w[|w| - 1] == d[|d| - 1];
    }
  }

  /** A field that starts with a run of octal digits parses to the value of
      that run. */
  lemma ParseOctalDigits(s: string, m: nat)
    requires 0 < m <= |s|
    requires forall k | 0 <= k < m :: IsOctalDigit(s[k])
    requires m == |s| || !IsOctalDigit(s[m])
    ensures ParseOctal(s) == Some(OctalValue(s[..m]))
  {
    assert IsOctalDigit(s[0]);
    assert LeadingSpaces(s) == 0;
    assert s[0..] == s;
    OctalRunEndAt(s, 0, m);
  }

  /** Reading back a size a writer stored gives that size: its octal digits,
      zero-padded on the left to any width, then nothing or a character that
      is not an octal digit. */
  lemma SizeFieldRoundTrip(n: nat, z: nat, rest: string)
    requires rest == [] || !IsOctalDigit(rest[0])
    ensures SizeField(Zeros(z) + Octal(n) + rest) == n
  {
    var digits := Zeros(z) + Octal(n);
    var s := digits + rest;
    forall k | 0 <= k < |digits| ensures IsOctalDigit(s[k]) {
      if k >= z {
        assert s[k] == Octal(n)[k - z];
      }
    }
    if rest != [] {
      assert s[|digits|] == rest[0];
    }
    ParseOctalDigits(s, |digits|);
    assert s[..|digits|] == digits;
    OctalValueLeadingZeros(z, Octal(n));
    OctalValueOfOctal(n);
  }

  // ----- the cursor -----

  /** `Math.ceil(size / 512) * 512` as written, for every integer size. */
  function PaddedSizeAsWritten(size: int): int {
    if size >= 0 then (size + 511) / 512 * 512 else -((-size) / 512) * 512
  }

  /** The offset of the next header as written: the header and the padded
      content. */
  function NextOffsetAsWritten(offset: int, size: int): int {
    offset + BlockSize + PaddedSizeAsWritten(size)
  }

  /** A header whose size field reads "-1000" (octal for -512) leaves the
      cursor where it was: the loop reads the same header again, forever. */
  lemma NegativeSizeStallsCursor(offset: int)
    ensures SizeField("-1000") == -512
    ensures NextOffsetAsWritten(offset, SizeField("-1000")) == offset
  {
    var s := "-1000";
    assert LeadingSpaces(s) == 0;
    assert s[0..] == s;
    assert OctalRunEnd(s, 1) == 5;
    assert s[1..5] == "1000";
    assert OctalValue("1000") == 512 by {
      assert "1000"[..3] == "100";
      assert "100"[..2] == "10";
      assert "10"[..1] == "1";
      assert "1"[..0] == "";
    }
  }

  /** The padding actually modelled: a negative size counts as 0, so the
      cursor always moves past the header. */
  function PaddedSize(size: int): (padded: nat)
    ensures padded % BlockSize == 0
    ensures size <= 0 ==> padded == 0
    ensures size > 0 ==> size <= padded < size + BlockSize
  {
    if size <= 0 then 0 else (size + 511) / 512 * 512
  }

  /** Every header offset is a multiple of 512, and each step moves past the
      header and the whole content by whole blocks: the least such offset,
      since the step is a multiple of 512 and overshoots by less than one
      block. */
  function NextOffset(offset: nat, size: int): (next: nat)
    ensures (next - offset) % BlockSize == 0
    ensures offset % BlockSize == 0 ==> next % BlockSize == 0
    ensures next >= offset + BlockSize
    ensures size > 0 ==> offset + BlockSize + size <= next < offset + 2 * BlockSize + size
    ensures size <= 0 ==> next == offset + BlockSize
  {
    offset + BlockSize + PaddedSize(size)
  }

  /** The correction agrees with the code as written on every size the code
      handles without stalling, and on every size a tar writer produces. */
  lemma PaddedSizeAgrees(size: int)
    requires size > -512
    ensures PaddedSize(size) == PaddedSizeAsWritten(size)
  {
  }

  // ----- one header -----

  /** `buffer.slice(start, start + size)`: clamped at the end of the buffer,
      so a declared size past the end yields shorter content, not an error. */
  function ContentSlice(buffer: seq<Byte>, start: nat, size: nat): (content: seq<Byte>)
    requires start <= |buffer|
    ensures |content| == if start + size <= |buffer| then size else |buffer| - start
    ensures content == buffer[start..start + |content|]
  {
    if start + size <= |buffer| then buffer[start..start + size] else buffer[start..]
  }

  /** A decoded header field with its NUL characters removed and trimmed. */
  function FieldText(decode: Decoder, bytes: seq<Byte>): (r: string)
    ensures '\0' !in r
    ensures r == [] || (!IsSpace(r[0]) && !IsSpace(r[|r| - 1]))
  {
    TrimFacts(Remove(decode(bytes), '\0'));
    Trim(Remove(decode(bytes), '\0'))
  }

  /** A field keeps the decoded text in order: after its NULs are removed,
      only white space is cut, and only at the two ends. */
  lemma FieldTextFacts(decode: Decoder, bytes: seq<Byte>)
    ensures var d := Remove(decode(bytes), '\0');
      var a := LeadingSpaces(d);
      var r := FieldText(decode, bytes);
      && a + |r| <= |d|
      && r == d[a..a + |r|]
      && (forall k | 0 <= k < a :: IsSpace(d[k]))
      && (forall k | a + |r| <= k < |d| :: IsSpace(d[k]))
  {
    TrimKeepsMiddle(Remove(decode(bytes), '\0'));
  }

  function HeaderName(decode: Decoder, buffer: seq<Byte>, offset: nat): string
    requires offset + BlockSize <= |buffer|
  {
    FieldText(decode, buffer[offset..offset + NameLength])
  }

  function HeaderSize(decode: Decoder, buffer: seq<Byte>, offset: nat): int
    requires offset + BlockSize <= |buffer|
  {
    SizeField(FieldText(decode, buffer[offset + SizeOffset..offset + SizeOffset + SizeLength]))
  }

  /** No extension is both a text and an image extension. */
  lemma ExtensionsDisjoint(ext: string)
    ensures ext in ImageExtensions ==> ext !in TextExtensions
  {
    if ext in ImageExtensions {
      assert ext[0] in "ppjjes";
      if ext[0] == 's' {
        assert ext == "svg";
      }
    }
  }

  /** The record pushed for a regular entry: the extension is the lower-cased
      text after the last dot; only text entries carry decoded content and
      only image entries carry bytes and their base64 form. */
  function Classify(decode: Decoder, encode: Encoder, name: string, size: nat, content: seq<Byte>)
    : (r: FileRecord)
    ensures r.path == name && r.size == size
    ensures r.extension == Lower(AfterLastDot(name))
    ensures r.IsText() <==> r.extension in TextExtensions
    ensures r.IsImage() <==> r.extension in ImageExtensions
    ensures r.IsText() ==> r.payload.content == decode(content)
    ensures r.IsImage() ==> r.payload.binary == content && r.payload.base64 == encode(content)
  {
    var ext := Lower(AfterLastDot(name));
    ExtensionsDisjoint(ext);
    var payload :=
      if ext in TextExtensions then TextContent(decode(content))
      else if ext in ImageExtensions then ImageData(content, encode(content))
      else NoPayload;
    FileRecord(name, size, ext, payload)
  }

  // ----- the whole archive -----

  /** The record, if any, of the header at `offset`: only an entry with a
      positive size that is not a directory is pushed. */
  function RecordAt(decode: Decoder, encode: Encoder, buffer: seq<Byte>, offset: nat)
    : (here: seq<FileRecord>)
    requires offset + BlockSize <= |buffer| && HeaderName(decode, buffer, offset) != []
    ensures |here| <= 1
    ensures here != [] <==>
      HeaderSize(decode, buffer, offset) > 0 && buffer[offset + TypeFlagOffset] != DirectoryFlag
    ensures forall r | r in here :: WellFormed(r) && r.path == HeaderName(decode, buffer, offset)
    ensures here != [] ==>
      var size := HeaderSize(decode, buffer, offset);
      size > 0 && here[0] == Classify(decode, encode, HeaderName(decode, buffer, offset), size,
                                      ContentSlice(buffer, offset + BlockSize, size))
  {
    var name := HeaderName(decode, buffer, offset);
    var size := HeaderSize(decode, buffer, offset);
    if size > 0 && buffer[offset + TypeFlagOffset] != DirectoryFlag then
      var content := ContentSlice(buffer, offset + BlockSize, size);
      var r := Classify(decode, encode, name, size, content);
      ClassifyWellFormed(decode, encode, name, size, content);
      [r]
    else []
  }

  /** The records of the archive read from the header at `offset` on. Reading
      stops, without error, when fewer than 512 bytes remain or the name is
      empty. */
  function Entries(decode: Decoder, encode: Encoder, buffer: seq<Byte>, offset: nat): seq<FileRecord>
    decreases |buffer| - offset
  {
    if offset + BlockSize > |buffer| || HeaderName(decode, buffer, offset) == [] then []
    else
      RecordAt(decode, encode, buffer, offset)
        + Entries(decode, encode, buffer, NextOffset(offset, HeaderSize(decode, buffer, offset)))
  }

  /** `parseTar`: the offset cursor loop. */
  method ParseTar(decode: Decoder, encode: Encoder, buffer: seq<Byte>) returns (files: seq<FileRecord>)
    ensures files == Entries(decode, encode, buffer, 0)
  {
    files := [];
    var offset: nat := 0;
    while offset < |buffer|
      invariant offset % BlockSize == 0
      invariant files + Entries(decode, encode, buffer, offset) == Entries(decode, encode, buffer, 0)
      decreases |buffer| - offset
    {
      if offset + BlockSize > |buffer| {
        assert Entries(decode, encode, buffer, offset) == [];
        break;
      }
      var name := HeaderName(decode, buffer, offset);
      if name == [] {
        assert Entries(decode, encode, buffer, offset) == [];
        break;
      }
      var size := HeaderSize(decode, buffer, offset);
      var typeFlag := buffer[offset + TypeFlagOffset];
      ghost var header := offset;
      ghost var before := files;
      offset := offset + BlockSize;
      if size > 0 && typeFlag != DirectoryFlag {
        var content := ContentSlice(buffer, offset, size);
        files := files + [Classify(decode, encode, name, size, content)];
      }
      offset := offset + PaddedSize(size);
      assert files == before + RecordAt(decode, encode, buffer, header);
      assert offset == NextOffset(header, size);
      ghost var rest := Entries(decode, encode, buffer, offset);
      assert Entries(decode, encode, buffer, header) == RecordAt(decode, encode, buffer, header) + rest;
      ConcatAssoc(before, RecordAt(decode, encode, buffer, header), rest);
    }
  }

  /** What every record of the archive satisfies: a non-empty trimmed path
      without NUL, a positive size, the lower-cased extension of its path,
      and the payload its extension class calls for. */
  predicate WellFormed(r: FileRecord) {
    && r.path != [] && '\0' !in r.path && !IsSpace(r.path[0]) && !IsSpace(r.path[|r.path| - 1])
    && r.size > 0
    && r.extension == Lower(AfterLastDot(r.path))
    && (r.IsText() <==> r.extension in TextExtensions)
    && (r.IsImage() <==> r.extension in ImageExtensions)
    && (r.IsImage() ==> |r.payload.binary| <= r.size)
  }

  /** A record built from a trimmed, non-empty name, a positive size and
      content no longer than that size is well formed. */
  lemma ClassifyWellFormed(decode: Decoder, encode: Encoder, name: string, size: nat, content: seq<Byte>)
    requires name != [] && '\0' !in name && !IsSpace(name[0]) && !IsSpace(name[|name| - 1])
    requires size > 0 && |content| <= size
    ensures WellFormed(Classify(decode, encode, name, size, content))
  {
  }

  lemma {:induction false} EntriesWellFormed(decode: Decoder, encode: Encoder, buffer: seq<Byte>, offset: nat)
    ensures forall r | r in Entries(decode, encode, buffer, offset) :: WellFormed(r)
    decreases |buffer| - offset
  {
    if offset + BlockSize <= |buffer| && HeaderName(decode, buffer, offset) != [] {
      var next := NextOffset(offset, HeaderSize(decode, buffer, offset));
      EntriesWellFormed(decode, encode, buffer, next);
      var here := RecordAt(decode, encode, buffer, offset);
      assert Entries(decode, encode, buffer, offset) == here + Entries(decode, encode, buffer, next);
    }
  }

  /** An archive holds no more records than it has 512-byte blocks after the
      first header: every record consumes its own header block. */
  lemma {:induction false} EntriesBounded(decode: Decoder, encode: Encoder, buffer: seq<Byte>, offset: nat)
    ensures |Entries(decode, encode, buffer, offset)| * BlockSize <= |buffer| - offset ||
            Entries(decode, encode, buffer, offset) == []
    decreases |buffer| - offset
  {
    if offset + BlockSize <= |buffer| && HeaderName(decode, buffer, offset) != [] {
      var next := NextOffset(offset, HeaderSize(decode, buffer, offset));
      EntriesBounded(decode, encode, buffer, next);
    }
  }

  // ----- reading back what a writer wrote -----

  function ZeroBytes(n: nat): (r: seq<Byte>)
    ensures |r| == n
  {
    seq(n, _ => 0)
  }

  /** The characters of ASCII bytes, one per byte. */
  function AsciiText(bytes: seq<Byte>): (s: string)
    ensures |s| == |bytes| && forall k | 0 <= k < |bytes| :: s[k] == bytes[k] as int as char
  {
    seq(|bytes|, k requires 0 <= k < |bytes| => bytes[k] as int as char)
  }

  predicate IsAsciiBytes(bytes: seq<Byte>) {
    forall k | 0 <= k < |bytes| :: bytes[k] < 128
  }

  /** The only property of the decoder the round trip relies on, and one
      UTF-8 decoding has: bytes below 128 decode to the characters with those
      codes. */
  ghost predicate AsciiDecoder(decode: Decoder) {
    forall bytes: seq<Byte> | IsAsciiBytes(bytes) :: decode(bytes) == AsciiText(bytes)
  }

  /** The bytes of a string of ASCII characters. */
  function AsciiBytes(s: string): (bytes: seq<Byte>)
    requires forall k | 0 <= k < |s| :: s[k] < 128 as char
    ensures |bytes| == |s| && IsAsciiBytes(bytes) && AsciiText(bytes) == s
  {
    seq(|s|, k requires 0 <= k < |s| => s[k] as int as Byte)
  }

  /** The largest content a 12-byte size field describes: 11 octal digits. */
  const SizeLimit: nat := 0x2_0000_0000

  function Power8(k: nat): (p: nat)
    ensures p >= 1
  {
    if k == 0 then 1 else 8 * Power8(k - 1)
  }

  /** A number below `8^k` has at most `k` octal digits. */
  lemma {:induction false} OctalWidth(n: nat, k: nat)
    requires 1 <= k && n < Power8(k)
    ensures |Octal(n)| <= k
  {
    if n >= 8 {
      assert k >= 2;
      assert n / 8 < Power8(k - 1);
      OctalWidth(n / 8, k - 1);
    }
  }

  /** The zeros that pad the octal digits of `n` to the 11 digits of a
      size field. */
  function SizePadding(n: nat): nat {
    if |Octal(n)| <= SizeLength - 1 then SizeLength - 1 - |Octal(n)| else 0
  }

  /** The size field a tar writer stores: the octal digits of the size,
      zero-padded on the left to 11 digits, then a NUL. */
  function SizeFieldOf(n: nat): (field: seq<Byte>)
    ensures n < SizeLimit ==> |field| == SizeLength
  {
    var digits := Zeros(SizePadding(n)) + Octal(n);
    assert forall k | 0 <= k < |digits| :: IsOctalDigit(digits[k]);
    var field := AsciiBytes(digits) + [0];
    if n < SizeLimit then
      assert Power8(11) == SizeLimit;
      OctalWidth(n, 11);
      field
    else field
  }

  /** Through a decoder that reads ASCII as itself, a field holding ASCII
      text without NULs and without white space at either end, then a NUL,
      reads as that text. */
  lemma AsciiFieldText(decode: Decoder, s: string)
    requires AsciiDecoder(decode)
    requires forall k | 0 <= k < |s| :: '\0' < s[k] < 128 as char
    requires s == [] || (!IsSpace(s[0]) && !IsSpace(s[|s| - 1]))
    ensures FieldText(decode, AsciiBytes(s) + [0]) == s
  {
    var field := AsciiBytes(s) + [0];
    DecodeAsciiField(decode, s);
    var t := s + ['\0'];
    assert Remove(t, '\0') == s by {
      RemoveConcat(s, ['\0'], '\0');
      RemoveOne('\0', '\0');
      RemoveFacts(s, '\0');
    }
    TrimNoEdges(s);
  }

  /** The decoded text of the field: the ASCII text, then a NUL. */
  lemma DecodeAsciiField(decode: Decoder, s: string)
    requires AsciiDecoder(decode)
    requires forall k | 0 <= k < |s| :: s[k] < 128 as char
    ensures decode(AsciiBytes(s) + [0]) == s + ['\0']
  {
    var field := AsciiBytes(s) + [0];
    assert IsAsciiBytes(field);
    assert AsciiText(field) == s + ['\0'];
  }

  /** Through a decoder that reads ASCII as itself, the stored size field
      reads back as the size. */
  lemma SizeFieldOfReadsBack(decode: Decoder, n: nat)
    requires AsciiDecoder(decode) && n < SizeLimit
    ensures SizeField(FieldText(decode, SizeFieldOf(n))) == n
  {
    var z := SizePadding(n);
    var digits := Zeros(z) + Octal(n);
    assert SizeFieldOf(n) == AsciiBytes(digits) + [0];
    assert forall k | 0 <= k < |digits| :: IsOctalDigit(digits[k]);
    AsciiFieldText(decode, digits);
    SizeFieldRoundTrip(n, z, []);
    assert digits + [] == digits;
  }

  /** A name field of NUL bytes reads as the empty name: the end-of-archive
      marker. */
  lemma ZeroFieldIsEmpty(decode: Decoder, n: nat)
    requires AsciiDecoder(decode)
    ensures FieldText(decode, ZeroBytes(n)) == []
  {
    var t := decode(ZeroBytes(n));
    assert IsAsciiBytes(ZeroBytes(n));
    assert t == AsciiText(ZeroBytes(n));
    RemoveOnly(t, '\0');
  }

  /** One entry as a tar writer lays it out: the bytes of the name field of
      its header, its type flag, and its content; the size field is written
      from the content's length. */
  datatype Entry = Entry(nameField: seq<Byte>, flag: Byte, content: seq<Byte>)

  predicate Shaped(m: Entry) {
    |m.nameField| == NameLength && |m.content| < SizeLimit
  }

  /** An entry the reader is meant to return: a name, non-empty content,
      and a type flag that is not the directory flag. */
  predicate Readable(decode: Decoder, m: Entry) {
    && Shaped(m)
    && FieldText(decode, m.nameField) != []
    && |m.content| > 0
    && m.flag != DirectoryFlag
  }

  /** The 512-byte header: the name, zeros, the size, zeros, the flag, zeros. */
  function HeaderBlock(m: Entry): (h: seq<Byte>)
    ensures Shaped(m) ==> |h| == BlockSize
  {
    m.nameField + ZeroBytes(SizeOffset - NameLength) + SizeFieldOf(|m.content|)
      + ZeroBytes(TypeFlagOffset - SizeOffset - SizeLength) + [m.flag]
      + ZeroBytes(BlockSize - TypeFlagOffset - 1)
  }

  /** The header, the content, and zeros up to the next block boundary. */
  function EntryBlocks(m: Entry): (b: seq<Byte>)
    ensures Shaped(m) ==> |b| == BlockSize + PaddedSize(|m.content|)
  {
    HeaderBlock(m) + m.content + ZeroBytes(PaddedSize(|m.content|) - |m.content|)
  }

  /** A writer: the entries one after the other. */
  function Write(ms: seq<Entry>): seq<Byte>
  {
    if ms == [] then [] else EntryBlocks(ms[0]) + Write(ms[1..])
  }

  /** The record a reader should return for entry `m`. */
  function EntryRecord(decode: Decoder, encode: Encoder, m: Entry): FileRecord {
    Classify(decode, encode, FieldText(decode, m.nameField), |m.content|, m.content)
  }

  /** The records a reader should return for `ms`, in the same order. */
  function Written(decode: Decoder, encode: Encoder, ms: seq<Entry>): seq<FileRecord>
  {
    if ms == [] then [] else [EntryRecord(decode, encode, ms[0])] + Written(decode, encode, ms[1..])
  }

  lemma SliceOfMiddle(pre: seq<Byte>, mid: seq<Byte>, post: seq<Byte>, i: nat, j: nat)
    requires i <= j <= |mid|
    ensures (pre + mid + post)[|pre| + i..|pre| + j] == mid[i..j]
  {
  }

  /** Reading from the header of `m`, placed after `pre`, returns the record
      for `m` and moves to the block right after its padded content. */
  lemma ReadsOneEntry(decode: Decoder, encode: Encoder, buffer: seq<Byte>, pre: seq<Byte>, m: Entry, post: seq<Byte>)
    requires AsciiDecoder(decode)
    requires Readable(decode, m) && buffer == pre + EntryBlocks(m) + post
    ensures var o := |pre|;
      && o + BlockSize <= |buffer|
      && HeaderName(decode, buffer, o) == FieldText(decode, m.nameField)
      && HeaderSize(decode, buffer, o) == |m.content|
      && RecordAt(decode, encode, buffer, o) == [EntryRecord(decode, encode, m)]
      && NextOffset(o, HeaderSize(decode, buffer, o)) == |pre + EntryBlocks(m)|
  {
    EntryBytesAt(buffer, pre, m, post);
    SizeFieldOfReadsBack(decode, |m.content|);
  }

  /** Where an entry's blocks sit in a buffer, its name, size field, type
      flag and content sit at the header's fixed offsets. */
  lemma EntryBytesAt(buffer: seq<Byte>, pre: seq<Byte>, m: Entry, post: seq<Byte>)
    requires Shaped(m) && buffer == pre + EntryBlocks(m) + post
    ensures var o := |pre|;
      && o + BlockSize + |m.content| <= |buffer|
      && buffer[o..o + NameLength] == m.nameField
      && buffer[o + SizeOffset..o + SizeOffset + SizeLength] == SizeFieldOf(|m.content|)
      && buffer[o + TypeFlagOffset] == m.flag
      && ContentSlice(buffer, o + BlockSize, |m.content|) == m.content
  {
    var o := |pre|;
    var h := HeaderBlock(m);
    var b := EntryBlocks(m);
    var size := |m.content|;
    SliceOfMiddle(pre, b, post, 0, NameLength);
    SliceOfMiddle([], h, m.content + ZeroBytes(PaddedSize(size) - size), 0, NameLength);
    assert b[0..NameLength] == h[0..NameLength];
    SliceOfMiddle([], m.nameField, h[NameLength..], 0, NameLength);
    assert h == m.nameField + h[NameLength..];
    assert buffer[o..o + NameLength] == m.nameField;
    var front := m.nameField + ZeroBytes(SizeOffset - NameLength);
    var back := ZeroBytes(TypeFlagOffset - SizeOffset - SizeLength) + [m.flag]
      + ZeroBytes(BlockSize - TypeFlagOffset - 1);
    assert h == front + SizeFieldOf(|m.content|) + back;
    SliceOfMiddle(front, SizeFieldOf(|m.content|), back, 0, SizeLength);
    SliceOfMiddle(pre, b, post, SizeOffset, SizeOffset + SizeLength);
    assert b[SizeOffset..SizeOffset + SizeLength] == h[SizeOffset..SizeOffset + SizeLength];
    assert buffer[o + SizeOffset..o + SizeOffset + SizeLength] == SizeFieldOf(|m.content|);
    assert buffer[o + TypeFlagOffset] == b[TypeFlagOffset] == h[TypeFlagOffset] == m.flag;
    SliceOfMiddle(pre, b, post, BlockSize, BlockSize + size);
    assert b[BlockSize..BlockSize + size] == m.content;
    assert ContentSlice(buffer, o + BlockSize, size) == m.content;
  }


  /** The reader returns, in order, one record per entry a writer wrote,
      with the entry's name, size and content, as long as what follows the
      last entry is shorter than a header or starts with a zero name field. */
  lemma {:induction false} WriteThenRead(decode: Decoder, encode: Encoder, pre: seq<Byte>, ms: seq<Entry>, rest: seq<Byte>)
    requires AsciiDecoder(decode)
    requires forall k | 0 <= k < |ms| :: Readable(decode, ms[k])
    requires |rest| < BlockSize || rest[..NameLength] == ZeroBytes(NameLength)
    ensures Entries(decode, encode, pre + Write(ms) + rest, |pre|) == Written(decode, encode, ms)
    decreases |ms|
  {
    var buffer := pre + Write(ms) + rest;
    var o := |pre|;
    if ms == [] {
      assert buffer == pre + rest;
      if |rest| >= BlockSize {
        SliceOfMiddle(pre, rest, [], 0, NameLength);
        assert pre + rest + [] == buffer;
        ZeroFieldIsEmpty(decode, NameLength);
        assert HeaderName(decode, buffer, o) == [];
      }
      assert Entries(decode, encode, buffer, o) == [];
    } else {
      var m := ms[0];
      var tail := ms[1..];
      assert Readable(decode, ms[0]);
      forall k | 0 <= k < |tail| ensures Readable(decode, tail[k]) {
        assert tail[k] == ms[k + 1];
      }
      var e := EntryBlocks(m);
      var w := Write(tail);
      assert Write(ms) == e + w;
      ConcatAssoc(pre, e, w);
      ConcatAssoc(pre + e, w, rest);
      ConcatAssoc(pre, e, w + rest);
      ReadsOneEntry(decode, encode, buffer, pre, m, w + rest);
      WriteThenRead(decode, encode, pre + e, tail, rest);
      assert Entries(decode, encode, buffer, o)
        == RecordAt(decode, encode, buffer, o) + Entries(decode, encode, buffer, |pre + e|);
      assert Written(decode, encode, ms) == [EntryRecord(decode, encode, m)] + Written(decode, encode, tail);
    }
  }

  /** A whole archive read from the start: exactly the entries written. */
  lemma ArchiveRoundTrip(decode: Decoder, encode: Encoder, ms: seq<Entry>, rest: seq<Byte>)
    requires AsciiDecoder(decode)
    requires forall k | 0 <= k < |ms| :: Readable(decode, ms[k])
    requires |rest| < BlockSize || rest[..NameLength] == ZeroBytes(NameLength)
    ensures Entries(decode, encode, Write(ms) + rest, 0) == Written(decode, encode, ms)
  {
    var empty: seq<Byte> := [];
    var w := Write(ms);
    WriteThenRead(decode, encode, empty, ms, rest);
    assert empty + w == w;
    assert Entries(decode, encode, empty + w + rest, |empty|) == Written(decode, encode, ms);
  }
}
