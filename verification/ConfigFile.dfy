/** Parsing of the bitstream text files that configure the front-end chips. */
module ConfigFile {
  import opened BitStore

  const MAXPACKLEN: nat := 1500
  const LINE_SIZE: nat := 128

  /** What `fgets` takes from the rest of the file: up to and including a newline, at most 127 characters. */
  function ChunkEnd(file: string, i: nat): (n: nat)
    requires i <= |file| && i < LINE_SIZE
    ensures i <= n <= |file| && n < LINE_SIZE
    ensures i < |file| && i < LINE_SIZE - 1 ==> i < n
    decreases |file| - i
  {
    if i == |file| || i == LINE_SIZE - 1 then i
    else if file[i] == '\n' then i + 1
    else ChunkEnd(file, i + 1)
  }

  /** What the scan keeps of one line buffer: everything but spaces, up to the first apostrophe or up to and
      including the terminator. */
  function Kept(line: string): string {
    if line == [] || line[0] == '\'' then []
    else if line[0] == '\0' then ['\0']
    else (if line[0] == ' ' then [] else [line[0]]) + Kept(line[1..])
  }

  /** What the scan keeps of a file when there is room. */
  function Chars(file: string): string {
    if file == [] then []
    else
      var n := ChunkEnd(file, 0);
      Kept(file[..n] + "\0") + Chars(file[n..])
  }

  /** There is room for 1500 characters. */
  function Cap(chars: string): (r: string)
    ensures |r| <= MAXPACKLEN
  {
    if |chars| <= MAXPACKLEN then chars else chars[..MAXPACKLEN]
  }

  /** The inner loop: scans one line buffer into `ascii`, from `bitlen` on. */
  method ScanLine(line: string, ascii: array<char>, bitlen: nat) returns (n: nat)
    requires ascii.Length == MAXPACKLEN && bitlen <= MAXPACKLEN
    requires line != [] && |line| <= LINE_SIZE && line[|line| - 1] == '\0'
    modifies ascii
    ensures bitlen <= n <= MAXPACKLEN
    ensures ascii[..n] == Cap(old(ascii[..bitlen]) + Kept(line))
  {
    n := bitlen;
    var bit: char := 1 as char;
    var ptr := 0;
    ghost var goal := old(ascii[..bitlen]) + Kept(line);
    while bit != '\'' && bit != '\0' && ptr < LINE_SIZE && n < MAXPACKLEN
      invariant bitlen <= n <= MAXPACKLEN && ptr <= |line|
      invariant bit != '\'' && bit != '\0' ==> ptr < |line| && ascii[..n] + Kept(line[ptr..]) == goal
      invariant bit == '\'' || bit == '\0' ==> ascii[..n] == goal
      decreases |line| - ptr
    {
      ghost var before := ascii[..n];
      bit := line[ptr];
      ptr := ptr + 1;
      assert line[ptr - 1..][1..] == line[ptr..];
      if bit == ' ' || bit == '\'' {
        continue;
      }
      ascii[n] := bit;
      n := n + 1;
      assert ascii[..n] == before + [bit];
    }
  }

  lemma CapCap(front: string, middle: string, rest: string)
    ensures Cap(Cap(front + middle) + rest) == Cap(front + (middle + rest))
  {
    assert front + (middle + rest) == front + middle + rest;
  }

  /** The file loop: collects the characters of all line buffers. */
  method Collect(file: string, ascii: array<char>) returns (bitlen: nat)
    requires ascii.Length == MAXPACKLEN
    modifies ascii
    ensures bitlen <= MAXPACKLEN && ascii[..bitlen] == Cap(Chars(file))
  {
    hide Kept, Cap;
    bitlen := 0;
    var rest := file;
    CapShort(Chars(file));
    while rest != []
      invariant bitlen <= MAXPACKLEN
      invariant Cap(ascii[..bitlen] + Chars(rest)) == Cap(Chars(file))
      decreases |rest|
    {
      ghost var before := ascii[..bitlen];
      var n := ChunkEnd(rest, 0);
      var line := rest[..n] + "\0";
      bitlen := ScanLine(line, ascii, bitlen);
      CapCap(before, Kept(line), Chars(rest[n..]));
      rest := rest[n..];
    }
    CapDone(ascii[..bitlen]);
  }

  lemma CapShort(chars: string)
    ensures [] + chars == chars
  {}

  lemma CapDone(chars: string)
    requires |chars| <= MAXPACKLEN
    ensures Cap(chars + Chars([])) == chars
  {
    assert chars + [] == chars;
  }

  function ZeroBuffer(): (r: seq<Byte>)
    ensures |r| == MAXPACKLEN
  {
    seq(MAXPACKLEN, _ => 0)
  }

  /** The buffer after the characters from index `from` on are encoded. */
  function EncodedFrom(ascii: string, from: nat): (r: seq<Byte>)
    requires from <= |ascii| <= MAXPACKLEN
    ensures |r| == MAXPACKLEN
    decreases |ascii| - from
  {
    if from == |ascii| then ZeroBuffer()
    else if ascii[from] == '1' then SetBit(EncodedFrom(ascii, from + 1), |ascii|, from, true)
    else EncodedFrom(ascii, from + 1)
  }

  function Encoded(ascii: string): (r: seq<Byte>)
    requires |ascii| <= MAXPACKLEN
    ensures |r| == MAXPACKLEN
  {
    EncodedFrom(ascii, 0)
  }

  lemma OrIsOverlay(byte: Byte, mask: Byte)
    ensures byte | mask == Overlay(byte, mask, true)
  {}

  /** The encoding loop writes the layout of the driver's bit setter. */
  method Encode(ascii: string, buf: array<Byte>)
    requires |ascii| <= MAXPACKLEN && buf.Length == MAXPACKLEN
    modifies buf
    ensures buf[..] == Encoded(ascii)
  {
    hide Mask, Overlay;
    forall i | 0 <= i < buf.Length {
      buf[i] := 0;
    }
    assert buf[..] == ZeroBuffer();
    var ptr := |ascii| - 1;
    while ptr >= 0
      invariant -1 <= ptr < |ascii|
      invariant buf[..] == EncodedFrom(ascii, ptr + 1)
    {
      var b := (|ascii| - ptr - 1) / 8;
      if ascii[ptr] == '1' {
        OrIsOverlay(buf[b], Mask(7 - ptr % 8));
        buf[b] := buf[b] | Mask(7 - ptr % 8);
      }
      ptr := ptr - 1;
    }
  }

  datatype File = Missing | Present(text: string)

  /** Returns the number of characters read, 0 when the file cannot be opened. */
  method ReadBitStream(file: File, buf: array<Byte>) returns (bitlen: nat)
    requires buf.Length == MAXPACKLEN
    modifies buf
    ensures file.Missing? ==> bitlen == 0 && buf[..] == old(buf[..])
    ensures file.Present? ==> bitlen == |Cap(Chars(file.text))| && buf[..] == Encoded(Cap(Chars(file.text)))
  {
    if file.Missing? {
      return 0;
    }
    var ascii := new char[MAXPACKLEN];
    bitlen := Collect(file.text, ascii);
    Encode(ascii[..bitlen], buf);
  }

  lemma ZeroMask(mask: Byte)
    ensures (0 as Byte) & mask == 0
  {}

  /** The driver's getter reads from an encoded buffer exactly which characters are `1`. */
  lemma {:induction false} EncodedBits(ascii: string, from: nat, i: nat)
    requires i < |ascii| <= MAXPACKLEN && from <= |ascii|
    ensures GetBit(EncodedFrom(ascii, from), |ascii|, i) <==> i >= from && ascii[i] == '1'
    decreases |ascii| - from
  {
    hide GetBit, SetBit;
    if from == |ascii| {
      EncodedNowhere(|ascii|, i);
    } else {
      EncodedBits(ascii, from + 1, i);
      if ascii[from] == '1' {
        GetAfterSet(EncodedFrom(ascii, from + 1), |ascii|, from, i, true);
      }
    }
  }

  lemma EncodedNowhere(bitlen: nat, i: nat)
    requires i < bitlen <= MAXPACKLEN
    ensures !GetBit(ZeroBuffer(), bitlen, i)
  {
    ZeroMask(Mask(Position(i)));
    hide Mask;
  }

  /** No other bit of the buffer is set. */
  lemma {:induction false} EncodedElsewhere(ascii: string, from: nat, b: nat, k: nat)
    requires from <= |ascii| <= MAXPACKLEN && b < MAXPACKLEN && k < 8
    requires Cell(EncodedFrom(ascii, from), b, k)
    ensures exists i :: from <= i < |ascii| && ascii[i] == '1' && b == ByteIndex(|ascii|, i) && k == Position(i)
    decreases |ascii| - from
  {
    hide SetBit, Mask;
    ZeroMask(Mask(k));
    if from < |ascii| {
      if ascii[from] == '1' {
        SetCell(EncodedFrom(ascii, from + 1), |ascii|, from, true, b, k);
      }
      if ascii[from] != '1' || b != ByteIndex(|ascii|, from) || k != Position(from) {
        EncodedElsewhere(ascii, from + 1, b, k);
      }
    }
  }

  /** A well-formed line: bits and spaces, an apostrophe, then a comment to the end of the line or of the file. */
  datatype ConfigLine = ConfigLine(bits: string, comment: string, newline: bool)
  {
    ghost predicate Fits() {
      && (forall i | 0 <= i < |bits| :: bits[i] != '\'' && bits[i] != '\0' && bits[i] != '\n')
      && (forall i | 0 <= i < |comment| :: comment[i] != '\n')
      && |bits| + |comment| + 2 < LINE_SIZE
    }

    function Text(): string {
      bits + "'" + comment + (if newline then "\n" else "")
    }
  }

  function FileText(lines: seq<ConfigLine>): string {
    if lines == [] then "" else lines[0].Text() + FileText(lines[1..])
  }

  /** Only the last line may lack its newline. */
  ghost predicate IsConfigFile(lines: seq<ConfigLine>) {
    && (forall line | line in lines :: line.Fits())
    && (forall i | 0 <= i < |lines| - 1 :: lines[i].newline)
  }

  function NonSpaces(s: string): string {
    if s == [] then [] else (if s[0] == ' ' then [] else [s[0]]) + NonSpaces(s[1..])
  }

  function FileBits(lines: seq<ConfigLine>): string {
    if lines == [] then "" else NonSpaces(lines[0].bits) + FileBits(lines[1..])
  }

  lemma {:induction false} ChunkIsLine(line: ConfigLine, rest: string, i: nat)
    requires line.Fits() && i < |line.Text()| && (line.newline || rest == "")
    ensures ChunkEnd(line.Text() + rest, i) == |line.Text()|
    decreases |line.Text()| - i
  {
    var text := line.Text();
    assert (text + rest)[i] == text[i];
    if i < |text| - 1 || !line.newline {
      assert text[i] != '\n' by {
        var j := i - |line.bits| - 1;
        assert i < |line.bits| ==> text[i] == line.bits[i];
        assert i == |line.bits| ==> text[i] == '\'';
        assert i > |line.bits| ==> text[i] == line.comment[j];
      }
      if i < |text| - 1 {
        ChunkIsLine(line, rest, i + 1);
      }
    }
  }

  lemma {:induction false} KeptOfLine(bits: string, rest: string)
    requires forall i | 0 <= i < |bits| :: bits[i] != '\'' && bits[i] != '\0'
    ensures Kept(bits + "'" + rest) == NonSpaces(bits)
  {
    var line := bits + "'" + rest;
    if bits == [] {
      assert line[0] == '\'';
    } else {
      assert line[0] == bits[0];
      assert line[1..] == bits[1..] + "'" + rest;
      KeptOfLine(bits[1..], rest);
    }
  }

  /** Of a file of well-formed lines, the parser keeps the characters before each apostrophe that are not spaces. */
  lemma {:induction false} CharsOfLines(lines: seq<ConfigLine>)
    requires IsConfigFile(lines)
    ensures Chars(FileText(lines)) == FileBits(lines)
  {
    if lines != [] {
      var line, rest := lines[0], FileText(lines[1..]);
      var file := line.Text() + rest;
      assert line in lines;
      ChunkIsLine(line, rest, 0);
      var n := |line.Text()|;
      assert file[..n] == line.Text() && file[n..] == rest;
      var end := if line.newline then "\n\0" else "\0";
      assert line.Text() + "\0" == line.bits + "'" + (line.comment + end);
      KeptOfLine(line.bits, line.comment + end);
      CharsOfLines(lines[1..]);
      hide Kept, NonSpaces, ChunkEnd;
    }
  }

  lemma {:induction false} KeptWithoutComment(line: string)
    requires forall i | 0 <= i < |line| :: line[i] != '\'' && line[i] != '\0'
    ensures Kept(line + "\0") == NonSpaces(line) + "\0"
  {
    if line == [] {
      assert Kept("\0") == "\0";
    } else {
      assert (line + "\0")[1..] == line[1..] + "\0";
      KeptWithoutComment(line[1..]);
    }
  }

  lemma {:induction false} ChunkWhole(line: string, i: nat)
    requires i <= |line| < LINE_SIZE - 1 && forall j | i <= j < |line| - 1 :: line[j] != '\n'
    ensures ChunkEnd(line, i) == |line|
    decreases |line| - i
  {
    if i < |line| && line[i] != '\n' {
      ChunkWhole(line, i + 1);
    }
  }

  /** A line without an apostrophe is kept with its newline and the terminator behind it, which count as
      characters too. */
  lemma CharsWithoutComment(line: string)
    requires line != [] && |line| < LINE_SIZE - 1
    requires forall i | 0 <= i < |line| :: line[i] != '\'' && line[i] != '\0'
    requires forall i | 0 <= i < |line| - 1 :: line[i] != '\n'
    ensures Chars(line) == NonSpaces(line) + "\0"
  {
    ChunkWhole(line, 0);
    KeptWithoutComment(line);
    assert line[..|line|] == line && line[|line|..] == [];
    hide Kept, NonSpaces, ChunkEnd;
    assert NonSpaces(line) + "\0" + [] == NonSpaces(line) + "\0";
  }
}
