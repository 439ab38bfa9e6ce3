/** The configuration path: parsed files are packed into one message, which the driver stores per board and hands
    back. */
module Configuration {
  import opened BitStore
  import opened ConfigFile

  const SCR_BITS: nat := 1144
  const PMR_BITS: nat := 224
  const SCR_BYTES: nat := SCR_BITS / 8
  const PMR_BYTES: nat := PMR_BITS / 8
  const CONF_BYTES: nat := SCR_BYTES + PMR_BYTES

  function ConfBytes(scr: seq<Byte>, pmr: seq<Byte>): (r: seq<Byte>)
    requires |scr| >= SCR_BYTES && |pmr| >= PMR_BYTES
    ensures |r| == CONF_BYTES
  {
    scr[..SCR_BYTES] + pmr[..PMR_BYTES]
  }

  /** The sender's side. */
  class FebConf {
    const bufScr: array<Byte>
    const bufPmr: array<Byte>
    const confbuf: array<Byte>
    var configScrOk: bool
    var configPmrOk: bool

    ghost predicate Valid() {
      && bufScr.Length == bufPmr.Length == confbuf.Length == MAXPACKLEN
      && bufScr != bufPmr && bufPmr != confbuf && confbuf != bufScr
    }

    constructor ()
      ensures Valid() && fresh(bufScr) && fresh(bufPmr) && fresh(confbuf)
    {
      bufScr := new Byte[MAXPACKLEN];
      bufPmr := new Byte[MAXPACKLEN];
      confbuf := new Byte[MAXPACKLEN];
    }

    method SetScrConf(file: File)
      requires Valid()
      modifies this`configScrOk, bufScr
      ensures configScrOk <==> file.Present? && |Chars(file.text)| == SCR_BITS
      ensures file.Missing? ==> bufScr[..] == old(bufScr[..])
      ensures file.Present? ==> bufScr[..] == Encoded(Cap(Chars(file.text)))
    {
      var bitlen := ReadBitStream(file, bufScr);
      configScrOk := bitlen == 1144;
    }

    method SetPmrConf(file: File)
      requires Valid()
      modifies this`configPmrOk, bufPmr
      ensures configPmrOk <==> file.Present? && |Chars(file.text)| == PMR_BITS
      ensures file.Missing? ==> bufPmr[..] == old(bufPmr[..])
      ensures file.Present? ==> bufPmr[..] == Encoded(Cap(Chars(file.text)))
    {
      var bitlen := ReadBitStream(file, bufPmr);
      configPmrOk := bitlen == 224;
    }

    method GetConfBuffer()
      requires Valid()
      modifies confbuf
      ensures confbuf[..CONF_BYTES] == ConfBytes(bufScr[..], bufPmr[..])
      ensures confbuf[CONF_BYTES..] == old(confbuf[CONF_BYTES..])
    {
      forall i | 0 <= i < 1144 / 8 {
        confbuf[i] := bufScr[i];
      }
      forall i | 0 <= i < 224 / 8 {
        confbuf[i + 1144 / 8] := bufPmr[i];
      }
    }
  }

  /** The driver's side: one row of 1500 bytes per board and register. */
  class BoardConfigs {
    const bufScr: array2<Byte>
    const bufPmr: array2<Byte>

    ghost predicate Valid() {
      && bufScr.Length0 == bufPmr.Length0 == 256
      && bufScr.Length1 == bufPmr.Length1 == MAXPACKLEN
      && bufScr != bufPmr
    }

    constructor ()
      ensures Valid() && fresh(bufScr) && fresh(bufPmr)
    {
      bufScr := new Byte[256, MAXPACKLEN];
      bufPmr := new Byte[256, MAXPACKLEN];
    }

    /** The first `n` bytes of a board's row. */
    ghost function Row(store: array2<Byte>, mac5: nat, n: nat): (r: seq<Byte>)
      requires mac5 < store.Length0 && n <= store.Length1
      reads store
      ensures |r| == n
    {
      seq(n, i requires 0 <= i < n reads store => store[mac5, i])
    }

    /** `sent` is the outcome of passing the configuration on to the board, which is not part of this model. */
    method Configu(mac5: nat, buf: seq<Byte>, len: int, sent: int) returns (rv: int)
      requires Valid() && mac5 < 256 && (len == CONF_BYTES ==> |buf| >= CONF_BYTES)
      modifies bufScr, bufPmr
      ensures rv == if mac5 == 0xFF || len != CONF_BYTES then 0 else sent
      ensures forall r, c | 0 <= r < 256 && 0 <= c < MAXPACKLEN ::
                bufScr[r, c] == if mac5 != 0xFF && len == CONF_BYTES && r == mac5 && c < SCR_BYTES then buf[c]
                                else old(bufScr[r, c])
      ensures forall r, c | 0 <= r < 256 && 0 <= c < MAXPACKLEN ::
                bufPmr[r, c] == if mac5 != 0xFF && len == CONF_BYTES && r == mac5 && c < PMR_BYTES
                                then buf[SCR_BYTES + c] else old(bufPmr[r, c])
    {
      if mac5 == 0xFF {
        return 0;
      }
      if len != (1144 + 224) / 8 {
        return 0;
      }
      forall i | 0 <= i < 1144 / 8 {
        bufScr[mac5, i] := buf[i];
      }
      forall i | 0 <= i < 224 / 8 {
        bufPmr[mac5, i] := buf[1144 / 8 + i];
      }
      rv := sent;
    }

    method GetScr(mac5: nat, buf: array<Byte>) returns (rv: int)
      requires Valid() && mac5 < 256 && buf.Length >= SCR_BYTES
      modifies buf
      ensures rv == 1
      ensures buf[..SCR_BYTES] == Row(bufScr, mac5, SCR_BYTES)
      ensures buf[SCR_BYTES..] == old(buf[SCR_BYTES..])
    {
      forall i | 0 <= i < 1144 / 8 {
        buf[i] := bufScr[mac5, i];
      }
      rv := 1;
    }
  }

  /** What the driver's bit getter reads back, from any buffer whose first bytes are the bytes sent, is the file. */
  lemma ConfigurationRoundTrip(scr: seq<ConfigLine>, pmr: seq<ConfigLine>, scrRow: seq<Byte>, pmrRow: seq<Byte>)
    requires IsConfigFile(scr) && |FileBits(scr)| == SCR_BITS
    requires IsConfigFile(pmr) && |FileBits(pmr)| == PMR_BITS
    requires SCR_BYTES <= |scrRow| && PMR_BYTES <= |pmrRow|
    requires
      var sent := ConfBytes(Encoded(Cap(Chars(FileText(scr)))), Encoded(Cap(Chars(FileText(pmr)))));
      scrRow[..SCR_BYTES] == sent[..SCR_BYTES] && pmrRow[..PMR_BYTES] == sent[SCR_BYTES..]
    ensures forall i | 0 <= i < SCR_BITS :: GetBit(scrRow, SCR_BITS, i) <==> FileBits(scr)[i] == '1'
    ensures forall i | 0 <= i < PMR_BITS :: GetBit(pmrRow, PMR_BITS, i) <==> FileBits(pmr)[i] == '1'
  {
    hide Chars, FileText, GetBit, FileBits, IsConfigFile, EncodedFrom;
    CharsOfLines(scr);
    CharsOfLines(pmr);
    var s, p := Encoded(FileBits(scr)), Encoded(FileBits(pmr));
    var sent := ConfBytes(s, p);
    assert sent[..SCR_BYTES] == s[..SCR_BYTES] && sent[SCR_BYTES..] == p[..PMR_BYTES];
    forall i | 0 <= i < SCR_BITS ensures GetBit(scrRow, SCR_BITS, i) <==> FileBits(scr)[i] == '1' {
      GetBitOfPrefix(scrRow, s, SCR_BITS, i);
      EncodedBits(FileBits(scr), 0, i);
    }
    forall i | 0 <= i < PMR_BITS ensures GetBit(pmrRow, PMR_BITS, i) <==> FileBits(pmr)[i] == '1' {
      GetBitOfPrefix(pmrRow, p, PMR_BITS, i);
      EncodedBits(FileBits(pmr), 0, i);
    }
  }

  /** Which of the file's characters are set. */
  function Ones(bits: string): (r: seq<bool>)
    ensures |r| == |bits|
  {
    seq(|bits|, i requires 0 <= i < |bits| => bits[i] == '1')
  }

  lemma EncodedByte(bits: string, n: nat, m: nat)
    requires |bits| == 8 * n <= MAXPACKLEN && m < n
    ensures Encoded(bits)[n - 1 - m] == ByteFrom(Ones(bits[8 * m..8 * m + 8]))
  {
    hide GetBit, ByteFrom, EncodedFrom;
    ByteOfBits(Encoded(bits), n, m);
    forall i | 0 <= i < |bits| ensures Contents(Encoded(bits), 8 * n)[i] == (bits[i] == '1') {
      EncodedBits(bits, 0, i);
    }
    assert Contents(Encoded(bits), 8 * n)[8 * m..8 * m + 8] == Ones(bits[8 * m..8 * m + 8]);
  }

  /** The message to a board, byte by byte: the slow-control file's characters in groups of eight, the last group
      first and the first character of a group in its most significant bit, then the probe file's likewise. */
  lemma MessageBytes(scr: string, pmr: string)
    requires |scr| == 1144 && |pmr| == 224
    ensures
      var sent := ConfBytes(Encoded(scr), Encoded(pmr));
      && |sent| == 171
      && (forall m: nat | m < 143 :: sent[142 - m] == ByteFrom(Ones(scr[8 * m..8 * m + 8])))
      && (forall m: nat | m < 28 :: sent[170 - m] == ByteFrom(Ones(pmr[8 * m..8 * m + 8])))
  {
    hide ByteFrom, Encoded, Ones;
    forall m: nat | m < 143
      ensures ConfBytes(Encoded(scr), Encoded(pmr))[142 - m] == ByteFrom(Ones(scr[8 * m..8 * m + 8]))
    {
      EncodedByte(scr, 143, m);
    }
    forall m: nat | m < 28
      ensures ConfBytes(Encoded(scr), Encoded(pmr))[170 - m] == ByteFrom(Ones(pmr[8 * m..8 * m + 8]))
    {
      EncodedByte(pmr, 28, m);
    }
  }

  /** The whole path for one board, with the steps in the order in which a configuration travels. */
  method SetAndReadBack(conf: FebConf, boards: BoardConfigs, scr: seq<ConfigLine>, pmr: seq<ConfigLine>, mac5: nat,
                        i: nat)
    returns (bit: bool)
    requires conf.Valid() && boards.Valid()
    requires IsConfigFile(scr) && |FileBits(scr)| == SCR_BITS
    requires IsConfigFile(pmr) && |FileBits(pmr)| == PMR_BITS
    requires mac5 < 255 && i < SCR_BITS
    modifies conf, conf.bufScr, conf.bufPmr, conf.confbuf, boards.bufScr, boards.bufPmr
    ensures conf.configScrOk && conf.configPmrOk
    ensures bit <==> FileBits(scr)[i] == '1'
  {
    hide Chars, FileText, GetBit, FileBits, IsConfigFile, Encoded;
    CharsOfLines(scr);
    CharsOfLines(pmr);
    conf.SetScrConf(Present(FileText(scr)));
    conf.SetPmrConf(Present(FileText(pmr)));
    conf.GetConfBuffer();
    ghost var sent := conf.confbuf[..CONF_BYTES];
    var _ := boards.Configu(mac5, conf.confbuf[..], CONF_BYTES, 1);
    var back := new Byte[MAXPACKLEN];
    var _ := boards.GetScr(mac5, back);
    assert back[..][..SCR_BYTES] == sent[..SCR_BYTES];
    ConfigurationRoundTrip(scr, pmr, back[..], sent[SCR_BYTES..]);
    bit := ConfigGetBit(back, SCR_BITS, i);
  }
}
