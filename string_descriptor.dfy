/**
 * Decoding a USB string descriptor into a NUL-terminated Latin-1 string
 * (`usbGetStringAscii`).
 *
 * A string descriptor (USB 2.0 specification, section 9.6.7) is bLength at
 * byte 0, bDescriptorType = STRING (3) at byte 1, then UTF-16LE code units.
 * It is fetched with GET_DESCRIPTOR (section 9.4.3) into a 256-byte local
 * buffer; the transfer result `rval` is the number of bytes received, or a
 * negative error code. Both are inputs here: the buffer array holds whatever
 * the transfer left in it (bytes it did not write are arbitrary).
 */
module StringDescriptor {
  import opened Bytes
  import opened Usb

  /** bDescriptorType of a string descriptor. */
  const DtString: byte := 3
  /** bRequest code of GET_DESCRIPTOR. */
  const ReqGetDescriptor := 6
  /** LANGID of English (United States), used for every query. */
  const LangIdEnglishUS := 0x0409
  /** Size of the transfer buffer, hence the largest transfer result. */
  const TransferSize := 256
  /**
   * The most characters a descriptor can decode to: the byte count is
   * clipped to bLength <= 255, giving at most 127 code units, the first of
   * which is the header.
   */
  const MaxChars := 126
  /** Stands in for a code unit outside ISO Latin-1. */
  const QuestionMark: byte := 63

  /** A UTF-16 code unit. */
  type CodeUnit = u: int | 0 <= u < 0x1_0000

  /** Number of 16-bit units received, the header included: min(rval, bLength) / 2. */
  function Units(desc: seq<byte>, rval: int): (u: nat)
    requires |desc| == TransferSize && 0 <= rval <= TransferSize
    ensures u <= 127
  {
    (if (desc[0] as int) < rval then desc[0] as int else rval) / 2
  }

  /** Number of characters decoded: every unit after the header, at most `buflen`. */
  function CharCount(desc: seq<byte>, rval: int, buflen: nat): (n: nat)
    requires |desc| == TransferSize && 0 <= rval <= TransferSize
    ensures n <= buflen && n <= MaxChars
  {
    var u := Units(desc, rval);
    if u <= 1 then 0 else if u - 1 <= buflen then u - 1 else buflen
  }

  /** The Latin-1 character of the code unit with low byte `lo` and high byte `hi`. */
  function Latin1(lo: byte, hi: byte): byte {
    if hi != 0 then QuestionMark else lo
  }

  /** The characters of the descriptor: character k comes from bytes 2k+2 and 2k+3. */
  function DecodedChars(desc: seq<byte>, rval: int, buflen: nat): seq<byte>
    requires |desc| == TransferSize && 0 <= rval <= TransferSize
  {
    var n := CharCount(desc, rval, buflen);
    seq(n, k requires 0 <= k < n => Latin1(desc[2 * k + 2], desc[2 * k + 3]))
  }

  /**
   * The terminating NUL lands inside `buf`: either `buflen` leaves room for
   * it, or `buflen` exceeds anything a descriptor can decode to.
   */
  predicate TerminatorFits(buflen: nat, bufLength: nat) {
    buflen <= bufLength && (buflen < bufLength || MaxChars < buflen)
  }

  /**
   * A device's answer to one GET_DESCRIPTOR(STRING) request: the transfer
   * result and the 256 bytes the transfer buffer then holds.
   */
  datatype StringReply = StringReply(rval: int, bytes: seq<byte>)

  predicate ValidReply(q: StringReply) {
    q.rval <= TransferSize && |q.bytes| == TransferSize
  }

  /** A reply the transfer can deliver: at most 256 bytes into a 256-byte buffer. */
  type Reply = q: StringReply | ValidReply(q) witness StringReply(0, seq(TransferSize, _ => 0))

  /**
   * The GET_DESCRIPTOR transfer itself: a fresh 256-byte buffer holding
   * what the device sent, and the transfer result.
   */
  method DescriptorTransfer(q: Reply) returns (buffer: array<byte>, rval: int)
    ensures fresh(buffer) && buffer[..] == q.bytes && rval == q.rval
  {
    buffer := new byte[TransferSize](k requires 0 <= k < TransferSize => q.bytes[k]);
    rval := q.rval;
  }

  /** The return value of the decoding and the contents of `buf` after it. */
  datatype Outcome = Outcome(len: int, buf: seq<byte>)

  /** What decoding does to the output buffer `buf`, as a function of its old contents. */
  function GetString(desc: seq<byte>, rval: int, buflen: nat, buf: seq<byte>): (r: Outcome)
    requires |desc| == TransferSize && rval <= TransferSize
    requires TerminatorFits(buflen, |buf|)
    ensures |r.buf| == |buf|
  {
    if rval < 0 then Outcome(rval, buf)
    else if desc[1] != DtString then Outcome(0, buf)
    else
      var s := DecodedChars(desc, rval, buflen);
      Outcome(|s|, s + [0] + buf[|s| + 1..])
  }

  /**
   * `usbGetStringAscii`, after its transfer: `buffer` and `rval` are what
   * GET_DESCRIPTOR delivered; the decoded string is written into `buf`.
   */
  method GetStringAscii(buffer: array<byte>, rval: int, buf: array<byte>, buflen: nat) returns (n: int)
    requires buffer.Length == TransferSize && rval <= TransferSize
    requires TerminatorFits(buflen, buf.Length)
    requires buffer != buf
    modifies buf
    ensures Outcome(n, buf[..]) == GetString(buffer[..], rval, buflen, old(buf[..]))
  {
    if rval < 0 {
      return rval;
    }
    if buffer[1] != DtString {
      return 0;
    }
    var r := rval;
    if (buffer[0] as int) < r {
      r := buffer[0] as int;
    }
    r := r / 2;
    assert r == Units(buffer[..], rval);
    n := LossyConvert(buffer, r, buf, buflen);
    ghost var s := DecodedChars(buffer[..], rval, buflen);
    assert buf[..n] == s;
    assert buf[..] == s + [0] + old(buf[..])[n + 1..];
  }

  /**
   * The conversion loop of `usbGetStringAscii`: code units 1 to `units - 1`
   * of `buffer` become Latin-1 characters of `buf`, at most `buflen` of them,
   * followed by a NUL.
   */
  method LossyConvert(buffer: array<byte>, units: nat, buf: array<byte>, buflen: nat) returns (n: nat)
    requires buffer.Length == TransferSize && units <= 127
    requires TerminatorFits(buflen, buf.Length)
    requires buffer != buf
    modifies buf
    ensures n == if units <= 1 then 0 else if units - 1 <= buflen then units - 1 else buflen
    ensures forall k | 0 <= k < n :: buf[k] == Latin1(buffer[2 * k + 2], buffer[2 * k + 3])
    ensures buf[n] == 0
    ensures forall k | n < k < buf.Length :: buf[k] == old(buf[k])
  {
    var i := 1;
    while i < units
      invariant 1 <= i <= buflen + 1
      invariant i <= units || i == 1
      invariant forall k | 0 <= k < i - 1 :: buf[k] == Latin1(buffer[2 * k + 2], buffer[2 * k + 3])
      invariant forall k | i - 1 <= k < buf.Length :: buf[k] == old(buf[k])
    {
      if i > buflen {
        break;
      }
      buf[i - 1] := buffer[2 * i];
      if buffer[2 * i + 1] != 0 {
        buf[i - 1] := QuestionMark;
      }
      i := i + 1;
    }
    buf[i - 1] := 0;
    n := i - 1;
  }

  /**
   * The three outcomes of decoding: a failed transfer returns its error and
   * writes nothing; a descriptor of another type returns 0 and writes
   * nothing; otherwise the characters are written, NUL-terminated, and the
   * rest of `buf` is left alone. The result never exceeds `buflen`.
   */
  lemma GetStringCases(desc: seq<byte>, rval: int, buflen: nat, buf: seq<byte>)
    requires |desc| == TransferSize && rval <= TransferSize
    requires TerminatorFits(buflen, |buf|)
    ensures rval < 0 ==> GetString(desc, rval, buflen, buf) == Outcome(rval, buf)
    ensures 0 <= rval && desc[1] != DtString ==> GetString(desc, rval, buflen, buf) == Outcome(0, buf)
    ensures 0 <= rval && desc[1] == DtString ==> var r := GetString(desc, rval, buflen, buf);
      && 0 <= r.len <= buflen
      && r.len == |DecodedChars(desc, rval, buflen)|
      && r.buf[..r.len] == DecodedChars(desc, rval, buflen)
      && r.buf[r.len] == 0
      && r.buf[r.len + 1..] == buf[r.len + 1..]
  {
  }

  /** A descriptor whose effective length is below 4 bytes holds no character. */
  lemma ShortDescriptorIsEmpty(desc: seq<byte>, rval: int, buflen: nat)
    requires |desc| == TransferSize && 0 <= rval <= TransferSize
    requires rval < 4 || (desc[0] as int) < 4
    ensures DecodedChars(desc, rval, buflen) == []
  {
  }

  /** The lossy Latin-1 reading of a code unit. */
  function Lossy(u: CodeUnit): byte {
    if u < 256 then u as byte else QuestionMark
  }

  /** UTF-16LE encoding of code units: low byte first. */
  function Utf16Le(units: seq<CodeUnit>): (b: seq<byte>)
    ensures |b| == 2 * |units|
  {
    if units == [] then []
    else [(units[0] % 256) as byte, (units[0] / 256) as byte] + Utf16Le(units[1..])
  }

  lemma {:induction false} Utf16LeAt(units: seq<CodeUnit>, k: nat)
    requires k < |units|
    ensures Utf16Le(units)[2 * k] == (units[k] % 256) as byte
    ensures Utf16Le(units)[2 * k + 1] == (units[k] / 256) as byte
  {
    if k > 0 {
      Utf16LeAt(units[1..], k - 1);
    }
  }

  /** Number of transfer-buffer bytes after a descriptor of `n` code units. */
  function TailLength(n: nat): nat
    requires n <= MaxChars
  {
    TransferSize - 2 - 2 * n
  }

  /**
   * The 256 bytes in the transfer buffer after a device answers with a
   * string descriptor of `units`: the descriptor, then `tail`, whatever the
   * buffer held beyond what the device sent.
   */
  function Descriptor(units: seq<CodeUnit>, tail: seq<byte>): (desc: seq<byte>)
    requires |units| <= MaxChars && |tail| == TailLength(|units|)
    ensures |desc| == TransferSize
    ensures desc[0] as int == 2 + 2 * |units| && desc[1] == DtString
  {
    [(2 + 2 * |units|) as byte, DtString] + Utf16Le(units) + tail
  }

  /**
   * Decoding the descriptor of `units` gives one character per code unit,
   * '?' for those outside Latin-1, truncated to `buflen`, whatever follows
   * the descriptor in the buffer. The transfer may report more bytes than
   * bLength; decoding clips to bLength.
   */
  lemma DecodeDescriptor(units: seq<CodeUnit>, tail: seq<byte>, rval: int, buflen: nat)
    requires |units| <= MaxChars && |tail| == TailLength(|units|)
    requires 2 + 2 * |units| <= rval <= TransferSize
    ensures var s := DecodedChars(Descriptor(units, tail), rval, buflen);
      && |s| == (if |units| <= buflen then |units| else buflen)
      && forall k | 0 <= k < |s| :: s[k] == Lossy(units[k])
  {
    var desc := Descriptor(units, tail);
    assert Units(desc, rval) == 1 + |units|;
    forall k | 0 <= k < CharCount(desc, rval, buflen)
      ensures Latin1(desc[2 * k + 2], desc[2 * k + 3]) == Lossy(units[k])
    {
      Utf16LeAt(units, k);
      assert desc[2 * k + 2] == Utf16Le(units)[2 * k];
      assert desc[2 * k + 3] == Utf16Le(units)[2 * k + 1];
    }
  }

  /** The code units of a Latin-1 byte string. */
  function Widen(s: seq<byte>): (units: seq<CodeUnit>)
    ensures |units| == |s| && forall k | 0 <= k < |s| :: units[k] == s[k] as int
  {
    seq(|s|, k requires 0 <= k < |s| => s[k] as int)
  }

  /** A Latin-1 string that fits survives the round trip through its descriptor. */
  lemma Latin1RoundTrip(s: seq<byte>, tail: seq<byte>, buflen: nat)
    requires |s| <= MaxChars && |s| <= buflen && |tail| == TailLength(|s|)
    ensures DecodedChars(Descriptor(Widen(s), tail), 2 + 2 * |s|, buflen) == s
  {
    DecodeDescriptor(Widen(s), tail, 2 + 2 * |s|, buflen);
  }

  /** A code unit above 0xFF decodes to '?' in its place. */
  lemma WideUnitBecomesQuestionMark(units: seq<CodeUnit>, tail: seq<byte>, k: nat)
    requires |units| <= MaxChars && |tail| == TailLength(|units|) && k < |units| && 256 <= units[k]
    ensures DecodedChars(Descriptor(units, tail), 2 + 2 * |units|, TransferSize)[k] == QuestionMark
  {
    DecodeDescriptor(units, tail, 2 + 2 * |units|, TransferSize);
  }
}
