/** WebSocket framing as done by the server (ServeRick/Networking/WebSocket.cs): the
    decoder of one incoming frame, the header of an outgoing text frame, and the per-socket
    field table. Frame layout and masking follow sections 5.2 and 5.3 of RFC 6455. */
module WebSocket {
  import opened Results
  import opened Text

  // ---------------------------------------------------------------------------------
  // Bytes, big-endian numbers and masking

  function Pow256(n: nat): (p: nat)
    ensures p >= 1
  {
    if n == 0 then 1 else 256 * Pow256(n - 1)
  }

  /** The last `count` bytes of the big-endian form of `n`. */
  function BigEndian(n: nat, count: nat): (bs: seq<Byte>)
    ensures |bs| == count
  {
    if count == 0 then [] else BigEndian(n / 256, count - 1) + [n % 256]
  }

  /** The number a big-endian byte sequence stands for. */
  function BigEndianValue(bs: seq<Byte>): (n: nat)
    ensures n < Pow256(|bs|)
  {
    if |bs| == 0 then 0
    else
      var init := BigEndianValue(bs[..|bs| - 1]);
      init * 256 + bs[|bs| - 1]
  }

  /** Reading back the bytes of a number that fits gives the number. */
  lemma {:induction false} BigEndianRoundTrip(n: nat, count: nat)
    requires n < Pow256(count)
    ensures BigEndianValue(BigEndian(n, count)) == n
  {
    if count > 0 {
      var bs := BigEndian(n, count);
      assert bs[..|bs| - 1] == BigEndian(n / 256, count - 1);
      assert n / 256 < Pow256(count - 1);
      BigEndianRoundTrip(n / 256, count - 1);
    }
  }

  lemma Pow256Values()
    ensures Pow256(2) == 0x1_0000
    ensures Pow256(8) == 0x1_0000_0000_0000_0000
  {
    assert Pow256(1) == 0x100;
    assert Pow256(2) == 0x1_0000;
    assert Pow256(3) == 0x100_0000;
    assert Pow256(4) == 0x1_0000_0000;
    assert Pow256(5) == 0x100_0000_0000;
    assert Pow256(6) == 0x1_0000_0000_0000;
    assert Pow256(7) == 0x100_0000_0000_0000;
  }

  function Pow2(n: nat): (p: nat)
    ensures p >= 1
  {
    if n == 0 then 1 else 2 * Pow2(n - 1)
  }

  /** Exclusive or of two bits. */
  function XorBit(p: nat, q: nat): nat {
    if p % 2 == q % 2 then 0 else 1
  }

  /** Bitwise exclusive or of the lowest `bits` bits of two numbers. */
  function XorBits(a: nat, b: nat, bits: nat): (c: nat)
    decreases bits
  {
    if bits == 0 then 0 else 2 * XorBits(a / 2, b / 2, bits - 1) + XorBit(a, b)
  }

  lemma {:induction false} XorBitsBound(a: nat, b: nat, bits: nat)
    ensures XorBits(a, b, bits) < Pow2(bits)
  {
    if bits > 0 {
      XorBitsBound(a / 2, b / 2, bits - 1);
    }
  }

  /** Exclusive or with the same number twice gives back a number that fits. */
  lemma {:induction false} XorBitsTwice(a: nat, b: nat, bits: nat)
    requires a < Pow2(bits)
    ensures XorBits(XorBits(a, b, bits), b, bits) == a
  {
    if bits > 0 {
      var x := XorBits(a / 2, b / 2, bits - 1);
      var c := XorBits(a, b, bits);
      Halves(c, x, XorBit(a, b));
      assert a / 2 < Pow2(bits - 1);
      XorBitsTwice(a / 2, b / 2, bits - 1);
      assert XorBit(c, b) == a % 2;
      Halves(a, a / 2, a % 2);
    }
  }

  lemma Halves(c: int, x: int, r: int)
    requires c == 2 * x + r && 0 <= r < 2
    ensures c / 2 == x && c % 2 == r
  {
  }

  /** The C# `^` on two bytes. */
  function Xor(a: Byte, b: Byte): (c: Byte) {
    XorBitsBound(a, b, 8);
    assert Pow2(8) == 256;
    XorBits(a, b, 8)
  }

  /** XOR-ing with the same key byte twice gives the byte back. */
  lemma XorTwice(a: Byte, b: Byte)
    ensures Xor(Xor(a, b), b) == a
  {
    assert Pow2(8) == 256;
    XorBitsTwice(a, b, 8);
  }

  /** Section 5.3 of RFC 6455: octet i of the payload is XOR-ed with octet i mod 4 of the
      masking key. */
  function Mask(payload: seq<Byte>, key: seq<Byte>): (m: seq<Byte>)
    requires |key| == 4
    ensures |m| == |payload|
    ensures forall i :: 0 <= i < |payload| ==> m[i] == Xor(payload[i], key[i % 4])
  {
    seq(|payload|, i requires 0 <= i < |payload| => Xor(payload[i], key[i % 4]))
  }

  /** Unmasking is masking again. */
  lemma MaskTwice(payload: seq<Byte>, key: seq<Byte>)
    requires |key| == 4
    ensures Mask(Mask(payload, key), key) == payload
  {
    var m := Mask(Mask(payload, key), key);
    forall i | 0 <= i < |payload| ensures m[i] == payload[i] {
      XorTwice(payload[i], key[i % 4]);
    }
  }

  /** `Encoding.ASCII.GetString`: bytes above 127 become '?'. */
  function AsciiChar(b: Byte): (c: char)
    ensures b < 128 ==> c as int == b
    ensures b >= 128 ==> c == '?'
  {
    if b < 128 then b as char else '?'
  }

  function AsciiString(bs: seq<Byte>): (s: string)
    ensures |s| == |bs|
    ensures forall k :: 0 <= k < |bs| ==> s[k] == AsciiChar(bs[k])
  {
    seq(|bs|, k requires 0 <= k < |bs| => AsciiChar(bs[k]))
  }

  // ---------------------------------------------------------------------------------
  // Decoding a frame

  /** The exceptions `GetDecodedData` can raise. */
  datatype DecodeError =
    | NotImplemented      // a fragmented frame, or an opcode other than text and close
    | IndexOutOfRange     // a header byte lies beyond the buffer
    | BufferTooSmall      // the frame is longer than the bytes received
    | ArgumentOutOfRange  // `GetString` with a negative or overlong count

  /** Where the payload lies according to the length code: payload length, index of the
      masking key, and total frame length. */
  datatype Layout = Layout(dataLength: int, keyIndex: int, totalLength: int)

  /** The C# `BitConverter.ToInt16` of two big-endian bytes: a signed 16-bit number. */
  function Int16(hi: Byte, lo: Byte): (v: int)
    ensures -0x8000 <= v < 0x8000
    ensures v >= 0 ==> v == hi as int * 256 + lo
  {
    var u := hi as int * 256 + lo;
    if u >= 0x8000 then u - 0x1_0000 else u
  }

  /** The length code read by the source: the second byte minus the mask bit, which is
      assumed to be set. */
  function PayloadCode(buffer: seq<Byte>): int
    requires |buffer| >= 2
  {
    buffer[1] as int - 128
  }

  /** The three length tests of `GetDecodedData` as written. The third test,
      `payloadLength - 128 == 127`, can never hold because `payloadLength` is at most 127,
      so a 64-bit length code leaves all three numbers at 0; `LongFrameAsWritten` shows
      what that does to a long frame. `None` means a length byte lies beyond the buffer. */
  function LayoutAsWritten(buffer: seq<Byte>): (l: Option<Layout>)
    requires |buffer| >= 2
    ensures PayloadCode(buffer) <= 125 ==>
              l == Some(Layout(PayloadCode(buffer), 2, PayloadCode(buffer) + 6))
    ensures PayloadCode(buffer) == 126 && |buffer| >= 4 ==>
              l == Some(Layout(Int16(buffer[2], buffer[3]), 4, Int16(buffer[2], buffer[3]) + 8))
    ensures PayloadCode(buffer) == 127 ==> l == Some(Layout(0, 0, 0))
  {
    var p := PayloadCode(buffer);
    if p <= 125 then Some(Layout(p, 2, p + 6))
    else if p == 126 then
      if |buffer| < 4 then None
      else
        var n := Int16(buffer[2], buffer[3]);
        Some(Layout(n, 4, n + 8))
    else Some(Layout(0, 0, 0))
  }

  /** The part of `GetDecodedData` after the length: the buffer must hold the frame,
      then the payload is unmasked with the four key bytes and read as ASCII. */
  function DecodePayload(buffer: seq<Byte>, length: int, l: Layout): (res: Result<Option<string>, DecodeError>)
    requires length <= |buffer| && l.keyIndex >= 0
    ensures res.Ok? ==> res.value.Some?
    ensures res.Ok? ==>
              var start := l.keyIndex + 4;
              && 0 <= l.dataLength && start + l.dataLength <= |buffer|
              && res.value.value == AsciiString(Mask(buffer[start..start + l.dataLength],
                                                     buffer[l.keyIndex..start]))
    ensures l.totalLength > length ==> res == Throws(BufferTooSmall)
  {
    if l.totalLength > length then Throws(BufferTooSmall)
    else if |buffer| < l.keyIndex + 4 then Throws(IndexOutOfRange)
    else
      var key := buffer[l.keyIndex..l.keyIndex + 4];
      var start := l.keyIndex + 4;
      if l.dataLength < 0 || start + l.dataLength > |buffer| then Throws(ArgumentOutOfRange)
      else Ok(Some(AsciiString(Mask(buffer[start..start + l.dataLength], key))))
  }

  /** `GetDecodedData` as written: a final frame (FIN bit set) with the text opcode 1
      is decoded, the close opcode 8 gives null, and anything else throws. */
  function GetDecodedData(buffer: seq<Byte>, length: int): (res: Result<Option<string>, DecodeError>)
    requires length <= |buffer|
    ensures |buffer| > 0 && buffer[0] < 128 ==> res == Throws(NotImplemented)
    ensures |buffer| > 0 && buffer[0] >= 128 && buffer[0] % 16 == 8 ==> res == Ok(None)
    ensures |buffer| > 0 && buffer[0] >= 128 && buffer[0] % 16 != 1 && buffer[0] % 16 != 8 ==>
              res == Throws(NotImplemented)
    ensures res.Ok? && res.value.Some? ==> |buffer| > 0 && buffer[0] >= 128 && buffer[0] % 16 == 1
  {
    if |buffer| < 1 then Throws(IndexOutOfRange)
    else if buffer[0] < 128 then Throws(NotImplemented)
    else if buffer[0] % 16 == 8 then Ok(None)
    else if buffer[0] % 16 != 1 then Throws(NotImplemented)
    else if |buffer| < 2 then Throws(IndexOutOfRange)
    else
      match LayoutAsWritten(buffer)
      case None => Throws(IndexOutOfRange)
      case Some(l) => DecodePayload(buffer, length, l)
  }

  // ---------------------------------------------------------------------------------
  // Encoding a frame header

  /** The header `Send` builds: FIN and the text opcode, then the length inline below
      126, else length code 126 with two bytes or 127 with eight, big-endian. The switch
      to eight bytes is taken at `UInt16.MaxValue` itself (`<` where section 5.2 of
      RFC 6455 allows two bytes up to 65535); `SendHeader` is the corrected form. */
  function SendHeaderAsWritten(messageLength: nat): (h: seq<Byte>)
    ensures |h| >= 2 && h[0] == 0x81
  {
    if messageLength < 126 then [0x81, messageLength]
    else if messageLength < 0xFFFF then [0x81, 126] + BigEndian(messageLength, 2)
    else [0x81, 127] + BigEndian(messageLength, 8)
  }

  /** The header with the minimal length form required by section 5.2 of RFC 6455. */
  function SendHeader(messageLength: nat): (h: seq<Byte>)
    ensures |h| >= 2 && h[0] == 0x81 && h[1] < 128
  {
    if messageLength < 126 then [0x81, messageLength]
    else if messageLength <= 0xFFFF then [0x81, 126] + BigEndian(messageLength, 2)
    else [0x81, 127] + BigEndian(messageLength, 8)
  }

  /** The frame `Send` writes for a message whose UTF-8 encoding is `bytes` (the encoding
      itself is the .NET library's): a reader finds FIN and the text opcode, the message
      length, and the message bytes after the header. The length takes its minimal form
      except for a 65535-byte message, see `SendHeaderAsWritten`. */
  function Send(bytes: seq<Byte>): (frame: seq<Byte>)
    ensures |frame| >= |bytes| + 2 && frame[0] == 0x81
    ensures frame[|frame| - |bytes|..] == bytes
    ensures |bytes| < Pow256(8) ==> AnnouncedLength(frame[..|frame| - |bytes|]) == Some(|bytes|)
    ensures |bytes| != 0xFFFF ==> |frame| - |bytes| == MinimalHeaderLength(|bytes|)
  {
    SendHeaderAsWrittenAnnounces(|bytes|);
    var frame := SendHeaderAsWritten(|bytes|) + bytes;
    assert frame[..|frame| - |bytes|] == SendHeaderAsWritten(|bytes|);
    frame
  }

  /** `Send` with the corrected header: the length always in its minimal form. */
  function SendCorrected(bytes: seq<Byte>): (frame: seq<Byte>)
    ensures |frame| >= |bytes| + 2 && frame[0] == 0x81
    ensures frame[|frame| - |bytes|..] == bytes
    ensures |bytes| < Pow256(8) ==>
      && AnnouncedLength(frame[..|frame| - |bytes|]) == Some(|bytes|)
      && |frame| - |bytes| == MinimalHeaderLength(|bytes|)
  {
    var n := |bytes|;
    assert n < Pow256(8) ==> AnnouncedLength(SendHeader(n)) == Some(n) && |SendHeader(n)| == MinimalHeaderLength(n) by {
      if n < Pow256(8) {
        SendHeaderAnnounces(n);
      }
    }
    var frame := SendHeader(|bytes|) + bytes;
    assert frame[..|frame| - |bytes|] == SendHeader(|bytes|);
    frame
  }

  /** The payload length a header announces, read the way section 5.2 of RFC 6455
      prescribes (the mask bit ignored); `None` when the header is cut short. */
  function AnnouncedLength(h: seq<Byte>): (n: Option<nat>)
    requires |h| >= 2
  {
    var code := h[1] % 128;
    if code < 126 then Some(code)
    else if code == 126 then if |h| < 4 then None else Some(BigEndianValue(h[2..4]))
    else if |h| < 10 then None else Some(BigEndianValue(h[2..10]))
  }

  /** Header bytes spent on a length: the minimum that section 5.2 of RFC 6455 allows. */
  function MinimalHeaderLength(n: nat): nat {
    if n < 126 then 2 else if n <= 0xFFFF then 4 else 10
  }

  /** The corrected header announces the message length in the minimal form. */
  lemma SendHeaderAnnounces(n: nat)
    requires n < Pow256(8)
    ensures AnnouncedLength(SendHeader(n)) == Some(n)
    ensures |SendHeader(n)| == MinimalHeaderLength(n)
  {
    if 126 <= n <= 0xFFFF {
      SendHeaderTwoBytes(n);
    } else if n > 0xFFFF {
      SendHeaderEightBytes(n);
    }
  }

  lemma SendHeaderTwoBytes(n: nat)
    requires 126 <= n <= 0xFFFF
    ensures AnnouncedLength(SendHeader(n)) == Some(n)
    ensures |SendHeader(n)| == 4
  {
    var h := SendHeader(n);
    assert h[2..4] == BigEndian(n, 2);
    Pow256Values();
    BigEndianRoundTrip(n, 2);
  }

  lemma SendHeaderEightBytes(n: nat)
    requires 0xFFFF < n < Pow256(8)
    ensures AnnouncedLength(SendHeader(n)) == Some(n)
    ensures |SendHeader(n)| == 10
  {
    var h := SendHeader(n);
    assert h[2..10] == BigEndian(n, 8);
    BigEndianRoundTrip(n, 8);
  }

  /** The header as written announces the same length, but a 65535-byte message gets the
      eight-byte form where two bytes are the minimum. */
  lemma SendHeaderAsWrittenNotMinimal()
    ensures AnnouncedLength(SendHeaderAsWritten(0xFFFF)) == Some(0xFFFF)
    ensures |SendHeaderAsWritten(0xFFFF)| == 10 != MinimalHeaderLength(0xFFFF)
  {
    var h := SendHeaderAsWritten(0xFFFF);
    Pow256Values();
    assert h[2..10] == BigEndian(0xFFFF, 8);
    BigEndianRoundTrip(0xFFFF, 8);
  }

  /** The header as written announces every length below 2^64, in the minimal form
      except at 65535. */
  lemma SendHeaderAsWrittenAnnounces(n: nat)
    ensures n < Pow256(8) ==> AnnouncedLength(SendHeaderAsWritten(n)) == Some(n)
    ensures n != 0xFFFF ==> |SendHeaderAsWritten(n)| == MinimalHeaderLength(n)
  {
    if n == 0xFFFF {
      SendHeaderAsWrittenNotMinimal();
    } else {
      assert SendHeaderAsWritten(n) == SendHeader(n);
      if n < Pow256(8) {
        SendHeaderAnnounces(n);
      } else {
        assert |SendHeader(n)| == 10;
      }
    }
  }

  // ---------------------------------------------------------------------------------
  // Client frames: the decoder's partner

  /** A masked text frame as a client sends it (section 5.3 of RFC 6455): the `Send`
      header with the mask bit set, the masking key, and the masked payload. */
  function ClientFrame(payload: seq<Byte>, key: seq<Byte>): (frame: seq<Byte>)
    requires |key| == 4
  {
    var h := SendHeader(|payload|);
    [h[0], h[1] + 128] + h[2..] + key + Mask(payload, key)
  }

  /** The layout section 5.2 of RFC 6455 prescribes for a masked frame: the length code
      of the second byte, and the 16- and 64-bit lengths read as unsigned numbers. */
  function FrameLayout(buffer: seq<Byte>): (l: Option<Layout>)
    requires |buffer| >= 2
  {
    var code := buffer[1] % 128;
    if code <= 125 then Some(Layout(code, 2, code + 6))
    else if code == 126 then
      if |buffer| < 4 then None
      else
        var n := BigEndianValue(buffer[2..4]);
        Some(Layout(n, 4, n + 8))
    else if |buffer| < 10 then None
    else
      var n := BigEndianValue(buffer[2..10]);
      Some(Layout(n, 10, n + 14))
  }

  /** The corrected decoder: `GetDecodedData` with the lengths of `FrameLayout`. */
  function DecodeFrame(buffer: seq<Byte>, length: int): (res: Result<Option<string>, DecodeError>)
    requires length <= |buffer|
    ensures |buffer| > 0 && buffer[0] < 128 ==> res == Throws(NotImplemented)
    ensures |buffer| > 0 && buffer[0] >= 128 && buffer[0] % 16 == 8 ==> res == Ok(None)
  {
    if |buffer| < 1 then Throws(IndexOutOfRange)
    else if buffer[0] < 128 then Throws(NotImplemented)
    else if buffer[0] % 16 == 8 then Ok(None)
    else if buffer[0] % 16 != 1 then Throws(NotImplemented)
    else if |buffer| < 2 then Throws(IndexOutOfRange)
    else
      match FrameLayout(buffer)
      case None => Throws(IndexOutOfRange)
      case Some(l) => DecodePayload(buffer, length, l)
  }

  lemma ClientFrameParts(payload: seq<Byte>, key: seq<Byte>)
    requires |key| == 4
    ensures var frame := ClientFrame(payload, key);
      var h := SendHeader(|payload|);
      && |frame| == |h| + 4 + |payload|
      && frame[0] == 0x81 && frame[1] == h[1] + 128
      && frame[2..|h|] == h[2..]
      && frame[|h|..|h| + 4] == key
      && frame[|h| + 4..] == Mask(payload, key)
  {
  }

  /** Where the pieces of a client frame lie. */
  lemma ClientFrameLayout(payload: seq<Byte>, key: seq<Byte>)
    requires |key| == 4 && |payload| < Pow256(8)
    ensures var frame := ClientFrame(payload, key);
      var hl := MinimalHeaderLength(|payload|);
      && |frame| == hl + 4 + |payload|
      && frame[0] == 0x81 && frame[1] >= 128
      && FrameLayout(frame) == Some(Layout(|payload|, hl, hl + 4 + |payload|))
      && frame[hl..hl + 4] == key
      && frame[hl + 4..] == Mask(payload, key)
  {
    var h := SendHeader(|payload|);
    SendHeaderAnnounces(|payload|);
    ClientFrameParts(payload, key);
    var frame := ClientFrame(payload, key);
    assert frame[1] % 128 == h[1] % 128;
    if |payload| > 0xFFFF {
      assert frame[2..10] == frame[2..|h|] == h[2..10];
    } else if |payload| >= 126 {
      assert frame[2..4] == frame[2..|h|] == h[2..4];
    }
  }

  /** Decoding a client frame gives back its payload, read as ASCII: the round trip of
      the corrected decoder, for every payload length. */
  lemma DecodeClientFrame(payload: seq<Byte>, key: seq<Byte>)
    requires |key| == 4 && |payload| < Pow256(8)
    ensures var frame := ClientFrame(payload, key);
      DecodeFrame(frame, |frame|) == Ok(Some(AsciiString(payload)))
  {
    var frame := ClientFrame(payload, key);
    var hl := MinimalHeaderLength(|payload|);
    ClientFrameLayout(payload, key);
    assert frame[hl + 4..hl + 4 + |payload|] == Mask(payload, key);
    MaskTwice(payload, key);
  }

  /** The source's decoder agrees with the corrected one on frames shorter than 126
      bytes and on 16-bit lengths below 32768. */
  lemma DecodeAsWrittenShortFrames(payload: seq<Byte>, key: seq<Byte>)
    requires |key| == 4 && |payload| < 0x8000
    ensures var frame := ClientFrame(payload, key);
      GetDecodedData(frame, |frame|) == Ok(Some(AsciiString(payload)))
  {
    var frame := ClientFrame(payload, key);
    ClientFrameLayout(payload, key);
    DecodeClientFrame(payload, key);
    if |payload| >= 126 {
      BigEndianSmall(frame[2..4]);
    }
  }

  /** Two big-endian bytes below 0x8000 read the same signed and unsigned. */
  lemma BigEndianSmall(bs: seq<Byte>)
    requires |bs| == 2 && BigEndianValue(bs) < 0x8000
    ensures Int16(bs[0], bs[1]) == BigEndianValue(bs)
  {
    BigEndianTwo(bs);
  }

  lemma BigEndianTwo(bs: seq<Byte>)
    requires |bs| == 2
    ensures BigEndianValue(bs) == bs[0] as int * 256 + bs[1]
  {
    assert bs[..1][..0] == [];
  }

  /** The source's decoder throws on a client frame of 32768 to 65535 bytes: the 16-bit
      length is read as a negative `Int16`. */
  lemma DecodeAsWrittenSignedLength(payload: seq<Byte>, key: seq<Byte>)
    requires |key| == 4 && 0x8000 <= |payload| <= 0xFFFF
    ensures var frame := ClientFrame(payload, key);
      GetDecodedData(frame, |frame|) == Throws(ArgumentOutOfRange)
  {
    var frame := ClientFrame(payload, key);
    ClientFrameLayout(payload, key);
    var n := BigEndianValue(frame[2..4]);
    BigEndianTwo(frame[2..4]);
    assert Int16(frame[2], frame[3]) == n as int - 0x1_0000;
  }

  /** The source's decoder reads a client frame longer than 65535 bytes as the empty
      text: the 64-bit length branch is never taken. */
  lemma LongFrameAsWritten(payload: seq<Byte>, key: seq<Byte>)
    requires |key| == 4 && 0xFFFF < |payload| < Pow256(8)
    ensures var frame := ClientFrame(payload, key);
      GetDecodedData(frame, |frame|) == Ok(Some(""))
  {
    ClientFrameLayout(payload, key);
  }

  // ---------------------------------------------------------------------------------
  // Socket fields

  /** `Get`: the stored value, or the type's default. */
  function Get<K, V>(fields: map<K, V>, field: K, default: V): (v: V)
    ensures field in fields ==> v == fields[field]
    ensures field !in fields ==> v == default
  {
    if field in fields then fields[field] else default
  }

  /** `Set`: stores the value and returns it. */
  function Set<K, V>(fields: map<K, V>, field: K, value: V): (res: (map<K, V>, V))
    ensures res.1 == value && Get(res.0, field, value) == value
    ensures res.0.Keys == fields.Keys + {field}
    ensures forall f :: f in fields && f != field ==> res.0[f] == fields[f]
  {
    (fields[field := value], value)
  }

  /** `Initialize`: stores the value only when the field has none, and says whether it
      did. */
  function Initialize<K, V>(fields: map<K, V>, field: K, value: V): (res: (map<K, V>, bool))
    ensures res.1 <==> field !in fields
    ensures !res.1 ==> res.0 == fields
    ensures res.1 ==> res.0 == fields[field := value]
  {
    if field in fields then (fields, false) else (fields[field := value], true)
  }

  /** After `Initialize` the field holds a value, and it is the earlier one if there was
      one: a second `Initialize` changes nothing. */
  lemma InitializeOnce<K, V>(fields: map<K, V>, field: K, v1: V, v2: V, d: V)
    ensures var once := Initialize(fields, field, v1).0;
      && field in once
      && (field in fields ==> Get(once, field, d) == Get(fields, field, d))
      && Initialize(once, field, v2) == (once, false)
  {
  }
}
