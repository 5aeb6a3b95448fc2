/**
 * The UUID generator: the printer and parser between 16 bytes and the
 * 8-4-4-4-12 hex form, version 1 (time and node based) and version 5
 * (name based, SHA-1) byte layouts, and the dispatch on the selected
 * version.
 *
 * `Date.now()`, `crypto.getRandomValues` and `crypto.randomUUID` are not
 * called: the timestamp, the random bytes and the random UUID are
 * parameters. SHA-1 is a parameter too, a function to 20-byte digests.
 */
module Uuid {
  import opened Js
  import opened Arith

  /** The predefined v5 namespaces of section 4.3 and Appendix C of RFC 4122. */
  const NAMESPACE_DNS: string := "6ba7b810-9dad-11d1-80b4-00c04fd430c8"
  const NAMESPACE_URL: string := "6ba7b811-9dad-11d1-80b4-00c04fd430c8"
  const NAMESPACE_OID: string := "6ba7b812-9dad-11d1-80b4-00c04fd430c8"
  const NAMESPACE_X500: string := "6ba7b814-9dad-11d1-80b4-00c04fd430c8"

  const NAME_REQUIRED: string := "Name is required for UUID v5"
  const INVALID_NAMESPACE: string := "Invalid namespace UUID format"
  const NAMESPACE_REQUIRED: string := "Namespace UUID is required for UUID v5"

  /** Where the four dashes of the 8-4-4-4-12 form sit. */
  predicate IsDashPosition(p: int)
  {
    p == 8 || p == 13 || p == 18 || p == 23
  }

  /**
   * The namespace check `^[0-9a-f]{8}-[0-9a-f]{4}-[0-9a-f]{4}-[0-9a-f]{4}-[0-9a-f]{12}$`
   * with the `i` flag: 36 characters, dashes at the four dash positions and
   * a hex digit of either case everywhere else.
   */
  predicate IsUuidString(s: string)
  {
    |s| == 36 && forall p :: 0 <= p < 36 ==> if IsDashPosition(p) then s[p] == '-' else IsHexDigit(s[p])
  }

  /* ---------------------------------------------------------------------- */
  /* bytesToUuid                                                             */
  /* ---------------------------------------------------------------------- */

  /** `b.toString(16).padStart(2, '0')`. */
  function PaddedHex(b: byte): (r: string)
    ensures r == ByteHex(b)
  {
    PaddedHexIsByteHex(b);
    PadStart(HexString(b as int), 2, '0')
  }

  /** `Array.from(bytes).map(PaddedHex).join('')`. */
  function HexOf(bytes: seq<byte>): (r: string)
    ensures |r| == 2 * |bytes|
  {
    if bytes == [] then "" else PaddedHex(bytes[0]) + HexOf(bytes[1..])
  }

  /** The hex string holds each byte's two lower-case digits at `2 * i`. */
  lemma {:induction false} HexOfBytes(bytes: seq<byte>)
    ensures forall i :: 0 <= i < |bytes| ==> HexOf(bytes)[2 * i..2 * i + 2] == ByteHex(bytes[i])
    ensures forall j :: 0 <= j < |HexOf(bytes)| ==> IsLowerHexDigit(HexOf(bytes)[j])
  {
    if bytes != [] {
      var h, t := ByteHex(bytes[0]), HexOf(bytes[1..]);
      HexOfBytes(bytes[1..]);
      assert HexOf(bytes) == h + t;
      forall i | 0 <= i < |bytes|
        ensures HexOf(bytes)[2 * i..2 * i + 2] == ByteHex(bytes[i])
      {
        if i > 0 {
          assert (h + t)[2 * i..2 * i + 2] == t[2 * (i - 1)..2 * (i - 1) + 2];
          assert bytes[1..][i - 1] == bytes[i];
        }
      }
    }
  }

  /** The two hex digits of byte `i`, high nibble first. */
  lemma HexOfAt(bytes: seq<byte>, i: nat)
    requires i < |bytes|
    ensures |HexOf(bytes)| == 2 * |bytes|
    ensures HexOf(bytes)[2 * i] == HexDigit(bytes[i] as int / 16)
    ensures HexOf(bytes)[2 * i + 1] == HexDigit(bytes[i] as int % 16)
  {
    HexOfBytes(bytes);
    assert HexOf(bytes)[2 * i..2 * i + 2] == ByteHex(bytes[i]);
  }

  /** The first `2 * k` hex digits only depend on the first `k` bytes. */
  lemma {:induction false} HexOfPrefix(bytes: seq<byte>, k: nat)
    requires k <= |bytes|
    ensures HexOf(bytes)[..2 * k] == HexOf(bytes[..k])
  {
    if k > 0 {
      HexOfPrefix(bytes[1..], k - 1);
      assert bytes[..k][1..] == bytes[1..][..k - 1];
      assert bytes[..k][0] == bytes[0];
    }
  }

  /** The five `substr` pieces of a hex string: 8, 4, 4, 4 and 12 digits from the front. */
  function UuidPieces(hex: string): seq<string>
  {
    [Substr(hex, 0, 8), Substr(hex, 8, 4), Substr(hex, 12, 4), Substr(hex, 16, 4), Substr(hex, 20, 12)]
  }

  /**
   * `bytesToUuid`: the hex digits of the bytes cut at 8, 12, 16 and 20 and
   * re-joined with `'-'`. The source hands it 16 bytes for v1 and the whole
   * 20-byte digest for v5.
   */
  function BytesToUuid(bytes: seq<byte>): string
  {
    Join(UuidPieces(HexOf(bytes)), "-")
  }

  /** The 8-4-4-4-12 form of the first 32 characters of `h`. */
  function Dashed(h: string): string
    requires |h| >= 32
  {
    h[..8] + "-" + h[8..12] + "-" + h[12..16] + "-" + h[16..20] + "-" + h[20..32]
  }

  /** Which of the 32 digits sits at position `p` of the 8-4-4-4-12 form. */
  function HexPos(p: nat): nat
  {
    if p < 8 then p else if p < 13 then p - 1 else if p < 18 then p - 2 else if p < 23 then p - 3 else p - 4
  }

  /** The dashed form has dashes at 8, 13, 18 and 23 and the digits in order around them. */
  lemma DashedAt(h: string)
    requires |h| >= 32
    ensures |Dashed(h)| == 36
    ensures forall p :: 0 <= p < 36 ==> Dashed(h)[p] == if IsDashPosition(p) then '-' else h[HexPos(p)]
  {
    var r := Dashed(h);
    forall p | 0 <= p < 36
      ensures r[p] == if IsDashPosition(p) then '-' else h[HexPos(p)]
    {
      if p < 8 { assert r[p] == h[..8][p]; }
      else if p == 8 { }
      else if p < 13 { assert r[p] == h[8..12][p - 9]; }
      else if p == 13 { }
      else if p < 18 { assert r[p] == h[12..16][p - 14]; }
      else if p == 18 { }
      else if p < 23 { assert r[p] == h[16..20][p - 19]; }
      else if p == 23 { }
      else { assert r[p] == h[20..32][p - 24]; }
    }
  }

  /** With at least 32 digits, joining the five pieces with dashes is the dashed form. */
  lemma JoinPieces(h: string)
    requires |h| >= 32
    ensures Join(UuidPieces(h), "-") == Dashed(h)
  {
    var a, b, c, d, e := h[..8], h[8..12], h[12..16], h[16..20], h[20..32];
    assert UuidPieces(h) == [a, b, c, d, e];
    assert Join([e], "-") == e;
    assert Join([d, e], "-") == d + "-" + e;
    assert Join([c, d, e], "-") == c + "-" + (d + "-" + e);
    assert Join([b, c, d, e], "-") == b + "-" + (c + "-" + (d + "-" + e));
    assert Join([a, b, c, d, e], "-") == a + "-" + (b + "-" + (c + "-" + (d + "-" + e)));
  }

  /** Removing the dashes of the dashed form of dash-free digits gives the digits back. */
  lemma UndashDashed(h: string)
    requires |h| >= 32 && forall j :: 0 <= j < 32 ==> h[j] != '-'
    ensures ReplaceAll(Dashed(h), '-', "") == h[..32]
  {
    var parts := [h[..8], h[8..12], h[12..16], h[16..20], h[20..32]];
    JoinPieces(h);
    assert UuidPieces(h) == parts;
    forall i | 0 <= i < 5
      ensures '-' !in parts[i]
    {
      assert forall j :: 0 <= j < |parts[i]| ==> parts[i][j] != '-';
    }
    ReplaceAllJoin(parts, '-');
    assert parts[4..][1..] == [] && parts[3..][1..] == parts[4..] && parts[2..][1..] == parts[3..];
    assert parts[1..][1..] == parts[2..];
    assert Concat(parts[4..]) == h[20..32];
    assert Concat(parts[3..]) == h[16..32];
    assert Concat(parts[2..]) == h[12..32];
    assert Concat(parts[1..]) == h[8..32];
  }

  /** With at least 16 bytes, the printed form is the dashed form of the hex digits. */
  lemma BytesToUuidDashed(bytes: seq<byte>)
    requires |bytes| >= 16
    ensures BytesToUuid(bytes) == Dashed(HexOf(bytes))
  {
    JoinPieces(HexOf(bytes));
  }

  /**
   * Printing at least 16 bytes gives 36 characters: dashes at 8, 13, 18 and
   * 23, lower-case hex digits everywhere else, so it passes the namespace
   * check; only the first 16 bytes show.
   */
  lemma BytesToUuidShape(bytes: seq<byte>)
    requires |bytes| >= 16
    ensures |BytesToUuid(bytes)| == 36 && IsUuidString(BytesToUuid(bytes))
    ensures forall p :: 0 <= p < 36 && !IsDashPosition(p) ==> IsLowerHexDigit(BytesToUuid(bytes)[p])
    ensures BytesToUuid(bytes) == BytesToUuid(bytes[..16])
  {
    var h := HexOf(bytes);
    BytesToUuidDashed(bytes);
    DashedAt(h);
    HexOfBytes(bytes);
    HexOfPrefix(bytes, 16);
    BytesToUuidDashed(bytes[..16]);
    var h16 := HexOf(bytes[..16]);
    assert h16 == h[..32];
    DashedAt(h16);
    assert Dashed(h16) == Dashed(h);
  }

  /** Version nibble (position 14) and variant nibble (position 19) of the printed form. */
  lemma BytesToUuidNibbles(bytes: seq<byte>)
    requires |bytes| >= 16
    ensures |BytesToUuid(bytes)| == 36
    ensures BytesToUuid(bytes)[14] == HexDigit(bytes[6] as int / 16)
    ensures BytesToUuid(bytes)[19] == HexDigit(bytes[8] as int / 16)
  {
    var h := HexOf(bytes);
    BytesToUuidDashed(bytes);
    DashedAt(h);
    HexOfBytes(bytes);
    assert h[12..14] == ByteHex(bytes[6]);
    assert h[16..18] == ByteHex(bytes[8]);
    assert HexPos(14) == 12 && HexPos(19) == 16;
  }

  /* ---------------------------------------------------------------------- */
  /* uuidToBytes                                                             */
  /* ---------------------------------------------------------------------- */

  /** `parseInt(hex.substr(i * 2, 2), 16)` stored into a `Uint8Array` cell. */
  function HexByte(hex: string, i: nat): byte
  {
    ToUint8(ParseIntHex(Substr(hex, i * 2, 2)))
  }

  /** What `uuidToBytes` returns: dashes removed, then sixteen two-digit cells. */
  function UuidBytes(uuid: string): (r: seq<byte>)
    ensures |r| == 16
  {
    var hex := ReplaceAll(uuid, '-', "");
    seq(16, i requires 0 <= i < 16 => HexByte(hex, i))
  }

  /** `uuidToBytes`: fills a 16-byte array cell by cell. */
  method UuidToBytes(uuid: string) returns (bytes: seq<byte>)
    ensures bytes == UuidBytes(uuid)
  {
    var hex := ReplaceAll(uuid, '-', "");
    ghost var cells := UuidBytes(uuid);
    var a := new byte[16];
    for i := 0 to 16
      invariant forall j :: 0 <= j < i ==> a[j] == cells[j]
    {
      a[i] := HexByte(hex, i);
    }
    bytes := a[..];
  }

  /** Removing the dashes of a printed UUID leaves the first 32 hex digits. */
  lemma DashesRemoved(bytes: seq<byte>)
    requires |bytes| >= 16
    ensures ReplaceAll(BytesToUuid(bytes), '-', "") == HexOf(bytes)[..32]
  {
    var h := HexOf(bytes);
    HexOfBytes(bytes);
    BytesToUuidDashed(bytes);
    assert forall j :: 0 <= j < 32 ==> IsLowerHexDigit(h[j]);
    UndashDashed(h);
  }

  /** A cell whose two characters are hex digits holds the byte they denote. */
  lemma HexByteOfDigits(hex: string, i: nat)
    requires 2 * i + 2 <= |hex| && IsHexDigit(hex[2 * i]) && IsHexDigit(hex[2 * i + 1])
    ensures HexByte(hex, i) as int == 16 * HexValue(hex[2 * i]) + HexValue(hex[2 * i + 1])
  {
    var j := 2 * i;
    var cell := Substr(hex, i * 2, 2);
    assert cell == hex[j..j + 2];
    assert cell[0] == hex[j] && cell[1] == hex[j + 1];
    ParseTwoHexDigits(cell);
  }

  /** Cell `i` of a parsed hex string is byte `i` of the bytes it prints. */
  lemma HexByteOfHexOf(bytes: seq<byte>, i: nat)
    requires i < 16 <= |bytes|
    ensures HexByte(HexOf(bytes)[..32], i) == bytes[i]
  {
    HexOfAt(bytes, i);
    var h := HexOf(bytes);
    var h32 := h[..32];
    var j := 2 * i;
    assert h32[j] == h[j] && h32[j + 1] == h[j + 1];
    HexByteOfDigits(h32, i);
  }

  /** Parsing a printed UUID gives back its first 16 bytes. */
  lemma UuidRoundTrip(bytes: seq<byte>)
    requires |bytes| >= 16
    ensures UuidBytes(BytesToUuid(bytes)) == bytes[..16]
  {
    DashesRemoved(bytes);
    forall i | 0 <= i < 16
      ensures UuidBytes(BytesToUuid(bytes))[i] == bytes[i]
    {
      HexByteOfHexOf(bytes, i);
    }
  }

  /** The 32 digits of an 8-4-4-4-12 string, the dashes cut out. */
  function Undashed(s: string): string
    requires |s| == 36
  {
    s[..8] + s[9..13] + s[14..18] + s[19..23] + s[24..]
  }

  /** Where digit `j` of the 32 sits in the 8-4-4-4-12 form; the inverse of `HexPos`. */
  function DashPos(j: nat): nat
  {
    if j < 8 then j else if j < 12 then j + 1 else if j < 16 then j + 2 else if j < 20 then j + 3 else j + 4
  }

  /** A string that passes the namespace check is the dashed form of its 32 digits, and dropping its dashes gives them. */
  lemma UndashedDigits(s: string)
    requires IsUuidString(s)
    ensures |Undashed(s)| == 32 && Dashed(Undashed(s)) == s
    ensures forall j :: 0 <= j < 32 ==> IsHexDigit(Undashed(s)[j])
    ensures ReplaceAll(s, '-', "") == Undashed(s)
  {
    var h := Undashed(s);
    assert |h| == 32;
    forall j | 0 <= j < 32
      ensures h[j] == s[DashPos(j)] && !IsDashPosition(DashPos(j))
    {
      if j < 8 { assert h[j] == s[..8][j]; }
      else if j < 12 { assert h[j] == s[9..13][j - 8]; }
      else if j < 16 { assert h[j] == s[14..18][j - 12]; }
      else if j < 20 { assert h[j] == s[19..23][j - 16]; }
      else { assert h[j] == s[24..][j - 20]; }
    }
    DashedAt(h);
    forall p | 0 <= p < 36
      ensures Dashed(h)[p] == s[p]
    {
      if !IsDashPosition(p) {
        assert DashPos(HexPos(p)) == p;
      }
    }
    UndashDashed(h);
  }

  /** Cell `i` of a valid UUID string is the byte its two digits denote. */
  lemma UuidBytesCell(s: string, i: nat)
    requires IsUuidString(s) && i < 16
    ensures |Undashed(s)| == 32 && IsHexDigit(Undashed(s)[2 * i]) && IsHexDigit(Undashed(s)[2 * i + 1])
    ensures UuidBytes(s)[i] as int == 16 * HexValue(Undashed(s)[2 * i]) + HexValue(Undashed(s)[2 * i + 1])
  {
    UndashedDigits(s);
    HexByteOfDigits(Undashed(s), i);
  }

  /** The two printed digits of cell `i` are the two parsed digits, lower-cased. */
  lemma CellDigits(s: string, i: nat)
    requires IsUuidString(s) && i < 16
    ensures |HexOf(UuidBytes(s))| == 32 && |Undashed(s)| == 32
    ensures HexOf(UuidBytes(s))[2 * i] == ToLowerAscii(Undashed(s)[2 * i])
    ensures HexOf(UuidBytes(s))[2 * i + 1] == ToLowerAscii(Undashed(s)[2 * i + 1])
  {
    var bytes, h := UuidBytes(s), Undashed(s);
    UuidBytesCell(s, i);
    var x, y := HexValue(h[2 * i]), HexValue(h[2 * i + 1]);
    DivModUnique(bytes[i] as int, 16, x, y);
    HexOfAt(bytes, i);
    HexDigitOfValue(h[2 * i]);
    HexDigitOfValue(h[2 * i + 1]);
  }

  /**
   * Parsing a string that passes the namespace check and printing the
   * bytes gives the string back in lower case: the partner of
   * `UuidRoundTrip` in the other direction.
   */
  lemma UuidStringRoundTrip(s: string)
    requires IsUuidString(s)
    ensures BytesToUuid(UuidBytes(s)) == LowerAscii(s)
  {
    var bytes := UuidBytes(s);
    var h, g := Undashed(s), HexOf(bytes);
    UndashedDigits(s);
    forall j | 0 <= j < 32
      ensures g[j] == ToLowerAscii(h[j])
    {
      var i := j / 2;
      CellDigits(s, i);
      assert j == 2 * i || j == 2 * i + 1;
    }
    BytesToUuidDashed(bytes);
    DashedAt(g);
    DashedAt(h);
    forall p | 0 <= p < 36
      ensures Dashed(g)[p] == LowerAscii(s)[p]
    {
    }
  }

  /** Namespaces that differ only in the case of their hex letters give the same version 5 UUID. */
  lemma V5NamespaceCase(namespace: string, name: string, sha1: seq<byte> -> Digest)
    requires IsUuidString(namespace)
    ensures IsUuidString(LowerAscii(namespace))
    ensures UuidV5(namespace, name, sha1) == UuidV5(LowerAscii(namespace), name, sha1)
  {
    var bytes := UuidBytes(namespace);
    UuidStringRoundTrip(namespace);
    BytesToUuidShape(bytes);
    UuidRoundTrip(bytes);
    assert bytes[..16] == bytes;
  }

  /* ---------------------------------------------------------------------- */
  /* Bit stamping and Uint8Array.set                                         */
  /* ---------------------------------------------------------------------- */

  /** `b | 0x01`: the multicast bit of the node (section 4.5 of RFC 4122) is set, the other bits kept. */
  function SetMulticast(b: byte): (r: byte)
    ensures r % 2 == 1 && r / 2 == b / 2
  {
    if b % 2 == 1 then b else b + 1
  }

  /** `(b & 0x3f) | 0x80`: the two top bits become the variant `10`, the low six bits are kept. */
  function SetVariant(b: byte): (r: byte)
    ensures r / 64 == 2 && r % 64 == b % 64
  {
    b % 64 + 0x80
  }

  /** `(x & 0x0f) | (v << 4)`: the high nibble becomes the version `v`, the low nibble is kept. */
  function WithVersion(x: nat, v: nat): (r: byte)
    requires v < 16
    ensures r as int / 16 == v && r as int % 16 == x % 16
  {
    (x % 16 + 16 * v) as byte
  }

  /** `dst.set(src, offset)`: the cells from `offset` on are overwritten by `src`. */
  method CopyInto(dst: array<byte>, src: seq<byte>, offset: nat)
    requires offset + |src| <= dst.Length
    modifies dst
    ensures dst[..] == old(dst[..offset]) + src + old(dst[offset + |src|..])
  {
    for i := 0 to |src|
      invariant forall k :: 0 <= k < dst.Length ==>
        dst[k] == if offset <= k < offset + i then src[k - offset] else old(dst[k])
    {
      dst[offset + i] := src[i];
    }
    var want := old(dst[..offset]) + src + old(dst[offset + |src|..]);
    assert forall k :: 0 <= k < dst.Length ==> dst[..][k] == want[k];
  }

  /* ---------------------------------------------------------------------- */
  /* Version 1                                                               */
  /* ---------------------------------------------------------------------- */

  /** 100-nanosecond intervals from 15 October 1582 to 1 January 1970 (section 4.1.4 of RFC 4122). */
  const GREGORIAN_OFFSET: nat := 0x01B2_1DD2_1381_4000

  /** The 60-bit UUID timestamp of a millisecond Unix time. */
  function V1Timestamp(now: nat): nat
  {
    now * 10000 + GREGORIAN_OFFSET
  }

  /** Byte `x / m % 256` of a number, `m` a power of 256. */
  function Octet(x: nat, m: nat): byte
    requires m > 0
  {
    (x / m % 256) as byte
  }

  /**
   * The sixteen bytes of a version 1 UUID, field by field as section 4.1.2
   * of RFC 4122 lays them out: time_low (timestamp bits 0-31) big-endian
   * in bytes 0-3, time_mid (bits 32-47) in bytes 4-5, the version 1 and
   * bits 56-59 in byte 6, bits 48-55 in byte 7, the clock sequence with the
   * variant in bytes 8-9 and the node with the multicast bit in bytes 10-15.
   */
  function V1Bytes(now: nat, node: seq<byte>, clock: seq<byte>): (b: seq<byte>)
    requires |node| == 6 && |clock| == 2
    ensures |b| == 16
    ensures b[6] as int / 16 == 1
    ensures b[8] / 64 == 2 && b[8] % 64 == clock[0] % 64 && b[9] == clock[1]
    ensures b[10] % 2 == 1 && b[10] / 2 == node[0] / 2 && b[11..] == node[1..]
  {
    TimeBytes(V1Timestamp(now)) + [SetVariant(clock[0]), clock[1], SetMulticast(node[0])] + node[1..]
  }

  /** time_low, time_mid and time_hi_and_version, most significant byte first. */
  function TimeBytes(t: nat): (r: seq<byte>)
    ensures |r| == 8
  {
    [Octet(t, 0x100_0000), Octet(t, 0x1_0000), Octet(t, 0x100), Octet(t, 1),
     Octet(t, 0x100_0000_0000), Octet(t, 0x1_0000_0000),
     WithVersion(t / 0x100_0000_0000_0000, 1), Octet(t, 0x1_0000_0000_0000)]
  }

  /** The 60-bit time read back from bytes 0-7 as section 4.1.4 of RFC 4122 assembles it. */
  function TimeOf(b: seq<byte>): nat
    requires |b| >= 8
  {
    ((b[6] as nat % 16) * 0x100 + b[7] as nat) * 0x1_0000_0000_0000
    + (b[4] as nat * 0x100 + b[5] as nat) * 0x1_0000_0000
    + ((b[0] as nat * 0x100 + b[1] as nat) * 0x100 + b[2] as nat) * 0x100 + b[3] as nat
  }

  /** The time fields of a version 1 UUID hold the low 60 bits of its timestamp. */
  lemma V1TimeFields(now: nat, node: seq<byte>, clock: seq<byte>)
    requires |node| == 6 && |clock| == 2
    ensures TimeOf(V1Bytes(now, node, clock)) == V1Timestamp(now) % 0x1000_0000_0000_0000
  {
    var t := V1Timestamp(now);
    ModSplit(t, 0x100_0000_0000_0000, 16);
    ModSplit(t, 0x1_0000_0000_0000, 0x100);
    ModSplit(t, 0x100_0000_0000, 0x100);
    ModSplit(t, 0x1_0000_0000, 0x100);
    ModSplit(t, 0x100_0000, 0x100);
    ModSplit(t, 0x1_0000, 0x100);
    ModSplit(t, 0x100, 0x100);
    ModSplit(t, 1, 0x100);
  }

  /**
   * The shifts and masks of the source pick the time bytes: `timeLow` is
   * the timestamp modulo `2^32`, `timeMid` and `timeHigh` the 16 and 12
   * bits above `2^32` and `2^48`.
   */
  lemma SourceTimeBytes(t: nat)
    ensures var timeLow, timeMid, timeHigh := t % 0x1_0000_0000, t / 0x1_0000_0000 % 0x1_0000, t / 0x1_0000_0000_0000 % 0x1000;
      TimeBytes(t) == [(timeLow / 0x100_0000 % 256) as byte, (timeLow / 0x1_0000 % 256) as byte,
                       (timeLow / 0x100 % 256) as byte, (timeLow % 256) as byte,
                       (timeMid / 0x100 % 256) as byte, (timeMid % 256) as byte,
                       WithVersion(timeHigh / 0x100, 1), (timeHigh % 256) as byte]
  {
    DigitOfLow(t, 0x100_0000, 0x100, 1);
    DigitOfLow(t, 0x1_0000, 0x100, 0x100);
    DigitOfLow(t, 0x100, 0x100, 0x1_0000);
    ModMod(t, 0x100, 0x100_0000);
    var y := t / 0x1_0000_0000;
    DivNonNegative(t, 0x1_0000_0000);
    DigitOfLow(y, 0x100, 0x100, 1);
    DivDiv(t, 0x1_0000_0000, 0x100);
    ModMod(y, 0x100, 0x100);
    var z := t / 0x1_0000_0000_0000;
    DivNonNegative(t, 0x1_0000_0000_0000);
    DigitOfLow(z, 0x100, 16, 1);
    DivDiv(t, 0x1_0000_0000_0000, 0x100);
    ModMod(z, 0x100, 16);
  }

  /**
   * `generateUuidV1` with the layout its comments describe: the timestamp
   * is cut into time_low, time_mid and time_hi by dividing by `2^32` and
   * `2^48`; the node and clock-sequence bytes are the random bytes with
   * the multicast and variant bits set.
   */
  method GenerateUuidV1(now: nat, randomNode: seq<byte>, randomClock: seq<byte>) returns (uuid: string)
    requires |randomNode| == 6 && |randomClock| == 2
    ensures uuid == BytesToUuid(V1Bytes(now, randomNode, randomClock))
  {
    var timestamp := now * 10000 + GREGORIAN_OFFSET;

    var nodeBytes := new byte[6](i requires 0 <= i < 6 => randomNode[i]);
    nodeBytes[0] := SetMulticast(nodeBytes[0]);

    var clockSeqBytes := new byte[2](i requires 0 <= i < 2 => randomClock[i]);
    clockSeqBytes[0] := SetVariant(clockSeqBytes[0]);

    var uuidBytes := new byte[16];

    WriteTimeFields(uuidBytes, timestamp);

    uuidBytes[8] := clockSeqBytes[0];
    uuidBytes[9] := clockSeqBytes[1];
    ghost var head := uuidBytes[..10];
    assert head == TimeBytes(timestamp) + [SetVariant(randomClock[0]), randomClock[1]] by {
      assert head[..8] == TimeBytes(timestamp);
    }
    ghost var node := nodeBytes[..];
    assert node == [SetMulticast(randomNode[0])] + randomNode[1..];

    CopyInto(uuidBytes, nodeBytes[..], 10);

    assert uuidBytes[..] == head + node;
    V1BytesParts(now, randomNode, randomClock);
    uuid := BytesToUuid(uuidBytes[..]);
  }

  /** `V1Bytes` as the ten header bytes followed by the six node bytes. */
  lemma V1BytesParts(now: nat, node: seq<byte>, clock: seq<byte>)
    requires |node| == 6 && |clock| == 2
    ensures V1Bytes(now, node, clock)
      == (TimeBytes(V1Timestamp(now)) + [SetVariant(clock[0]), clock[1]]) + ([SetMulticast(node[0])] + node[1..])
  {
  }

  /** Bytes 0-7 of `generateUuidV1`: time_low, time_mid and time_hi with the version. */
  method WriteTimeFields(uuidBytes: array<byte>, timestamp: nat)
    requires uuidBytes.Length == 16
    modifies uuidBytes
    ensures uuidBytes[..8] == TimeBytes(timestamp)
    ensures uuidBytes[8..] == old(uuidBytes[8..])
  {
    var timeLow := timestamp % 0x1_0000_0000;
    uuidBytes[0] := (timeLow / 0x100_0000 % 256) as byte;
    uuidBytes[1] := (timeLow / 0x1_0000 % 256) as byte;
    uuidBytes[2] := (timeLow / 0x100 % 256) as byte;
    uuidBytes[3] := (timeLow % 256) as byte;

    var timeMid := timestamp / 0x1_0000_0000 % 0x1_0000;
    uuidBytes[4] := (timeMid / 0x100 % 256) as byte;
    uuidBytes[5] := (timeMid % 256) as byte;

    var timeHigh := timestamp / 0x1_0000_0000_0000 % 0x1000;
    uuidBytes[6] := WithVersion(timeHigh / 0x100, 1);
    uuidBytes[7] := (timeHigh % 256) as byte;

    SourceTimeBytes(timestamp);
  }

  /** The printed version 1 UUID shows version `1` at position 14 and a variant digit `8`-`b` at 19. */
  lemma V1String(now: nat, node: seq<byte>, clock: seq<byte>)
    requires |node| == 6 && |clock| == 2
    ensures var u := BytesToUuid(V1Bytes(now, node, clock));
      |u| == 36 && u[14] == '1' && u[19] in "89ab"
  {
    var b := V1Bytes(now, node, clock);
    BytesToUuidNibbles(b);
  }

  /** What JavaScript throws for `>>>` on BigInt operands. */
  const BIGINT_UNSIGNED_SHIFT: string := "TypeError: BigInts have no unsigned right shift, use >> instead"

  /** `x >>> k` with BigInt operands: there is no unsigned right shift on BigInt, so it throws. */
  function BigIntUnsignedShift(x: int, k: int): Result<int, string>
  {
    Err(BIGINT_UNSIGNED_SHIFT)
  }

  /**
   * `generateUuidV1` as written: the time_low bytes are computed with
   * BigInt `&`, which exists, but `timestamp >>> 32n` for time_mid throws,
   * so no UUID is ever returned.
   */
  method GenerateUuidV1AsWritten(now: nat, randomNode: seq<byte>, randomClock: seq<byte>) returns (r: Result<string, string>)
    requires |randomNode| == 6 && |randomClock| == 2
    ensures r == Err(BIGINT_UNSIGNED_SHIFT)
  {
    var timestamp := now * 10000 + GREGORIAN_OFFSET;
    var nodeBytes := new byte[6](i requires 0 <= i < 6 => randomNode[i]);
    nodeBytes[0] := SetMulticast(nodeBytes[0]);
    var clockSeqBytes := new byte[2](i requires 0 <= i < 2 => randomClock[i]);
    clockSeqBytes[0] := SetVariant(clockSeqBytes[0]);
    var uuidBytes := new byte[16];
    var timeLow := timestamp % 0x1_0000_0000;
    uuidBytes[0] := (timeLow / 0x100_0000 % 256) as byte;
    uuidBytes[1] := (timeLow / 0x1_0000 % 256) as byte;
    uuidBytes[2] := (timeLow / 0x100 % 256) as byte;
    uuidBytes[3] := (timeLow % 256) as byte;
    var timeMid := BigIntUnsignedShift(timestamp, 32);
    match timeMid
    case Err(e) =>
      r := Err(e);
  }

  /* ---------------------------------------------------------------------- */
  /* Version 5                                                               */
  /* ---------------------------------------------------------------------- */

  /** A SHA-1 digest: 20 bytes. */
  type Digest = d: seq<byte> | |d| == 20
    witness [0, 0, 0, 0, 0, 0, 0, 0, 0, 0, 0, 0, 0, 0, 0, 0, 0, 0, 0, 0]

  /** What is hashed: the 16 namespace bytes, then the UTF-8 bytes of the name. */
  function HashInput(namespace: string, name: string): seq<byte>
  {
    UuidBytes(namespace) + Utf8(name)
  }

  /** Version 5 and the variant stamped into bytes 6 and 8 of the digest. */
  function StampV5(d: Digest): (b: seq<byte>)
    ensures |b| == 20
    ensures b[6] as int / 16 == 5 && b[6] as int % 16 == d[6] as int % 16
    ensures b[8] as int / 64 == 2 && b[8] as int % 64 == d[8] as int % 64
    ensures forall i :: 0 <= i < 20 && i != 6 && i != 8 ==> b[i] == d[i]
  {
    d[6 := WithVersion(d[6] as nat, 5)][8 := SetVariant(d[8])]
  }

  /**
   * What `generateUuidV5` resolves to: the name check, then the namespace
   * check, then the printed stamped digest of the hash input.
   */
  function UuidV5(namespace: string, name: string, sha1: seq<byte> -> Digest): Result<string, string>
  {
    if Trim(name) == [] then Err(NAME_REQUIRED)
    else if !IsUuidString(namespace) then Err(INVALID_NAMESPACE)
    else Ok(BytesToUuid(StampV5(sha1(HashInput(namespace, name)))))
  }

  /**
   * `generateUuidV5`: validates its inputs, lays the namespace bytes and
   * the name bytes out in one array, hashes it and stamps version and
   * variant into a copy of the digest.
   */
  method GenerateUuidV5(namespace: string, name: string, sha1: seq<byte> -> Digest) returns (r: Result<string, string>)
    ensures r == UuidV5(namespace, name, sha1)
  {
    if Trim(name) == [] {
      return Err(NAME_REQUIRED);
    }
    if !IsUuidString(namespace) {
      return Err(INVALID_NAMESPACE);
    }
    var namespaceBytes := UuidToBytes(namespace);
    var nameBytes := Utf8(name);
    var combined := Combine(namespaceBytes, nameBytes);
    var hash := sha1(combined[..]);
    var hashBytes := StampDigest(hash);
    r := Ok(BytesToUuid(hashBytes[..]));
  }

  /** The combined buffer: a fresh array holding `a` and then `b`, filled with two `set` calls. */
  method Combine(a: seq<byte>, b: seq<byte>) returns (combined: array<byte>)
    ensures fresh(combined) && combined[..] == a + b
  {
    combined := new byte[|a| + |b|];
    CopyInto(combined, a, 0);
    CopyInto(combined, b, |a|);
  }

  /** A copy of the digest with version 5 written into byte 6 and the variant into byte 8. */
  method StampDigest(hash: Digest) returns (hashBytes: array<byte>)
    ensures fresh(hashBytes) && hashBytes[..] == StampV5(hash)
  {
    hashBytes := new byte[20](i requires 0 <= i < 20 => hash[i]);
    hashBytes[6] := WithVersion(hashBytes[6] as nat, 5);
    hashBytes[8] := SetVariant(hashBytes[8]);
  }

  /**
   * The two failures of version 5 and their order: a blank name is
   * reported whatever the namespace; a namespace that fails the pattern is
   * reported only for a non-blank name; otherwise a UUID comes back.
   */
  lemma V5Errors(namespace: string, name: string, sha1: seq<byte> -> Digest)
    ensures UuidV5(namespace, name, sha1) == Err(NAME_REQUIRED) <==> AllWhitespace(name)
    ensures UuidV5(namespace, name, sha1) == Err(INVALID_NAMESPACE) <==> !AllWhitespace(name) && !IsUuidString(namespace)
    ensures UuidV5(namespace, name, sha1).Ok? <==> !AllWhitespace(name) && IsUuidString(namespace)
  {
    TrimEmptyIff(name);
  }

  /**
   * The bytes of a version 5 UUID: version 5 in the high nibble of byte 6,
   * variant `10` on top of byte 8, and every other bit of the first 16
   * bytes taken from the digest of namespace bytes followed by name bytes.
   */
  lemma V5Bits(namespace: string, name: string, sha1: seq<byte> -> Digest)
    requires UuidV5(namespace, name, sha1).Ok?
    ensures var d, b := sha1(UuidBytes(namespace) + Utf8(name)), UuidBytes(UuidV5(namespace, name, sha1).value);
      && b[6] as int / 16 == 5 && b[6] as int % 16 == d[6] as int % 16
      && b[8] as int / 64 == 2 && b[8] as int % 64 == d[8] as int % 64
      && forall i :: 0 <= i < 16 && i != 6 && i != 8 ==> b[i] == d[i]
  {
    var stamped := StampV5(sha1(HashInput(namespace, name)));
    UuidRoundTrip(stamped);
  }

  /** Digest bytes 16-19 never show: two hash functions that agree on the first 16 bytes give the same UUID. */
  lemma V5IgnoresDigestTail(namespace: string, name: string, sha1: seq<byte> -> Digest, sha1': seq<byte> -> Digest)
    requires sha1(HashInput(namespace, name))[..16] == sha1'(HashInput(namespace, name))[..16]
    ensures UuidV5(namespace, name, sha1) == UuidV5(namespace, name, sha1')
  {
    var b, b' := StampV5(sha1(HashInput(namespace, name))), StampV5(sha1'(HashInput(namespace, name)));
    BytesToUuidShape(b);
    BytesToUuidShape(b');
    assert b[..16] == b'[..16];
  }

  /** The printed version 5 UUID shows `5` at position 14 and a variant digit `8`-`b` at 19. */
  lemma V5String(namespace: string, name: string, sha1: seq<byte> -> Digest)
    requires UuidV5(namespace, name, sha1).Ok?
    ensures var u := UuidV5(namespace, name, sha1).value;
      |u| == 36 && u[14] == '5' && u[19] in "89ab"
  {
    BytesToUuidNibbles(StampV5(sha1(HashInput(namespace, name))));
  }

  /**
   * The predefined namespaces pass both namespace checks, so with one of
   * them selected a version 5 UUID is produced for every non-blank name.
   */
  lemma PredefinedNamespaces(namespace: string, name: string, sha1: seq<byte> -> Digest)
    requires namespace == NAMESPACE_DNS || namespace == NAMESPACE_URL
          || namespace == NAMESPACE_OID || namespace == NAMESPACE_X500
    requires !AllWhitespace(name)
    ensures IsUuidString(namespace) && !AllWhitespace(namespace)
    ensures UuidV5(namespace, name, sha1).Ok?
  {
    PredefinedNamespaceShape(namespace);
    assert !IsWhitespace(namespace[0]);
    V5Errors(namespace, name, sha1);
  }

  /** Each predefined namespace has the 8-4-4-4-12 hex shape. */
  lemma PredefinedNamespaceShape(namespace: string)
    requires namespace == NAMESPACE_DNS || namespace == NAMESPACE_URL
          || namespace == NAMESPACE_OID || namespace == NAMESPACE_X500
    ensures IsUuidString(namespace)
  {
    if namespace == NAMESPACE_DNS {
      DnsShape(namespace);
    } else if namespace == NAMESPACE_URL {
      UrlShape(namespace);
    } else if namespace == NAMESPACE_OID {
      OidShape(namespace);
    } else {
      X500Shape(namespace);
    }
  }

  lemma DnsShape(namespace: string)
    requires namespace == NAMESPACE_DNS
    ensures IsUuidString(namespace)
  {
  }

  lemma UrlShape(namespace: string)
    requires namespace == NAMESPACE_URL
    ensures IsUuidString(namespace)
  {
  }

  lemma OidShape(namespace: string)
    requires namespace == NAMESPACE_OID
    ensures IsUuidString(namespace)
  {
  }

  lemma X500Shape(namespace: string)
    requires namespace == NAMESPACE_X500
    ensures IsUuidString(namespace)
  {
  }

  /* ---------------------------------------------------------------------- */
  /* generateUuid                                                            */
  /* ---------------------------------------------------------------------- */

  /** The versions the generator offers. */
  datatype Version = V1 | V4 | V5

  /**
   * `generateUuid`: version 1 from the timestamp and random bytes, version
   * 4 is whatever `crypto.randomUUID()` returned, version 5 checks the name
   * and then that the chosen namespace is not blank before hashing.
   */
  method GenerateUuid(version: Version, now: nat, randomNode: seq<byte>, randomClock: seq<byte>, randomUuid: string,
                      v5Name: string, useCustomNamespace: bool, customNamespace: string, v5Namespace: string,
                      sha1: seq<byte> -> Digest)
    returns (r: Result<string, string>)
    requires |randomNode| == 6 && |randomClock| == 2
    ensures version == V1 ==> r == Ok(BytesToUuid(V1Bytes(now, randomNode, randomClock)))
    ensures version == V4 ==> r == Ok(randomUuid)
    ensures version == V5 ==>
      var namespace := if useCustomNamespace then customNamespace else v5Namespace;
      r == if AllWhitespace(v5Name) then Err(NAME_REQUIRED)
           else if AllWhitespace(namespace) then Err(NAMESPACE_REQUIRED)
           else UuidV5(namespace, v5Name, sha1)
  {
    match version
    case V1 =>
      var uuid := GenerateUuidV1(now, randomNode, randomClock);
      r := Ok(uuid);
    case V4 =>
      r := Ok(randomUuid);
    case V5 =>
      TrimEmptyIff(v5Name);
      if Trim(v5Name) == [] {
        return Err(NAME_REQUIRED);
      }
      var namespace := if useCustomNamespace then customNamespace else v5Namespace;
      TrimEmptyIff(namespace);
      if Trim(namespace) == [] {
        return Err(NAMESPACE_REQUIRED);
      }
      r := GenerateUuidV5(namespace, v5Name, sha1);
  }
}
