/**
 * The peer record that the tracker stores per swarm, its seeder/leecher role,
 * and the 20-byte peer id with its conversions.
 *
 * `Peer` is a `Copy` value in the source; its in-place setters are modelled as
 * functions that return the updated value.
 */
module PeerPrimitives {
  import opened Wrappers
  import opened Net

  type Byte = b: nat | b < 256

  const PEER_ID_BYTES_LEN: nat := 20

  /** `PeerId`: exactly twenty bytes. */
  type PeerId = s: seq<Byte> | |s| == PEER_ID_BYTES_LEN witness seq(20, _ => 0)

  /** `AnnounceEvent`; `NoEvent` is the source's `AnnounceEvent::None`. */
  datatype AnnounceEvent = Started | Stopped | Completed | NoEvent

  datatype PeerRole = Seeder | Leecher {

    function Opposite(): PeerRole
    {
      match this
      case Seeder => Leecher
      case Leecher => Seeder
    }

    /** The `Display` string. */
    function ToString(): string
    {
      match this
      case Seeder => "seeder"
      case Leecher => "leecher"
    }
  }

  /**
   * A peer announcement. `updated` is the time of the last announce,
   * `uploaded`, `downloaded` and `left` are the signed 64-bit byte counts of
   * the announce (a client may send a negative `left`).
   */
  datatype Peer = Peer(
    peerId: PeerId,
    peerAddr: SocketAddr,
    updated: nat,
    uploaded: int,
    downloaded: int,
    left: int,
    event: AnnounceEvent)
  {
    predicate IsSeeder()
    {
      left <= 0 && event != Stopped
    }

    predicate IsLeecher()
    {
      !IsSeeder()
    }

    predicate IsCompleted()
    {
      event == Completed
    }

    function Role(): PeerRole
    {
      if IsSeeder() then Seeder else Leecher
    }

    function Ip(): IpAddr
    {
      peerAddr.ip
    }

    /** `change_ip`: the same peer listening on `newIp` at the same port. */
    function ChangeIp(newIp: IpAddr): (r: Peer)
      ensures r.peerAddr == SocketAddr(newIp, peerAddr.port)
      ensures r.(peerAddr := peerAddr) == this
    {
      this.(peerAddr := SocketAddr(newIp, peerAddr.port))
    }

    /** `into_completed` (and, on a value, `mark_as_completed`). */
    function IntoCompleted(): (r: Peer)
      ensures r.IsCompleted()
      ensures r.(event := event) == this
    {
      this.(event := Completed)
    }

    function IntoSeeder(): (r: Peer)
      ensures r.left == 0 && r.(left := left) == this
    {
      this.(left := 0)
    }
  }

  lemma RoleIsSeederCensus(p: Peer)
    ensures p.Role() == Seeder <==> p.IsSeeder()
    ensures p.Role() == Leecher <==> p.IsLeecher()
    ensures p.IsSeeder() <==> p.left <= 0 && p.event != Stopped
  {
  }

  lemma OppositeSwapsRoles(r: PeerRole)
    ensures r.Opposite() != r
    ensures r.Opposite().Opposite() == r
  {
  }

  /** Whatever is left to download, an announce with `Stopped` never counts as a seeder. */
  lemma StoppedIsLeecher(p: Peer)
    requires p.event == Stopped
    ensures p.IsLeecher() && p.Role() == Leecher
  {
  }

  lemma IntoSeederIsSeeder(p: Peer)
    requires p.event != Stopped
    ensures p.IntoSeeder().IsSeeder()
  {
  }

  // ---------------------------------------------------------------------------
  // Parsing a role
  // ---------------------------------------------------------------------------

  datatype ParsePeerRoleError = InvalidPeerRole(rawParam: string)

  function AsciiLowerChar(c: char): char
  {
    if 'A' <= c <= 'Z' then (c as int + 32) as char else c
  }

  /** Lower-casing of the letters A-Z; every other character is kept. */
  function AsciiLower(s: string): (r: string)
    ensures |r| == |s| && forall i :: 0 <= i < |s| ==> r[i] == AsciiLowerChar(s[i])
  {
    if |s| == 0 then "" else [AsciiLowerChar(s[0])] + AsciiLower(s[1..])
  }

  /** `PeerRole::from_str`: "seeder" or "leecher" in any letter case. */
  function ParsePeerRole(s: string): Result<PeerRole, ParsePeerRoleError>
  {
    var lower := AsciiLower(s);
    if lower == "seeder" then Ok(Seeder)
    else if lower == "leecher" then Ok(Leecher)
    else Err(InvalidPeerRole(s))
  }

  lemma ParseDisplayedRole(r: PeerRole)
    ensures ParsePeerRole(r.ToString()) == Ok(r)
  {
    LowerCaseWordIsFixed("seeder");
    LowerCaseWordIsFixed("leecher");
  }

  /** A word of lower-case letters is its own lower case. */
  lemma LowerCaseWordIsFixed(s: string)
    requires forall i :: 0 <= i < |s| ==> 'a' <= s[i] <= 'z'
    ensures AsciiLower(s) == s
  {
    var l := AsciiLower(s);
    assert forall i :: 0 <= i < |s| ==> l[i] == s[i];
  }

  /** Exactly the two names are accepted, whatever their letter case; any other text is rejected and reported. */
  lemma ParsePeerRoleAccepts(s: string)
    ensures ParsePeerRole(s).Ok? <==> AsciiLower(s) == "seeder" || AsciiLower(s) == "leecher"
    ensures ParsePeerRole(s) == Ok(Seeder) <==> AsciiLower(s) == "seeder"
    ensures ParsePeerRole(s).Err? ==> ParsePeerRole(s).error.rawParam == s
    ensures ParsePeerRole(s) == ParsePeerRole(AsciiLower(s)) || ParsePeerRole(s).Err?
  {
    AsciiLowerIdempotent(s);
  }

  lemma AsciiLowerIdempotent(s: string)
    ensures AsciiLower(AsciiLower(s)) == AsciiLower(s)
  {
  }

  lemma ParseUpperCaseSeeder()
    ensures ParsePeerRole("SeEdEr") == Ok(Seeder)
    ensures ParsePeerRole("LEECHER") == Ok(Leecher)
    ensures ParsePeerRole("peer").Err?
  {
    var s := AsciiLower("SeEdEr");
    assert s == "seeder" by {
      assert s[0] == 's' && s[1] == 'e' && s[2] == 'e' && s[3] == 'd' && s[4] == 'e' && s[5] == 'r';
    }
    var l := AsciiLower("LEECHER");
    assert l == "leecher" by {
      assert l[0] == 'l' && l[1] == 'e' && l[2] == 'e' && l[3] == 'c' && l[4] == 'h' && l[5] == 'e' && l[6] == 'r';
    }
    assert |AsciiLower("peer")| == 4;
  }

  // ---------------------------------------------------------------------------
  // Ordering of peers
  // ---------------------------------------------------------------------------

  datatype Ordering = Less | Equal | Greater

  /** Lexicographic comparison of byte strings (the derived order of `[u8; 20]`). */
  function CompareBytes(a: seq<Byte>, b: seq<Byte>): Ordering
  {
    if |a| == 0 && |b| == 0 then Equal
    else if |a| == 0 then Less
    else if |b| == 0 then Greater
    else if a[0] < b[0] then Less
    else if a[0] > b[0] then Greater
    else CompareBytes(a[1..], b[1..])
  }

  /** `Ord for Peer`: peers are ordered by their peer id alone. */
  function ComparePeers(a: Peer, b: Peer): Ordering
  {
    CompareBytes(a.peerId, b.peerId)
  }

  lemma {:induction false} CompareBytesEqual(a: seq<Byte>, b: seq<Byte>)
    ensures CompareBytes(a, b) == Equal <==> a == b
  {
    if |a| > 0 && |b| > 0 && a[0] == b[0] {
      CompareBytesEqual(a[1..], b[1..]);
      if a[1..] == b[1..] {
        assert a == [a[0]] + a[1..] && b == [b[0]] + b[1..];
      }
    }
  }

  lemma {:induction false} CompareBytesAntisymmetric(a: seq<Byte>, b: seq<Byte>)
    ensures CompareBytes(a, b) == Less <==> CompareBytes(b, a) == Greater
  {
    if |a| > 0 && |b| > 0 && a[0] == b[0] {
      CompareBytesAntisymmetric(a[1..], b[1..]);
    }
  }

  /** Two peers compare equal exactly when their ids are equal, whatever their other fields; the order is antisymmetric. */
  lemma ComparePeersById(a: Peer, b: Peer)
    ensures ComparePeers(a, b) == Equal <==> a.peerId == b.peerId
    ensures ComparePeers(a, b) == Less <==> ComparePeers(b, a) == Greater
    ensures forall c: Peer :: c.peerId == a.peerId ==> ComparePeers(c, b) == ComparePeers(a, b)
  {
    CompareBytesEqual(a.peerId, b.peerId);
    CompareBytesAntisymmetric(a.peerId, b.peerId);
  }

  // ---------------------------------------------------------------------------
  // Peer id conversions
  // ---------------------------------------------------------------------------

  datatype IdConversionError = NotEnoughBytes(message: string) | TooManyBytes(message: string)

  function LengthMessage(n: nat): string
  {
    "got " + Decimal(n) + " bytes, expected " + Decimal(PEER_ID_BYTES_LEN)
  }

  /** `Id::try_from(Vec<u8>)`. */
  function IdTryFrom(bytes: seq<Byte>): (r: Result<PeerId, IdConversionError>)
  {
    if |bytes| < PEER_ID_BYTES_LEN then Err(NotEnoughBytes(LengthMessage(|bytes|)))
    else if |bytes| > PEER_ID_BYTES_LEN then Err(TooManyBytes(LengthMessage(|bytes|)))
    else Ok(bytes)
  }

  /** Exactly twenty bytes are accepted, and then kept as they are. */
  lemma IdTryFromLength(bytes: seq<Byte>)
    ensures IdTryFrom(bytes).Ok? <==> |bytes| == 20
    ensures IdTryFrom(bytes).Ok? ==> IdTryFrom(bytes).value == bytes
    ensures IdTryFrom(bytes).Err? && IdTryFrom(bytes).error.NotEnoughBytes? <==> |bytes| < 20
    ensures IdTryFrom(bytes).Err? && IdTryFrom(bytes).error.TooManyBytes? <==> |bytes| > 20
  {
  }

  const I128_HALF: int := 0x8000_0000_0000_0000_0000_0000_0000_0000
  const U128_SPACE: nat := 0x1_0000_0000_0000_0000_0000_0000_0000_0000

  type I128 = n: int | -I128_HALF <= n < I128_HALF

  /** The `k` little-endian bytes of `v` (its low `8 * k` bits). */
  function LittleEndian(v: nat, k: nat): (r: seq<Byte>)
    ensures |r| == k
  {
    if k == 0 then [] else [v % 256] + LittleEndian(v / 256, k - 1)
  }

  function FromLittleEndian(bs: seq<Byte>): nat
  {
    if |bs| == 0 then 0 else bs[0] + 256 * FromLittleEndian(bs[1..])
  }

  function Pow256(k: nat): (r: nat)
    ensures r > 0
  {
    if k == 0 then 1 else 256 * Pow256(k - 1)
  }

  /** Two's complement of an `i128`: the value of `to_le_bytes` read back as unsigned. */
  function TwosComplement(n: I128): nat
  {
    if n >= 0 then n else n + U128_SPACE
  }

  /** `Id::new(number)`: four zero bytes, then the sixteen little-endian bytes of the `i128`. */
  function IdNew(n: I128): (r: PeerId)
  {
    [0, 0, 0, 0] + LittleEndian(TwosComplement(n), 16)
  }

  lemma {:induction false} LittleEndianRoundTrip(v: nat, k: nat)
    requires v < Pow256(k)
    ensures FromLittleEndian(LittleEndian(v, k)) == v
  {
    if k > 0 {
      LittleEndianRoundTrip(v / 256, k - 1);
      assert LittleEndian(v, k)[1..] == LittleEndian(v / 256, k - 1);
    }
  }

  /** The number is recovered from the last sixteen bytes of the id, which is what `Id::new` promises. */
  lemma Pow256Sixteen()
    ensures Pow256(16) == U128_SPACE
  {
    assert Pow256(4) == 0x1_0000_0000;
    assert Pow256(8) == 0x1_0000_0000_0000_0000 by {
      assert Pow256(8) == 256 * 256 * 256 * 256 * Pow256(4);
    }
    assert Pow256(12) == 0x1_0000_0000_0000_0000_0000_0000 by {
      assert Pow256(12) == 256 * 256 * 256 * 256 * Pow256(8);
    }
    assert Pow256(16) == 256 * 256 * 256 * 256 * Pow256(12);
  }

  lemma IdNewRoundTrip(n: I128)
    ensures IdNew(n)[..4] == [0, 0, 0, 0]
    ensures var u := FromLittleEndian(IdNew(n)[4..]);
            u < U128_SPACE && (if u < I128_HALF then u else u - U128_SPACE) == n
  {
    var v := TwosComplement(n);
    assert IdNew(n)[4..] == LittleEndian(v, 16);
    Pow256Sixteen();
    LittleEndianRoundTrip(v, 16);
  }

  // ---------------------------------------------------------------------------
  // Hexadecimal rendering
  // ---------------------------------------------------------------------------

  function ByteHex(b: Byte): string
  {
    [HexDigit(b / 16), HexDigit(b % 16)]
  }

  /** Two lower-case hexadecimal digits per byte, in byte order. */
  function Hex(bs: seq<Byte>): (r: string)
    ensures |r| == 2 * |bs|
  {
    if |bs| == 0 then "" else Hex(bs[..|bs| - 1]) + ByteHex(bs[|bs| - 1])
  }

  /** `Id::to_hex_string`: the buffer filled by `bin2hex`, prefixed with "0x". */
  method ToHexString(id: PeerId) returns (r: Option<string>)
    ensures r == Some("0x" + Hex(id))
  {
    var tmp := new char[2 * |id|];
    var i := 0;
    while i < |id|
      invariant 0 <= i <= |id|
      invariant tmp[..2 * i] == Hex(id[..i])
    {
      tmp[2 * i] := HexDigit(id[i] / 16);
      tmp[2 * i + 1] := HexDigit(id[i] % 16);
      assert id[..i + 1][..i] == id[..i];
      assert tmp[..2 * i + 2] == tmp[..2 * i] + [tmp[2 * i], tmp[2 * i + 1]];
      i := i + 1;
    }
    assert id[..|id|] == id;
    assert tmp[..] == tmp[..2 * |id|];
    r := Some("0x" + tmp[..]);
  }

  predicate IsLowerHexDigit(c: char)
  {
    '0' <= c <= '9' || 'a' <= c <= 'f'
  }

  function HexValue(c: char): nat
  {
    if '0' <= c <= '9' then c as int - '0' as int
    else if 'a' <= c <= 'f' then c as int - 'a' as int + 10
    else 0
  }

  /** Reads back two hexadecimal digits per byte. */
  function Unhex(s: string): seq<nat>
  {
    if |s| < 2 then [] else Unhex(s[..|s| - 2]) + [16 * HexValue(s[|s| - 2]) + HexValue(s[|s| - 1])]
  }

  lemma HexDigitValue(d: nat)
    requires d < 16
    ensures IsLowerHexDigit(HexDigit(d)) && HexValue(HexDigit(d)) == d
  {
  }

  /** Every character of the rendering is a lower-case hexadecimal digit. */
  lemma {:induction false} HexDigits(bs: seq<Byte>)
    ensures forall i :: 0 <= i < |Hex(bs)| ==> IsLowerHexDigit(Hex(bs)[i])
  {
    if |bs| > 0 {
      var b := bs[|bs| - 1];
      HexDigits(bs[..|bs| - 1]);
      HexDigitValue(b / 16);
      HexDigitValue(b % 16);
    }
  }

  lemma ByteHexValue(b: Byte)
    ensures 16 * HexValue(ByteHex(b)[0]) + HexValue(ByteHex(b)[1]) == b
  {
    HexDigitValue(b / 16);
    HexDigitValue(b % 16);
  }

  lemma UnhexSnoc(h: string, pair: string)
    requires |pair| == 2
    ensures Unhex(h + pair) == Unhex(h) + [16 * HexValue(pair[0]) + HexValue(pair[1])]
  {
    var t := h + pair;
    assert t[..|t| - 2] == h;
  }

  lemma HexSnoc(init: seq<Byte>, b: Byte)
    ensures Hex(init + [b]) == Hex(init) + ByteHex(b)
  {
    assert (init + [b])[..|init|] == init;
  }

  /** Rendering one more byte reads back as one more byte. */
  lemma HexRoundTripSnoc(init: seq<Byte>, b: Byte)
    ensures Unhex(Hex(init + [b])) == Unhex(Hex(init)) + [b]
  {
    var h := Hex(init);
    var pair := ByteHex(b);
    HexSnoc(init, b);
    assert Hex(init + [b]) == h + pair;
    UnhexSnoc(h, pair);
    ByteHexValue(b);
    assert 16 * HexValue(pair[0]) + HexValue(pair[1]) == b;
  }

  /** The digits give the bytes back. */
  lemma {:induction false} HexRoundTrip(bs: seq<Byte>)
    ensures Unhex(Hex(bs)) == bs
  {
    if |bs| > 0 {
      var init := bs[..|bs| - 1];
      var b := bs[|bs| - 1];
      assert bs == init + [b];
      HexRoundTrip(init);
      HexRoundTripSnoc(init, b);
    }
  }
}
