/**
 Reading the reflexive address out of a STUN Binding Success response (RFC 5389, sections 6, 15, 15.1 and 15.2): the
 checks on the response and the walk over its attributes.
 */
module EdgeBinding {
  import opened Common

  const MAGIC_COOKIE: nat := 0x2112A442
  const HEADER_SIZE: nat := 20
  const RECV_SIZE: nat := 2048
  const SUCCESS: nat := 0x0101
  const MAPPED_ADDRESS: nat := 0x0001
  const XOR_MAPPED_ADDRESS: nat := 0x0020

  /** An IPv4 address as its four numbers, and a port. */
  datatype Address = Address(a: nat, b: nat, c: nat, d: nat, port: nat)

  // ------------------------------------------------------------ exclusive or

  function Pow2(n: nat): (p: nat)
    ensures p > 0
  {
    if n == 0 then 1 else 2 * Pow2(n - 1)
  }

  /** Bitwise exclusive or. */
  function Xor(x: nat, y: nat): nat
    decreases x + y
  {
    if x == 0 && y == 0 then 0 else (if x % 2 == y % 2 then 0 else 1) + 2 * Xor(x / 2, y / 2)
  }

  lemma {:induction false} XorTwice(x: nat, y: nat)
    ensures Xor(Xor(x, y), y) == x
    decreases x + y
  {
    if x != 0 || y != 0 {
      XorTwice(x / 2, y / 2);
      var r := Xor(x, y);
      assert r / 2 == Xor(x / 2, y / 2);
      assert r % 2 == if x % 2 == y % 2 then 0 else 1;
    }
  }

  predicate Bit(x: nat, k: nat) { if k == 0 then x % 2 == 1 else Bit(x / 2, k - 1) }

  /** Bit by bit: a bit is set exactly if it is set in one of the two and not in the other. */
  lemma {:induction false} XorBits(x: nat, y: nat, k: nat)
    ensures Bit(Xor(x, y), k) <==> Bit(x, k) != Bit(y, k)
    decreases k
  {
    if x != 0 || y != 0 {
      var r := Xor(x, y);
      assert r / 2 == Xor(x / 2, y / 2) && r % 2 == if x % 2 == y % 2 then 0 else 1;
    }
    if k > 0 {
      XorBits(x / 2, y / 2, k - 1);
    }
  }

  lemma {:induction false} XorBound(x: nat, y: nat, bits: nat)
    requires x < Pow2(bits) && y < Pow2(bits)
    ensures Xor(x, y) < Pow2(bits)
    decreases bits
  {
    if bits > 0 {
      XorBound(x / 2, y / 2, bits - 1);
    }
  }

  /** Exclusive or with the cookie stays within 32 bits, and with its upper half within 16. */
  lemma CookieBounds(addr: nat, port: nat)
    requires addr < 0x1_0000_0000 && port < 0x1_0000
    ensures Xor(addr, MAGIC_COOKIE) < 0x1_0000_0000 && Xor(port, MAGIC_COOKIE / 0x1_0000) < 0x1_0000
  {
    PowersOfTwo();
    XorBound(addr, MAGIC_COOKIE, 32);
    XorBound(port, MAGIC_COOKIE / 0x1_0000, 16);
  }

  lemma PowersOfTwo()
    ensures Pow2(16) == 0x1_0000 && Pow2(32) == 0x1_0000_0000
  {
    assert Pow2(8) == 256;
    assert Pow2(16) == 0x1_0000;
    assert Pow2(24) == 0x100_0000;
  }

  // -------------------------------------------------------- numbers and bytes

  function Word16(s: seq<Byte>, p: nat): (w: nat)
    requires p + 2 <= |s|
    ensures w < 0x1_0000
  {
    s[p] as int * 256 + s[p + 1]
  }

  function Bytes16(w: nat): (s: seq<Byte>)
    requires w < 0x1_0000
    ensures |s| == 2
  {
    [w / 256, w % 256]
  }

  lemma Bytes16Join(w: nat)
    requires w < 0x1_0000
    ensures Word16(Bytes16(w), 0) == w
  {
  }

  // ------------------------------------------------------------- the addresses

  /** The value of an attribute of either kind says it is an IPv4 address. */
  predicate IsIPv4(value: seq<Byte>) {
    |value| >= 8 && value[1] == 0x01
  }

  function MappedAddress(value: seq<Byte>): Address
    requires |value| >= 8
  {
    Address(value[4], value[5], value[6], value[7], Word16(value, 2))
  }

  function XorMappedAddress(value: seq<Byte>): Address
    requires |value| >= 8
  {
    AddressOf(Xor(Word32At(value, 4), MAGIC_COOKIE), Xor(Word16(value, 2), MAGIC_COOKIE / 0x1_0000))
  }

  /** An address from its 32 bits. */
  function AddressOf(addr: nat, port: nat): Address {
    Address(addr / 256 / 256 / 256 % 256, addr / 256 / 256 % 256, addr / 256 % 256, addr % 256, port)
  }

  function AddressBits(address: Address): nat {
    ((address.a * 256 + address.b) * 256 + address.c) * 256 + address.d
  }

  predicate IsAddress(address: Address) {
    address.a < 256 && address.b < 256 && address.c < 256 && address.d < 256 && address.port < 0x1_0000
  }

  /** The value of an XOR-MAPPED-ADDRESS attribute: section 15.2. */
  function EncodeXorMapped(address: Address): (value: seq<Byte>)
    requires IsAddress(address)
    ensures |value| == 8
  {
    var addr := AddressBits(address);
    CookieBounds(addr, address.port);
    [0, 1] + Bytes16(Xor(address.port, MAGIC_COOKIE / 0x1_0000)) + Bytes32(Xor(addr, MAGIC_COOKIE))
  }

  /** The value of a MAPPED-ADDRESS attribute: section 15.1. */
  function EncodeMapped(address: Address): (value: seq<Byte>)
    requires IsAddress(address)
    ensures |value| == 8
  {
    [0, 1] + Bytes16(address.port) + [address.a, address.b, address.c, address.d]
  }

  /** A value that agrees with an encoding: its first byte is not looked at, nor is anything behind the eighth. */
  ghost predicate Carries(value: seq<Byte>, encoding: seq<Byte>)
    requires |encoding| == 8
  {
    |value| >= 8 && value[1..8] == encoding[1..]
  }

  lemma CarriedBytes(value: seq<Byte>, encoding: seq<Byte>)
    requires |encoding| == 8 && Carries(value, encoding)
    ensures forall i :: 1 <= i < 8 ==> value[i] == encoding[i]
  {
    forall i | 1 <= i < 8
      ensures value[i] == encoding[i]
    {
      assert value[1..8][i - 1] == encoding[1..][i - 1];
    }
  }

  /** Decoding inverts the exclusive-or encoding. */
  lemma XorMappedRoundTrip(address: Address, value: seq<Byte>)
    requires IsAddress(address) && Carries(value, EncodeXorMapped(address))
    ensures IsIPv4(value) && XorMappedAddress(value) == address
  {
    var addr := AddressBits(address);
    CookieBounds(addr, address.port);
    XorTwice(addr, MAGIC_COOKIE);
    XorTwice(address.port, MAGIC_COOKIE / 0x1_0000);
    var port, word := Xor(address.port, MAGIC_COOKIE / 0x1_0000), Xor(addr, MAGIC_COOKIE);
    var encoding := EncodeXorMapped(address);
    assert encoding == [0, 1] + Bytes16(port) + Bytes32(word);
    WordsRead(encoding, port, word);
    CarriedBytes(value, encoding);
    SameWords(value, encoding);
    BitsSplit(address);
  }

  lemma SameWords(value: seq<Byte>, encoding: seq<Byte>)
    requires |encoding| == 8 <= |value| && forall i :: 1 <= i < 8 ==> value[i] == encoding[i]
    ensures IsIPv4(value) == IsIPv4(encoding)
    ensures Word16(value, 2) == Word16(encoding, 2) && Word32At(value, 4) == Word32At(encoding, 4)
  {
  }

  /** And the plain encoding. */
  lemma MappedRoundTrip(address: Address, value: seq<Byte>)
    requires IsAddress(address) && Carries(value, EncodeMapped(address))
    ensures IsIPv4(value) && MappedAddress(value) == address
  {
    var encoding := EncodeMapped(address);
    Bytes16Join(address.port);
    CarriedBytes(value, encoding);
    assert encoding[2] == Bytes16(address.port)[0] && encoding[3] == Bytes16(address.port)[1];
  }

  lemma BitsSplit(address: Address)
    requires IsAddress(address)
    ensures AddressOf(AddressBits(address), address.port) == address
  {
    SplitAddress(address.a, address.b, address.c, address.d);
  }

  lemma WordsRead(value: seq<Byte>, port: nat, word: Word32)
    requires port < 0x1_0000 && value == [0, 1] + Bytes16(port) + Bytes32(word)
    ensures IsIPv4(value) && Word16(value, 2) == port && Word32At(value, 4) == word
  {
    Bytes16Join(port);
    Bytes32Join(word);
    ValueParts(value, Bytes16(port), Bytes32(word));
  }

  lemma ValueParts(value: seq<Byte>, port: seq<Byte>, word: seq<Byte>)
    requires |port| == 2 && |word| == 4 && value == [0, 1] + port + word
    ensures IsIPv4(value) && Word16(value, 2) == Word16(port, 0) && Word32At(value, 4) == Word32At(word, 0)
  {
  }

  lemma SplitAddress(a: nat, b: nat, c: nat, d: nat)
    requires a < 256 && b < 256 && c < 256 && d < 256
    ensures var addr := ((a * 256 + b) * 256 + c) * 256 + d;
            addr / 256 / 256 / 256 % 256 == a && addr / 256 / 256 % 256 == b && addr / 256 % 256 == c && addr % 256 == d
  {
  }

  // ------------------------------------------------------------------ the walk

  function Padding(length: nat): (pad: nat)
    ensures pad < 4 && (length + pad) % 4 == 0
  {
    (4 - length % 4) % 4
  }

  /** What the walk from `off` finds, if it has found `found` so far. */
  function Walk(s: seq<Byte>, off: nat, end: nat, found: Option<Address>): Option<Address>
    requires end <= |s|
    decreases if off < end then end - off else 0
  {
    if off + 4 > end then found
    else
      var atype, alen := Word16(s, off), Word16(s, off + 2);
      if off + 4 + alen > end then found
      else
        var value := s[off + 4..off + 4 + alen];
        if atype == XOR_MAPPED_ADDRESS && IsIPv4(value) then Some(XorMappedAddress(value))
        else
          Walk(s, off + 4 + alen + Padding(alen), end,
               if atype == MAPPED_ADDRESS && IsIPv4(value) then Some(MappedAddress(value)) else found)
  }

  /** The response that is accepted: long enough, for this transaction, a success. */
  predicate Accepted(s: seq<Byte>, txn: seq<Byte>) {
    |s| >= HEADER_SIZE && s[8..20] == txn && Word16(s, 0) == SUCCESS
  }

  function Decode(s: seq<Byte>, txn: seq<Byte>): Option<Address> {
    if !Accepted(s, txn) then None else Walk(s, HEADER_SIZE, Min(HEADER_SIZE + Word16(s, 2), |s|), None)
  }

  /** Another transaction's response, a response that is not a Binding Success, and a piece of a header are not read. */
  lemma OthersNotRead(s: seq<Byte>, txn: seq<Byte>)
    requires |s| < 20 || s[8..20] != txn || s[0] != 1 || s[1] != 1
    ensures Decode(s, txn) == None
  {
  }

  /** Nothing behind the length that the header gives is looked at. */
  lemma RestNotRead(s: seq<Byte>, rest: seq<Byte>, txn: seq<Byte>)
    requires |s| >= 20 && |s| == 20 + Word16(s, 2)
    ensures Decode(s + rest, txn) == Decode(s, txn)
  {
    assert (s + rest)[8..20] == s[8..20];
    if Accepted(s, txn) {
      assert (s + rest)[..|s|] == s;
      WalkPrefix(s, s + rest, HEADER_SIZE, None);
    }
  }

  lemma {:induction false} WalkPrefix(s: seq<Byte>, all: seq<Byte>, off: nat, found: Option<Address>)
    requires |s| <= |all| && all[..|s|] == s
    ensures Walk(all, off, |s|, found) == Walk(s, off, |s|, found)
    decreases if off < |s| then |s| - off else 0
  {
    if off + 4 <= |s| {
      SameHeader(s, all, off);
      if off + 4 + Word16(s, off + 2) <= |s| {
        var next, found' := SameTurn(s, all, off, found);
        WalkPrefix(s, all, next, found');
      } else {
        WalkStops(s, off, |s|, found);
        WalkStops(all, off, |s|, found);
      }
    }
  }

  /** The same attribute on both sides: either walk ends with it, or both go on alike. */
  lemma SameTurn(s: seq<Byte>, all: seq<Byte>, off: nat, found: Option<Address>) returns (next: nat, found': Option<Address>)
    requires |s| <= |all| && all[..|s|] == s && off + 4 <= |s| && off + 4 + Word16(s, off + 2) <= |s|
    ensures next > off
    ensures Walk(all, next, |s|, found') == Walk(s, next, |s|, found') ==> Walk(all, off, |s|, found) == Walk(s, off, |s|, found)
  {
    SameHeader(s, all, off);
    var value, walk, value', next', found'', walk';
    value, next, found', walk := WalkTurn(s, off, |s|, found);
    SameValue(s, all, off + 4, off + 4 + |value|);
    value', next', found'', walk' := WalkTurn(all, off, |s|, found);
    assert value' == value && next' == next && found'' == found';
  }

  lemma SameValue(s: seq<Byte>, all: seq<Byte>, from: nat, to: nat)
    requires |s| <= |all| && all[..|s|] == s && from <= to <= |s|
    ensures all[from..to] == s[from..to]
  {
    assert all[..|s|][from..to] == all[from..to];
  }

  lemma SameHeader(s: seq<Byte>, all: seq<Byte>, off: nat)
    requires |s| <= |all| && all[..|s|] == s && off + 4 <= |s|
    ensures Word16(all, off) == Word16(s, off) && Word16(all, off + 2) == Word16(s, off + 2)
  {
    assert forall i :: 0 <= i < |s| ==> all[..|s|][i] == all[i];
  }

  /** The part of ap2p_edge_get_srflx that reads a datagram of n bytes; total on any bytes, and in bounds. */
  method ReadResponse(buf: array<Byte>, n: nat, txn: seq<Byte>) returns (out: Option<Address>)
    requires n <= buf.Length
    ensures out == Decode(buf[..n], txn)
  {
    out := None;
    if n < HEADER_SIZE || buf[8..20] != txn || buf[0] as int * 256 + buf[1] != SUCCESS {
      assert n >= HEADER_SIZE ==> buf[..n][8..20] == buf[8..20];
      return;
    }
    ghost var s := buf[..n];
    assert s[8..20] == buf[8..20];
    var mlen := buf[2] as int * 256 + buf[3];
    var end := HEADER_SIZE + mlen;
    if end > n {
      end := n;
    }
    out := WalkAttributes(buf, n, end);
  }

  /** The attribute loop. */
  method WalkAttributes(buf: array<Byte>, n: nat, end: nat) returns (out: Option<Address>)
    requires end <= n <= buf.Length
    ensures out == Walk(buf[..n], HEADER_SIZE, end, None)
  {
    out := None;
    ghost var s := buf[..n];
    var off: nat, over := HEADER_SIZE, false;
    while !over && off + 4 <= end
      invariant if over then out == Walk(s, HEADER_SIZE, end, None) else Walk(s, off, end, out) == Walk(s, HEADER_SIZE, end, None)
      decreases !over, end - off
    {
      over, off, out := AttributeTurn(buf, s, off, end, out);
    }
  }

  /** One attribute: it ends the walk, or the walk goes on behind it. */
  method AttributeTurn(buf: array<Byte>, ghost s: seq<Byte>, off: nat, end: nat, found: Option<Address>)
    returns (over: bool, next: nat, out: Option<Address>)
    requires |s| <= buf.Length && s == buf[..|s|] && off + 4 <= end <= |s|
    ensures if over then out == Walk(s, off, end, found) else next > off && Walk(s, next, end, out) == Walk(s, off, end, found)
  {
    var atype := ReadWord(buf, s, off);
    var alen := ReadWord(buf, s, off + 2);
    if off + 4 + alen > end {
      WalkStops(s, off, end, found);
      return true, off, found;
    }
    ghost var value, behind, found', walk := WalkTurn(s, off, end, found);
    next := off + 4 + alen + Padding(alen);
    over, out := ReadAttribute(buf, s, atype, off + 4, alen, found);
    assert next == behind && (!over ==> out == found');
  }

  lemma WalkStops(s: seq<Byte>, off: nat, end: nat, found: Option<Address>)
    requires off + 4 <= end <= |s| && off + 4 + Word16(s, off + 2) > end
    ensures Walk(s, off, end, found) == found
  {
  }

  method ReadWord(buf: array<Byte>, ghost s: seq<Byte>, p: nat) returns (w: nat)
    requires |s| <= buf.Length && s == buf[..|s|] && p + 2 <= |s|
    ensures w == Word16(s, p)
  {
    w := buf[p] as int * 256 + buf[p + 1];
  }

  /** An attribute's value: an address that ends the walk, one to fall back on, or nothing. */
  method ReadAttribute(buf: array<Byte>, ghost s: seq<Byte>, atype: nat, v: nat, alen: nat, found: Option<Address>)
    returns (over: bool, out: Option<Address>)
    requires |s| <= buf.Length && s == buf[..|s|] && v + alen <= |s|
    ensures var value := s[v..v + alen];
            && (over <==> atype == XOR_MAPPED_ADDRESS && IsIPv4(value))
            && out == if over then Some(XorMappedAddress(value))
                      else if atype == MAPPED_ADDRESS && IsIPv4(value) then Some(MappedAddress(value)) else found
  {
    var isIPv4 := alen >= 8 && buf[v + 1] == 0x01;
    IPv4At(s, v, v + alen);
    over, out := false, found;
    if atype == XOR_MAPPED_ADDRESS && isIPv4 {
      var address := ReadXorMapped(buf, s, v, v + alen);
      return true, Some(address);
    }
    if atype == MAPPED_ADDRESS && isIPv4 {
      var address := ReadMapped(buf, s, v, v + alen);
      out := Some(address);
    }
  }

  /** One turn of the walk: the attribute's value, and what is left to do if it does not end the walk. */
  lemma WalkTurn(s: seq<Byte>, off: nat, end: nat, found: Option<Address>)
    returns (value: seq<Byte>, next: nat, found': Option<Address>, walk: Option<Address>)
    requires end <= |s| && off + 4 <= end && off + 4 + Word16(s, off + 2) <= end
    ensures var atype, alen := Word16(s, off), Word16(s, off + 2);
            && value == s[off + 4..off + 4 + alen] && |value| == alen && next == off + 4 + alen + Padding(alen)
            && found' == (if atype == MAPPED_ADDRESS && IsIPv4(value) then Some(MappedAddress(value)) else found)
            && walk == Walk(s, off, end, found)
            && walk == if atype == XOR_MAPPED_ADDRESS && IsIPv4(value) then Some(XorMappedAddress(value))
                       else Walk(s, next, end, found')
  {
    value := s[off + 4..off + 4 + Word16(s, off + 2)];
    next := off + 4 + |value| + Padding(|value|);
    found' := if Word16(s, off) == MAPPED_ADDRESS && IsIPv4(value) then Some(MappedAddress(value)) else found;
    walk := Walk(s, off, end, found);
  }

  method ReadXorMapped(buf: array<Byte>, ghost s: seq<Byte>, v: nat, ghost end: nat) returns (address: Address)
    requires |s| <= buf.Length && s == buf[..|s|] && v + 8 <= end <= |s|
    ensures address == XorMappedAddress(s[v..end])
  {
    var xport := buf[v + 2] as int * 256 + buf[v + 3];
    var xaddr := ((buf[v + 4] as int * 256 + buf[v + 5]) * 256 + buf[v + 6]) * 256 + buf[v + 7];
    ValueAt(s, v, end);
    var addr := Xor(xaddr, MAGIC_COOKIE);
    address := Address(addr / 256 / 256 / 256 % 256, addr / 256 / 256 % 256, addr / 256 % 256, addr % 256,
                       Xor(xport, MAGIC_COOKIE / 0x1_0000));
  }

  method ReadMapped(buf: array<Byte>, ghost s: seq<Byte>, v: nat, ghost end: nat) returns (address: Address)
    requires |s| <= buf.Length && s == buf[..|s|] && v + 8 <= end <= |s|
    ensures address == MappedAddress(s[v..end])
  {
    ValueAt(s, v, end);
    address := Address(buf[v + 4], buf[v + 5], buf[v + 6], buf[v + 7], buf[v + 2] as int * 256 + buf[v + 3]);
  }

  lemma IPv4At(s: seq<Byte>, v: nat, end: nat)
    requires v <= end <= |s|
    ensures IsIPv4(s[v..end]) <==> end >= v + 8 && s[v + 1] == 0x01
  {
  }

  lemma ValueAt(s: seq<Byte>, v: nat, end: nat)
    requires v + 8 <= end <= |s|
    ensures forall i :: 0 <= i < 8 ==> s[v..end][i] == s[v + i]
    ensures Word16(s[v..end], 2) == Word16(s, v + 2) && Word32At(s[v..end], 4) == Word32At(s, v + 4)
  {
  }

  // ------------------------------------------------- well-formed responses

  /** An attribute with the bytes that pad it; their content does not matter. */
  datatype Attribute = Attribute(atype: nat, value: seq<Byte>, padding: seq<Byte>)

  ghost predicate WellFormed(attributes: seq<Attribute>) {
    forall i :: 0 <= i < |attributes| ==> WellFormedOne(attributes[i])
  }

  ghost predicate WellFormedOne(a: Attribute) {
    a.atype < 0x1_0000 && |a.value| < 0x1_0000 && |a.padding| == Padding(|a.value|)
  }

  function EncodeOne(a: Attribute): (s: seq<Byte>)
    requires WellFormedOne(a)
    ensures |s| == 4 + |a.value| + Padding(|a.value|)
  {
    Bytes16(a.atype) + Bytes16(|a.value|) + a.value + a.padding
  }

  function EncodeAll(attributes: seq<Attribute>): seq<Byte>
    requires WellFormed(attributes)
  {
    if attributes == [] then [] else
      assert WellFormedOne(attributes[0]);
      EncodeOne(attributes[0]) + EncodeAll(attributes[1..])
  }

  /** A Binding Success response; its cookie is not looked at. */
  function EncodeResponse(cookie: seq<Byte>, txn: seq<Byte>, attributes: seq<Attribute>): seq<Byte>
    requires WellFormed(attributes) && |EncodeAll(attributes)| < 0x1_0000
  {
    Bytes16(0x0101) + Bytes16(|EncodeAll(attributes)|) + cookie + txn + EncodeAll(attributes)
  }

  /** Sections 15.1 and 15.2: the attribute's type, and a value with address family 1 and room for 32 bits of address. */
  predicate IsXorMapped(a: Attribute) { a.atype == 0x0020 && |a.value| >= 8 && a.value[1] == 1 }

  predicate IsMapped(a: Attribute) { a.atype == 0x0001 && |a.value| >= 8 && a.value[1] == 1 }

  /** The index of the first attribute that is an IPv4 XOR-MAPPED-ADDRESS. */
  ghost predicate FirstXorMapped(attributes: seq<Attribute>, k: int) {
    0 <= k < |attributes| && IsXorMapped(attributes[k]) && forall i :: 0 <= i < k ==> !IsXorMapped(attributes[i])
  }

  ghost predicate NoXorMapped(attributes: seq<Attribute>) {
    forall i :: 0 <= i < |attributes| ==> !IsXorMapped(attributes[i])
  }

  ghost predicate LastMapped(attributes: seq<Attribute>, k: int) {
    0 <= k < |attributes| && IsMapped(attributes[k]) && forall i :: k < i < |attributes| ==> !IsMapped(attributes[i])
  }

  ghost predicate NoMapped(attributes: seq<Attribute>) {
    forall i :: 0 <= i < |attributes| ==> !IsMapped(attributes[i])
  }

  /** The address a response stands for. */
  ghost predicate Chosen(attributes: seq<Attribute>, found: Option<Address>, r: Option<Address>) {
    && (forall k :: FirstXorMapped(attributes, k) ==> r == Some(XorMappedAddress(attributes[k].value)))
    && (NoXorMapped(attributes) ==>
          && (forall k :: LastMapped(attributes, k) ==> r == Some(MappedAddress(attributes[k].value)))
          && (NoMapped(attributes) ==> r == found))
  }

  /** How many attributes have their value within the first `room` bytes. */
  function Fitting(attributes: seq<Attribute>, room: int): (k: nat)
    requires WellFormed(attributes)
    ensures k <= |attributes|
    decreases |attributes|
  {
    if attributes == [] || 4 + |attributes[0].value| > room then 0
    else 1 + Fitting(attributes[1..], room - 4 - |attributes[0].value| - Padding(|attributes[0].value|))
  }

  lemma {:induction false} AllFit(attributes: seq<Attribute>, room: int)
    requires WellFormed(attributes) && |EncodeAll(attributes)| <= room
    ensures Fitting(attributes, room) == |attributes|
    decreases |attributes|
  {
    if attributes != [] {
      assert WellFormedOne(attributes[0]);
      AllFit(attributes[1..], room - |EncodeOne(attributes[0])|);
    }
  }

  lemma {:induction false} FrontFits(before: seq<Attribute>, a: Attribute, after: seq<Attribute>, room: int)
    requires WellFormed(before) && WellFormedOne(a) && WellFormed(after) && WellFormed(before + [a] + after)
    requires |EncodeAll(before)| + 4 + |a.value| <= room
    ensures Fitting(before + [a] + after, room) > |before|
    decreases |before|
  {
    var all := before + [a] + after;
    if before == [] {
      assert all[0] == a;
    } else {
      assert WellFormedOne(before[0]);
      assert all[0] == before[0] && all[1..] == before[1..] + [a] + after;
      FrontFits(before[1..], a, after, room - |EncodeOne(before[0])|);
    }
  }

  /** An attribute of which at least the value has arrived. */
  lemma AttributeArrives(s: seq<Byte>, off: nat, a: Attribute, rest: seq<Byte>)
    requires WellFormedOne(a) && off <= |s| && |s| - off <= |EncodeOne(a) + rest|
    requires s[off..] == (EncodeOne(a) + rest)[..|s| - off]
    ensures off + 4 <= |s| ==> Word16(s, off) == a.atype && Word16(s, off + 2) == |a.value|
    ensures off + 4 + |a.value| <= |s| ==> s[off + 4..off + 4 + |a.value|] == a.value
    ensures var next := off + |EncodeOne(a)|;
            next <= |s| ==> s[next..] == rest[..|s| - next]
  {
    var all := EncodeOne(a) + rest;
    assert forall i :: 0 <= i < |s| - off ==> s[off..][i] == all[i];
    Bytes16Join(a.atype);
    Bytes16Join(|a.value|);
    assert all[..2] == Bytes16(a.atype) && all[2..4] == Bytes16(|a.value|);
    assert all[4..4 + |a.value|] == a.value;
    if off + 4 <= |s| {
      assert s[off] == all[0] && s[off + 1] == all[1] && s[off + 2] == all[2] && s[off + 3] == all[3];
    }
    if off + 4 + |a.value| <= |s| {
      assert s[off + 4..off + 4 + |a.value|] == all[4..4 + |a.value|];
    }
    var next := off + |EncodeOne(a)|;
    if next <= |s| {
      assert forall i :: 0 <= i < |s| - next ==> s[next..][i] == rest[i];
    }
  }

  /** The walk over encoded attributes of which the first |s| - off bytes have arrived. */
  lemma {:induction false} WalkEncoded(s: seq<Byte>, off: nat, attributes: seq<Attribute>, found: Option<Address>)
    returns (arrived: seq<Attribute>, walk: Option<Address>)
    requires WellFormed(attributes) && off <= |s| && |s| - off <= |EncodeAll(attributes)|
    requires s[off..] == EncodeAll(attributes)[..|s| - off]
    ensures arrived == attributes[..Fitting(attributes, |s| - off)] && walk == Walk(s, off, |s|, found)
    ensures Chosen(arrived, found, walk)
    decreases |attributes|, 1
  {
    arrived, walk := attributes[..Fitting(attributes, |s| - off)], Walk(s, off, |s|, found);
    if attributes == [] {
      assert arrived == [];
    } else {
      var a, rest := attributes[0], attributes[1..];
      EncodeSplit(attributes);
      AttributeArrives(s, off, a, EncodeAll(rest));
      if off + 4 + |a.value| > |s| {
        assert arrived == [];
      } else {
        arrived, walk := WalkOn(s, off, attributes, found);
      }
    }
  }

  /** One turn of the walk over an attribute whose value has arrived. */
  lemma WalkStep(s: seq<Byte>, off: nat, a: Attribute, rest: seq<Byte>, found: Option<Address>) returns (next: nat)
    requires WellFormedOne(a) && off <= |s| && |s| - off <= |EncodeOne(a) + rest|
    requires s[off..] == (EncodeOne(a) + rest)[..|s| - off] && off + 4 + |a.value| <= |s|
    ensures next == off + |EncodeOne(a)| && (next <= |s| ==> s[next..] == rest[..|s| - next])
    ensures Walk(s, off, |s|, found)
         == if IsXorMapped(a) then Some(XorMappedAddress(a.value))
            else Walk(s, next, |s|, if IsMapped(a) then Some(MappedAddress(a.value)) else found)
  {
    AttributeArrives(s, off, a, rest);
    var value, found', walk;
    value, next, found', walk := WalkTurn(s, off, |s|, found);
  }

  /** The same, where at least the first attribute's value has arrived. */
  lemma {:induction false} WalkOn(s: seq<Byte>, off: nat, attributes: seq<Attribute>, found: Option<Address>)
    returns (arrived: seq<Attribute>, walk: Option<Address>)
    requires WellFormed(attributes) && off <= |s| && |s| - off <= |EncodeAll(attributes)|
    requires s[off..] == EncodeAll(attributes)[..|s| - off]
    requires attributes != [] && off + 4 + |attributes[0].value| <= |s|
    ensures arrived == attributes[..Fitting(attributes, |s| - off)] && walk == Walk(s, off, |s|, found)
    ensures Chosen(arrived, found, walk)
    decreases |attributes|, 0
  {
    var a, rest := attributes[0], attributes[1..];
    EncodeSplit(attributes);
    var next := WalkStep(s, off, a, EncodeAll(rest), found);
    walk := Walk(s, off, |s|, found);
    arrived := ArrivedSplit(attributes, |s| - off, |s| - next);
    if IsXorMapped(a) {
      ChosenFirst(arrived, found);
    } else {
      var behind, r := WalkRest(s, next, rest, if IsMapped(a) then Some(MappedAddress(a.value)) else found);
      ChosenStep(arrived, behind, found, r);
    }
  }

  lemma EncodeSplit(attributes: seq<Attribute>)
    requires WellFormed(attributes) && attributes != []
    ensures WellFormedOne(attributes[0]) && WellFormed(attributes[1..])
    ensures EncodeAll(attributes) == EncodeOne(attributes[0]) + EncodeAll(attributes[1..])
  {
    assert WellFormedOne(attributes[0]);
  }

  lemma ArrivedSplit(attributes: seq<Attribute>, room: int, less: int) returns (arrived: seq<Attribute>)
    requires WellFormed(attributes) && attributes != [] && 4 + |attributes[0].value| <= room
    requires less == room - 4 - |attributes[0].value| - Padding(|attributes[0].value|)
    ensures arrived == attributes[..Fitting(attributes, room)] && arrived != [] && arrived[0] == attributes[0]
    ensures WellFormed(attributes[1..]) && arrived[1..] == attributes[1..][..Fitting(attributes[1..], less)]
  {
    arrived := attributes[..Fitting(attributes, room)];
  }

  lemma ChosenFirst(attributes: seq<Attribute>, found: Option<Address>)
    requires attributes != [] && IsXorMapped(attributes[0])
    ensures Chosen(attributes, found, Some(XorMappedAddress(attributes[0].value)))
  {
    assert FirstXorMapped(attributes, 0);
  }

  /** The walk behind an attribute, which may be behind the end of what arrived. */
  lemma {:induction false} WalkRest(s: seq<Byte>, next: nat, rest: seq<Attribute>, found: Option<Address>)
    returns (arrived: seq<Attribute>, walk: Option<Address>)
    requires WellFormed(rest) && |s| - next <= |EncodeAll(rest)| && (next <= |s| ==> s[next..] == EncodeAll(rest)[..|s| - next])
    ensures arrived == rest[..Fitting(rest, |s| - next)] && walk == Walk(s, next, |s|, found)
    ensures Chosen(arrived, found, walk)
    decreases |rest|, 2
  {
    if next <= |s| {
      arrived, walk := WalkEncoded(s, next, rest, found);
    } else {
      arrived, walk := [], found;
    }
  }

  lemma ChosenStep(attributes: seq<Attribute>, rest: seq<Attribute>, found: Option<Address>, r: Option<Address>)
    requires attributes != [] && !IsXorMapped(attributes[0]) && rest == attributes[1..]
    requires var a := attributes[0]; Chosen(rest, if IsMapped(a) then Some(MappedAddress(a.value)) else found, r)
    ensures Chosen(attributes, found, r)
  {
    var a := attributes[0];
    assert forall i :: 0 <= i < |rest| ==> rest[i] == attributes[i + 1];
    forall k | FirstXorMapped(attributes, k)
      ensures r == Some(XorMappedAddress(attributes[k].value))
    {
      assert FirstXorMapped(rest, k - 1);
    }
    if NoXorMapped(attributes) {
      assert NoXorMapped(rest);
      forall k | LastMapped(attributes, k)
        ensures r == Some(MappedAddress(attributes[k].value))
      {
        if k == 0 {
          assert NoMapped(rest);
        } else {
          assert LastMapped(rest, k - 1);
        }
      }
      if NoMapped(attributes) {
        assert !IsMapped(a) && NoMapped(rest);
      }
    }
  }

  /** What recv hands over of a datagram. */
  function Received(datagram: seq<Byte>): seq<Byte> {
    if |datagram| <= RECV_SIZE then datagram else datagram[..RECV_SIZE]
  }

  /**
   STUN decode: of a well-formed response, of which the first 2048 bytes arrive, what is read is the address of the first
   IPv4 XOR-MAPPED-ADDRESS that arrived, or that of the last IPv4 MAPPED-ADDRESS if none did, or nothing if neither did.
   */
  lemma DecodeEncoded(cookie: seq<Byte>, txn: seq<Byte>, attributes: seq<Attribute>)
    requires |cookie| == 4 && |txn| == 12 && WellFormed(attributes) && |EncodeAll(attributes)| < 0x1_0000
    ensures Chosen(attributes[..Fitting(attributes, RECV_SIZE - HEADER_SIZE)], None,
                   Decode(Received(EncodeResponse(cookie, txn, attributes)), txn))
    ensures HEADER_SIZE + |EncodeAll(attributes)| <= RECV_SIZE ==>
              Chosen(attributes, None, Decode(EncodeResponse(cookie, txn, attributes), txn))
  {
    DecodeReceived(cookie, txn, attributes);
    if HEADER_SIZE + |EncodeAll(attributes)| <= RECV_SIZE {
      AllFit(attributes, RECV_SIZE - HEADER_SIZE);
      assert attributes[..|attributes|] == attributes;
      ResponseLength(cookie, txn, attributes);
    }
  }

  lemma ResponseLength(cookie: seq<Byte>, txn: seq<Byte>, attributes: seq<Attribute>)
    requires |cookie| == 4 && |txn| == 12 && WellFormed(attributes) && |EncodeAll(attributes)| < 0x1_0000
    ensures |EncodeResponse(cookie, txn, attributes)| == HEADER_SIZE + |EncodeAll(attributes)|
  {
  }

  lemma DecodeReceived(cookie: seq<Byte>, txn: seq<Byte>, attributes: seq<Attribute>)
    requires |cookie| == 4 && |txn| == 12 && WellFormed(attributes) && |EncodeAll(attributes)| < 0x1_0000
    ensures Chosen(attributes[..Fitting(attributes, RECV_SIZE - HEADER_SIZE)], None,
                   Decode(Received(EncodeResponse(cookie, txn, attributes)), txn))
  {
    var s := Received(EncodeResponse(cookie, txn, attributes));
    ResponseHeader(cookie, txn, attributes, s);
    var arrived, walk := WalkEncoded(s, HEADER_SIZE, attributes, None);
    FitsAlike(attributes, |s|);
    DecodeIsWalk(s, txn, |EncodeAll(attributes)|);
  }

  lemma FitsAlike(attributes: seq<Attribute>, length: nat)
    requires WellFormed(attributes) && length == Min(HEADER_SIZE + |EncodeAll(attributes)|, RECV_SIZE)
    ensures Fitting(attributes, length - HEADER_SIZE) == Fitting(attributes, RECV_SIZE - HEADER_SIZE)
  {
    if length < RECV_SIZE {
      AllFit(attributes, RECV_SIZE - HEADER_SIZE);
      AllFit(attributes, length - HEADER_SIZE);
    }
  }

  lemma DecodeIsWalk(s: seq<Byte>, txn: seq<Byte>, length: nat)
    requires Accepted(s, txn) && Word16(s, 2) == length && |s| <= HEADER_SIZE + length
    ensures Decode(s, txn) == Walk(s, HEADER_SIZE, |s|, None)
  {
  }

  lemma ResponseHeader(cookie: seq<Byte>, txn: seq<Byte>, attributes: seq<Attribute>, s: seq<Byte>)
    requires |cookie| == 4 && |txn| == 12 && WellFormed(attributes) && |EncodeAll(attributes)| < 0x1_0000
    requires s == Received(EncodeResponse(cookie, txn, attributes))
    ensures |s| == Min(HEADER_SIZE + |EncodeAll(attributes)|, RECV_SIZE)
    ensures Accepted(s, txn) && Word16(s, 2) == |EncodeAll(attributes)|
    ensures s[HEADER_SIZE..] == EncodeAll(attributes)[..|s| - HEADER_SIZE]
  {
    var body := EncodeAll(attributes);
    Bytes16Join(0x0101);
    Bytes16Join(|body|);
    ReceivedParts(s, Bytes16(0x0101), Bytes16(|body|), cookie, txn, body);
  }

  lemma ReceivedParts(s: seq<Byte>, kind: seq<Byte>, length: seq<Byte>, cookie: seq<Byte>, txn: seq<Byte>, body: seq<Byte>)
    requires |kind| == |length| == 2 && |cookie| == 4 && |txn| == 12
    requires s == Received(kind + length + cookie + txn + body)
    ensures |s| == Min(HEADER_SIZE + |body|, RECV_SIZE) && |s| >= HEADER_SIZE
    ensures Word16(s, 0) == Word16(kind, 0) && Word16(s, 2) == Word16(length, 0)
    ensures s[8..20] == txn && s[HEADER_SIZE..] == body[..|s| - HEADER_SIZE]
  {
    var header := kind + length + cookie + txn;
    Fronts(s, header, body);
    assert header[0] == kind[0] && header[1] == kind[1] && header[2] == length[0] && header[3] == length[1];
    assert header[8..20] == txn;
    assert s[8..20] == s[..HEADER_SIZE][8..20];
  }

  lemma Fronts(s: seq<Byte>, header: seq<Byte>, body: seq<Byte>)
    requires |header| == HEADER_SIZE && s == Received(header + body)
    ensures |s| == Min(HEADER_SIZE + |body|, RECV_SIZE) && |s| >= HEADER_SIZE
    ensures s[..HEADER_SIZE] == header && s[HEADER_SIZE..] == body[..|s| - HEADER_SIZE]
    ensures s[0] == header[0] && s[1] == header[1] && s[2] == header[2] && s[3] == header[3]
  {
  }

  /** What a server encodes as the reflexive address is what is read if it arrives, whatever attributes surround it. */
  lemma ReflexiveAddressRead(cookie: seq<Byte>, txn: seq<Byte>, before: seq<Attribute>, a: Attribute, address: Address,
                             after: seq<Attribute>)
    requires |cookie| == 4 && |txn| == 12 && IsAddress(address) && WellFormed(before) && WellFormed(after)
    requires WellFormedOne(a) && a.atype == 0x0020 && Carries(a.value, EncodeXorMapped(address)) && NoXorMapped(before)
    requires |EncodeAll(before)| + |EncodeAll(after)| + |EncodeOne(a)| < 0x1_0000
    requires 20 + |EncodeAll(before)| + 4 + |a.value| <= 2048
    ensures var attributes := before + [a] + after;
            && WellFormed(attributes) && |EncodeAll(attributes)| < 0x1_0000
            && Decode(Received(EncodeResponse(cookie, txn, attributes)), txn) == Some(address)
  {
    XorMappedRoundTrip(address, a.value);
    FirstXorMappedRead(cookie, txn, before, a, after);
  }

  /** Without one the plain address of the last MAPPED-ADDRESS is read, if the whole response arrives. */
  lemma FallbackAddressRead(cookie: seq<Byte>, txn: seq<Byte>, before: seq<Attribute>, a: Attribute, address: Address,
                            after: seq<Attribute>)
    requires |cookie| == 4 && |txn| == 12 && IsAddress(address) && WellFormed(before) && WellFormed(after)
    requires WellFormedOne(a) && a.atype == 0x0001 && Carries(a.value, EncodeMapped(address))
    requires NoXorMapped(before) && NoXorMapped(after) && NoMapped(after)
    requires 20 + |EncodeAll(before)| + |EncodeAll(after)| + |EncodeOne(a)| <= 2048
    ensures var attributes := before + [a] + after;
            && WellFormed(attributes) && |EncodeAll(attributes)| < 0x1_0000
            && Decode(EncodeResponse(cookie, txn, attributes), txn) == Some(address)
  {
    var attributes := before + [a] + after;
    MappedRoundTrip(address, a.value);
    Surrounded(before, a, after);
    DecodeEncoded(cookie, txn, attributes);
    FallsBack(before, a, after);
  }

  lemma Surrounded(before: seq<Attribute>, a: Attribute, after: seq<Attribute>)
    requires WellFormed(before) && WellFormedOne(a) && WellFormed(after)
    ensures WellFormed(before + [a] + after)
    ensures |EncodeAll(before + [a] + after)| == |EncodeAll(before)| + |EncodeOne(a)| + |EncodeAll(after)|
  {
    assert before + [a] + after == before + ([a] + after);
    assert ([a] + after)[1..] == after;
    EncodeAllLength(before, [a] + after);
  }

  lemma FallsBack(before: seq<Attribute>, a: Attribute, after: seq<Attribute>)
    requires NoXorMapped(before) && !IsXorMapped(a) && IsMapped(a) && NoXorMapped(after) && NoMapped(after)
    ensures NoXorMapped(before + [a] + after) && LastMapped(before + [a] + after, |before|)
  {
  }

  lemma FirstXorMappedRead(cookie: seq<Byte>, txn: seq<Byte>, before: seq<Attribute>, a: Attribute, after: seq<Attribute>)
    requires |cookie| == 4 && |txn| == 12 && WellFormed(before) && WellFormed(after) && NoXorMapped(before)
    requires WellFormedOne(a) && IsXorMapped(a)
    requires |EncodeAll(before)| + |EncodeAll(after)| + |EncodeOne(a)| < 0x1_0000
    requires HEADER_SIZE + |EncodeAll(before)| + 4 + |a.value| <= RECV_SIZE
    ensures var attributes := before + [a] + after;
            && WellFormed(attributes) && |EncodeAll(attributes)| < 0x1_0000
            && Decode(Received(EncodeResponse(cookie, txn, attributes)), txn) == Some(XorMappedAddress(a.value))
  {
    var attributes := before + [a] + after;
    Surrounded(before, a, after);
    DecodeEncoded(cookie, txn, attributes);
    FrontFits(before, a, after, RECV_SIZE - HEADER_SIZE);
    var arrived := attributes[..Fitting(attributes, RECV_SIZE - HEADER_SIZE)];
    assert arrived[|before|] == a;
    assert FirstXorMapped(arrived, |before|);
  }

  lemma {:induction false} EncodeAllLength(before: seq<Attribute>, after: seq<Attribute>)
    requires WellFormed(before) && WellFormed(after)
    ensures WellFormed(before + after) && |EncodeAll(before + after)| == |EncodeAll(before)| + |EncodeAll(after)|
    decreases |before|
  {
    if before == [] {
      assert before + after == after;
    } else {
      assert (before + after)[1..] == before[1..] + after && (before + after)[0] == before[0];
      EncodeAllLength(before[1..], after);
    }
  }
}
