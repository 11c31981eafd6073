/** The payload of an activity link, as bytes. */
module Payloads {
  import opened Wrappers
  import opened Bytes

  /** A 256-bit number. */
  type Element = x: nat | x < Pow256(32)

  /** The referral code is kept as the bytes of its string. */
  datatype Payload = Payload(
    version: Byte, privateKey: Element, psi: Option<Element>, value: Element, referralCode: ByteString)

  /** The panics of the decoder. */
  datatype DecodeError = NotEnoughBytes | TooManyZeros | InvalidUtf8

  function ToWord(x: Element): (s: ByteString)
    ensures |s| == 32
  {
    ToBigEndian(x, 32)
  }

  function FromWord(s: ByteString): Element
    requires |s| == 32
  {
    FromBigEndian(s)
  }

  lemma WordRoundTrip(x: Element, s: ByteString)
    requires |s| == 32
    ensures FromWord(ToWord(x)) == x && ToWord(FromWord(s)) == s
  {
    FromTo(x, 32);
    ToFrom(s);
  }

  function LeadingZeros(s: ByteString): (n: nat)
    ensures n <= |s|
    ensures forall i :: 0 <= i < n ==> s[i] == 0
    ensures n < |s| ==> s[n] != 0
  {
    if s == [] || s[0] != 0 then 0 else
    var n := LeadingZeros(s[1..]);
    assert forall i :: 1 <= i < n + 1 ==> s[i] == s[1..][i - 1];
    n + 1
  }

  function Zeros(n: nat): (s: ByteString)
    ensures |s| == n && forall i :: 0 <= i < n ==> s[i] == 0
  {
    seq(n, i => 0)
  }

  function EncodedTail(value: Element, referralCode: ByteString): ByteString {
    var bytes := ToWord(value);
    [LeadingZeros(bytes)] + bytes[LeadingZeros(bytes)..] + referralCode
  }

  function Encoded(p: Payload): ByteString {
    [p.version] + ToWord(p.privateKey)
    + (if p.psi.Some? && p.version == 0 then ToWord(p.psi.value) else [])
    + EncodedTail(p.value, p.referralCode)
  }

  function DecodedTail(
      version: Byte, key: Element, psi: Option<Element>, tail: ByteString, utf8: ByteString -> bool)
    : Result<Payload, DecodeError>
  {
    if tail == [] then Err(NotEnoughBytes) else
    if tail[0] > 32 then Err(TooManyZeros) else
    var rest, len := tail[1..], 32 - tail[0];
    if |rest| < len then Err(NotEnoughBytes) else
    var value := FromWord(Zeros(tail[0]) + rest[..len]);
    if utf8(rest[len..]) then Ok(Payload(version, key, psi, value, rest[len..])) else Err(InvalidUtf8)
  }

  function Decoded(b: ByteString, utf8: ByteString -> bool): Result<Payload, DecodeError> {
    if |b| < 33 then Err(NotEnoughBytes) else
    var key, rest := FromWord(b[1..33]), b[33..];
    if b[0] != 0 then DecodedTail(b[0], key, None, rest, utf8) else
    if |rest| < 32 then Err(NotEnoughBytes) else
    DecodedTail(0, key, Some(FromWord(rest[..32])), rest[32..], utf8)
  }

  lemma LeadingZerosUnique(s: ByteString, n: nat)
    requires n <= |s| && (forall i :: 0 <= i < n ==> s[i] == 0) && (n < |s| ==> s[n] != 0)
    ensures LeadingZeros(s) == n
  {
  }

  method Encode(p: Payload) returns (bytes: ByteString)
    ensures bytes == Encoded(p)
  {
    hide ToWord, FromWord, Pow256, LeadingZeros;
    bytes := [];
    bytes := bytes + [p.version];
    bytes := bytes + ToWord(p.privateKey);
    if p.psi.Some? {
      if p.version == 0 {
        bytes := bytes + ToWord(p.psi.value);
      }
    }
    var valueBytes := ToWord(p.value);
    var leadingZeros := 0;
    while leadingZeros < 32 && valueBytes[leadingZeros] == 0
      invariant 0 <= leadingZeros <= 32
      invariant forall i :: 0 <= i < leadingZeros ==> valueBytes[i] == 0
    {
      leadingZeros := leadingZeros + 1;
    }
    LeadingZerosUnique(valueBytes, leadingZeros);
    ghost var head := bytes;
    bytes := bytes + [leadingZeros];
    bytes := bytes + valueBytes[leadingZeros..];
    bytes := bytes + p.referralCode;
    assert bytes == head + EncodedTail(p.value, p.referralCode);
  }

  /** The second half of the decoder: the compressed value and the referral code. */
  method DecodeValueAndCode(
      version: Byte, privateKey: Element, psi: Option<Element>, tail: ByteString, utf8: ByteString -> bool)
    returns (r: Result<Payload, DecodeError>)
    ensures r == DecodedTail(version, privateKey, psi, tail, utf8)
  {
    hide FromWord, ToWord, Pow256;
    var rest := tail;
    if |rest| < 1 {
      return Err(NotEnoughBytes);
    }
    var leadingZeros := rest[0];
    rest := rest[1..];
    if leadingZeros > 32 {
      return Err(TooManyZeros);
    }
    var valueLen := 32 - leadingZeros;
    if |rest| < valueLen {
      return Err(NotEnoughBytes);
    }
    var valueBytes := new Byte[32](i => 0);
    for i := 0 to valueLen
      invariant forall k :: 0 <= k < leadingZeros ==> valueBytes[k] == 0
      invariant forall k :: 0 <= k < i ==> valueBytes[leadingZeros + k] == rest[k]
    {
      valueBytes[leadingZeros + i] := rest[i];
    }
    assert valueBytes[..] == Zeros(leadingZeros) + rest[..valueLen];
    var value := FromWord(valueBytes[..]);
    rest := rest[valueLen..];
    if !utf8(rest) {
      return Err(InvalidUtf8);
    }
    return Ok(Payload(version, privateKey, psi, value, rest));
  }

  method Decode(payload: ByteString, utf8: ByteString -> bool) returns (r: Result<Payload, DecodeError>)
    ensures r == Decoded(payload, utf8)
  {
    hide FromWord, Pow256, DecodedTail;
    var rest := payload;
    if |rest| < 1 {
      return Err(NotEnoughBytes);
    }
    var version := rest[0];
    rest := rest[1..];
    if |rest| < 32 {
      return Err(NotEnoughBytes);
    }
    var privateKey := FromWord(rest[..32]);
    assert rest[..32] == payload[1..33];
    rest := rest[32..];
    assert rest == payload[33..];
    var psi := None;
    if version == 0 {
      if |rest| < 32 {
        return Err(NotEnoughBytes);
      }
      psi := Some(FromWord(rest[..32]));
      rest := rest[32..];
    }
    r := DecodeValueAndCode(version, privateKey, psi, rest, utf8);
  }

  /** Where the parts of an encoded tail lie. */
  lemma TailParts(value: Element, code: ByteString)
    ensures var bytes, tail := ToWord(value), EncodedTail(value, code);
      var zeros := LeadingZeros(bytes);
      && |tail| == 33 - zeros + |code| && tail[0] == zeros
      && tail[1..][..32 - zeros] == bytes[zeros..] && tail[1..][32 - zeros..] == code
  {
    hide ToWord, FromWord, Pow256, LeadingZeros;
    var bytes := ToWord(value);
    assert EncodedTail(value, code)[1..] == bytes[LeadingZeros(bytes)..] + code;
  }

  lemma ZerosRestored(bytes: ByteString)
    ensures Zeros(LeadingZeros(bytes)) + bytes[LeadingZeros(bytes)..] == bytes
  {
    hide LeadingZeros;
  }

  lemma TailRoundTrip(
      version: Byte, key: Element, psi: Option<Element>, value: Element, code: ByteString, utf8: ByteString -> bool)
    requires utf8(code)
    ensures DecodedTail(version, key, psi, EncodedTail(value, code), utf8) == Ok(Payload(version, key, psi, value, code))
  {
    TailParts(value, code);
    ZerosRestored(ToWord(value));
    WordRoundTrip(value, ToWord(value));
    hide ToWord, FromWord, Pow256, LeadingZeros, Zeros, EncodedTail;
  }

  /** Where the parts of an encoded payload lie. */
  lemma EncodedParts(p: Payload)
    ensures var b, tail := Encoded(p), EncodedTail(p.value, p.referralCode);
      && |b| >= 33 && b[0] == p.version && b[1..33] == ToWord(p.privateKey)
      && (if p.psi.Some? && p.version == 0
          then |b| >= 65 && b[33..65] == ToWord(p.psi.value) && b[65..] == tail
          else b[33..] == tail)
  {
  }

  lemma PsiFollowsVersion(b: ByteString, utf8: ByteString -> bool)
    requires Decoded(b, utf8).Ok?
    ensures Decoded(b, utf8).value.psi.Some? <==> b[0] == 0
    ensures Decoded(b, utf8).value.version == b[0]
  {
  }

  /** What decoding does with bytes laid out in either way. */
  lemma DecodedParts(b: ByteString, utf8: ByteString -> bool)
    requires |b| >= 33
    ensures b[0] != 0 ==> Decoded(b, utf8) == DecodedTail(b[0], FromWord(b[1..33]), None, b[33..], utf8)
    ensures b[0] == 0 && |b| >= 65 ==>
      Decoded(b, utf8) == DecodedTail(0, FromWord(b[1..33]), Some(FromWord(b[33..65])), b[65..], utf8)
  {
    hide FromWord, Pow256, DecodedTail;
    if b[0] == 0 && |b| >= 65 {
      assert b[33..][..32] == b[33..65] && b[33..][32..] == b[65..];
    }
  }

  /** Decoding an encoded payload gives it back exactly when `psi` is present just for version 0:
      otherwise it is dropped, or other bytes are read in its place. */
  lemma RoundTripsExactly(p: Payload, utf8: ByteString -> bool)
    requires utf8(p.referralCode)
    ensures Decoded(Encoded(p), utf8) == Ok(p) <==> (p.psi.Some? <==> p.version == 0)
  {
    hide ToWord, FromWord, Pow256, EncodedTail, DecodedTail, Encoded, Decoded;
    var b := Encoded(p);
    EncodedParts(p);
    if p.psi.Some? <==> p.version == 0 {
      DecodedParts(b, utf8);
      WordRoundTrip(p.privateKey, ToWord(p.privateKey));
      TailRoundTrip(p.version, p.privateKey, p.psi, p.value, p.referralCode, utf8);
      if p.psi.Some? {
        WordRoundTrip(p.psi.value, ToWord(p.psi.value));
      }
    } else if Decoded(b, utf8).Ok? {
      PsiFollowsVersion(b, utf8);
    }
  }

  /** The count of zero bytes is as large as it can be. */
  predicate CanonicalTail(tail: ByteString) {
    |tail| >= 1 && (tail[0] == 32 || (|tail| >= 2 && tail[1] != 0))
  }

  predicate Canonical(b: ByteString) {
    if |b| < 33 then false else
    if b[0] != 0 then CanonicalTail(b[33..]) else
    |b| >= 65 && CanonicalTail(b[65..])
  }

  lemma TailRestores(version: Byte, key: Element, psi: Option<Element>, tail: ByteString, utf8: ByteString -> bool)
    requires DecodedTail(version, key, psi, tail, utf8).Ok?
    ensures var p := DecodedTail(version, key, psi, tail, utf8).value;
      EncodedTail(p.value, p.referralCode) == tail <==> CanonicalTail(tail)
  {
    var rest, len := tail[1..], 32 - tail[0];
    var p := DecodedTail(version, key, psi, tail, utf8).value;
    var bytes := Zeros(tail[0]) + rest[..len];
    WordRoundTrip(p.value, bytes);
    hide ToWord, FromWord, Pow256;
    assert ToWord(p.value) == bytes;
    if CanonicalTail(tail) {
      assert len > 0 ==> bytes[tail[0]] == rest[0] == tail[1];
      LeadingZerosUnique(bytes, tail[0]);
      assert bytes[tail[0]..] == rest[..len];
      assert tail == [tail[0]] + rest[..len] + rest[len..];
    } else {
      assert bytes[tail[0]] == rest[0] == tail[1] == 0;
      assert LeadingZeros(bytes) != tail[0];
      assert EncodedTail(p.value, p.referralCode)[0] == LeadingZeros(bytes);
    }
  }

  lemma SameTails(e: ByteString, b: ByteString, n: nat, tail: ByteString)
    requires n <= |b| && e == b[..n] + tail
    ensures e == b <==> tail == b[n..]
  {
  }

  lemma DecodedHead(b: ByteString, utf8: ByteString -> bool)
    requires Decoded(b, utf8).Ok?
    ensures var p := Decoded(b, utf8).value;
      && |b| >= 33 && p.version == b[0] && p.privateKey == FromWord(b[1..33])
      && (if b[0] == 0 then |b| >= 65 && p.psi == Some(FromWord(b[33..65])) else p.psi == None)
  {
    hide FromWord, Pow256;
    if |b| >= 33 {
      DecodedParts(b, utf8);
    }
  }

  /** Encoding what was decoded restores the bytes exactly when their zero count is canonical. */
  lemma ReencodesExactly(b: ByteString, utf8: ByteString -> bool)
    requires Decoded(b, utf8).Ok?
    ensures Encoded(Decoded(b, utf8).value) == b <==> Canonical(b)
  {
    hide ToWord, FromWord, Pow256, EncodedTail, DecodedTail, Decoded, CanonicalTail;
    var p := Decoded(b, utf8).value;
    DecodedHead(b, utf8);
    var at := if b[0] == 0 then 65 else 33;
    DecodedParts(b, utf8);
    WordRoundTrip(p.privateKey, b[1..33]);
    TailRestores(p.version, p.privateKey, p.psi, b[at..], utf8);
    if b[0] == 0 {
      WordRoundTrip(p.privateKey, b[33..65]);
      assert b[..65] == [b[0]] + b[1..33] + b[33..65];
    } else {
      assert b[..33] + EncodedTail(p.value, p.referralCode) == Encoded(p);
    }
    SameTails(Encoded(p), b, at, EncodedTail(p.value, p.referralCode));
  }

  /** Exactly which byte strings decode. */
  lemma DecodesExactly(b: ByteString, utf8: ByteString -> bool)
    ensures Decoded(b, utf8).Ok? <==>
      |b| >= 1 && var at := if b[0] == 0 then 65 else 33;
        && |b| >= at + 1 && b[at] <= 32 && |b| >= at + 1 + (32 - b[at])
        && utf8(b[at + 1 + (32 - b[at])..])
  {
    hide FromWord, Pow256;
    if |b| >= 33 && (b[0] != 0 || |b| >= 65) {
      var at := if b[0] == 0 then 65 else 33;
      var tail := b[at..];
      assert b[0] == 0 ==> b[33..][32..] == tail;
      if |tail| >= 1 && tail[0] <= 32 && |tail| >= 33 - tail[0] {
        assert tail[1..][32 - tail[0]..] == b[at + 1 + (32 - tail[0])..];
      }
    }
  }
}
