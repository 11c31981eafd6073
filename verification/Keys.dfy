/** The block store's keys and their byte encoding. */
module Keys {
  import opened Basics
  import opened Bytes

  /** A `u64` block height. */
  /** A height as it is stored. */
  type Height64 = h: Height | h < 0x1_0000_0000_0000_0000
  const MAX_HEIGHT: Height64 := 0xFFFF_FFFF_FFFF_FFFF

  type Hash32 = s: ByteString | |s| == 32 witness seq(32, _ => 0)

  datatype Key =
    | Block(height: Height64)
    | MaxHeight
    | BlockHashToHeight(hash: Hash32)
    | PendingBlock
    | TxnByHash(hash: Hash32)
    | StoreVersion
    | NonEmptyBlock(height: Height64)

  function Kind(k: Key): Byte {
    match k
    case Block(_) => 0
    case MaxHeight => 1
    case BlockHashToHeight(_) => 2
    case PendingBlock => 3
    case TxnByHash(_) => 4
    case StoreVersion => 5
    case NonEmptyBlock(_) => 6
  }

  function EncodeHeight(h: Height64): (s: ByteString)
    ensures |s| == 8
  {
    Pow256Of8();
    ToBigEndian(h, 8)
  }

  function DecodeHeight(s: ByteString): Height64
    requires |s| == 8
  {
    Pow256Of8();
    FromBigEndian(s)
  }

  function Serialize(k: Key): ByteString {
    [Kind(k)] +
    match k
    case Block(h) => EncodeHeight(h)
    case NonEmptyBlock(h) => EncodeHeight(h)
    case BlockHashToHeight(x) => x
    case TxnByHash(x) => x
    case _ => []
  }

  function SerializeImmediateSuccessor(k: Key): ByteString {
    Serialize(k) + [0]
  }

  /** `Panic` is the slice index failure on an encoding that is too short. */
  datatype Decoded = Decoded(key: Key) | InvalidKey | Panic

  function Deserialize(bytes: ByteString): Decoded {
    if bytes == [] then InvalidKey else
    var rest := bytes[1..];
    match bytes[0]
    case 0 => if |rest| < 8 then Panic else Decoded(Block(DecodeHeight(rest[..8])))
    case 1 => Decoded(MaxHeight)
    case 2 => if |rest| < 32 then Panic else Decoded(BlockHashToHeight(rest[..32]))
    case 3 => Decoded(PendingBlock)
    case 4 => if |rest| < 32 then Panic else Decoded(TxnByHash(rest[..32]))
    case 5 => Decoded(StoreVersion)
    case 6 => if |rest| < 8 then Panic else Decoded(NonEmptyBlock(DecodeHeight(rest[..8])))
    case _ => InvalidKey
  }

  lemma HeightRoundTrip(h: Height64, s: ByteString)
    requires |s| == 8
    ensures DecodeHeight(EncodeHeight(h)) == h
    ensures EncodeHeight(DecodeHeight(s)) == s
  {
    Pow256Of8();
    FromTo(h, 8);
    ToFrom(s);
  }

  /** Decoding yields `k` exactly on the byte strings that begin with `k`'s own encoding. */
  lemma DecodesToItsPrefix(k: Key, bytes: ByteString)
    ensures Deserialize(bytes) == Decoded(k) <==> Serialize(k) <= bytes
  {
    if Serialize(k) <= bytes {
      var n := |Serialize(k)|;
      assert bytes[0] == Serialize(k)[0] == Kind(k);
      assert bytes[1..][..n - 1] == bytes[..n][1..] == Serialize(k)[1..];
      if k.Block? || k.NonEmptyBlock? {
        HeightRoundTrip(k.height, EncodeHeight(k.height));
      }
    }
    if Deserialize(bytes) == Decoded(k) && (k.Block? || k.NonEmptyBlock?) {
      HeightRoundTrip(k.height, bytes[1..][..8]);
      assert bytes[..9] == [bytes[0]] + bytes[1..][..8];
    }
  }

  /** Encode then decode is the identity, so distinct keys have distinct encodings. */
  lemma KeyRoundTrip(k: Key, other: Key)
    ensures Deserialize(Serialize(k)) == Decoded(k)
    ensures Serialize(k) == Serialize(other) ==> k == other
  {
    DecodesToItsPrefix(k, Serialize(k));
    DecodesToItsPrefix(other, Serialize(other));
  }

  /** The two kinds of key that can be listed. */
  datatype Listable = AllBlocks | NonEmptyBlocks

  function ToKey(l: Listable, h: Height64): Key {
    match l
    case AllBlocks => Block(h)
    case NonEmptyBlocks => NonEmptyBlock(h)
  }

  function At(l: Listable, h: Height64): ByteString {
    Serialize(ToKey(l, h))
  }

  /** Big-endian keys are ordered as their heights are. */
  lemma HeightOrder(l: Listable, a: Height64, b: Height64)
    ensures LexLess(At(l, a), At(l, b)) <==> a < b
    ensures At(l, a) == At(l, b) <==> a == b
  {
    Pow256Of8();
    FromTo(a, 8);
    FromTo(b, 8);
    BigEndianKeepsOrder(EncodeHeight(a), EncodeHeight(b));
    assert At(l, a)[1..] == EncodeHeight(a) && At(l, b)[1..] == EncodeHeight(b);
  }

  /** Where an encoding of any key lies between two encodings of one listable kind. */
  lemma KeysOfAKindAreContiguous(l: Listable, lo: Height64, k: Key, hi: Height64)
    requires !LexLess(Serialize(k), At(l, lo)) && !LexLess(At(l, hi), Serialize(k))
    ensures k == ToKey(l, k.height) && lo <= k.height <= hi
  {
    assert Serialize(k)[0] == Kind(k) && At(l, lo)[0] == At(l, hi)[0] == Kind(ToKey(l, lo));
    HeightOrder(l, lo, k.height);
    HeightOrder(l, k.height, hi);
    HeightOrder(l, k.height, lo);
    HeightOrder(l, hi, k.height);
  }
}
