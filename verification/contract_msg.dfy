/**
 * The instantiation message of the Babylon contract and its validation: the
 * `babylon_tag` must be a hex string of exactly `2 * BABYLON_TAG_BYTES`
 * bytes, and it decodes to the four-byte tag that identifies the Babylon zone.
 */
module ContractMsg {
  import opened Wrappers
  import opened Hex

  /** Length, in bytes, of the decoded Babylon tag. */
  const BABYLON_TAG_BYTES: nat := 4

  newtype u64 = x: int | 0 <= x < 0x1_0000_0000_0000_0000

  /** The proof-of-work network the contract follows. */
  datatype Network = Mainnet | Testnet | Signet | Regtest

  /**
   * The instantiation message. A Rust `String` is modelled by its UTF-8 bytes,
   * which is what `String::len` counts and what hex decoding reads.
   */
  datatype InstantiateMsg = InstantiateMsg(
    network: Network,
    babylonTag: seq<byte>,
    btcConfirmationDepth: u64,
    checkpointFinalizationTimeout: u64,
    notifyCosmosZone: bool,
    btcStakingCodeId: Option<u64>,
    btcStakingMsg: Option<seq<byte>>,
    admin: Option<seq<byte>>)

  /** The two error kinds validation can raise; message texts are not modelled. */
  datatype StdError =
    | InvalidDataSize(expected: nat, actual: nat)
    | InvalidHexTag(tag: seq<byte>)

  /**
   * Decodes the tag as hex; any decoding failure becomes the generic
   * "not a valid hex string" error carrying the tag.
   */
  function BabylonTagToBytes(msg: InstantiateMsg): (r: Result<seq<byte>, StdError>)
    ensures r.Ok? <==> |msg.babylonTag| % 2 == 0 && AllHex(msg.babylonTag)
    ensures r.Ok? ==> PairsDecode(msg.babylonTag, r.value)
    ensures r.Err? ==> r.error == InvalidHexTag(msg.babylonTag)
  {
    match Decode(msg.babylonTag)
    case Ok(bytes) => Ok(bytes)
    case Err(_) => Err(InvalidHexTag(msg.babylonTag))
  }

  /**
   * Validation: the length check comes first and reports expected and actual
   * byte lengths; only a tag of the right length is then hex-decoded.
   */
  function Validate(msg: InstantiateMsg): (r: Result<(), StdError>)
    ensures |msg.babylonTag| != BABYLON_TAG_BYTES * 2 ==>
      r == Err(InvalidDataSize(BABYLON_TAG_BYTES * 2, |msg.babylonTag|))
    ensures |msg.babylonTag| == BABYLON_TAG_BYTES * 2 && !AllHex(msg.babylonTag) ==>
      r == Err(InvalidHexTag(msg.babylonTag))
    ensures r.Ok? <==> |msg.babylonTag| == BABYLON_TAG_BYTES * 2 && AllHex(msg.babylonTag)
  {
    if |msg.babylonTag| != BABYLON_TAG_BYTES * 2 then
      Err(InvalidDataSize(BABYLON_TAG_BYTES * 2, |msg.babylonTag|))
    else
      match BabylonTagToBytes(msg)
      case Err(e) => Err(e)
      case Ok(_) => Ok(())
  }

  /** A validated message yields exactly four bytes, each spelled by one digit pair of the tag. */
  lemma ValidatedTagBytes(msg: InstantiateMsg)
    requires Validate(msg).Ok?
    ensures BabylonTagToBytes(msg).Ok?
    ensures |BabylonTagToBytes(msg).value| == BABYLON_TAG_BYTES
    ensures forall i :: 0 <= i < BABYLON_TAG_BYTES ==>
      BabylonTagToBytes(msg).value[i] as int ==
        16 * HexVal(msg.babylonTag[2 * i]).value as int + HexVal(msg.babylonTag[2 * i + 1]).value as int
  {
  }

  /** Round trip: the hex encoding of any four bytes validates and decodes back to them. */
  lemma {:induction false} TagRoundTrip(tag: seq<byte>, msg: InstantiateMsg)
    requires |tag| == BABYLON_TAG_BYTES && msg.babylonTag == Encode(tag)
    ensures Validate(msg) == Ok(())
    ensures BabylonTagToBytes(msg) == Ok(tag)
  {
    DecodeEncode(tag);
  }

  /** Every tag that validates is, up to letter case, the encoding of the bytes it decodes to. */
  lemma {:induction false} ValidatedTagIsEncoding(msg: InstantiateMsg)
    requires Validate(msg).Ok?
    ensures Encode(BabylonTagToBytes(msg).value) == LowerAscii(msg.babylonTag)
  {
    EncodeDecode(msg.babylonTag, BabylonTagToBytes(msg).value);
  }

  /**
   * Upper-case and mixed-case encodings are accepted too: any tag that
   * lower-cases to the encoding of four bytes validates and decodes to them.
   */
  lemma {:induction false} MixedCaseEncodingValidates(tag: seq<byte>, msg: InstantiateMsg)
    requires |tag| == BABYLON_TAG_BYTES && LowerAscii(msg.babylonTag) == Encode(tag)
    ensures Validate(msg) == Ok(())
    ensures BabylonTagToBytes(msg) == Ok(tag)
  {
    DecodeAnyCase(msg.babylonTag, tag);
  }

  /** Only the tag matters: the other fields of the message never change the outcome. */
  lemma ValidateReadsOnlyTag(m1: InstantiateMsg, m2: InstantiateMsg)
    requires m1.babylonTag == m2.babylonTag
    ensures Validate(m1) == Validate(m2)
    ensures BabylonTagToBytes(m1) == BabylonTagToBytes(m2)
  {
  }
}
