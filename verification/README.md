# Babylon contract: instantiation-message validation

This project models, in Dafny, how the Babylon contract validates its
instantiation message. The message carries a `babylon_tag`: a hex string that
encodes the four bytes identifying the Babylon zone. `validate` first checks
that the tag is exactly `2 * BABYLON_TAG_BYTES = 8` bytes long. If it is not,
it fails with a size error carrying the expected and the actual length. If it
is, it hex-decodes the tag and fails with a generic "not a valid hex string"
error when decoding fails. `babylon_tag_to_bytes` is that hex decoding.

Modules:

- `Wrappers` (wrappers.dfy): `Option` and `Result`.
- `Hex` (hex.dfy): Base16 as in section 8 of RFC 4648, in the form the Rust
  `hex` crate gives it. `Decode` rejects an odd length before it reads any
  digit. It then reads the digit pairs left to right, high digit first,
  accepts both letter cases, and reports the first byte that is not a digit
  together with its position. `Encode` writes lower-case digits.
- `ContractMsg` (contract_msg.dfy): `InstantiateMsg`, `BABYLON_TAG_BYTES`,
  `BabylonTagToBytes`, `Validate`, and the lemmas about them.

A Rust `String` is modelled by its UTF-8 bytes (`seq<byte>`). This is exact
here: `String::len` counts bytes, and `hex::decode` reads the bytes. A tag
with a non-ASCII character therefore has more bytes than characters, and
always fails, because no byte of a multi-byte UTF-8 sequence is a hex digit.

The code raises two different errors: a size error
`invalid_data_size(8, len)` and a generic hex error. The model keeps them
apart as `InvalidDataSize(expected, actual)` and `InvalidHexTag(tag)`.

## Model

| member | source | states |
|---|---|---|
| `ContractMsg.Validate` | contracts/babylon/src/msg/contract.rs:39-48 | A tag whose byte length is not 8 fails with `InvalidDataSize(8, length)`, whether or not it also holds non-hex bytes: the length check comes first. An 8-byte tag holding a non-hex byte fails with the hex error. Validation succeeds if and only if the tag is 8 bytes long and every byte is a hex digit. |
| `ContractMsg.BabylonTagToBytes` | contracts/babylon/src/msg/contract.rs:50-57 | Decoding succeeds if and only if the tag has even length and only hex digits. On success, each output byte is spelled by one digit pair of the tag. Every failure, odd length or bad digit, becomes the same `InvalidHexTag(tag)` error. |
| `ContractMsg.ValidatedTagBytes` | contracts/babylon/src/msg/contract.rs:39-57 | After a successful validation, decoding returns exactly 4 bytes. Byte i is 16 times the value of tag digit 2i plus the value of tag digit 2i+1. |
| `ContractMsg.TagRoundTrip` | contracts/babylon/src/msg/contract.rs:20-22 | For any 4 bytes, a message whose tag is their hex encoding validates. Decoding its tag returns those 4 bytes. |
| `ContractMsg.ValidatedTagIsEncoding` | contracts/babylon/src/msg/contract.rs:20-22 | Every tag that validates is, up to letter case, the hex encoding of the bytes it decodes to. |
| `ContractMsg.MixedCaseEncodingValidates` | contracts/babylon/src/msg/contract.rs:39-57 | Every tag that lower-cases to the hex encoding of 4 bytes validates, whatever the case of each letter, and decodes to those 4 bytes. With `ValidatedTagIsEncoding`, the accepted tags are exactly the encodings of 4-byte values in any mix of letter case. |
| `ContractMsg.ValidateReadsOnlyTag` | contracts/babylon/src/msg/contract.rs:18-48 | Two messages with the same tag get the same validation and decoding outcome. Network, confirmation depth, finalization timeout, notification flag, staking code id, staking message and admin never change it. |
| `Hex.HexVal` | contracts/babylon/src/msg/contract.rs:51 | A byte has a digit value if and only if it is `0-9`, `A-F` or `a-f`. The value is below 16, and the encoder's digit for that value is the byte lower-cased. |
| `Hex.HexValIgnoresCase` | contracts/babylon/src/msg/contract.rs:51 | Lower-casing a byte never changes its digit value, or whether it has one. |
| `Hex.Decode` | contracts/babylon/src/msg/contract.rs:51 | An odd length gives `OddLength`, and nothing else does. Otherwise decoding succeeds if and only if every byte is a hex digit, and then the output is the byte string the digit pairs spell. On a failure, the error names the first non-digit byte and its position. |
| `Hex.DecodePairs` | contracts/babylon/src/msg/contract.rs:51 | On an even-length input, the pairwise decoding succeeds if and only if every byte is a digit. On success, the output is what the pairs spell. On failure, it reports the first non-digit byte and its position. |
| `Hex.Encode` | contracts/babylon/src/msg/contract.rs:20-22 | The encoding is twice as long as its input. Positions 2i and 2i+1 hold the lower-case digits of the high and the low nibble of byte i. |
| `Hex.DecodeEncode` | contracts/babylon/src/msg/contract.rs:51 | Decoding the encoding of any byte string returns that byte string. |
| `Hex.EncodeDecode` | contracts/babylon/src/msg/contract.rs:51 | Whatever decodes to `b` is, lower-cased, exactly the encoding of `b`. |
| `Hex.DecodeAnyCase` | contracts/babylon/src/msg/contract.rs:51 | Whatever lower-cases to the encoding of `b` decodes to `b`, so upper-case and mixed-case encodings are accepted. |

## Left out

- The Rust `hex` crate is an external dependency. `Hex.Decode` follows
  section 8 of RFC 4648 and the crate's behaviour: length parity first, then
  digits pair by pair, either case, first bad byte reported with its index.
- The text of the error messages is not modelled, only the error kinds and
  their data. The size error keeps the expected and actual lengths. The hex
  error keeps the tag.
- The model does not require the tag's bytes to be valid UTF-8. Validation
  never depends on that, so the model also covers inputs that a Rust `String`
  could not hold.
- `Network` lists the variants of the bitcoin chain-parameters enumeration,
  which comes from a crate that is not part of this model. Validation ignores it.
- `instantiate`, `reply`, `query`, `migrate` and `execute` in
  contracts/babylon/src/contract.rs are host entry points. They do storage
  writes and JSON deserialisation, or nothing at all, and that file does not
  match the message types modelled here.
- `ExecuteMsg` and `QueryMsg` in contracts/babylon/src/msg/contract.rs declare
  message variants and no behaviour. The header-chain validation, fork choice
  and epoch finality they refer to are not part of this model.
- contracts/btc-staking/src/msg.rs declares types only.
- Serialisation derivations and JSON schema generation are plumbing from
  external crates.
