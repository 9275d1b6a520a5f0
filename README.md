# Skip bundle client — a Dafny model

This project models the bundle client of the Skip Python library
(`src/skip/skip.py`). The client turns an ordered bundle of opaque
transaction byte strings into a JSON-RPC 2.0 request for Skip's relay:

1. `sign_bundle` joins the transactions in order with no delimiter, hashes
   the result with SHA-256, signs the digest with the private key, and base 64
   encodes every transaction (section 4 of RFC 4648), keeping the order;
2. `send_bundle` picks `broadcast_bundle_sync` or `broadcast_bundle_async`
   from the `sync` flag and builds the request
   `{"jsonrpc": "2.0", "method": ..., "params": [encoded bundle, str(desired_height), public key, base64(signature)], "id": 1}`
   that it posts to `rpc_url`;
3. `sign_and_send_bundle` feeds the outputs of the first into the second.

Files:

- `wrappers.dfy` — `Option`.
- `base64.dfy` — module `Base64`: the encoder of RFC 4648 section 4 (what
  `b64encode(..).decode("utf-8")` computes), written as bytes → 6-bit values →
  alphabet characters plus `=` padding, and a strict decoder. The decoder is
  the exact inverse of the encoder (`DecodeIffEncode`).
- `decimal.dfy` — module `Decimal`: Python's `str` on an `int` (without the interpreter's digit-count limit, see below) and a strict
  parser that is its exact inverse (`ParseIffRender`).
- `skip.dfy` — module `Skip`: `SignBundle`, `SendBundle`,
  `SignAndSendBundle`, the request datatypes, and a reader
  `ReadBundleRequest` that stands for the relay's side: it takes a request
  apart again. Framing and reading are proved inverse to each other
  (`ReadSendBundle`, `SendBundleRead`).

SHA-256 and `PrivateKey(private_key).sign_digest` are foreign calls. They
are the two fields of a `Crypto` parameter: `sha256` returns a 32-byte
`Digest`, and `signDigest` maps (key bytes, digest) to signature bytes.
Every property holds for every such pair of functions. The model stops at
the `Post(url, request)` value handed to the HTTP client.

One property worth knowing about: there is no delimiter, so the signature
binds only the concatenated bytes, not the boundaries between transactions.
`SignatureIgnoresBoundaries` shows that any two different bundles with the
same concatenation, such as `[0x01 0x02, 0x03]` and `[0x01, 0x02 0x03]`
(`BoundaryWitness`), get the same signature under every hash and key, while
their encoded bundles differ. The code clearly means to join without a
delimiter, so this is recorded as a property, not as a bug.

## Model

| member | source | states |
|---|---|---|
| `Skip.Concat` | src/skip/skip.py:12 | `b''.join(bundle)` adds nothing between transactions: its length is the sum of their lengths and it starts with the first transaction; `ConcatAppend` and `ConcatPlacement` place every other one. |
| `Skip.ConcatAppend` | src/skip/skip.py:12 | Joining two bundles and then concatenating equals concatenating each and joining the results, so the digested data is the transactions back to back in bundle order. |
| `Skip.ConcatPlacement` | src/skip/skip.py:12 | Transaction `i` sits in the digested data at the offset given by the total length of the transactions before it, byte for byte (order preservation). |
| `Skip.EncodeBundle` | src/skip/skip.py:21 | The encoded list has one entry per transaction, entry `i` decodes to exactly `bundle[i]`, and the whole list decodes back to the bundle. |
| `Skip.SignBundle` | src/skip/skip.py:8-24 | The raw signature is `signDigest(key, sha256(Concat(bundle)))`, not base 64 encoded. The encoded list has the bundle's length and decodes back to the bundle, in order. |
| `Skip.EmptyBundle` | src/skip/skip.py:12-24 | An empty bundle gives an empty encoded list and a signature over the digest of the empty byte string. |
| `Skip.SignatureIgnoresBoundaries` | src/skip/skip.py:12-21 | Two different bundles with the same concatenation get the same signature for every hash and key, and different encoded lists. |
| `Skip.BoundaryWitness` | src/skip/skip.py:12 | Such bundles exist: `[0x01 0x02, 0x03]` and `[0x01, 0x02 0x03]` differ and have the same concatenation. |
| `Skip.TwoTransactions` | src/skip/skip.py:12-24 | For `[b"tx1", b"tx2"]` the encoded list is `["dHgx", "dHgy"]` and the signature is over the digest of `b"tx1tx2"`. |
| `Skip.BroadcastMethod` | src/skip/skip.py:35-38 | The method is `broadcast_bundle_sync` if and only if `sync` holds, and `broadcast_bundle_async` if and only if it does not. |
| `Skip.StringList` | src/skip/skip.py:43 | The encoded list placed in `params[0]` reads back, through the independent reader `AsStrings`, as exactly that list. |
| `Skip.SendBundle` | src/skip/skip.py:27-47 | The request goes to `rpc_url`, has `jsonrpc` "2.0" and `id` 1, and its method is the sync one iff `sync`. It has exactly four parameters in order: the encoded list unchanged, a decimal string that parses to `desired_height`, the public key unchanged, and a base 64 string that decodes to the raw signature. |
| `Skip.ReadSendBundle` | src/skip/skip.py:35-47 | A relay that reads a framed request recovers every argument of `send_bundle` exactly. |
| `Skip.StringListAsStrings` | src/skip/skip.py:43 | A JSON value that reads as a list of strings is the array built from that list. |
| `Skip.SendBundleRead` | src/skip/skip.py:35-47 | Every request the reader accepts is the one `send_bundle` frames from the arguments read, so framing is a bijection onto well-formed requests. |
| `Skip.SyncChangesOnlyMethod` | src/skip/skip.py:35-47 | Flipping only `sync` changes only the `method` field of the request. |
| `Skip.HeightZero` | src/skip/skip.py:44 | A desired height of 0 is sent as the string "0". |
| `Skip.SignAndSendBundle` | src/skip/skip.py:56-75 | A relay that reads the request recovers the bundle itself, the signature over the digest of its concatenation, the public key, URL, height and sync flag. |
| `Skip.SignAndSendIsComposition` | src/skip/skip.py:64-72 | `sign_and_send_bundle` frames the same request as `send_bundle` on `sign_bundle`'s two outputs, with the same other arguments. |
| `Base64.CharOf` | src/skip/skip.py:21 | Every 6-bit value is written as a character of the RFC 4648 alphabet. |
| `Base64.ValueOf` | src/skip/skip.py:21 | Every alphabet character stands for a 6-bit value, and writing that value gives the character back. |
| `Base64.Padding` | src/skip/skip.py:21 | At most two pad characters, none exactly when the length is a multiple of three, and together with the 6-bit values they fill whole groups of four. |
| `Base64.Sextets` | src/skip/skip.py:21 | Bytes are cut into `4*(n/3)` values plus 2 or 3 for a final partial group. |
| `Base64.ToSextets` | src/skip/skip.py:21 | Reading alphabet characters as values and writing them again gives the same text. |
| `Base64.Encode` | src/skip/skip.py:21 | `b64encode(..).decode("utf-8")`: `4*ceil(n/3)` characters, alphabet characters followed by exactly `Padding(n)` '=' characters; `DecodeIffEncode` states that the strict decoder inverts it exactly. |
| `Base64.FromSextetsSextets` | src/skip/skip.py:21 | Cutting bytes into 6-bit values loses nothing: regrouping them gives the bytes back. |
| `Base64.SextetsFromSextets` | src/skip/skip.py:21 | Any run of 6-bit values that regroups into bytes is exactly the cutting of those bytes. |
| `Base64.PaddingDetermined` | src/skip/skip.py:21 | The number of pad characters is fixed by the number of 6-bit values in a whole number of groups. |
| `Base64.DecodeEncode` | src/skip/skip.py:21 | Decoding the encoding of any byte string gives that byte string. |
| `Base64.EncodeDecode` | src/skip/skip.py:46 | Whatever the strict decoder accepts is the encoding of what it returns. |
| `Base64.DecodeIffEncode` | src/skip/skip.py:21 | `Decode(s) == Some(b)` if and only if `Encode(b) == s`. |
| `Base64.EncodeInjective` | src/skip/skip.py:21 | Different byte strings have different encodings. |
| `Base64.TestVectorsOneGroup` | src/skip/skip.py:21 | The encoder gives the test vectors of section 10 of RFC 4648 of at most three bytes: "", "Zg==", "Zm8=", "Zm9v". |
| `Base64.TestVectorsTwoGroups` | src/skip/skip.py:21 | The encoder gives the remaining test vectors of section 10 of RFC 4648: "Zm9vYg==", "Zm9vYmE=", "Zm9vYmFy". |
| `Base64.TestVectorStandardAlphabet` | src/skip/skip.py:21 | Sextets 62 and 63 are written '+' and '/', the standard alphabet of section 4 of RFC 4648 rather than the URL-safe one: `[0xfb, 0xff]` encodes as "+/8=". |
| `Decimal.IntToDecimal` | src/skip/skip.py:44 | `str(desired_height)`: the canonical digits of the magnitude, preceded by '-' exactly for negative values; `ParseIffRender` states that parsing inverts it exactly. |
| `Decimal.NatToDecimal` | src/skip/skip.py:44 | A natural number renders as a non-empty digit string with no leading zero. |
| `Decimal.DigitsValueNatToDecimal` | src/skip/skip.py:44 | The digits of a rendered natural number have that number's value. |
| `Decimal.ParseIntToDecimal` | src/skip/skip.py:44 | `str(n)` parses back to `n`, negative values included. |
| `Decimal.IntToDecimalParse` | src/skip/skip.py:44 | Every numeral the parser accepts is the rendering of the value it parses to. |
| `Decimal.ParseIffRender` | src/skip/skip.py:44 | Parsing `s` gives `n` if and only if `str(n)` is `s`. |
| `Decimal.Examples` | src/skip/skip.py:44 | `str(0)` is "0", `str(1234)` is "1234", `str(-15)` is "-15". |

## Left out

- The HTTP POST (`httpx.post`, src/skip/skip.py:50) and the response that `send_bundle` and `sign_and_send_bundle` return (src/skip/skip.py:53, src/skip/skip.py:75). This is network I/O. The model ends at the `Post` value: target URL plus request object.
- JSON serialisation of the request dictionary. It happens inside the HTTP client, so the request is a datatype, not bytes.
- `PrivateKey(private_key)` and `sign_digest` (src/skip/skip.py:15, src/skip/skip.py:18). These are foreign ECDSA/secp256k1 calls and are modelled as the opaque function `Crypto.signDigest`. Any failure on a malformed key is raised inside that library and is not modelled.
- SHA-256 internals (src/skip/skip.py:12). This is a library call, modelled as the opaque function `Crypto.sha256`; the only fact used is the 32-byte output length, carried by the `Digest` type.
- The return annotation `-> str` of `sign_and_send_bundle` (src/skip/skip.py:61) is wrong: the function returns the HTTP response. Only the framed request is modelled.
- `src/skip/skip.py` has no single-transaction submission, and `httpx.post` is called with no timeout or redirect argument; neither is modelled.
- `examples/example.py` (wallet derivation, chain queries, transaction construction, printing) and `setup.py` (packaging). They contain no logic of the client.
- `Base64.Decode` is stricter than Python's `b64decode`: it rejects non-canonical padding bits and characters outside the alphabet. It is not part of the source. It is the reference that states what the encoder's output means.
- Decimal.IntToDecimal: renders every integer, while Python 3.11 and later (and the patched 3.9 and 3.10 releases) raise `ValueError` in `str` for an `int` of more than `sys.get_int_max_str_digits()` decimal digits (4300 by default). That error path of `str(desired_height)` (src/skip/skip.py:44) is not modelled, so `ParseIntToDecimal` also covers heights at which the source raises. The limit is an interpreter setting, not part of this code.
- Skip.SignBundle: `Crypto.signDigest` is a function, so the model assumes that `sign_digest` is deterministic, as signing with RFC 6979 nonces is. That property belongs to the key library, not to this code. The equal signatures in `SignatureIgnoresBoundaries` and the signature equation of `SignBundle` rest on it.
