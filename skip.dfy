/**
 * The bundle client of `src/skip/skip.py`: signing an ordered bundle of
 * transactions and framing the JSON-RPC request that submits it to the
 * relay.
 *
 * SHA-256 and the key's `sign_digest` are foreign library calls; they are
 * parameters here (a `Crypto` value), so every property below holds for
 * every hash function with 32-byte output and every signing function.
 * The model stops at the request value handed to the HTTP client: the
 * POST itself, the JSON serialisation done by the client and the response
 * are not modelled.
 */
module Skip {
  import opened Wrappers
  import Base64
  import Decimal

  type byte = Base64.byte

  /** A SHA-256 digest. */
  type Digest = d: seq<byte> | |d| == 32 witness seq(32, _ => 0)

  /** The two foreign operations `sign_bundle` depends on. */
  datatype Crypto = Crypto(
    // hashlib.sha256(data).digest()
    sha256: seq<byte> -> Digest,
    // PrivateKey(private_key).sign_digest(digest)
    signDigest: (seq<byte>, Digest) -> seq<byte>)

  /** What `sign_bundle` returns: the base 64 text of every transaction and the raw signature. */
  datatype SignedBundle = SignedBundle(encodedBundle: seq<string>, signature: seq<byte>)

  /** A JSON value as it occurs in the request (strings and arrays only). */
  datatype Json = JStr(str: string) | JArray(items: seq<Json>)

  /** The request object `send_bundle` builds: `{"jsonrpc", "method", "params", "id"}`. */
  datatype RpcRequest = RpcRequest(jsonrpc: string, rpcMethod: string, params: seq<Json>, id: int)

  /** A request ready to be posted as JSON to `url`. */
  datatype Post = Post(url: string, body: RpcRequest)

  /** The arguments of `send_bundle`, as a relay would read them back from a request. */
  datatype Submission = Submission(
    encodedBundle: seq<string>, signature: seq<byte>, publicKey: string,
    rpcUrl: string, desiredHeight: int, sync: bool)

  const SyncMethod := "broadcast_bundle_sync"
  const AsyncMethod := "broadcast_bundle_async"

  // ---------------------------------------------------------------------
  // sign_bundle

  /** The combined length of all transactions of a bundle. */
  function TotalLength(bundle: seq<seq<byte>>): nat
    decreases |bundle|
  {
    if |bundle| == 0 then 0 else |bundle[0]| + TotalLength(bundle[1..])
  }

  /**
   * `b''.join(bundle)`: the transactions back to back, in bundle order,
   * without delimiter, so nothing but their bytes is added.
   */
  function Concat(bundle: seq<seq<byte>>): (r: seq<byte>)
    ensures |r| == TotalLength(bundle)
    ensures |bundle| > 0 ==> r[..|bundle[0]|] == bundle[0]
    decreases |bundle|
  {
    if |bundle| == 0 then [] else bundle[0] + Concat(bundle[1..])
  }

  /** The relay's view of an encoded bundle: every element decoded, or `None`. */
  function DecodeBundle(encoded: seq<string>): Option<seq<seq<byte>>> {
    if forall i :: 0 <= i < |encoded| ==> Base64.Decode(encoded[i]).Some? then
      Some(seq(|encoded|, i requires 0 <= i < |encoded| => Base64.Decode(encoded[i]).value))
    else None
  }

  /** `[b64encode(tx).decode('utf-8') for tx in bundle]`. */
  function EncodeBundle(bundle: seq<seq<byte>>): (r: seq<string>)
    ensures |r| == |bundle|
    ensures forall i :: 0 <= i < |r| ==> Base64.Decode(r[i]) == Some(bundle[i])
    ensures DecodeBundle(r) == Some(bundle)
  {
    var r := seq(|bundle|, i requires 0 <= i < |bundle| => Base64.Encode(bundle[i]));
    assert forall i :: 0 <= i < |r| ==> Base64.Decode(r[i]) == Some(bundle[i]) by {
      forall i | 0 <= i < |r| ensures Base64.Decode(r[i]) == Some(bundle[i]) {
        Base64.DecodeEncode(bundle[i]);
      }
    }
    assert DecodeBundle(r).value == bundle;
    r
  }

  /**
   * `sign_bundle(bundle, private_key)`: the signature covers the SHA-256
   * digest of the concatenated bundle and is returned raw; the
   * transactions are returned base 64 encoded, in order.
   */
  function SignBundle(bundle: seq<seq<byte>>, privateKey: seq<byte>, crypto: Crypto): (r: SignedBundle)
    ensures r.signature == crypto.signDigest(privateKey, crypto.sha256(Concat(bundle)))
    ensures |r.encodedBundle| == |bundle|
    ensures DecodeBundle(r.encodedBundle) == Some(bundle)
  {
    var digest := crypto.sha256(Concat(bundle));
    var signature := crypto.signDigest(privateKey, digest);
    SignedBundle(EncodeBundle(bundle), signature)
  }

  // ---------------------------------------------------------------------
  // send_bundle

  /** The broadcast method chosen by the `sync` flag. */
  function BroadcastMethod(sync: bool): (m: string)
    ensures m == SyncMethod <==> sync
    ensures m == AsyncMethod <==> !sync
  {
    if sync then SyncMethod else AsyncMethod
  }

  /** The strings of a JSON array of strings, or `None` for any other value. */
  function AsStrings(j: Json): Option<seq<string>> {
    match j
    case JStr(_) => None
    case JArray(items) =>
      if forall i :: 0 <= i < |items| ==> items[i].JStr? then
        Some(seq(|items|, i requires 0 <= i < |items| => items[i].str))
      else None
  }

  /** A Python list of `str` as a JSON array, which reads back as the same list. */
  function StringList(xs: seq<string>): (j: Json)
    ensures AsStrings(j) == Some(xs)
  {
    var j := JArray(seq(|xs|, i requires 0 <= i < |xs| => JStr(xs[i])));
    assert AsStrings(j).value == xs;
    j
  }

  /**
   * The request `send_bundle` posts to `rpc_url`: JSON-RPC 2.0 with id 1,
   * the method chosen by `sync`, and the positional parameters
   * `[encoded bundle, str(desired_height), public key, b64encode(signature)]`.
   * Each parameter gives back exactly the argument it was made from.
   */
  function SendBundle(encodedBundle: seq<string>, signature: seq<byte>, publicKey: string,
                      rpcUrl: string, desiredHeight: int, sync: bool): (p: Post)
    ensures p.url == rpcUrl
    ensures p.body.jsonrpc == "2.0" && p.body.id == 1
    ensures p.body.rpcMethod == BroadcastMethod(sync)
    ensures p.body.rpcMethod == SyncMethod <==> sync
    ensures |p.body.params| == 4
    ensures AsStrings(p.body.params[0]) == Some(encodedBundle)
    ensures p.body.params[1].JStr? && Decimal.ParseDecimal(p.body.params[1].str) == Some(desiredHeight)
    ensures p.body.params[2] == JStr(publicKey)
    ensures p.body.params[3].JStr? && Base64.Decode(p.body.params[3].str) == Some(signature)
  {
    Decimal.ParseIntToDecimal(desiredHeight);
    Base64.DecodeEncode(signature);
    var params := [StringList(encodedBundle), JStr(Decimal.IntToDecimal(desiredHeight)),
                   JStr(publicKey), JStr(Base64.Encode(signature))];
    Post(rpcUrl, RpcRequest("2.0", BroadcastMethod(sync), params, 1))
  }

  /**
   * How a relay reads a bundle request: `None` unless it has exactly the
   * shape `SendBundle` produces.
   */
  function ReadBundleRequest(p: Post): Option<Submission> {
    var body := p.body;
    if body.jsonrpc != "2.0" || body.id != 1 || |body.params| != 4 then None
    else if body.rpcMethod != SyncMethod && body.rpcMethod != AsyncMethod then None
    else if !body.params[1].JStr? || !body.params[2].JStr? || !body.params[3].JStr? then None
    else
      match (AsStrings(body.params[0]), Decimal.ParseDecimal(body.params[1].str),
             Base64.Decode(body.params[3].str))
      case (Some(encoded), Some(height), Some(signature)) =>
        Some(Submission(encoded, signature, body.params[2].str, p.url, height, body.rpcMethod == SyncMethod))
      case _ => None
  }

  // ---------------------------------------------------------------------
  // sign_and_send_bundle

  /**
   * `sign_and_send_bundle`: `send_bundle` applied to what `sign_bundle`
   * returns. A relay reading the request recovers the bundle itself, the
   * signature over the digest of its concatenation, and every other
   * argument unchanged.
   */
  function SignAndSendBundle(bundle: seq<seq<byte>>, privateKey: seq<byte>, publicKey: string,
                             rpcUrl: string, desiredHeight: int, sync: bool, crypto: Crypto): (p: Post)
    ensures ReadBundleRequest(p).Some?
    ensures var sub := ReadBundleRequest(p).value;
      && DecodeBundle(sub.encodedBundle) == Some(bundle)
      && sub.signature == crypto.signDigest(privateKey, crypto.sha256(Concat(bundle)))
      && sub.publicKey == publicKey && sub.rpcUrl == rpcUrl
      && sub.desiredHeight == desiredHeight && sub.sync == sync
  {
    var signed := SignBundle(bundle, privateKey, crypto);
    ReadSendBundle(signed.encodedBundle, signed.signature, publicKey, rpcUrl, desiredHeight, sync);
    SendBundle(signed.encodedBundle, signed.signature, publicKey, rpcUrl, desiredHeight, sync)
  }

  // ---------------------------------------------------------------------
  // Properties of the bundle digest

  /** Joining two bundles joins their concatenations. */
  lemma {:induction false} ConcatAppend(a: seq<seq<byte>>, b: seq<seq<byte>>)
    ensures Concat(a + b) == Concat(a) + Concat(b)
    decreases |a|
  {
    if |a| > 0 {
      ConcatAppend(a[1..], b);
      assert (a + b)[0] == a[0] && (a + b)[1..] == a[1..] + b;
      assert Concat(a + b) == a[0] + Concat(a[1..] + b);
    } else {
      assert a + b == b;
    }
  }

  /**
   * Order preservation: transaction `i` occupies the bytes of the digested
   * data that directly follow all transactions before it.
   */
  lemma ConcatPlacement(bundle: seq<seq<byte>>, i: nat)
    requires i < |bundle|
    ensures var start := |Concat(bundle[..i])|;
      start + |bundle[i]| <= |Concat(bundle)|
      && Concat(bundle)[start..start + |bundle[i]|] == bundle[i]
  {
    assert bundle == bundle[..i] + ([bundle[i]] + bundle[i + 1..]);
    ConcatAppend(bundle[..i], [bundle[i]] + bundle[i + 1..]);
    ConcatAppend([bundle[i]], bundle[i + 1..]);
    assert Concat([bundle[i]]) == bundle[i];
  }

  /** An empty bundle is signed over the digest of the empty byte string. */
  lemma EmptyBundle(privateKey: seq<byte>, crypto: Crypto)
    ensures SignBundle([], privateKey, crypto) == SignedBundle([], crypto.signDigest(privateKey, crypto.sha256([])))
  {
  }

  /**
   * The signature covers only the concatenation, not where one transaction
   * ends and the next begins: two different bundles with the same
   * concatenation carry the same signature under every hash and key, while
   * their encoded bundles differ.
   */
  lemma SignatureIgnoresBoundaries(a: seq<seq<byte>>, b: seq<seq<byte>>, privateKey: seq<byte>, crypto: Crypto)
    requires Concat(a) == Concat(b) && a != b
    ensures var x, y := SignBundle(a, privateKey, crypto), SignBundle(b, privateKey, crypto);
      x.signature == y.signature && x.encodedBundle != y.encodedBundle
  {
  }

  /** Such bundles exist: `[0x01 0x02, 0x03]` and `[0x01, 0x02 0x03]`. */
  lemma BoundaryWitness()
    ensures var a: seq<seq<byte>>, b: seq<seq<byte>> := [[1, 2], [3]], [[1], [2, 3]];
      Concat(a) == Concat(b) && a != b
  {
    var a: seq<seq<byte>> := [[1, 2], [3]];
    var b: seq<seq<byte>> := [[1], [2, 3]];
    assert Concat(a) == [1, 2, 3] == Concat(b);
  }

  lemma TxEncodings()
    ensures Base64.Encode([116, 120, 49]) == "dHgx" && Base64.Encode([116, 120, 50]) == "dHgy"
  {
    assert Base64.Sextets([116, 120, 49]) == [29, 7, 32, 49];
    assert Base64.ToChars([29, 7, 32, 49]) == "dHgx";
    assert Base64.Sextets([116, 120, 50]) == [29, 7, 32, 50];
    assert Base64.ToChars([29, 7, 32, 50]) == "dHgy";
  }

  /** The scenario of two transactions `b"tx1"` and `b"tx2"`. */
  lemma TwoTransactions(privateKey: seq<byte>, crypto: Crypto)
    ensures SignBundle([[116, 120, 49], [116, 120, 50]], privateKey, crypto)
         == SignedBundle(["dHgx", "dHgy"], crypto.signDigest(privateKey, crypto.sha256([116, 120, 49, 116, 120, 50])))
  {
    var tx1: seq<byte>, tx2: seq<byte> := [116, 120, 49], [116, 120, 50];
    TxEncodings();
    var e := EncodeBundle([tx1, tx2]);
    assert e[0] == "dHgx" && e[1] == "dHgy";
    assert e == ["dHgx", "dHgy"];
    assert [tx1, tx2][1..] == [tx2] && Concat([tx2]) == tx2;
    var joined := Concat([tx1, tx2]);
    assert joined == tx1 + tx2 == [116, 120, 49, 116, 120, 50];
    var r := SignBundle([tx1, tx2], privateKey, crypto);
    assert r.encodedBundle == e;
    assert r.signature == crypto.signDigest(privateKey, crypto.sha256(joined));
  }

  // ---------------------------------------------------------------------
  // Properties of the request framing

  /** A relay reading a framed request gets back every argument of `send_bundle`. */
  lemma ReadSendBundle(encodedBundle: seq<string>, signature: seq<byte>, publicKey: string,
                       rpcUrl: string, desiredHeight: int, sync: bool)
    ensures ReadBundleRequest(SendBundle(encodedBundle, signature, publicKey, rpcUrl, desiredHeight, sync))
         == Some(Submission(encodedBundle, signature, publicKey, rpcUrl, desiredHeight, sync))
  {
  }

  lemma StringListAsStrings(j: Json, xs: seq<string>)
    requires AsStrings(j) == Some(xs)
    ensures StringList(xs) == j
  {
    assert StringList(xs).items == j.items;
  }

  /** Every request the relay accepts is one that `send_bundle` frames. */
  lemma SendBundleRead(p: Post, sub: Submission)
    requires ReadBundleRequest(p) == Some(sub)
    ensures SendBundle(sub.encodedBundle, sub.signature, sub.publicKey, sub.rpcUrl, sub.desiredHeight, sub.sync) == p
  {
    var params := p.body.params;
    StringListAsStrings(params[0], sub.encodedBundle);
    Decimal.IntToDecimalParse(params[1].str, sub.desiredHeight);
    Base64.EncodeDecode(params[3].str, sub.signature);
    assert params == [params[0], params[1], params[2], params[3]];
  }

  /** Flipping `sync` changes the method and nothing else in the request. */
  lemma SyncChangesOnlyMethod(encodedBundle: seq<string>, signature: seq<byte>, publicKey: string,
                              rpcUrl: string, desiredHeight: int)
    ensures var s, a := SendBundle(encodedBundle, signature, publicKey, rpcUrl, desiredHeight, true),
                        SendBundle(encodedBundle, signature, publicKey, rpcUrl, desiredHeight, false);
      s.body.rpcMethod == SyncMethod && a.body.rpcMethod == AsyncMethod
      && s == a.(body := a.body.(rpcMethod := SyncMethod))
  {
  }

  /** A desired height of 0 travels as the string "0". */
  lemma HeightZero(encodedBundle: seq<string>, signature: seq<byte>, publicKey: string, rpcUrl: string, sync: bool)
    ensures SendBundle(encodedBundle, signature, publicKey, rpcUrl, 0, sync).body.params[1] == JStr("0")
  {
  }

  /** `sign_and_send_bundle` frames exactly what `send_bundle` frames for `sign_bundle`'s outputs. */
  lemma SignAndSendIsComposition(bundle: seq<seq<byte>>, privateKey: seq<byte>, publicKey: string,
                                 rpcUrl: string, desiredHeight: int, sync: bool, crypto: Crypto)
    ensures var signed := SignBundle(bundle, privateKey, crypto);
      SignAndSendBundle(bundle, privateKey, publicKey, rpcUrl, desiredHeight, sync, crypto)
      == SendBundle(signed.encodedBundle, signed.signature, publicKey, rpcUrl, desiredHeight, sync)
  {
  }
}
