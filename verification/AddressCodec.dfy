/**
 The v2 address codec: `encode_address` and `decode_address`.

 A Ristretto public key is its canonical 32-byte encoding (section 4.3.1 of RFC 9496 decodes each point
 from exactly one string), so a key is a byte string accepted by `point`, an arbitrary predicate.
 */
module AddressCodec {
  import opened Machine
  import Base58

  type Bytes = seq<U8>

  const RISTRETTO_LEN: nat := 32
  const ML_KEM_768_PUBLIC_KEY_LEN: nat := 1184
  const ML_DSA_65_PUBLIC_KEY_LEN: nat := 1952
  const ADDRESS_BODY_LEN: nat := RISTRETTO_LEN * 2 + ML_KEM_768_PUBLIC_KEY_LEN + ML_DSA_65_PUBLIC_KEY_LEN
  const SPEND_START: nat := RISTRETTO_LEN
  const KEM_START: nat := SPEND_START + RISTRETTO_LEN
  const DSA_START: nat := KEM_START + ML_KEM_768_PUBLIC_KEY_LEN

  const MAINNET_PREFIX: string := "botho://2/"
  const TESTNET_PREFIX: string := "tbotho://2/"
  const MAINNET_V1_PREFIX: string := "botho://1/"
  const TESTNET_V1_PREFIX: string := "tbotho://1/"
  const MAINNET_QUANTUM_PREFIX: string := "botho://1q/"
  const TESTNET_QUANTUM_PREFIX: string := "tbotho://1q/"
  const LEGACY_QUANTUM_PREFIX: string := "botho-pq://1/"

  datatype Network = Mainnet | Testnet

  datatype Address = Address(view: Bytes, spend: Bytes, kem: Bytes, dsa: Bytes)

  datatype CodecError =
    | RetiredQuantumAddress
    | RetiredV1Address
    | UnknownPrefix
    | InvalidBase58
    | WrongBodyLength(actual: nat)
    | InvalidViewKey
    | InvalidSpendKey
    | MissingPqKeys(kemLen: nat, dsaLen: nat)

  function V2Prefix(network: Network): string {
    match network
    case Mainnet => MAINNET_PREFIX
    case Testnet => TESTNET_PREFIX
  }

  /** A public address: both classical keys are points. */
  predicate IsAddress(a: Address, point: Bytes -> bool) {
    |a.view| == RISTRETTO_LEN && |a.spend| == RISTRETTO_LEN && point(a.view) && point(a.spend)
  }

  predicate HasPqKeys(a: Address) {
    |a.kem| == ML_KEM_768_PUBLIC_KEY_LEN && |a.dsa| == ML_DSA_65_PUBLIC_KEY_LEN
  }

  function Body(a: Address): Bytes {
    a.view + (a.spend + (a.kem + a.dsa))
  }

  function AddressString(a: Address, network: Network): string {
    V2Prefix(network) + Base58.Encode(Body(a))
  }

  method EncodeAddress(a: Address, network: Network) returns (r: Result<string, CodecError>)
    ensures r == if HasPqKeys(a) then Ok(AddressString(a, network)) else Err(MissingPqKeys(|a.kem|, |a.dsa|))
  {
    if |a.kem| != ML_KEM_768_PUBLIC_KEY_LEN || |a.dsa| != ML_DSA_65_PUBLIC_KEY_LEN {
      return Err(MissingPqKeys(|a.kem|, |a.dsa|));
    }
    var body := a.view;
    body := body + a.spend;
    body := body + a.kem;
    body := body + a.dsa;
    assert body == Body(a);
    return Ok(V2Prefix(network) + Base58.Encode(body));
  }

  // ----- trimming -----

  /** Unicode white space, as `str::trim` strips it. */
  predicate IsSpace(c: char) {
    || '\t' <= c <= '\r' || c == ' ' || c == '\U{0085}' || c == '\U{00A0}' || c == '\U{1680}'
    || '\U{2000}' <= c <= '\U{200A}' || c == '\U{2028}' || c == '\U{2029}' || c == '\U{202F}'
    || c == '\U{205F}' || c == '\U{3000}'
  }

  function TrimStart(s: string): string {
    if s != [] && IsSpace(s[0]) then TrimStart(s[1..]) else s
  }

  function TrimEnd(s: string): string {
    if s != [] && IsSpace(s[|s| - 1]) then TrimEnd(s[..|s| - 1]) else s
  }

  function Trim(s: string): string {
    TrimEnd(TrimStart(s))
  }

  // ----- decoding -----

  predicate IsRetiredQuantum(s: string) {
    MAINNET_QUANTUM_PREFIX <= s || TESTNET_QUANTUM_PREFIX <= s || LEGACY_QUANTUM_PREFIX <= s
  }

  predicate IsRetiredV1(s: string) {
    MAINNET_V1_PREFIX <= s || TESTNET_V1_PREFIX <= s
  }

  predicate IsV2(s: string) {
    MAINNET_PREFIX <= s || TESTNET_PREFIX <= s
  }

  function DecodeBody(body: Bytes, network: Network, point: Bytes -> bool): Result<(Address, Network), CodecError> {
    if |body| != ADDRESS_BODY_LEN then Err(WrongBodyLength(|body|))
    else if !point(body[..SPEND_START]) then Err(InvalidViewKey)
    else if !point(body[SPEND_START..KEM_START]) then Err(InvalidSpendKey)
    else
      Ok((Address(body[..SPEND_START], body[SPEND_START..KEM_START], body[KEM_START..DSA_START], body[DSA_START..]),
          network))
  }

  function DecodeEncoded(encoded: string, network: Network, point: Bytes -> bool): Result<(Address, Network),
                         CodecError> {
    match Base58.Decode(encoded)
    case None => Err(InvalidBase58)
    case Some(body) => DecodeBody(body, network, point)
  }

  function DecodeTrimmed(s: string, point: Bytes -> bool): Result<(Address, Network), CodecError> {
    if IsRetiredQuantum(s) then Err(RetiredQuantumAddress)
    else if IsRetiredV1(s) then Err(RetiredV1Address)
    else if TESTNET_PREFIX <= s then DecodeEncoded(s[|TESTNET_PREFIX|..], Testnet, point)
    else if MAINNET_PREFIX <= s then DecodeEncoded(s[|MAINNET_PREFIX|..], Mainnet, point)
    else Err(UnknownPrefix)
  }

  function DecodeAddress(s: string, point: Bytes -> bool): Result<(Address, Network), CodecError> {
    DecodeTrimmed(Trim(s), point)
  }

  // ----- prefixes -----

  /** The three prefix classes are disjoint, and so are the two networks: the order in which the decoder
      tests them does not matter. */
  lemma PrefixClassesDisjoint(s: string)
    ensures !(IsRetiredQuantum(s) && IsRetiredV1(s))
    ensures !(IsRetiredQuantum(s) && IsV2(s))
    ensures !(IsRetiredV1(s) && IsV2(s))
    ensures !(MAINNET_PREFIX <= s && TESTNET_PREFIX <= s)
  {
    PinPrefix(MAINNET_PREFIX, s);
    PinPrefix(TESTNET_PREFIX, s);
    PinPrefix(MAINNET_V1_PREFIX, s);
    PinPrefix(TESTNET_V1_PREFIX, s);
    PinPrefix(MAINNET_QUANTUM_PREFIX, s);
    PinPrefix(TESTNET_QUANTUM_PREFIX, s);
    PinPrefix(LEGACY_QUANTUM_PREFIX, s);
  }

  /** The positions that tell the seven prefixes apart. */
  lemma PinPrefix(p: string, s: string)
    requires |p| >= 10
    ensures p <= s ==> |s| >= 10 && s[0] == p[0] && s[5] == p[5] && s[8] == p[8] && s[9] == p[9]
    ensures p <= s && |p| > 10 ==> |s| > 10 && s[10] == p[10]
  {
  }

  // ----- round trips -----

  lemma BodyParts(a: Address)
    requires |a.view| == RISTRETTO_LEN && |a.spend| == RISTRETTO_LEN && HasPqKeys(a)
    ensures var b := Body(a);
            && |b| == ADDRESS_BODY_LEN
            && b[..SPEND_START] == a.view && b[SPEND_START..KEM_START] == a.spend
            && b[KEM_START..DSA_START] == a.kem && b[DSA_START..] == a.dsa
  {
  }

  lemma PartsBody(b: Bytes)
    requires |b| == ADDRESS_BODY_LEN
    ensures Body(Address(b[..SPEND_START], b[SPEND_START..KEM_START], b[KEM_START..DSA_START], b[DSA_START..])) == b
  {
  }

  lemma AlphabetHasNoSpace(c: char)
    requires Base58.DigitOf(c).Some?
    ensures !IsSpace(c)
  {
  }

  /** An address string has nothing to trim. */
  lemma AddressStringTrimmed(a: Address, network: Network)
    requires HasPqKeys(a)
    ensures Trim(AddressString(a, network)) == AddressString(a, network)
  {
    var s := AddressString(a, network);
    var encoded := Base58.Encode(Body(a));
    Base58.EncodeShape(Body(a));
    assert s[0] == V2Prefix(network)[0];
    assert s[|s| - 1] == encoded[|encoded| - 1];
    AlphabetHasNoSpace(encoded[|encoded| - 1]);
  }

  /** Decoding undoes encoding, on both networks. */
  lemma DecodeEncodeAddress(a: Address, network: Network, point: Bytes -> bool)
    requires IsAddress(a, point) && HasPqKeys(a)
    ensures DecodeAddress(AddressString(a, network), point) == Ok((a, network))
  {
    var s := AddressString(a, network);
    AddressStringTrimmed(a, network);
    assert V2Prefix(network) <= s;
    PrefixClassesDisjoint(s);
    assert s[|V2Prefix(network)|..] == Base58.Encode(Body(a));
    Base58.DecodeEncode(Body(a));
    BodyParts(a);
  }

  /** Every string that decodes is, once trimmed, exactly the encoding of what it decodes to. */
  lemma EncodeDecodeAddress(s: string, point: Bytes -> bool)
    requires DecodeAddress(s, point).Ok?
    ensures var (a, network) := DecodeAddress(s, point).value;
            IsAddress(a, point) && HasPqKeys(a) && AddressString(a, network) == Trim(s)
  {
    var t := Trim(s);
    var network := if TESTNET_PREFIX <= t then Testnet else Mainnet;
    var encoded := t[|V2Prefix(network)|..];
    assert t == V2Prefix(network) + encoded;
    Base58.EncodeDecode(encoded);
    PartsBody(Base58.Decode(encoded).value);
  }

  /** So the decodable strings are exactly the encodings of addresses, up to surrounding white space. */
  lemma DecodesIffEncoding(s: string, point: Bytes -> bool)
    ensures DecodeAddress(s, point).Ok? <==>
            exists a, network :: IsAddress(a, point) && HasPqKeys(a) && AddressString(a, network) == Trim(s)
  {
    if DecodeAddress(s, point).Ok? {
      EncodeDecodeAddress(s, point);
      var (a, network) := DecodeAddress(s, point).value;
      assert AddressString(a, network) == Trim(s);
    }
    if exists a, network :: IsAddress(a, point) && HasPqKeys(a) && AddressString(a, network) == Trim(s) {
      var a, network :| IsAddress(a, point) && HasPqKeys(a) && AddressString(a, network) == Trim(s);
      DecodeEncodeAddress(a, network, point);
      AddressStringTrimmed(a, network);
    }
  }
}
