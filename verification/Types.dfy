/** The chain's values: addresses, signatures, transactions, digests, blocks.

    SHA-256 over JSON is idealised by one injective constructor per use, so two
    digests are equal exactly when they digest the same thing. ed25519 is
    idealised by `Signed`, which records who signed what; `salt` keeps distinct
    valid signatures on the same payload apart. */
module Types {
  import opened Wrappers

  type Address = string
  type PublicKey = seq<int>

  datatype Kind = Transfer | Delegate | Undelegate | OtherKind(name: string)

  datatype Payload =
    | TxPayload(kind: Kind, from: Address, to: Address, amount: nat, nonce: int)
    | BlockPayload(hash: Digest)
    | VotePayload(height: int, hash: Digest)

  datatype Signature = Signed(signer: PublicKey, payload: Payload, salt: nat) | Garbage(bytes: string)

  datatype Transaction = Transaction(kind: Kind, from: Address, to: Address, amount: nat, nonce: int,
                                     signature: Signature)

  datatype Digest =
    | ZeroHash                                  // the 32 zero bytes of an empty block's root
    | LeafHash(tx: Transaction)              // prefix 0x00
    | NodeHash(left: Digest, right: Digest)  // prefix 0x01
    | HeaderHash(header: Header)
    | Raw(bytes: string)                     // any other byte string

  /** Everything Block.Hash covers. */
  datatype Header = Header(txRoot: Digest, previousHash: Digest, createdAt: int, height: int,
                           alloc: map<Address, nat>, validators: map<Address, nat>, proposer: Address)

  datatype Block = Block(header: Header, transactions: seq<Transaction>, signature: Signature) {
    function Hash(): Digest {
      HeaderHash(header)
    }
  }

  /** A consensus participant: its address and the key behind it. */
  datatype Validator = Validator(address: Address, key: PublicKey, stake: nat) {
    ghost predicate WellFormed() {
      PubKeyFromAddress(address) == Some(key)
    }
  }

  // ----- addresses -----

  function Elements(order: seq<Address>): set<Address> {
    set a | a in order
  }

  ghost predicate Distinct(order: seq<Address>) {
    forall i, j | 0 <= i < j < |order| :: order[i] != order[j]
  }

  const ADDRESS_PREFIX := "dyl"
  const PUBLIC_KEY_SIZE := 32

  function HexValue(c: char): Option<int> {
    if '0' <= c <= '9' then Some(c as int - '0' as int)
    else if 'a' <= c <= 'f' then Some(c as int - 'a' as int + 10)
    else if 'A' <= c <= 'F' then Some(c as int - 'A' as int + 10)
    else None
  }

  function HexDecode(s: string): Option<seq<int>> {
    if s == "" then Some([])
    else if |s| == 1 then None
    else match (HexValue(s[0]), HexValue(s[1]), HexDecode(s[2..]))
      case (Some(hi), Some(lo), Some(rest)) => Some([16 * hi + lo] + rest)
      case _ => None
  }

  function PubKeyFromAddress(address: Address): Option<PublicKey> {
    if !(ADDRESS_PREFIX <= address) then None
    else match HexDecode(address[|ADDRESS_PREFIX|..])
      case Some(key) => if |key| == PUBLIC_KEY_SIZE then Some(key) else None
      case None => None
  }

  // ----- signatures -----

  function Sign(key: PublicKey, payload: Payload): Signature {
    Signed(key, payload, 0)
  }

  predicate Verify(key: PublicKey, payload: Payload, signature: Signature) {
    signature.Signed? && signature.signer == key && signature.payload == payload
  }

  /** The signature was made by the key behind the address. */
  predicate VerifyFrom(address: Address, payload: Payload, signature: Signature) {
    var key := PubKeyFromAddress(address);
    key.Some? && Verify(key.value, payload, signature)
  }

  function TxPayloadOf(tx: Transaction): Payload {
    TxPayload(tx.kind, tx.from, tx.to, tx.amount, tx.nonce)
  }

  predicate VerifyBlockSignature(b: Block) {
    VerifyFrom(b.header.proposer, BlockPayload(b.Hash()), b.signature)
  }
}
