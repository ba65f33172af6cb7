/** Addresses and the keys they name. */
module AddressCodes {
  import opened Wrappers
  import opened Types

  function HexDigit(d: int): char
    requires 0 <= d < 16
  {
    if d < 10 then ('0' as int + d) as char else ('a' as int + d - 10) as char
  }

  predicate Bytes(key: seq<int>) {
    forall i | 0 <= i < |key| :: 0 <= key[i] < 256
  }

  function HexEncode(key: seq<int>): string
    requires Bytes(key)
  {
    if key == [] then "" else [HexDigit(key[0] / 16), HexDigit(key[0] % 16)] + HexEncode(key[1..])
  }

  predicate IsKey(key: PublicKey) {
    |key| == 32 && Bytes(key)
  }

  /** The address of a public key. */
  function DeriveAddress(key: PublicKey): Address
    requires IsKey(key)
  {
    "dyl" + HexEncode(key)
  }

  function LowerHex(c: char): char {
    if 'A' <= c <= 'F' then (c as int + 32) as char else c
  }

  function Lower(s: string): (r: string)
    ensures |r| == |s| && forall i | 0 <= i < |s| :: r[i] == LowerHex(s[i])
  {
    seq(|s|, i requires 0 <= i < |s| => LowerHex(s[i]))
  }

  lemma {:induction false} HexRoundTrip(key: seq<int>)
    requires Bytes(key)
    ensures HexDecode(HexEncode(key)) == Some(key)
  {
    if key != [] {
      HexRoundTrip(key[1..]);
      assert HexEncode(key)[2..] == HexEncode(key[1..]);
      assert key == [key[0]] + key[1..];
    }
  }

  lemma {:induction false} HexMeans(s: string)
    requires HexDecode(s).Some?
    ensures Bytes(HexDecode(s).value)
    ensures HexEncode(HexDecode(s).value) == Lower(s)
  {
    if s != "" {
      HexMeans(s[2..]);
      var rest := HexDecode(s[2..]).value;
      assert HexDecode(s).value[1..] == rest;
      assert Lower(s) == Lower(s[..2]) + Lower(s[2..]);
    }
  }

  /** Every key has an address that names it, and an address names a key exactly when,
      the case of its hex digits apart, it is that key's address. */
  lemma AddressNames(a: Address, key: PublicKey)
    ensures PubKeyFromAddress(a) == Some(key)
       <==> IsKey(key) && "dyl" <= a && Lower(a[3..]) == HexEncode(key)
  {
    hide HexDecode, HexEncode, Lower;
    if "dyl" <= a {
      if HexDecode(a[3..]).Some? {
        HexMeans(a[3..]);
      }
      if IsKey(key) {
        DecodesLower(a[3..]);
        HexRoundTrip(key);
      }
    }
  }

  /** Decoding does not mind the case of a hex digit. */
  lemma {:induction false} DecodesLower(s: string)
    ensures HexDecode(Lower(s)) == HexDecode(s)
  {
    if |s| >= 2 {
      DecodesLower(s[2..]);
      assert Lower(s)[2..] == Lower(s[2..]);
    }
  }
}
