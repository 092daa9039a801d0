/** Input policies: the leaf an E3 program derives from an input, its choice of inputs, and hexadecimal text. */
module Policies {
  import opened Bytes

  type Bytestring = seq<byte>

  /** The order of the BN254 scalar field. */
  const FIELD_ORDER: nat := 21888242871839275222246405745257275088548364400416034343698204186575808495617

  datatype TreeFault =
    | LengthMismatch(ciphertexts: nat, published: nat)
    | OutOfRange(index: nat)
    | Full
    | NotHex
    | Other(reason: string)

  datatype ComputeError =
    | DecodeParams
    | LeafCommitment(index: nat)
    | OutputCommitment
    | MerkleTree(fault: TreeFault)

  /** What a policy gets to see of one ciphertext: its place, its bytes, what was published and what was recomputed. */
  datatype PublishedInput = PublishedInput(
    index: nat, ciphertext: Bytestring, commitment: Option<Bytestring>, metadata: Bytestring,
    recomputed: Option<Bytestring>)
  {
    /** Whether the published bytes do not contradict the stored commitment. */
    predicate MatchesCommitment()
    {
      match (commitment, recomputed)
      case (Some(stored), Some(again)) => stored == again
      case (Some(_), None) => false
      case (None, _) => true
    }
  }

  type LeafFn = PublishedInput -> Result<string, ComputeError>

  type SelectFn = seq<PublishedInput> -> seq<nat>

  datatype InputPolicy = InputPolicy(leaf: LeafFn, select: SelectFn)

  // ---------- hexadecimal text ----------

  function Digit(n: nat): char
    requires n < 16
  {
    if n < 10 then '0' + n as char else 'a' + (n - 10) as char
  }

  function DigitValue(c: char): Option<nat>
  {
    if '0' <= c <= '9' then Some((c - '0') as nat)
    else if 'a' <= c <= 'f' then Some((c - 'a') as nat + 10)
    else if 'A' <= c <= 'F' then Some((c - 'A') as nat + 10)
    else None
  }

  function Hex(s: Bytestring): string
  {
    if s == [] then [] else [Digit(s[0] / 16), Digit(s[0] % 16)] + Hex(s[1..])
  }

  function HexDecode(s: string): Option<Bytestring>
  {
    if s == [] then Some([])
    else if |s| == 1 then None
    else match (DigitValue(s[0]), DigitValue(s[1]), HexDecode(s[2..]))
      case (Some(high), Some(low), Some(rest)) => if high < 16 && low < 16 then Some([16 * high + low] + rest) else None
      case _ => None
  }

  lemma {:induction false} HexRoundTrip(s: Bytestring)
    ensures HexDecode(Hex(s)) == Some(s)
  {
    if s != [] {
      HexRoundTrip(s[1..]);
      assert Hex(s)[2..] == Hex(s[1..]);
      assert s == [s[0]] + s[1..];
    }
  }

  lemma {:induction false} HexLength(s: Bytestring)
    ensures |Hex(s)| == 2 * |s|
  {
    if s != [] {
      HexLength(s[1..]);
    }
  }

  /** Two lower-case digits a byte, the high half first. */
  lemma {:induction false} HexDigits(s: Bytestring, i: nat)
    requires i < |s|
    ensures |Hex(s)| == 2 * |s|
    ensures Hex(s)[2 * i] == "0123456789abcdef"[s[i] / 16] && Hex(s)[2 * i + 1] == "0123456789abcdef"[s[i] % 16]
  {
    var rest := Hex(s[1..]);
    assert Hex(s) == [Digit(s[0] / 16), Digit(s[0] % 16)] + rest;
    HexLength(s[1..]);
    if i > 0 {
      HexDigits(s[1..], i - 1);
      hide Digit;
      hide Hex;
      assert Hex(s)[2 * i] == rest[2 * (i - 1)] && Hex(s)[2 * i + 1] == rest[2 * (i - 1) + 1];
    }
  }

  /** Leading `0x` marks are dropped, as many as there are. */
  function Trim(s: string): string
  {
    if |s| >= 2 && s[0] == '0' && s[1] == 'x' then Trim(s[2..]) else s
  }

  lemma HexIsNotTrimmed(s: Bytestring)
    ensures Trim(Hex(s)) == Hex(s)
  {
    if s != [] {
      assert Hex(s)[1] == Digit(s[0] % 16);
    }
  }

  // ---------- leaves ----------

  function CommitmentLeaf(input: PublishedInput): Result<string, ComputeError>
  {
    match input.recomputed
    case Some(commitment) => Ok(Hex(commitment))
    case None => Err(LeafCommitment(input.index))
  }

  function AllInputs(inputs: seq<PublishedInput>): seq<nat>
  {
    seq(|inputs|, i => i)
  }

  /** The policy of a program that brings none. */
  function Default(): InputPolicy
  {
    InputPolicy(CommitmentLeaf, AllInputs)
  }

  /** A number as bytes, most significant first, without leading zeros; zero is one zero byte. */
  function MinimalBytes(n: nat): (s: Bytestring)
    ensures s != [] && (|s| == 1 <==> n < 256)
  {
    if n < 256 then [n] else MinimalBytes(n / 256) + [n % 256]
  }

  lemma {:induction false} MinimalBytesDecode(n: nat)
    ensures FromBigEndian(MinimalBytes(n)) == n
    ensures |MinimalBytes(n)| > 1 ==> MinimalBytes(n)[0] != 0
  {
    var s := MinimalBytes(n);
    assert s == s[..|s| - 1] + [s[|s| - 1]];
    if n < 256 {
      assert s[..|s| - 1] == [];
      assert FromBigEndian(s[..|s| - 1]) == 0;
    } else {
      MinimalBytesDecode(n / 256);
      assert s[..|s| - 1] == MinimalBytes(n / 256);
    }
  }

  /** A digest reduced into the scalar field, ready to be a leaf. */
  function LeafFromDigest(digest: Bytestring): string
  {
    Hex(MinimalBytes(FromBigEndian(digest) % FIELD_ORDER))
  }
}
