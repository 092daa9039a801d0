/** Request identifiers: a chain number and an id, printed as "chain:id". */
module E3Ids {
  import opened Bytes

  datatype E3id = E3id(chainId: nat, id: string)
  {
    function ToString(): string { Decimal(chainId) + ":" + id }
  }

  function Digit(d: nat): char
    requires d < 10
  {
    '0' + (d as char)
  }

  function Decimal(n: nat): (s: string)
    ensures s != []
  {
    if n < 10 then [Digit(n)] else Decimal(n / 10) + [Digit(n % 10)]
  }

  predicate IsDigit(c: char) { '0' <= c <= '9' }

  /** The number a string of decimal digits spells, if it is one. */
  function ParseDecimal(s: string): Option<nat>
  {
    if s == [] then None
    else
      var n := |s| - 1;
      if !IsDigit(s[n]) then None
      else if n == 0 then Some((s[n] - '0') as nat)
      else match ParseDecimal(s[..n])
        case None => None
        case Some(front) => Some(10 * front + (s[n] - '0') as nat)
  }

  /** The text before the first colon, if there is a colon. */
  function BeforeColon(s: string): Option<string>
  {
    if s == [] then None
    else if s[0] == ':' then Some([])
    else match BeforeColon(s[1..])
      case None => None
      case Some(front) => Some([s[0]] + front)
  }

  /** The chain number in front of the colon; zero when there is none or it is not a 64-bit number. */
  function ChainOf(s: string): nat
  {
    match BeforeColon(s)
    case None => 0
    case Some(chain) =>
      var digits := if chain != [] && chain[0] == '+' then chain[1..] else chain;
      match ParseDecimal(digits)
      case None => 0
      case Some(n) => if n < 0x1_0000_0000_0000_0000 then n else 0
  }

  lemma {:induction false} DecimalDigits(n: nat)
    ensures forall i :: 0 <= i < |Decimal(n)| ==> IsDigit(Decimal(n)[i])
    ensures ParseDecimal(Decimal(n)) == Some(n)
  {
    if n >= 10 {
      DecimalDigits(n / 10);
      var s := Decimal(n);
      assert s[..|s| - 1] == Decimal(n / 10);
    }
  }

  lemma {:induction false} ColonAfter(front: string, rest: string)
    requires forall i :: 0 <= i < |front| ==> IsDigit(front[i])
    ensures BeforeColon(front + ":" + rest) == Some(front)
  {
    var s := front + ":" + rest;
    if front != [] {
      assert s[1..] == front[1..] + ":" + rest;
      ColonAfter(front[1..], rest);
      assert front == [front[0]] + front[1..];
    }
  }

  /** The chain can be read back from a printed identifier. */
  lemma PrintedChain(e: E3id)
    ensures BeforeColon(e.ToString()) == Some(Decimal(e.chainId))
    ensures e.chainId < 0x1_0000_0000_0000_0000 ==> ChainOf(e.ToString()) == e.chainId
  {
    DecimalDigits(e.chainId);
    ColonAfter(Decimal(e.chainId), e.id);
    assert IsDigit(Decimal(e.chainId)[0]);
  }

  /** Different identifiers print differently, so a printed identifier can serve as a key. */
  lemma PrintedIdsAreUnique(a: E3id, b: E3id)
    ensures a.ToString() == b.ToString() <==> a == b
  {
    if a.ToString() == b.ToString() {
      PrintedChain(a);
      PrintedChain(b);
      DecimalDigits(a.chainId);
      DecimalDigits(b.chainId);
      var n := |Decimal(a.chainId)| + 1;
      assert a.ToString()[n..] == a.id && b.ToString()[n..] == b.id;
    }
  }
}
