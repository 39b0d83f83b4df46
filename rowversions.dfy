/**
 * SQL Server `rowversion` stamps. The database keeps one counter for all
 * tables and writes its next value into a row each time the row is
 * inserted or updated; the stamp is the counter's big-endian bytes.
 */
module RowVersions {
  import opened Numeric

  /** The big-endian bytes of `n`, without leading zero bytes. */
  function Encode(n: nat): (bs: seq<Byte>)
    ensures |bs| >= 1
    decreases n
  {
    if n < 0x100 then [n] else Encode(n / 0x100) + [n % 0x100]
  }

  /** The number big-endian bytes `bs` stand for. */
  function Decode(bs: seq<Byte>): nat {
    if bs == [] then 0 else Decode(bs[..|bs| - 1]) * 0x100 + bs[|bs| - 1]
  }

  /** Decoding a stamp gives back the counter value it was made from. */
  lemma {:induction false} DecodeEncode(n: nat)
    ensures Decode(Encode(n)) == n
    decreases n
  {
    if n >= 0x100 {
      var high := Encode(n / 0x100);
      DecodeEncode(n / 0x100);
      assert (high + [n % 0x100])[..|high|] == high;
    }
  }

  /** Different counter values give different stamps. */
  lemma EncodeInjective(m: nat, n: nat)
    requires Encode(m) == Encode(n)
    ensures m == n
  {
    DecodeEncode(m);
    DecodeEncode(n);
  }
}
