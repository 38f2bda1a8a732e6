/** Big-endian numbers of a fixed number of bytes, and bytes in chunks. */
module Bytes {
  import opened Bits

  function BigEndian(s: seq<Byte>): nat {
    if |s| == 0 then 0 else 256 * BigEndian(s[..|s| - 1]) + s[|s| - 1]
  }

  function ToBigEndian(v: nat, n: nat): (s: seq<Byte>)
    ensures |s| == n
  {
    if n == 0 then [] else ToBigEndian(v / 256, n - 1) + [v % 256]
  }

  predicate FitsBytes(v: nat, n: nat) {
    if n == 0 then v == 0 else FitsBytes(v / 256, n - 1)
  }

  /** Writing and reading back is the identity exactly on the numbers that fit. */
  lemma {:induction false} BigEndianInverts(v: nat, n: nat)
    ensures BigEndian(ToBigEndian(v, n)) == v <==> FitsBytes(v, n)
  {
    if n > 0 {
      assert ToBigEndian(v, n)[..n - 1] == ToBigEndian(v / 256, n - 1);
      BigEndianInverts(v / 256, n - 1);
    }
  }

  /** Every byte string is what its number is written as. */
  lemma {:induction false} ToBigEndianInverts(s: seq<Byte>)
    ensures FitsBytes(BigEndian(s), |s|) && ToBigEndian(BigEndian(s), |s|) == s
  {
    if s != [] {
      var n := |s| - 1;
      var high := BigEndian(s[..n]);
      ToBigEndianInverts(s[..n]);
      assert (256 * high + s[n]) / 256 == high && (256 * high + s[n]) % 256 == s[n];
      assert s[..n] + [s[n]] == s;
    }
  }

  // ── Chunks ─────────────────────────────────────────────────────────────────

  function Joined(chunks: seq<seq<Byte>>): seq<Byte> {
    if chunks == [] then [] else chunks[0] + Joined(chunks[1..])
  }

  lemma {:induction false} JoinedAppend(a: seq<seq<Byte>>, b: seq<seq<Byte>>)
    ensures Joined(a + b) == Joined(a) + Joined(b)
  {
    if a == [] {
      assert a + b == b;
    } else {
      assert (a + b)[1..] == a[1..] + b;
      JoinedAppend(a[1..], b);
    }
  }

  lemma JoinedOne(c: seq<Byte>)
    ensures Joined([c]) == c
  {
    assert [c][1..] == [];
    assert Joined([c]) == c + Joined([]);
  }

  lemma JoinedSnoc(chunks: seq<seq<Byte>>, c: seq<Byte>)
    ensures Joined(chunks + [c]) == Joined(chunks) + c
  {
    JoinedAppend(chunks, [c]);
    JoinedOne(c);
  }

  /** What the first chunks hold is a prefix of what all of them hold. */
  lemma JoinedPrefix(chunks: seq<seq<Byte>>, k: nat)
    requires k <= |chunks|
    ensures Joined(chunks[..k]) <= Joined(chunks)
  {
    assert chunks == chunks[..k] + chunks[k..];
    JoinedAppend(chunks[..k], chunks[k..]);
  }
}
