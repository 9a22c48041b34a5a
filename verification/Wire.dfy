/** Big-endian integers on the wire. */
module Wire {
  import opened Bytes

  function Pow256(w: nat): (r: nat)
    ensures 0 < r
  {
    if w == 0 then 1 else 256 * Pow256(w - 1)
  }

  /** `to_be_bytes` of a `w`-byte integer. */
  function Be(n: nat, w: nat): (b: seq<byte>)
    ensures |b| == w
  {
    if w == 0 then [] else Be(n / 256, w - 1) + [(n % 256) as byte]
  }

  /** `from_be_bytes`. */
  function FromBe(b: seq<byte>): (n: nat)
    ensures n < Pow256(|b|)
  {
    if b == [] then 0 else FromBe(b[..|b| - 1]) * 256 + b[|b| - 1]
  }

  /** Encoding then decoding gives the number back. */
  lemma {:induction false} BeRoundTrip(n: nat, w: nat)
    requires n < Pow256(w)
    ensures FromBe(Be(n, w)) == n
  {
    if w > 0 {
      BeRoundTrip(n / 256, w - 1);
      assert Be(n, w)[..w - 1] == Be(n / 256, w - 1);
    }
  }

  /** Decoding then encoding gives the bytes back. */
  lemma {:induction false} FromBeRoundTrip(b: seq<byte>)
    ensures Be(FromBe(b), |b|) == b
  {
    if b != [] {
      var k := |b| - 1;
      FromBeRoundTrip(b[..k]);
      assert FromBe(b) / 256 == FromBe(b[..k]) && FromBe(b) % 256 == b[k];
      assert b == b[..k] + [b[k]];
    }
  }

  lemma PowersOf256()
    ensures Pow256(2) == 0x1_0000 && Pow256(4) == 0x1_0000_0000 && Pow256(8) == 0x1_0000_0000_0000_0000
  {
    assert Pow256(2) == 256 * Pow256(1) && Pow256(1) == 256 * Pow256(0);
    assert Pow256(4) == 256 * Pow256(3) && Pow256(3) == 256 * Pow256(2);
    assert Pow256(6) == 256 * Pow256(5) && Pow256(5) == 256 * Pow256(4);
    assert Pow256(8) == 256 * Pow256(7) && Pow256(7) == 256 * Pow256(6);
  }

  /** An integer field, decoded from the bytes it was encoded to. */
  lemma U16(n: nat)
    requires n < 0x1_0000
    ensures FromBe(Be(n, 2)) == n
  {
    PowersOf256();
    BeRoundTrip(n, 2);
  }

  lemma U32(n: nat)
    requires n < 0x1_0000_0000
    ensures FromBe(Be(n, 4)) == n
  {
    PowersOf256();
    BeRoundTrip(n, 4);
  }

  lemma U64(n: nat)
    requires n <= U64_MAX
    ensures FromBe(Be(n, 8)) == n
  {
    PowersOf256();
    BeRoundTrip(n, 8);
  }

  /** Consecutive messages on one stream. */
  function Flat(parts: seq<seq<byte>>): seq<byte> {
    if parts == [] then [] else Flat(parts[..|parts| - 1]) + parts[|parts| - 1]
  }

  lemma FlatAppend(parts: seq<seq<byte>>, last: seq<byte>)
    ensures Flat(parts + [last]) == Flat(parts) + last
  {
    assert (parts + [last])[..|parts|] == parts;
  }

  lemma {:induction false} FlatFirst(parts: seq<seq<byte>>)
    requires parts != []
    ensures Flat(parts) == parts[0] + Flat(parts[1..])
  {
    var n := |parts| - 1;
    if n > 0 {
      FlatFirst(parts[..n]);
      assert parts[..n][1..] == parts[1..][..n - 1];
      assert Flat(parts) == parts[0] + (Flat(parts[1..][..n - 1]) + parts[n]);
    } else {
      assert parts[..0] == [] && parts[1..] == [];
    }
  }

  lemma FlatThen(parts: seq<seq<byte>>, rest: seq<byte>)
    requires parts != []
    ensures Flat(parts) + rest == parts[0] + (Flat(parts[1..]) + rest)
  {
    FlatFirst(parts);
  }

  lemma Assoc(a: seq<byte>, b: seq<byte>, c: seq<byte>)
    ensures (a + b) + c == a + (b + c)
  {
  }

  lemma NothingAfter(a: seq<byte>)
    ensures a + [] == a
  {
  }

  lemma Joined(s: seq<byte>, a: nat, b: nat, c: nat)
    requires a <= b <= c <= |s|
    ensures s[a..c] == s[a..b] + s[b..c]
  {
  }

  /** A header of one eight-byte and three four-byte fields, its data, and what follows. */
  lemma HeaderFields(m: seq<byte>, c: seq<byte>, k: seq<byte>, n: seq<byte>, data: seq<byte>, rest: seq<byte>)
    requires |m| == 8 && |c| == |k| == |n| == 4
    ensures var b := m + c + k + n + data + rest;
            && |b| == 20 + |data| + |rest|
            && b[..8] == m && b[8..12] == c && b[12..16] == k && b[16..20] == n
            && b[20..20 + |data|] == data && b[20 + |data|..] == rest
  {
  }

  /** A stretch of the stream cut at three places. */
  lemma Cut(s: seq<byte>, a: nat, b: nat, c: nat, d: nat, e: nat)
    requires a <= b <= c <= d <= e <= |s|
    ensures s[a..e] == s[a..b] + s[b..c] + s[c..d] + s[d..e]
  {
    Joined(s, a, b, c);
    Joined(s, a, c, d);
    Joined(s, a, d, e);
  }
}
