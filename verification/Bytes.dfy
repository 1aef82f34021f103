/** Byte strings in a larger one. Bytes are characters. */
module Bytes {
  import opened Options

  const NUL: char := '\0'

  /** The bytes of x stand in a from `at` on. */
  predicate PieceAt(a: seq<char>, at: nat, x: seq<char>) {
    at + |x| <= |a| && a[at..at + |x|] == x
  }

  lemma PieceSplit(a: seq<char>, at: nat, x: seq<char>, y: seq<char>)
    requires PieceAt(a, at, x + y)
    ensures PieceAt(a, at, x) && PieceAt(a, at + |x|, y)
  {
    assert a[at..at + |x|] == (x + y)[..|x|];
    assert a[at + |x|..at + |x| + |y|] == (x + y)[|x|..];
  }

  /** What a C program reads as a string; None when no NUL follows. */
  function CString(a: seq<char>, at: nat): Option<string>
    decreases |a| - at
  {
    if at >= |a| then None
    else if a[at] == NUL then Some("")
    else match CString(a, at + 1)
         case None => None
         case Some(s) => Some([a[at]] + s)
  }

  lemma {:induction false} CStringReads(a: seq<char>, at: nat, s: string)
    requires NUL !in s && PieceAt(a, at, s) && PieceAt(a, at + |s|, [NUL])
    ensures CString(a, at) == Some(s)
    decreases |s|
  {
    assert a[at + |s|] == NUL;
    if s != "" {
      assert a[at] == s[0];
      assert a[at + 1..at + 1 + |s[1..]|] == s[1..];
      CStringReads(a, at + 1, s[1..]);
      assert [s[0]] + s[1..] == s;
    }
  }

  /** A string that is read stands there, with its NUL. */
  lemma {:induction false} CStringStands(a: seq<char>, at: nat)
    ensures var r := CString(a, at);
      r.Some? ==> NUL !in r.value && PieceAt(a, at, r.value) && PieceAt(a, at + |r.value|, [NUL])
    decreases |a| - at
  {
    if at < |a| && a[at] != NUL { CStringStands(a, at + 1); }
  }

  // ---------- numbers in bytes ----------

  function Power256(k: nat): nat {
    if k == 0 then 1 else 256 * Power256(k - 1)
  }

  /** The number that bytes denote, least significant first. */
  function LittleEndian(s: seq<char>): (n: nat)
    ensures n < Power256(|s|)
  {
    if s == [] then 0 else s[0] as nat % 256 + 256 * LittleEndian(s[1..])
  }

  function LittleEndianBytes(n: nat, k: nat): (s: seq<char>)
    ensures |s| == k
  {
    if k == 0 then [] else [(n % 256) as char] + LittleEndianBytes(n / 256, k - 1)
  }

  lemma {:induction false} LittleEndianRoundTrip(n: nat, k: nat)
    requires n < Power256(k)
    ensures LittleEndian(LittleEndianBytes(n, k)) == n
  {
    if k > 0 {
      LittleEndianRoundTrip(n / 256, k - 1);
      assert LittleEndianBytes(n, k)[1..] == LittleEndianBytes(n / 256, k - 1);
    }
  }

  /** The bytes of a word with their weights. */
  lemma LittleEndianOfEight(s: seq<char>)
    requires |s| == 8
    ensures LittleEndian(s[..2]) == s[0] as nat % 256 + 0x100 * (s[1] as nat % 256)
    ensures LittleEndian(s[..4]) == LittleEndian(s[..2]) + 0x1_0000 * (s[2] as nat % 256)
      + 0x100_0000 * (s[3] as nat % 256)
    ensures LittleEndian(s) == LittleEndian(s[..4]) + 0x1_0000_0000 * (s[4] as nat % 256)
      + 0x100_0000_0000 * (s[5] as nat % 256) + 0x1_0000_0000_0000 * (s[6] as nat % 256)
      + 0x100_0000_0000_0000 * (s[7] as nat % 256)
  {
    hide LittleEndian, Power256;
    Powers();
    FirstByte(s);
    LastByte(s, 2, 0x100);
    LastByte(s, 3, 0x1_0000);
    LastByte(s, 4, 0x100_0000);
    LastByte(s, 5, 0x1_0000_0000);
    LastByte(s, 6, 0x100_0000_0000);
    LastByte(s, 7, 0x1_0000_0000_0000);
    LastByte(s, 8, 0x100_0000_0000_0000);
    assert s[..8] == s;
  }

  lemma Powers()
    ensures Power256(1) == 0x100 && Power256(2) == 0x1_0000 && Power256(3) == 0x100_0000
    ensures Power256(4) == 0x1_0000_0000 && Power256(5) == 0x100_0000_0000 && Power256(6) == 0x1_0000_0000_0000
    ensures Power256(7) == 0x100_0000_0000_0000 && Power256(8) == 0x1_0000_0000_0000_0000
  {
    assert Power256(3) == 256 * Power256(2);
    assert Power256(4) == 256 * Power256(3);
    assert Power256(5) == 256 * Power256(4);
    assert Power256(6) == 256 * Power256(5);
    assert Power256(7) == 256 * Power256(6);
    assert Power256(8) == 256 * Power256(7);
  }

  lemma FirstByte(s: seq<char>)
    requires s != []
    ensures LittleEndian(s[..1]) == s[0] as nat % 256
  {
    assert s[..1][1..] == [];
  }

  lemma LittleEndianOfTwo(s: seq<char>)
    requires |s| == 2
    ensures LittleEndian(s) == s[0] as nat % 256 + 0x100 * (s[1] as nat % 256)
  {
    assert s[1..][1..] == [];
  }

  lemma {:induction false} LastByte(s: seq<char>, k: nat, p: nat)
    requires 0 < k <= |s| && p == Power256(k - 1)
    ensures LittleEndian(s[..k]) == LittleEndian(s[..k - 1]) + p * (s[k - 1] as nat % 256)
    decreases k
  {
    if k == 1 {
      assert s[..1][1..] == [];
    } else {
      LastByte(s[1..], k - 1, Power256(k - 2));
      assert s[..k][1..] == s[1..][..k - 1] && s[..k - 1][1..] == s[1..][..k - 2];
      assert s[1..][k - 2] == s[k - 1];
      TimesByte(Power256(k - 2), s[k - 1] as nat % 256);
    }
  }

  lemma TimesByte(p: nat, b: nat)
    ensures 256 * (p * b) == 256 * p * b
  {
  }

  /** The number that bytes denote, most significant first. */
  function BigEndian(s: seq<char>): nat {
    if s == [] then 0 else 256 * BigEndian(s[..|s| - 1]) + s[|s| - 1] as nat % 256
  }

  /** Four bytes with their weights. */
  lemma BigEndianOfFour(s: seq<char>)
    requires |s| == 4
    ensures BigEndian(s) == 0x100_0000 * (s[0] as nat % 256) + 0x1_0000 * (s[1] as nat % 256)
      + 0x100 * (s[2] as nat % 256) + s[3] as nat % 256
  {
    var x, y, z := s[..3], s[..2], s[..1];
    assert x[..2] == y && y[..1] == z && z[..0] == [];
    assert BigEndian(z) == s[0] as nat % 256;
    assert BigEndian(y) == 256 * BigEndian(z) + s[1] as nat % 256;
    assert BigEndian(x) == 256 * BigEndian(y) + s[2] as nat % 256;
  }
}
