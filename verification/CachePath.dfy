/** The cache file name of util-hs.c: how it is printed, and that it determines digest and flags. */
module CachePath {
  import opened Text

  newtype byte = x: int | 0 <= x < 256

  const PREFIX := "/tmp/"
  const SUFFIX := "_v1.hsdb"
  const BUFFER_SIZE := 2048
  const TWO32 := 0x1_0000_0000

  function HexChar(d: nat): (c: char)
    requires d < 16
    ensures c != '_' && c != '\0'
  {
    if d < 10 then d as char + '0' else (d - 10) as char + 'a'
  }

  function HexValue(c: char): int {
    if c <= '9' then c as int - '0' as int else c as int - 'a' as int + 10
  }

  lemma HexCharValue(d: nat)
    requires d < 16
    ensures HexValue(HexChar(d)) == d
  {
  }

  /** C's "%02x" of a byte. */
  function HexByte(b: byte): (s: string)
    ensures |s| == 2
  {
    [HexChar(b as nat / 16), HexChar(b as nat % 16)]
  }

  function HexBytes(bs: seq<byte>): (s: string)
    ensures |s| == 2 * |bs|
    ensures '_' !in s && '\0' !in s
  {
    if bs == [] then "" else HexBytes(bs[..|bs| - 1]) + HexByte(bs[|bs| - 1])
  }

  /** C's "%02x" of an unsigned number: at least two digits. */
  function HexNumber(n: nat): (s: string)
    ensures |s| >= 2 && '\0' !in s
  {
    if n < 256 then [HexChar(n / 16), HexChar(n % 16)] else HexNumber(n / 16) + [HexChar(n % 16)]
  }

  function HexNumberValue(s: string): int {
    if s == "" then 0 else 16 * HexNumberValue(s[..|s| - 1]) + HexValue(s[|s| - 1])
  }

  lemma {:induction false} HexNumberBack(n: nat)
    ensures HexNumberValue(HexNumber(n)) == n
  {
    var s := HexNumber(n);
    HexCharValue(n % 16);
    if n < 256 {
      HexCharValue(n / 16);
      assert s[..1] == [HexChar(n / 16)] && s[..1][..0] == "";
      assert HexNumberValue(s[..1]) == HexValue(HexChar(n / 16));
    } else {
      HexNumberBack(n / 16);
      assert s[..|s| - 1] == HexNumber(n / 16);
    }
  }

  predicate HexDigit(c: char) {
    '0' <= c <= '9' || 'a' <= c <= 'f'
  }

  /** Two lower-case hexadecimal digits that read back to the byte, the high one first. */
  lemma HexByteBack(b: byte)
    ensures var s := HexByte(b);
            && |s| == 2 && HexDigit(s[0]) && HexDigit(s[1])
            && 16 * HexValue(s[0]) + HexValue(s[1]) == b as int
  {
    HexCharValue(b as nat / 16);
    HexCharValue(b as nat % 16);
  }

  /** The digest is printed byte after byte, from the first on. */
  lemma {:induction false} HexBytesAt(bs: seq<byte>, i: nat)
    requires i < |bs|
    ensures HexBytes(bs)[2 * i..2 * i + 2] == HexByte(bs[i])
  {
    if i < |bs| - 1 {
      var init := bs[..|bs| - 1];
      HexBytesAt(init, i);
      assert HexBytes(bs)[2 * i..2 * i + 2] == HexBytes(init)[2 * i..2 * i + 2];
    }
  }

  /** Beyond two digits there is no leading zero. */
  lemma {:induction false} HexNumberIs(n: nat)
    ensures var s := HexNumber(n);
            && (forall k :: 0 <= k < |s| ==> HexDigit(s[k]))
            && (|s| > 2 ==> s[0] != '0')
            && HexNumberValue(s) == n
  {
    HexNumberBack(n);
    if n >= 256 {
      HexNumberIs(n / 16);
      if n / 16 < 256 {
        assert HexNumber(n)[0] == HexChar(n / 16 / 16);
      }
    }
  }

  /** The file for the digest with the bytes 0x1f and 0xa0, and no flags. */
  lemma SomeCacheFile()
    ensures CacheFile([0x1f, 0xa0], 0) == "/tmp/1fa0_00_v1.hsdb"
  {
    var one: seq<byte> := [0x1f];
    var two: seq<byte> := [0x1f, 0xa0];
    assert one[..0] == [] && two[..1] == one;
    assert HexByte(0x1f) == "1f" && HexByte(0xa0) == "a0" && HexNumber(0) == "00";
    assert HexBytes(one) == HexBytes([]) + "1f" == "1f";
    assert HexBytes(two) == HexBytes(one) + "a0" == "1fa0";
  }

  lemma {:induction false} HexBytesInjective(a: seq<byte>, b: seq<byte>)
    requires HexBytes(a) == HexBytes(b)
    ensures a == b
  {
    assert |a| == |b|;
    if a != [] {
      var a', b', x, y := a[..|a| - 1], b[..|b| - 1], a[|a| - 1], b[|b| - 1];
      var s := HexBytes(a);
      assert s[..|s| - 2] == HexBytes(a') == HexBytes(b');
      assert s[|s| - 2..] == HexByte(x) == HexByte(y);
      HexBytesInjective(a', b');
      assert HexByte(x)[0] == HexByte(y)[0] && HexByte(x)[1] == HexByte(y)[1];
      HexCharValue(x as nat / 16);
      HexCharValue(y as nat / 16);
      HexCharValue(x as nat % 16);
      HexCharValue(y as nat % 16);
      assert a == a' + [x] && b == b' + [y];
    }
  }

  /** The cache file of a digest under some compile flags. */
  function CacheFile(digest: seq<byte>, flags: nat): string {
    PREFIX + HexBytes(digest) + "_" + HexNumber(flags) + SUFFIX
  }

  /** Two cache files with the same name belong to the same digest and the same flags. */
  lemma CacheFileInjective(d1: seq<byte>, f1: nat, d2: seq<byte>, f2: nat)
    requires CacheFile(d1, f1) == CacheFile(d2, f2)
    ensures d1 == d2 && f1 == f2
  {
    hide HexBytes, HexNumber;
    var p := CacheFile(d1, f1);
    var t1, t2 := HexNumber(f1) + SUFFIX, HexNumber(f2) + SUFFIX;
    assert p[|PREFIX|..] == HexBytes(d1) + ['_'] + t1;
    assert p[|PREFIX|..] == HexBytes(d2) + ['_'] + t2;
    SplitUnique(HexBytes(d1), t1, HexBytes(d2), t2);
    HexBytesInjective(d1, d2);
    assert t1[..|t1| - |SUFFIX|] == HexNumber(f1) && t2[..|t2| - |SUFFIX|] == HexNumber(f2);
    HexNumberBack(f1);
    HexNumberBack(f2);
  }

  lemma SplitUnique(a: string, b: string, a': string, b': string)
    requires a + ['_'] + b == a' + ['_'] + b' && '_' !in a && '_' !in a'
    ensures a == a' && b == b'
  {
    var s := a + ['_'] + b;
    IndexOfUnique(a, '_', b);
    IndexOfUnique(a', '_', b');
    assert s[..|a|] == a && s[|a| + 1..] == b;
    assert s[..|a'|] == a' && s[|a'| + 1..] == b';
  }

  lemma {:induction false} HexNumberShort(n: nat, k: nat)
    requires k >= 2 && n < Pow16(k)
    ensures |HexNumber(n)| <= k
  {
    assert Pow16(2) == 256;
    if n >= 256 && k > 2 {
      HexNumberShort(n / 16, k - 1);
    }
  }

  function Pow16(k: nat): nat {
    if k == 0 then 1 else 16 * Pow16(k - 1)
  }

  // ----- printing into the static buffer -----

  /** The C string in a buffer is `s`. */
  ghost predicate Holds(buf: array<char>, s: string)
    reads buf
  {
    |s| < buf.Length && buf[..|s|] == s && buf[|s|] == '\0' && '\0' !in s
  }

  /** C's `snprintf` behind the first `at` characters: what fits, and a terminator. */
  method Snprintf(buf: array<char>, at: nat, text: string)
    requires at < buf.Length
    modifies buf
    ensures buf[..at] == old(buf[..at])
    ensures at + |text| < buf.Length ==> buf[at..at + |text|] == text && buf[at + |text|] == '\0'
  {
    var n := if at + |text| < buf.Length then |text| else buf.Length - at - 1;
    for i := 0 to n
      invariant buf[..at] == old(buf[..at])
      invariant buf[at..at + i] == text[..i]
    {
      buf[at + i] := text[i];
    }
    buf[at + n] := '\0';
  }

  /** Appending behind what is already printed. */
  method Append(buf: array<char>, at: nat, text: string, ghost before: string)
    requires at + |text| < buf.Length && at == |before| && buf[..at] == before
    modifies buf
    ensures buf[..at + |text|] == before + text && buf[at + |text|] == '\0'
  {
    Snprintf(buf, at, text);
    assert buf[..at + |text|] == buf[..at] + buf[at..at + |text|];
  }

  /** The digest, two characters a byte. */
  method AppendDigest(buf: array<char>, hash: seq<byte>)
    requires buf.Length == BUFFER_SIZE && |hash| * 2 + 255 <= BUFFER_SIZE
    requires buf[..|PREFIX|] == PREFIX
    modifies buf
    ensures buf[..|PREFIX| + 2 * |hash|] == PREFIX + HexBytes(hash)
  {
    var written := |PREFIX|;
    assert HexBytes([]) == "" && hash[..0] == [];
    hide HexBytes, HexByte;
    for i := 0 to |hash|
      invariant written == |PREFIX| + 2 * i
      invariant buf[..written] == PREFIX + HexBytes(hash[..i])
    {
      HexBytesSnoc(hash, i);
      Append(buf, written, HexByte(hash[i]), PREFIX + HexBytes(hash[..i]));
      written := written + 2;
    }
    assert hash[..|hash|] == hash;
  }

  /** `hs_db_cache_construct_fpath`: prints prefix, digest, flags and suffix one after the other;
      refuses digests that might not fit. */
  method ConstructCacheFile(buf: array<char>, hash: seq<byte>, flags: nat) returns (panic: bool)
    requires buf.Length == BUFFER_SIZE && flags < TWO32
    modifies buf
    ensures panic <==> |hash| * 2 + 255 > BUFFER_SIZE
    ensures !panic ==> Holds(buf, CacheFile(hash, flags))
  {
    hide HexBytes, HexNumber, HexByte;
    if |hash| * 2 + 255 > BUFFER_SIZE {
      return true;
    }
    panic := false;
    FlagsShort(flags);
    Append(buf, 0, PREFIX, "");
    AppendDigest(buf, hash);
    var last := "_" + HexNumber(flags) + SUFFIX;
    Append(buf, |PREFIX| + 2 * |hash|, last, PREFIX + HexBytes(hash));
    assert CacheFile(hash, flags) == PREFIX + HexBytes(hash) + last;
  }

  lemma HexBytesSnoc(hash: seq<byte>, i: nat)
    requires i < |hash|
    ensures HexBytes(hash[..i + 1]) == HexBytes(hash[..i]) + HexByte(hash[i])
  {
    assert hash[..i + 1][..i] == hash[..i];
  }

  lemma FlagsShort(flags: nat)
    requires flags < TWO32
    ensures |HexNumber(flags)| <= 8
  {
    assert Pow16(4) == 0x1_0000 by {
      assert Pow16(2) == 256;
    }
    assert Pow16(8) == TWO32 by {
      assert Pow16(6) == 0x100_0000;
    }
    HexNumberShort(flags, 8);
  }
}
