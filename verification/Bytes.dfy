/** Bytes and big-endian integers, as both wire formats use them. */
module Bytes {

  type byte = x: int | 0 <= x < 0x100
  type u8 = byte
  type u16 = x: int | 0 <= x < 0x1_0000
  type u32 = x: int | 0 <= x < 0x1_0000_0000
  type u64 = x: int | 0 <= x < 0x1_0000_0000_0000_0000

  function Width(k: nat): (w: nat)
    ensures w >= 1
  {
    if k == 0 then 1 else 256 * Width(k - 1)
  }

  /** The k low-order bytes of v, most significant first. */
  function Put(v: nat, k: nat): (s: seq<byte>)
    ensures |s| == k
  {
    if k == 0 then [] else Put(v / 256, k - 1) + [v % 256]
  }

  function Get(s: seq<byte>): nat {
    if s == [] then 0 else 256 * Get(s[..|s| - 1]) + s[|s| - 1]
  }

  lemma {:induction false} GetPut(v: nat, k: nat)
    requires v < Width(k)
    ensures Get(Put(v, k)) == v
  {
    if k > 0 {
      GetPut(v / 256, k - 1);
      assert Put(v, k)[..k - 1] == Put(v / 256, k - 1);
    }
  }

  lemma {:induction false} GetBelowWidth(s: seq<byte>)
    ensures Get(s) < Width(|s|)
  {
    if s != [] { GetBelowWidth(s[..|s| - 1]); }
  }

  /** The big-endian number in the n bytes of s from position i on, written out. */
  function At2(s: seq<byte>, i: nat): nat
    requires i + 2 <= |s|
  {
    (s[i] as int) * 256 + (s[i + 1] as int)
  }

  function At4(s: seq<byte>, i: nat): nat
    requires i + 4 <= |s|
  {
    At2(s, i) * 0x1_0000 + At2(s, i + 2)
  }

  function At8(s: seq<byte>, i: nat): nat
    requires i + 8 <= |s|
  {
    At4(s, i) * 0x1_0000_0000 + At4(s, i + 4)
  }

  lemma {:induction false} GetConcat(a: seq<byte>, b: seq<byte>)
    ensures Get(a + b) == Get(a) * Width(|b|) + Get(b)
  {
    if b == [] {
      assert a + b == a;
    } else {
      var front, last := b[..|b| - 1], b[|b| - 1];
      GetConcat(a, front);
      assert (a + b)[..|a + b| - 1] == a + front;
      Rescaled(Get(a), Width(|front|), Get(front));
    }
  }

  lemma Rescaled(x: nat, w: nat, y: nat)
    ensures 256 * (x * w + y) == x * (256 * w) + 256 * y
  {
  }

  /** Most significant byte first. */
  lemma BigEndian(s: seq<byte>, i: nat)
    ensures i + 2 <= |s| ==> Get(s[i..i + 2]) == At2(s, i)
    ensures i + 4 <= |s| ==> Get(s[i..i + 4]) == At4(s, i)
    ensures i + 8 <= |s| ==> Get(s[i..i + 8]) == At8(s, i)
  {
    Widths();
    if i + 2 <= |s| { TwoBytes(s, i); }
    if i + 4 <= |s| { FourBytes(s, i); }
    if i + 8 <= |s| {
      FourBytes(s, i);
      FourBytes(s, i + 4);
      assert s[i..i + 8] == s[i..i + 4] + s[i + 4..i + 8];
      GetConcat(s[i..i + 4], s[i + 4..i + 8]);
    }
  }

  lemma TwoBytes(s: seq<byte>, i: nat)
    requires i + 2 <= |s|
    ensures Get(s[i..i + 2]) == At2(s, i)
  {
    var t := s[i..i + 2];
    assert t[..1] == [s[i]] && [s[i]][..0] == [];
    assert Get([s[i]]) == s[i];
  }

  lemma FourBytes(s: seq<byte>, i: nat)
    requires i + 4 <= |s|
    ensures Get(s[i..i + 4]) == At4(s, i)
  {
    TwoBytes(s, i);
    TwoBytes(s, i + 2);
    Widths();
    assert s[i..i + 4] == s[i..i + 2] + s[i + 2..i + 4];
    GetConcat(s[i..i + 2], s[i + 2..i + 4]);
  }

  /** The widths of the four integer types. */
  lemma Widths()
    ensures Width(1) == 0x100 && Width(2) == 0x1_0000 && Width(4) == 0x1_0000_0000
    ensures Width(8) == 0x1_0000_0000_0000_0000
  {
    assert Width(3) == 0x100_0000;
    assert Width(4) == 0x1_0000_0000;
    assert Width(6) == 0x1_0000_0000_0000;
  }

  function Get32(s: seq<byte>): (v: u32)
    requires |s| == 4
  {
    Widths();
    GetBelowWidth(s);
    Get(s)
  }

  lemma CutThree(a: seq<byte>, b: seq<byte>, c: seq<byte>)
    ensures var s := a + b + c;
            s[|a|..|a| + |b|] == b && s[|a| + |b|..] == c && s == a + s[|a|..]
  {
    var s := a + b + c;
    assert s[|a|..] == b + c;
  }

  /** Storing an integer into a buffer, byte by byte. */
  method PutInto(buf: array<byte>, at: nat, v: nat, k: nat)
    requires at + k <= buf.Length
    modifies buf
    ensures buf[at..at + k] == Put(v, k)
    ensures forall i :: 0 <= i < buf.Length && !(at <= i < at + k) ==> buf[i] == old(buf[i])
  {
    if k > 0 {
      PutInto(buf, at, v / 256, k - 1);
      ghost var mid := buf[..];
      assert mid[at..at + k - 1] == Put(v / 256, k - 1);
      buf[at + k - 1] := v % 256;
      assert buf[at..at + k] == mid[at..at + k - 1] + [v % 256];
    }
  }

  /** Copying a byte string into a buffer. */
  method CopyInto(buf: array<byte>, at: nat, s: seq<byte>)
    requires at + |s| <= buf.Length
    modifies buf
    ensures buf[at..at + |s|] == s
    ensures forall i :: 0 <= i < buf.Length && !(at <= i < at + |s|) ==> buf[i] == old(buf[i])
  {
    for i := 0 to |s|
      invariant buf[at..at + i] == s[..i]
      invariant forall j :: 0 <= j < buf.Length && !(at <= j < at + i) ==> buf[j] == old(buf[j])
    {
      ghost var before := buf[..];
      buf[at + i] := s[i];
      assert buf[at..at + i + 1] == before[at..at + i] + [s[i]];
    }
  }

  /** Copying at an advancing position: the filled part of the buffer grows by the string. */
  method Append(buf: array<byte>, at: nat, s: seq<byte>) returns (next: nat)
    requires at + |s| <= buf.Length
    modifies buf
    ensures next == at + |s| && buf[..next] == old(buf[..at]) + s
    ensures forall i :: next <= i < buf.Length ==> buf[i] == old(buf[i])
  {
    ghost var filled := buf[..at];
    CopyInto(buf, at, s);
    next := at + |s|;
    assert buf[..at] == filled;
    assert buf[..next] == buf[..at] + buf[at..next];
  }

  /** Position of the first occurrence of c, or -1. */
  function IndexOf(s: seq<byte>, c: byte): (i: int)
    ensures -1 <= i < |s|
    ensures i >= 0 ==> s[i] == c
    ensures forall j :: 0 <= j < |s| && (i < 0 || j < i) ==> s[j] != c
  {
    if s == [] then -1
    else if s[0] == c then 0
    else var i := IndexOf(s[1..], c); if i < 0 then -1 else i + 1
  }
}
