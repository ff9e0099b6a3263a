/** Sectors of 512 bytes (FF_MIN_SS == FF_MAX_SS) and the byte strings that runs of them spell. */
module Sectors {
  import opened Bytes

  type Sector = seq<byte>

  ghost predicate AreSectors(ss: seq<Sector>) {
    forall i :: 0 <= i < |ss| ==> |ss[i]| == 512
  }

  function Flat(ss: seq<Sector>): seq<byte> {
    if ss == [] then [] else ss[0] + Flat(ss[1..])
  }

  lemma {:induction false} FlatLength(ss: seq<Sector>)
    requires AreSectors(ss)
    ensures |Flat(ss)| == 512 * |ss|
  {
    if ss != [] { FlatLength(ss[1..]); }
  }

  lemma {:induction false} FlatAt(ss: seq<Sector>, i: nat, o: nat)
    requires AreSectors(ss) && i < |ss| && o < 512
    ensures 512 * i + o < |Flat(ss)| && Flat(ss)[512 * i + o] == ss[i][o]
  {
    FlatLength(ss);
    if i > 0 { FlatAt(ss[1..], i - 1, o); }
  }

  lemma {:induction false} FlatConcat(a: seq<Sector>, b: seq<Sector>)
    ensures Flat(a + b) == Flat(a) + Flat(b)
  {
    if a == [] {
      assert a + b == b;
    } else {
      assert (a + b)[1..] == a[1..] + b;
      FlatConcat(a[1..], b);
    }
  }

  /** `s` with the bytes from `k` on overwritten by `bs`. */
  function Patch(s: seq<byte>, k: nat, bs: seq<byte>): (r: seq<byte>)
    requires k + |bs| <= |s|
    ensures |r| == |s|
    ensures forall j :: 0 <= j < |s| ==> r[j] == if k <= j < k + |bs| then bs[j - k] else s[j]
  {
    s[..k] + bs + s[k + |bs|..]
  }

  /** `ss` with the sectors from `k` on overwritten by `xs`. */
  function Overwrite(ss: seq<Sector>, k: nat, xs: seq<Sector>): (r: seq<Sector>)
    requires k + |xs| <= |ss|
    ensures |r| == |ss|
    ensures forall j :: 0 <= j < |ss| ==> r[j] == if k <= j < k + |xs| then xs[j - k] else ss[j]
  {
    ss[..k] + xs + ss[k + |xs|..]
  }

  /** Patching one sector patches the run. */
  lemma {:induction false} FlatPatch(ss: seq<Sector>, i: nat, o: nat, bs: seq<byte>)
    requires AreSectors(ss) && i < |ss| && o + |bs| <= 512
    ensures |Flat(ss)| == 512 * |ss|
    ensures Flat(ss[i := Patch(ss[i], o, bs)]) == Patch(Flat(ss), 512 * i + o, bs)
  {
    var sec := Patch(ss[i], o, bs);
    FlatLength(ss);
    if i == 0 {
      assert ss[i := sec][1..] == ss[1..];
      assert Flat(ss[i := sec]) == sec + Flat(ss[1..]);
    } else {
      FlatPatch(ss[1..], i - 1, o, bs);
      assert ss[i := sec][1..] == ss[1..][i - 1 := sec];
    }
  }

  lemma PatchMiddle(a: seq<byte>, b: seq<byte>, c: seq<byte>, x: seq<byte>)
    requires |x| == |b|
    ensures Patch(a + (b + c), |a|, x) == a + (x + c)
  {
  }

  /** Overwriting whole sectors of a run overwrites their bytes. */
  lemma FlatPatchRun(ss: seq<Sector>, i: nat, secs: seq<Sector>)
    requires AreSectors(ss) && AreSectors(secs) && i + |secs| <= |ss|
    ensures |Flat(ss)| == 512 * |ss| && |Flat(secs)| == 512 * |secs|
    ensures Flat(Overwrite(ss, i, secs)) == Patch(Flat(ss), 512 * i, Flat(secs))
  {
    var a, b, c := ss[..i], ss[i..i + |secs|], ss[i + |secs|..];
    FlatLength(ss);
    FlatLength(secs);
    assert ss == a + (b + c);
    assert Overwrite(ss, i, secs) == a + (secs + c);
    FlatPatchParts(ss, Overwrite(ss, i, secs), i, a, b, c, secs);
  }

  lemma FlatPatchParts(ss: seq<Sector>, ss': seq<Sector>, i: nat, a: seq<Sector>, b: seq<Sector>, c: seq<Sector>,
                       x: seq<Sector>)
    requires AreSectors(a) && AreSectors(b) && AreSectors(c) && AreSectors(x) && |x| == |b| && i == |a|
    requires ss == a + (b + c) && ss' == a + (x + c)
    ensures 512 * i + |Flat(x)| <= |Flat(ss)| && Flat(ss') == Patch(Flat(ss), 512 * i, Flat(x))
  {
    FlatPatchMiddle(a, b, c, x);
  }

  lemma FlatPatchMiddle(a: seq<Sector>, b: seq<Sector>, c: seq<Sector>, x: seq<Sector>)
    requires AreSectors(a) && AreSectors(b) && AreSectors(c) && AreSectors(x) && |x| == |b|
    ensures 512 * |a| + |Flat(x)| <= |Flat(a + (b + c))|
    ensures Flat(a + (x + c)) == Patch(Flat(a + (b + c)), 512 * |a|, Flat(x))
  {
    FlatThree(a, b, c);
    FlatThree(a, x, c);
    PatchMiddle(Flat(a), Flat(b), Flat(c), Flat(x));
  }

  lemma FlatThree(a: seq<Sector>, b: seq<Sector>, c: seq<Sector>)
    requires AreSectors(a) && AreSectors(b) && AreSectors(c)
    ensures Flat(a + (b + c)) == Flat(a) + (Flat(b) + Flat(c))
    ensures |Flat(a)| == 512 * |a| && |Flat(b)| == 512 * |b| && |Flat(c)| == 512 * |c|
  {
    FlatConcat(a, b + c);
    FlatConcat(b, c);
    FlatLength(a);
    FlatLength(b);
    FlatLength(c);
  }

  /** The first `n` sectors of a byte string. */
  function SectorsOf(bs: seq<byte>, n: nat): (ss: seq<Sector>)
    requires 512 * n <= |bs|
    ensures |ss| == n && AreSectors(ss)
  {
    if n == 0 then [] else [bs[..512]] + SectorsOf(bs[512..], n - 1)
  }

  lemma {:induction false} FlatSectorsOf(bs: seq<byte>, n: nat)
    requires 512 * n <= |bs|
    ensures Flat(SectorsOf(bs, n)) == bs[..512 * n]
  {
    if n > 0 {
      FlatSectorsOf(bs[512..], n - 1);
      assert bs[..512 * n] == bs[..512] + bs[512..][..512 * (n - 1)];
    }
  }
}
