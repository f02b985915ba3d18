/** NUL-terminated framing, and the digest input of the installed suite
    (scripts/behavior/run_installed_suite.py:173-190). */
module Framing {
  import opened Bytes

  predicate NulFree(path: seq<byte>) {
    forall i :: 0 <= i < |path| ==> path[i] != 0
  }

  /** A NUL-free text followed by a NUL can be told from what comes after. */
  lemma NulSplits(a: seq<byte>, b: seq<byte>, x: seq<byte>, y: seq<byte>)
    requires NulFree(a) && NulFree(b) && a + [0] + x == b + [0] + y
    ensures a == b && x == y
  {
    var s := a + [0] + x;
    assert s[|a|] == 0 && forall i :: 0 <= i < |a| ==> s[i] == a[i];
    assert s[|b|] == 0 && forall i :: 0 <= i < |b| ==> s[i] == b[i];
    assert a == s[..|a|] && b == s[..|b|] && x == s[|a| + 1..] && y == s[|b| + 1..];
  }

  lemma CutAt(a: seq<byte>, b: seq<byte>, x: seq<byte>, y: seq<byte>)
    requires a + x == b + y && |a| == |b|
    ensures a == b && x == y
  {
    assert a == (a + x)[..|a|] && b == (b + y)[..|b|] && x == (a + x)[|a|..] && y == (b + y)[|b|..];
  }

  // ------------------------------------------------------------ the suite's source inputs

  datatype File = File(path: seq<byte>, data: seq<byte>)

  /** Sizes have eight bytes, as `to_bytes(8, "big")` demands. */
  predicate Frameable(f: File) {
    NulFree(f.path) && |f.data| < Bound(8)
  }

  function FrameOf(f: File): seq<byte> {
    f.path + [0] + (BigEndian(|f.data|, 8) + f.data)
  }

  function Stream(files: seq<File>): seq<byte> {
    if files == [] then [] else Stream(files[..|files| - 1]) + FrameOf(files[|files| - 1])
  }

  /** `source_inputs_sha256` over files already in order; `sha` is applied to
      everything the digest was updated with. */
  method SourceInputsDigest<D>(files: seq<File>, sha: seq<byte> -> D) returns (digest: D)
    ensures digest == sha(Stream(files))
  {
    var fed: seq<byte> := [];
    for i := 0 to |files|
      invariant fed == Stream(files[..i])
    {
      hide BigEndian;
      var f := files[i];
      assert files[..i + 1][..i] == files[..i];
      ghost var before := fed;
      fed := fed + (f.path + [0]);
      fed := fed + BigEndian(|f.data|, 8);
      fed := fed + f.data;
      assert fed == before + FrameOf(f);
    }
    assert files[..|files|] == files;
    digest := sha(fed);
  }

  /** The same stream, read from the front. */
  function FromFront(files: seq<File>): seq<byte> {
    if files == [] then [] else FrameOf(files[0]) + FromFront(files[1..])
  }

  lemma {:induction false} StreamFromFront(files: seq<File>)
    ensures Stream(files) == FromFront(files)
  {
    hide FrameOf;
    if files != [] {
      StreamFromFront(files[..|files| - 1]);
      FrontSnoc(files[..|files| - 1], files[|files| - 1]);
      assert files[..|files| - 1] + [files[|files| - 1]] == files;
    }
  }

  lemma {:induction false} FrontSnoc(files: seq<File>, f: File)
    ensures FromFront(files + [f]) == FromFront(files) + FrameOf(f)
  {
    hide FrameOf;
    if files == [] {
      assert [] + [f] == [f] && [f][1..] == [];
      assert FrameOf(f) + [] == FrameOf(f);
    } else {
      assert (files + [f])[1..] == files[1..] + [f];
      FrontSnoc(files[1..], f);
    }
  }

  /** One frame and what follows it can be told apart. */
  lemma FrameSplits(f: File, g: File, x: seq<byte>, y: seq<byte>)
    requires Frameable(f) && Frameable(g) && FrameOf(f) + x == FrameOf(g) + y
    ensures f == g && x == y
  {
    hide BigEndian;
    var fs, gs := BigEndian(|f.data|, 8), BigEndian(|g.data|, 8);
    assert FrameOf(f) + x == f.path + [0] + (fs + (f.data + x));
    assert FrameOf(g) + y == g.path + [0] + (gs + (g.data + y));
    NulSplits(f.path, g.path, fs + (f.data + x), gs + (g.data + y));
    CutAt(fs, gs, f.data + x, g.data + y);
    BigEndianRoundTrip(|f.data|, 8);
    BigEndianRoundTrip(|g.data|, 8);
    CutAt(f.data, g.data, x, y);
  }

  /** Different inputs never give the digest the same bytes. */
  lemma {:induction false} StreamInjective(a: seq<File>, b: seq<File>)
    requires (forall i :: 0 <= i < |a| ==> Frameable(a[i])) && (forall i :: 0 <= i < |b| ==> Frameable(b[i]))
    requires FromFront(a) == FromFront(b)
    ensures a == b
  {
    hide Frameable;
    FramesNotEmpty(a);
    FramesNotEmpty(b);
    if a != [] && b != [] {
      FrameSplits(a[0], b[0], FromFront(a[1..]), FromFront(b[1..]));
      StreamInjective(a[1..], b[1..]);
      assert a == [a[0]] + a[1..] && b == [b[0]] + b[1..];
    }
  }

  lemma FramesNotEmpty(files: seq<File>)
    ensures FromFront(files) == [] <==> files == []
  {
  }

  /** Two different inputs of a hash with the same digest. */
  ghost predicate Collide<D>(sha: seq<byte> -> D, x: seq<byte>, y: seq<byte>) {
    x != y && sha(x) == sha(y)
  }

  /** So equal digests mean equal files, or else a collision of the hash. */
  lemma DigestsPinInputs<D>(a: seq<File>, b: seq<File>, sha: seq<byte> -> D)
    requires (forall i :: 0 <= i < |a| ==> Frameable(a[i])) && (forall i :: 0 <= i < |b| ==> Frameable(b[i]))
    requires sha(Stream(a)) == sha(Stream(b))
    ensures a == b || Collide(sha, Stream(a), Stream(b))
  {
    if Stream(a) == Stream(b) {
      StreamFromFront(a);
      StreamFromFront(b);
      StreamInjective(a, b);
    }
  }
}
