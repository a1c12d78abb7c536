/** Removal of link-layer padding from a received frame payload: the
    listener keeps every non-zero byte and drops every zero byte, wherever
    it stands (interior zeros included, not only trailing padding). */
module Padding {
  import opened Types

  /** The non-zero bytes of `p`, in their original order. */
  function NonZero(p: seq<byte>): seq<byte>
  {
    if p == [] then []
    else NonZero(p[..|p| - 1]) + (if p[|p| - 1] != 0 then [p[|p| - 1]] else [])
  }

  predicate ZeroFree(p: seq<byte>)
  {
    forall k :: 0 <= k < |p| ==> p[k] != 0
  }

  /** The copy loop of the listener: appends each non-zero byte of the frame
      payload to an initially empty buffer. */
  method StripPadding(framePayload: seq<byte>) returns (payload: seq<byte>)
    ensures payload == NonZero(framePayload)
    ensures ZeroFree(payload)
    ensures forall x :: x != 0 ==> multiset(payload)[x] == multiset(framePayload)[x]
  {
    payload := [];
    for i := 0 to |framePayload|
      invariant payload == NonZero(framePayload[..i])
    {
      assert framePayload[..i + 1][..i] == framePayload[..i];
      if framePayload[i] != 0 {
        payload := payload + [framePayload[i]];
      }
    }
    assert framePayload[..|framePayload|] == framePayload;
    NonZeroIsZeroFree(framePayload);
    forall x | x != 0
      ensures multiset(payload)[x] == multiset(framePayload)[x]
    {
      NonZeroCount(framePayload, x);
    }
  }

  lemma {:induction false} NonZeroIsZeroFree(p: seq<byte>)
    ensures ZeroFree(NonZero(p))
  {
    if p != [] {
      NonZeroIsZeroFree(p[..|p| - 1]);
    }
  }

  /** Every non-zero byte value occurs as often after the strip as before;
      zero occurs not at all; the length drops by the number of zeros. */
  lemma {:induction false} NonZeroCount(p: seq<byte>, x: byte)
    ensures x != 0 ==> multiset(NonZero(p))[x] == multiset(p)[x]
    ensures multiset(NonZero(p))[0] == 0
    ensures |NonZero(p)| == |p| - multiset(p)[0]
  {
    if p != [] {
      var init, last := p[..|p| - 1], p[|p| - 1];
      assert p == init + [last];
      NonZeroCount(init, x);
    }
  }

  /** Stripping distributes over concatenation: the result keeps the
      non-zero bytes of each part in order, so interior zeros vanish too. */
  lemma {:induction false} NonZeroAppend(a: seq<byte>, b: seq<byte>)
    ensures NonZero(a + b) == NonZero(a) + NonZero(b)
  {
    if b != [] {
      var init := b[..|b| - 1];
      assert (a + b)[..|a + b| - 1] == a + init;
      NonZeroAppend(a, init);
    } else {
      assert a + b == a;
    }
  }

  /** The strip is the identity exactly on zero-free input. */
  lemma {:induction false} NonZeroIdentity(p: seq<byte>)
    ensures NonZero(p) == p <==> ZeroFree(p)
  {
    if ZeroFree(p) {
      if p != [] {
        NonZeroIdentity(p[..|p| - 1]);
        assert p[..|p| - 1] + [p[|p| - 1]] == p;
      }
    } else {
      NonZeroIsZeroFree(p);
    }
  }

  /** Stripping twice is stripping once. */
  lemma NonZeroIdempotent(p: seq<byte>)
    ensures NonZero(NonZero(p)) == NonZero(p)
  {
    NonZeroIsZeroFree(p);
    NonZeroIdentity(NonZero(p));
  }
}
