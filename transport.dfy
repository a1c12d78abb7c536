/** The frame the despatcher builds for a published envelope, as plain
    data, and what the listener recovers from it once the physical layer
    has padded it with zero bytes. */
module Transport {
  import opened Types
  import Padding

  /** The protocol identifier every bus instance sends and filters on. */
  const EtherType: int := 0xcccc

  /** The link-layer broadcast hardware address. */
  const Broadcast: seq<byte> := [0xff, 0xff, 0xff, 0xff, 0xff, 0xff]

  datatype Frame = Frame(destination: seq<byte>, source: seq<byte>, etherType: int, payload: seq<byte>)

  /** The frame record filled in by the despatcher for encoded `content`. */
  function Despatched(source: seq<byte>, content: seq<byte>): Frame
  {
    Frame(Broadcast, source, EtherType, content)
  }

  function Zeros(k: nat): (z: seq<byte>)
    ensures |z| == k && forall i :: 0 <= i < k ==> z[i] == 0
  {
    if k == 0 then [] else Zeros(k - 1) + [0]
  }

  lemma {:induction false} NonZeroOfZeros(k: nat)
    ensures Padding.NonZero(Zeros(k)) == []
  {
    if k > 0 {
      assert Zeros(k)[..k - 1] == Zeros(k - 1);
      NonZeroOfZeros(k - 1);
    }
  }

  /** A despatched payload survives the trip (any amount of zero padding
      appended, then the listener's strip) exactly when it holds no zero
      byte itself. */
  lemma PaddingRoundTrip(source: seq<byte>, content: seq<byte>, pad: nat)
    ensures Despatched(source, content).etherType == EtherType
    ensures Padding.NonZero(Despatched(source, content).payload + Zeros(pad)) == content
            <==> Padding.ZeroFree(content)
  {
    Padding.NonZeroAppend(content, Zeros(pad));
    NonZeroOfZeros(pad);
    assert content + [] == content;
    Padding.NonZeroIdentity(content);
  }
}
