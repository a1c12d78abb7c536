/** The listener's topic filter: each decoded message is compared, by exact
    string equality, with every entry of the subscription snapshot and is
    pushed onto the delivery channel once per equal entry. The channel is
    modelled as the sequence of pushed messages. */
module Dispatch {
  import opened Types
  import Padding

  /** The messages pushed for one decoded message `m`. */
  function Deliver(subs: seq<string>, m: Message): seq<Message>
  {
    if subs == [] then []
    else Deliver(subs[..|subs| - 1], m) + (if subs[|subs| - 1] == m.topic then [m] else [])
  }

  /** The messages pushed while the listener processes `frames` in order,
      each frame payload stripped of zero bytes and then decoded. `decode`
      stands for what JSON decoding leaves in a fresh Message, whether it
      reported an error or not. */
  function Dispatch(subs: seq<string>, frames: seq<seq<byte>>, decode: seq<byte> -> Message): seq<Message>
  {
    if frames == [] then []
    else Dispatch(subs, frames[..|frames| - 1], decode)
         + Deliver(subs, decode(Padding.NonZero(frames[|frames| - 1])))
  }

  /** The match-and-push loop for one message. */
  method FanOut(subs: seq<string>, message: Message) returns (pushed: seq<Message>)
    ensures pushed == Deliver(subs, message)
    ensures |pushed| == multiset(subs)[message.topic]
    ensures forall k :: 0 <= k < |pushed| ==> pushed[k] == message
  {
    pushed := [];
    for i := 0 to |subs|
      invariant pushed == Deliver(subs[..i], message)
    {
      assert subs[..i + 1][..i] == subs[..i];
      if message.topic == subs[i] {
        pushed := pushed + [message];
      }
    }
    assert subs[..|subs|] == subs;
    DeliverCount(subs, message);
  }

  /** One push per subscription entry equal to the topic, and every pushed
      value is the decoded message itself. */
  lemma {:induction false} DeliverCount(subs: seq<string>, m: Message)
    ensures |Deliver(subs, m)| == multiset(subs)[m.topic]
    ensures forall k :: 0 <= k < |Deliver(subs, m)| ==> Deliver(subs, m)[k] == m
  {
    if subs != [] {
      assert subs == subs[..|subs| - 1] + [subs[|subs| - 1]];
      DeliverCount(subs[..|subs| - 1], m);
    }
  }

  /** A message is delivered at all exactly when its topic equals some entry:
      a topic absent from the snapshot (a prefix, a different case, a
      wildcard-looking pattern) yields no push. */
  lemma DeliveredIffSubscribed(subs: seq<string>, m: Message)
    ensures Deliver(subs, m) != [] <==> m.topic in subs
  {
    DeliverCount(subs, m);
  }

  /** Frames are handled one after another with the same snapshot: the
      deliveries for a longer stream extend those of its prefix, and a frame
      that decodes to nothing subscribed does not disturb later ones. */
  lemma {:induction false} DispatchAppend(subs: seq<string>, f1: seq<seq<byte>>, f2: seq<seq<byte>>, decode: seq<byte> -> Message)
    ensures Dispatch(subs, f1 + f2, decode) == Dispatch(subs, f1, decode) + Dispatch(subs, f2, decode)
  {
    if f2 == [] {
      assert f1 + f2 == f1;
    } else {
      var init := f2[..|f2| - 1];
      assert (f1 + f2)[..|f1 + f2| - 1] == f1 + init;
      assert (f1 + f2)[|f1 + f2| - 1] == f2[|f2| - 1];
      DispatchSnoc(subs, f1 + f2, decode);
      DispatchSnoc(subs, f2, decode);
      DispatchAppend(subs, f1, init, decode);
    }
  }

  /** Only messages whose topic is in the snapshot ever reach the channel. */
  lemma {:induction false} DispatchOnlySubscribed(subs: seq<string>, frames: seq<seq<byte>>, decode: seq<byte> -> Message)
    ensures forall k :: 0 <= k < |Dispatch(subs, frames, decode)| ==> Dispatch(subs, frames, decode)[k].topic in subs
  {
    if frames != [] {
      var m := decode(Padding.NonZero(frames[|frames| - 1]));
      DispatchOnlySubscribed(subs, frames[..|frames| - 1], decode);
      DeliverCount(subs, m);
      if Deliver(subs, m) != [] {
        DeliveredIffSubscribed(subs, m);
      }
    }
  }

  /** When every frame decodes to the same message `m`, the channel receives
      `m` once per frame and per matching subscription entry, in order. */
  lemma {:induction false} DispatchUniform(subs: seq<string>, frames: seq<seq<byte>>, decode: seq<byte> -> Message, m: Message)
    requires forall k :: 0 <= k < |frames| ==> decode(Padding.NonZero(frames[k])) == m
    ensures |Dispatch(subs, frames, decode)| == |frames| * multiset(subs)[m.topic]
    ensures forall k :: 0 <= k < |Dispatch(subs, frames, decode)| ==> Dispatch(subs, frames, decode)[k] == m
  {
    if frames != [] {
      var init := frames[..|frames| - 1];
      assert forall k :: 0 <= k < |init| ==> init[k] == frames[k];
      DispatchUniform(subs, init, decode, m);
      DispatchSnoc(subs, frames, decode);
      DeliverCount(subs, m);
      MulSucc(|init|, multiset(subs)[m.topic]);
    }
  }

  lemma DispatchSnoc(subs: seq<string>, frames: seq<seq<byte>>, decode: seq<byte> -> Message)
    requires frames != []
    ensures Dispatch(subs, frames, decode) ==
            Dispatch(subs, frames[..|frames| - 1], decode) + Deliver(subs, decode(Padding.NonZero(frames[|frames| - 1])))
  {
  }

  lemma MulSucc(n: nat, c: nat)
    ensures (n + 1) * c == n * c + c
  {
  }
}
