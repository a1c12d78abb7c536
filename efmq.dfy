/** A bus instance (efmq.go:16-22) as far as its logic goes: the
    subscription slice, held as its backing array and its length, and the
    operations that read or change it. The network interface, the raw
    connection and the goroutine are not part of this model; the delivery
    channel is the sequence of messages the listener pushes. */
module Efmq {
  import opened Types
  import Padding
  import Summary
  import Splice
  import Dispatch

  class EFMQ {
    /** Backing array of the `subscription` slice; its length is the
        slice's capacity. */
    var subscription: array<string>
    /** len(subscription). */
    var length: nat

    ghost predicate Valid()
      reads this
    {
      length <= subscription.Length
    }

    /** The subscribed topics, in order. */
    function Contents(): seq<string>
      reads this, subscription
      requires Valid()
    {
      subscription[..length]
    }

    /** A fresh instance has no subscriptions (the nil slice). */
    constructor ()
      ensures Valid() && fresh(subscription) && Contents() == []
    {
      subscription := new string[0];
      length := 0;
    }

    /** `append(mq.subscription, topic)`: grows the backing array when it is
        full, then writes the topic after the last entry. No duplicate check. */
    method Subscribe(topic: string)
      requires Valid()
      modifies this, subscription
      ensures Valid() && (subscription == old(subscription) || fresh(subscription))
      ensures Contents() == old(Contents()) + [topic]
    {
      if length == subscription.Length {
        var grown := new string[if length == 0 then 1 else 2 * length];
        for k := 0 to length
          invariant subscription == old(subscription) && length == old(length)
          invariant subscription[..] == old(subscription[..])
          invariant grown[..k] == subscription[..k]
        {
          grown[k] := subscription[k];
        }
        assert grown[..length] == subscription[..length];
        subscription := grown;
      }
      ghost var before := subscription[..length];
      assert before == old(Contents());
      subscription[length] := topic;
      assert subscription[..length + 1] == before + [topic];
      length := length + 1;
    }

    /** `mq.subscription = append(mq.subscription[:i], mq.subscription[i+1:]...)`:
        moves every entry after index i one slot left inside the same backing
        array and shortens the slice by one; the slots from the old last
        index on keep their values. */
    method SpliceOut(i: nat)
      requires Valid() && i < length
      modifies this, subscription
      ensures Valid() && subscription == old(subscription)
      ensures length == old(length) - 1
      ensures subscription[..] ==
              old(subscription[..i]) + old(subscription[i + 1..length]) + old(subscription[length - 1..])
    {
      var j := i;
      while j < length - 1
        invariant subscription == old(subscription) && length == old(length)
        invariant i <= j <= length - 1
        invariant forall p :: 0 <= p < i ==> subscription[p] == old(subscription[p])
        invariant forall p :: i <= p < j ==> subscription[p] == old(subscription[p + 1])
        invariant forall p :: j <= p < subscription.Length ==> subscription[p] == old(subscription[p])
      {
        subscription[j] := subscription[j + 1];
        j := j + 1;
      }
      length := length - 1;
    }

    /** The range loop at efmq.go:70-74, run on the list as the source has
        it. The caller must not reach the slice-bounds panic; the list then
        loses each entry equal to `topic` except any that directly follows
        a removed one. Always returns nil. */
    method Unsubscribe(topic: string) returns (err: Option<string>)
      requires Valid()
      requires !Splice.Panics(Contents(), topic)
      modifies this, subscription
      ensures Valid() && subscription == old(subscription)
      ensures Contents() == Splice.SkipRemove(old(Contents()), topic)
      ensures err == None
    {
      var n := length;
      ghost var start := subscription[..n];
      ghost var outcome := Splice.Run(start, n, 0, topic);
      Splice.RunFromStart(start, topic);
      for i := 0 to n
        invariant subscription == old(subscription)
        invariant length <= n <= subscription.Length
        invariant Splice.Run(subscription[..n], length, i, topic) == outcome
      {
        Iterate(topic, i, n);
      }
      assert outcome == Some((subscription[..n], length));
      assert subscription[..n][..length] == subscription[..length];
      err := None;
    }

    /** Iteration `i` of the range loop over the first `n` slots: the entry
        read from the backing array is compared to `topic` and, on a match,
        spliced out. */
    method Iterate(topic: string, i: nat, n: nat)
      requires Valid() && i < n && length <= n <= subscription.Length
      requires Splice.Run(subscription[..n], length, i, topic).Some?
      modifies this, subscription
      ensures Valid() && subscription == old(subscription) && length <= n
      ensures old(Splice.Step(subscription[..n], length, i, topic)) == Some((subscription[..n], length))
      ensures Splice.Run(subscription[..n], length, i + 1, topic) == old(Splice.Run(subscription[..n], length, i, topic))
    {
      ghost var whole := subscription[..];
      ghost var a := subscription[..n];
      ghost var len := length;
      if subscription[i] == topic {
        Splice.RunDropStep(a, len, i, topic);
        SpliceOut(i);
        SplicedWindow(whole, subscription[..], n, i, len);
      } else {
        Splice.RunKeepStep(a, len, i, topic);
      }
    }

    /** The splice seen through the first `n` slots of the backing array. */
    static lemma SplicedWindow(before: seq<string>, after: seq<string>, n: nat, i: nat, len: nat)
      requires i < len <= n <= |before|
      requires after == before[..i] + before[i + 1..len] + before[len - 1..]
      ensures after[..n] == before[..n][..i] + before[..n][i + 1..len] + before[..n][len - 1..]
    {
    }

    /** The evidently intended unsubscribe: every entry equal to `topic`
        is removed, the others keep their order, in place. */
    method UnsubscribeAll(topic: string) returns (err: Option<string>)
      requires Valid()
      modifies this, subscription
      ensures Valid() && subscription == old(subscription)
      ensures Contents() == Splice.RemoveAll(old(Contents()), topic)
      ensures err == None
    {
      ghost var start := subscription[..length];
      var w := 0;
      for r := 0 to length
        invariant subscription == old(subscription) && length == old(length)
        invariant w <= r
        invariant subscription[..w] == Splice.RemoveAll(start[..r], topic)
        invariant forall p :: r <= p < length ==> subscription[p] == start[p]
      {
        assert start[..r + 1][..r] == start[..r];
        if subscription[r] != topic {
          ghost var kept := subscription[..w];
          subscription[w] := subscription[r];
          assert subscription[..w + 1] == kept + [start[r]];
          w := w + 1;
        }
      }
      assert start[..length] == start;
      length := w;
      err := None;
    }

    /** The slice itself, read-only here. */
    method Subscriptions() returns (topics: seq<string>)
      requires Valid()
      ensures topics == Contents()
    {
      topics := subscription[..length];
    }

    /** The summary that `Listen` logs before it starts the listener. */
    method Listen() returns (subs: string)
      requires Valid()
      ensures subs == Summary.SummaryOf(Contents())
      ensures subs == "" <==> Contents() == []
    {
      subs := "";
      var subsLen := length;
      for i := 0 to subsLen
        invariant i == 0 ==> subs == ""
        invariant 0 < i ==>
                    subs == Summary.Join(subscription[..i]) + (if i < subsLen then ", " else ".")
      {
        assert subscription[..i + 1][..i] == subscription[..i];
        subs := subs + subscription[i];
        if i < subsLen - 1 {
          subs := subs + ", ";
        } else {
          subs := subs + ".";
        }
      }
      Summary.SummaryShape(Contents());
    }

    /** The listener's loop over the frames it receives: one snapshot of the
        subscriptions, taken before the first frame, filters all of them. */
    method Listener(frames: seq<seq<byte>>, decode: seq<byte> -> Message) returns (delivered: seq<Message>)
      requires Valid()
      ensures delivered == Dispatch.Dispatch(Contents(), frames, decode)
    {
      var subs := subscription[..length];
      delivered := [];
      for n := 0 to |frames|
        invariant delivered == Dispatch.Dispatch(subs, frames[..n], decode)
      {
        assert frames[..n + 1][..n] == frames[..n];
        var payload := Padding.StripPadding(frames[n]);
        var message := decode(payload);
        var pushed := Dispatch.FanOut(subs, message);
        delivered := delivered + pushed;
      }
      assert frames[..|frames|] == frames;
    }
  }

  /** Subscribing one topic twice delivers each matching message twice. */
  method DuplicateSubscriptionClient(frame: seq<byte>, decode: seq<byte> -> Message)
    requires decode(Padding.NonZero(frame)).topic == "t"
  {
    var mq := new EFMQ();
    mq.Subscribe("t");
    mq.Subscribe("t");
    assert mq.Contents() == ["t", "t"];
    var got := mq.Listener([frame], decode);
    Dispatch.DispatchUniform(["t", "t"], [frame], decode, decode(Padding.NonZero(frame)));
    assert multiset(["t", "t"])["t"] == 2;
    assert |got| == 2;
  }

  /** Subscribing one topic three times and removing it with the corrected
      unsubscribe stops its delivery. */
  method RemoveAllClient(frame: seq<byte>, decode: seq<byte> -> Message)
    requires decode(Padding.NonZero(frame)).topic == "t"
  {
    var mq := new EFMQ();
    mq.Subscribe("t");
    mq.Subscribe("t");
    mq.Subscribe("t");
    assert mq.Contents() == ["t", "t", "t"];
    var _ := mq.UnsubscribeAll("t");
    Splice.RemoveAllCount(["t", "t", "t"], "t", "t");
    assert "t" !in mq.Contents();
    var got := mq.Listener([frame], decode);
    Dispatch.DispatchUniform(mq.Contents(), [frame], decode, decode(Padding.NonZero(frame)));
    assert got == [];
  }

  /** A subscriber on "fermenter" that receives three frames each carrying
      the same envelope sees that message three times, in order, and logs
      "fermenter.". */
  method FermenterClient(frames: seq<seq<byte>>, decode: seq<byte> -> Message)
    requires |frames| == 3
    requires forall k :: 0 <= k < 3 ==> decode(Padding.NonZero(frames[k])) == Message("fermenter", "20.5")
  {
    var mq := new EFMQ();
    mq.Subscribe("fermenter");
    var logged := mq.Listen();
    assert logged == "fermenter.";
    var got := mq.Listener(frames, decode);
    var m := Message("fermenter", "20.5");
    Dispatch.DispatchUniform(["fermenter"], frames, decode, m);
    assert multiset(["fermenter"])["fermenter"] == 1;
    assert got == [m, m, m];
  }
}
