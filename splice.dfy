/** What `Unsubscribe` does to the subscription list, as written.

    The range loop walks the indices 0 .. n-1 of the list as it was when the
    loop started, but reads each entry from the shared backing array, which
    the splice `append(s[:i], s[i+1:]...)` shifts left in place. So after a
    removal at index i the following entry moves into slot i and is never
    compared; the slots freed at the end keep a copy of the old last entry;
    and a later match at an index i with i + 1 greater than the shrunken
    length is a slice-bounds run-time panic. */
module Splice {
  import opened Types

  /** Iteration `i` of the loop over backing array `a` whose slice currently
      has length `len`. None stands for the run-time panic. */
  function Step(a: seq<string>, len: nat, i: nat, topic: string): (r: Option<(seq<string>, nat)>)
    requires len <= |a| && i < |a|
    ensures r.Some? ==> |r.value.0| == |a| && r.value.1 <= |a|
    ensures r.None? <==> a[i] == topic && len <= i
  {
    if a[i] != topic then Some((a, len))
    else if i + 1 > len then None
    else Some((a[..i] + a[i + 1..len] + a[len - 1..], len - 1))
  }

  /** Iterations i .. |a|-1 of the loop. */
  function Run(a: seq<string>, len: nat, i: nat, topic: string): (r: Option<(seq<string>, nat)>)
    requires len <= |a| && i <= |a|
    ensures r.Some? ==> |r.value.0| == |a| && r.value.1 <= |a|
    decreases |a| - i
  {
    if i == |a| then Some((a, len))
    else match Step(a, len, i, topic)
      case None => None
      case Some(next) => Run(next.0, next.1, i + 1, topic)
  }

  /** The list as `Unsubscribe` leaves it when it does not panic: each entry
      equal to `topic` is removed and the entry right after it is kept
      without being compared. */
  function SkipRemove(s: seq<string>, topic: string): (r: seq<string>)
    ensures |r| <= |s|
  {
    if s == [] then []
    else if s[0] != topic then [s[0]] + SkipRemove(s[1..], topic)
    else if |s| == 1 then []
    else [s[1]] + SkipRemove(s[2..], topic)
  }

  /** `Unsubscribe(topic)` panics exactly when the last entry is `topic` and
      `topic` also occurs earlier in the list. */
  predicate Panics(s: seq<string>, topic: string)
  {
    |s| > 0 && s[|s| - 1] == topic && topic in s[..|s| - 1]
  }

  function Repeat(x: string, k: nat): (r: seq<string>)
    ensures |r| == k && forall p :: 0 <= p < k ==> r[p] == x
  {
    if k == 0 then [] else [x] + Repeat(x, k - 1)
  }

  /** Once the examined index has reached the current length, every slot
      still to be examined holds the old last entry `last`. */
  lemma {:induction false} RunStale(a: seq<string>, len: nat, i: nat, last: string, topic: string)
    requires len <= i <= |a|
    requires forall p :: len <= p < |a| ==> a[p] == last
    ensures Run(a, len, i, topic) == if i < |a| && last == topic then None else Some((a, len))
    decreases |a| - i
  {
    if i < |a| && last != topic {
      RunStale(a, len, i + 1, last, topic);
    }
  }

  /** Some entry of `rest` other than its last equals `topic`. */
  predicate Pending(rest: seq<string>, topic: string)
  {
    rest != [] && topic in rest[..|rest| - 1]
  }

  /** What the rest of the loop yields from the state at iteration |done|:
      the finished prefix `done`, the entries `rest` not yet examined (whose
      last is the old last entry `last`), and `k` freed slots that repeat
      `last`. It panics exactly when `last` is `topic` and a freed slot will
      still be examined; otherwise the slice ends as `done` followed by
      `SkipRemove(rest, topic)`. */
  ghost function Expected(n: nat, done: seq<string>, rest: seq<string>, k: nat, last: string, topic: string): Option<(seq<string>, nat)>
    requires |done| + |rest| <= n
  {
    var kept := SkipRemove(rest, topic);
    if last == topic && (k > 0 || Pending(rest, topic)) then None
    else Some((done + kept + Repeat(last, n - |done| - |kept|), |done| + |kept|))
  }

  lemma RunKeepStep(a: seq<string>, len: nat, i: nat, topic: string)
    requires len <= |a| && i < |a| && a[i] != topic
    ensures Run(a, len, i, topic) == Run(a, len, i + 1, topic)
  {
  }

  lemma RunDropStep(a: seq<string>, len: nat, i: nat, topic: string)
    requires len <= |a| && i < |a| && a[i] == topic
    requires i < len || Run(a, len, i, topic).Some?
    ensures i < len
    ensures Run(a, len, i, topic) == Run(a[..i] + a[i + 1..len] + a[len - 1..], len - 1, i + 1, topic)
  {
  }

  lemma {:induction false} RunWalk(a: seq<string>, done: seq<string>, rest: seq<string>, k: nat, last: string, topic: string)
    requires a == done + rest + Repeat(last, k)
    requires rest != [] ==> rest[|rest| - 1] == last
    ensures Run(a, |done| + |rest|, |done|, topic) == Expected(|a|, done, rest, k, last, topic)
    decreases |rest|
  {
    if rest == [] {
      WalkEmpty(a, done, k, last, topic);
    } else if rest[0] != topic {
      WalkKeep(a, done, rest, k, last, topic);
    } else if |rest| == 1 {
      WalkDropLast(a, done, rest, k, last, topic);
    } else {
      WalkDrop(a, done, rest, k, last, topic);
    }
  }

  lemma WalkEmpty(a: seq<string>, done: seq<string>, k: nat, last: string, topic: string)
    requires a == done + [] + Repeat(last, k)
    ensures Run(a, |done|, |done|, topic) == Expected(|a|, done, [], k, last, topic)
  {
    assert a == done + Repeat(last, k);
    RunStale(a, |done|, |done|, last, topic);
    assert done + SkipRemove([], topic) + Repeat(last, |a| - |done|) == a;
  }

  lemma PendingKeep(rest: seq<string>, topic: string)
    requires rest != [] && rest[0] != topic
    ensures Pending(rest, topic) == Pending(rest[1..], topic)
  {
    if |rest| > 1 {
      assert rest[..|rest| - 1] == [rest[0]] + rest[1..][..|rest[1..]| - 1];
    }
  }

  lemma {:induction false} WalkKeep(a: seq<string>, done: seq<string>, rest: seq<string>, k: nat, last: string, topic: string)
    requires a == done + rest + Repeat(last, k)
    requires rest != [] && rest[|rest| - 1] == last && rest[0] != topic
    ensures Run(a, |done| + |rest|, |done|, topic) == Expected(|a|, done, rest, k, last, topic)
    decreases |rest|, 0
  {
    var done', rest' := done + [rest[0]], rest[1..];
    assert a[|done|] == rest[0];
    RunKeepStep(a, |done| + |rest|, |done|, topic);
    assert a == done' + rest' + Repeat(last, k);
    RunWalk(a, done', rest', k, last, topic);
    ExpectedKeep(|a|, done, rest, k, last, topic);
  }

  lemma ExpectedKeep(n: nat, done: seq<string>, rest: seq<string>, k: nat, last: string, topic: string)
    requires |done| + |rest| <= n && rest != [] && rest[0] != topic
    ensures Expected(n, done + [rest[0]], rest[1..], k, last, topic) == Expected(n, done, rest, k, last, topic)
  {
    PendingKeep(rest, topic);
    assert done + [rest[0]] + SkipRemove(rest[1..], topic) == done + SkipRemove(rest, topic);
  }

  lemma WalkDropLast(a: seq<string>, done: seq<string>, rest: seq<string>, k: nat, last: string, topic: string)
    requires a == done + rest + Repeat(last, k)
    requires |rest| == 1 && rest[0] == last && rest[0] == topic
    ensures Run(a, |done| + |rest|, |done|, topic) == Expected(|a|, done, rest, k, last, topic)
  {
    var len, i := |done| + 1, |done|;
    assert a[i] == topic;
    var a' := a[..i] + a[i + 1..len] + a[len - 1..];
    assert a' == done + Repeat(last, k + 1);
    RunDropStep(a, len, i, topic);
    RunStale(a', len - 1, i + 1, last, topic);
    assert !Pending(rest, topic);
    assert done + SkipRemove(rest, topic) == done;
  }

  /** The array after removing the first of at least two unexamined entries. */
  lemma DropShape(a: seq<string>, done: seq<string>, rest: seq<string>, k: nat, last: string)
    requires a == done + rest + Repeat(last, k)
    requires |rest| > 1 && rest[|rest| - 1] == last
    ensures a[..|done|] + a[|done| + 1..|done| + |rest|] + a[|done| + |rest| - 1..]
            == (done + [rest[1]]) + rest[2..] + Repeat(last, k + 1)
  {
    var len, i := |done| + |rest|, |done|;
    assert a[..i] == done;
    assert a[i + 1..len] == rest[1..];
    assert a[len - 1..] == [last] + Repeat(last, k);
  }

  lemma {:induction false} WalkDrop(a: seq<string>, done: seq<string>, rest: seq<string>, k: nat, last: string, topic: string)
    requires a == done + rest + Repeat(last, k)
    requires |rest| > 1 && rest[|rest| - 1] == last && rest[0] == topic
    ensures Run(a, |done| + |rest|, |done|, topic) == Expected(|a|, done, rest, k, last, topic)
    decreases |rest|, 0
  {
    var len, i := |done| + |rest|, |done|;
    assert a[i] == topic;
    var a' := a[..i] + a[i + 1..len] + a[len - 1..];
    DropShape(a, done, rest, k, last);
    RunDropStep(a, len, i, topic);
    RunWalk(a', done + [rest[1]], rest[2..], k + 1, last, topic);
    ExpectedDrop(|a|, done, rest, k, last, topic);
  }

  lemma ExpectedDrop(n: nat, done: seq<string>, rest: seq<string>, k: nat, last: string, topic: string)
    requires |done| + |rest| <= n && |rest| > 1 && rest[0] == topic
    ensures Expected(n, done + [rest[1]], rest[2..], k + 1, last, topic) == Expected(n, done, rest, k, last, topic)
  {
    assert Pending(rest, topic) by { assert rest[..|rest| - 1][0] == topic; }
    assert done + [rest[1]] + SkipRemove(rest[2..], topic) == done + SkipRemove(rest, topic);
  }

  /** The whole loop, started on the list `s` itself: it panics exactly when
      `Panics(s, topic)`, and otherwise leaves `SkipRemove(s, topic)` as the
      slice's contents. */
  lemma RunFromStart(s: seq<string>, topic: string)
    ensures Run(s, |s|, 0, topic).None? <==> Panics(s, topic)
    ensures Run(s, |s|, 0, topic).Some? ==>
            Run(s, |s|, 0, topic).value.1 == |SkipRemove(s, topic)| &&
            Run(s, |s|, 0, topic).value.0[..Run(s, |s|, 0, topic).value.1] == SkipRemove(s, topic)
  {
    if s == [] {
    } else {
      assert s == [] + s + Repeat(s[|s| - 1], 0);
      RunWalk(s, [], s, 0, s[|s| - 1], topic);
    }
  }

  /** Occurring twice with the second at the end is the same as `Panics`. */
  lemma PanicsIffRepeatedLast(s: seq<string>, topic: string)
    ensures Panics(s, topic) <==> |s| > 0 && s[|s| - 1] == topic && multiset(s)[topic] >= 2
  {
    if |s| > 0 {
      assert s == s[..|s| - 1] + [s[|s| - 1]];
      assert multiset(s) == multiset(s[..|s| - 1]) + multiset{s[|s| - 1]};
    }
  }

  /** Unsubscribing a topic that is not subscribed changes nothing. */
  lemma {:induction false} SkipRemoveAbsent(s: seq<string>, topic: string)
    requires topic !in s
    ensures !Panics(s, topic)
    ensures SkipRemove(s, topic) == s
  {
    if s != [] {
      SkipRemoveAbsent(s[1..], topic);
    }
  }

  /** With `topic` at index |before| and nowhere else, exactly that entry
      goes and the others keep their relative order. */
  lemma {:induction false} SkipRemoveOnce(before: seq<string>, topic: string, after: seq<string>)
    requires topic !in before && topic !in after
    ensures SkipRemove(before + [topic] + after, topic) == before + after
    decreases |before|
  {
    var s := before + [topic] + after;
    if before == [] {
      assert s == [topic] + after;
      if after != [] {
        assert s[1..] == after;
        SkipRemoveAbsent(after[1..], topic);
      }
    } else {
      assert s[0] == before[0];
      assert s[1..] == before[1..] + [topic] + after;
      SkipRemoveOnce(before[1..], topic, after);
    }
  }

  /** A topic subscribed exactly once: no panic, that one entry is removed,
      the rest keep their order and the length drops by one. */
  lemma UnsubscribeUnique(s: seq<string>, topic: string, j: nat)
    requires j < |s| && s[j] == topic && multiset(s)[topic] == 1
    ensures !Panics(s, topic)
    ensures SkipRemove(s, topic) == s[..j] + s[j + 1..]
    ensures |SkipRemove(s, topic)| == |s| - 1
  {
    assert s == s[..j] + [topic] + s[j + 1..];
    assert multiset(s) == multiset(s[..j]) + multiset{topic} + multiset(s[j + 1..]);
    assert topic !in multiset(s[..j]) && topic !in multiset(s[j + 1..]);
    SkipRemoveOnce(s[..j], topic, s[j + 1..]);
    PanicsIffRepeatedLast(s, topic);
  }

  /** The list with every entry equal to `topic` removed. */
  function RemoveAll(s: seq<string>, topic: string): seq<string>
  {
    if s == [] then []
    else RemoveAll(s[..|s| - 1], topic) + (if s[|s| - 1] != topic then [s[|s| - 1]] else [])
  }

  /** RemoveAll leaves no entry equal to `topic` and keeps every other entry
      as often as before. */
  lemma {:induction false} RemoveAllCount(s: seq<string>, topic: string, x: string)
    ensures topic !in RemoveAll(s, topic)
    ensures x != topic ==> multiset(RemoveAll(s, topic))[x] == multiset(s)[x]
  {
    if s != [] {
      assert s == s[..|s| - 1] + [s[|s| - 1]];
      RemoveAllCount(s[..|s| - 1], topic, x);
    }
  }

  lemma {:induction false} RemoveAllAppend(a: seq<string>, b: seq<string>, topic: string)
    ensures RemoveAll(a + b, topic) == RemoveAll(a, topic) + RemoveAll(b, topic)
  {
    if b == [] {
      assert a + b == a;
    } else {
      assert (a + b)[..|a + b| - 1] == a + b[..|b| - 1];
      RemoveAllAppend(a, b[..|b| - 1], topic);
    }
  }

  lemma {:induction false} RemoveAllAbsent(s: seq<string>, topic: string)
    requires topic !in s
    ensures RemoveAll(s, topic) == s
  {
    if s != [] {
      RemoveAllAbsent(s[..|s| - 1], topic);
      assert s[..|s| - 1] + [s[|s| - 1]] == s;
    }
  }

  lemma RemoveAllSingle(topic: string)
    ensures RemoveAll([topic], topic) == []
  {
    assert [topic][..0] == [];
  }

  lemma RemoveAllOnce(before: seq<string>, topic: string, after: seq<string>)
    requires topic !in before && topic !in after
    ensures RemoveAll(before + [topic] + after, topic) == before + after
  {
    RemoveAllAppend(before, [topic], topic);
    RemoveAllSingle(topic);
    RemoveAllAbsent(before, topic);
    assert RemoveAll(before + [topic], topic) == before;
    RemoveAllAppend(before + [topic], after, topic);
    RemoveAllAbsent(after, topic);
  }

  /** While a topic is subscribed at most once, the code as written and the
      remove-all behaviour agree. */
  lemma AgreesWhenAtMostOnce(s: seq<string>, topic: string)
    requires multiset(s)[topic] <= 1
    ensures !Panics(s, topic)
    ensures SkipRemove(s, topic) == RemoveAll(s, topic)
  {
    if topic !in s {
      SkipRemoveAbsent(s, topic);
      RemoveAllAbsent(s, topic);
    } else {
      var j :| 0 <= j < |s| && s[j] == topic;
      UnsubscribeUnique(s, topic, j);
      assert s == s[..j] + [topic] + s[j + 1..];
      assert multiset(s) == multiset(s[..j]) + multiset{topic} + multiset(s[j + 1..]);
      assert topic !in multiset(s[..j]) && topic !in multiset(s[j + 1..]);
      RemoveAllOnce(s[..j], topic, s[j + 1..]);
    }
  }

  /** Subscribing "t" twice, or three times, then unsubscribing "t" panics;
      with a different last entry one copy of "t" survives. */
  lemma RepeatedTopicCounterexamples()
    ensures Panics(["t", "t"], "t")
    ensures Panics(["t", "t", "t"], "t")
    ensures !Panics(["t", "t", "x"], "t") && SkipRemove(["t", "t", "x"], "t") == ["t", "x"]
    ensures RemoveAll(["t", "t", "x"], "t") == ["x"]
  {
    assert ["t", "t"][..1] == ["t"];
    assert ["t", "t", "t"][..2] == ["t", "t"];
    assert ["t", "t", "x"][2..] == ["x"];
    assert ["x"][1..] == [];
    assert ["t", "t", "x"][..2] == ["t", "t"];
    assert ["t", "t"][..1] == ["t"];
    assert ["t"][..0] == [];
  }
}
